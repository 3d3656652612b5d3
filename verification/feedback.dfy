/** The feedback engine `hint`: both numbers are split into `digit` digits,
    least significant first; `exact` counts positions that agree and `value`
    counts ordered position pairs (i, k), i != k, with secret[i] == guess[k].
    Exact matches are NOT subtracted from `value`, as in the source. */
module Feedback {
  import opened Digits

  datatype Feedback = Feedback(exact: nat, value: nat)

  /** Number of positions i < n at which s and g agree (`firstCount`). */
  function Exact(s: seq<nat>, g: seq<nat>, n: nat): (c: nat)
    requires n <= |s| && n <= |g|
    ensures c <= n
  {
    if n == 0 then 0 else Exact(s, g, n - 1) + (if s[n - 1] == g[n - 1] then 1 else 0)
  }

  /** One test of the inner loop: s[i] == g[k] at two different positions. */
  function Hit(s: seq<nat>, g: seq<nat>, i: nat, k: nat): nat
    requires i < |s| && k < |g|
  {
    if s[i] == g[k] && i != k then 1 else 0
  }

  /** The inner loop for secret position i, over guess positions k < m. */
  function Row(s: seq<nat>, g: seq<nat>, i: nat, m: nat): nat
    requires i < |s| && m <= |g|
  {
    if m == 0 then 0 else Row(s, g, i, m - 1) + Hit(s, g, i, m - 1)
  }

  /** `secondCount`: the outer loop over secret positions i < n, each running
      the inner loop over guess positions k < m. */
  function Value(s: seq<nat>, g: seq<nat>, n: nat, m: nat): nat
    requires n <= |s| && m <= |g|
  {
    if n == 0 then 0 else Value(s, g, n - 1, m) + Row(s, g, n - 1, m)
  }

  /** `hint(randNum, guessNum, digit)`, returning the two counts it prints. */
  function Hint(secret: nat, guess: nat, digit: nat): (f: Feedback)
    ensures f.exact <= digit
  {
    var s := DigitsOf(secret, digit);
    var g := DigitsOf(guess, digit);
    Feedback(Exact(s, g, digit), Value(s, g, digit, digit))
  }

  // ---------------------------------------------------------------------
  // Symmetry: swapping secret and guess leaves both counts unchanged.

  /** The same test run column-wise: secret positions i < n against guess position k. */
  function Col(s: seq<nat>, g: seq<nat>, k: nat, n: nat): nat
    requires k < |g| && n <= |s|
  {
    if n == 0 then 0 else Col(s, g, k, n - 1) + Hit(s, g, n - 1, k)
  }

  function Cols(s: seq<nat>, g: seq<nat>, n: nat, m: nat): nat
    requires n <= |s| && m <= |g|
  {
    if m == 0 then 0 else Cols(s, g, n, m - 1) + Col(s, g, m - 1, n)
  }

  lemma {:induction false} ValueAddColumn(s: seq<nat>, g: seq<nat>, n: nat, m: nat)
    requires n <= |s| && m < |g|
    ensures Value(s, g, n, m + 1) == Value(s, g, n, m) + Col(s, g, m, n)
  {
    if n > 0 {
      ValueAddColumn(s, g, n - 1, m);
    }
  }

  /** Summing the pair tests row by row or column by column gives the same total. */
  lemma {:induction false} ValueIsCols(s: seq<nat>, g: seq<nat>, n: nat, m: nat)
    requires n <= |s| && m <= |g|
    ensures Value(s, g, n, m) == Cols(s, g, n, m)
  {
    if m > 0 {
      ValueIsCols(s, g, n, m - 1);
      ValueAddColumn(s, g, n, m - 1);
    } else {
      ValueNoColumns(s, g, n);
    }
  }

  lemma {:induction false} ValueNoColumns(s: seq<nat>, g: seq<nat>, n: nat)
    requires n <= |s|
    ensures Value(s, g, n, 0) == 0
  {
    if n > 0 {
      ValueNoColumns(s, g, n - 1);
    }
  }

  lemma {:induction false} ColIsSwappedRow(s: seq<nat>, g: seq<nat>, k: nat, n: nat)
    requires k < |g| && n <= |s|
    ensures Col(s, g, k, n) == Row(g, s, k, n)
  {
    if n > 0 {
      ColIsSwappedRow(s, g, k, n - 1);
    }
  }

  lemma {:induction false} ColsIsSwappedValue(s: seq<nat>, g: seq<nat>, n: nat, m: nat)
    requires n <= |s| && m <= |g|
    ensures Cols(s, g, n, m) == Value(g, s, m, n)
  {
    if m > 0 {
      ColsIsSwappedValue(s, g, n, m - 1);
      ColIsSwappedRow(s, g, m - 1, n);
    }
  }

  lemma {:induction false} ExactSymmetric(s: seq<nat>, g: seq<nat>, n: nat)
    requires n <= |s| && n <= |g|
    ensures Exact(s, g, n) == Exact(g, s, n)
  {
    if n > 0 {
      ExactSymmetric(s, g, n - 1);
    }
  }

  /** Both counts are unchanged when secret and guess trade places. */
  lemma HintSymmetric(secret: nat, guess: nat, digit: nat)
    ensures Hint(secret, guess, digit) == Hint(guess, secret, digit)
  {
    var s := DigitsOf(secret, digit);
    var g := DigitsOf(guess, digit);
    ValueIsCols(s, g, digit, digit);
    ColsIsSwappedValue(s, g, digit, digit);
    ExactSymmetric(s, g, digit);
  }

  // ---------------------------------------------------------------------
  // A secret compared with itself.

  lemma {:induction false} ExactSelf(s: seq<nat>, n: nat)
    requires n <= |s|
    ensures Exact(s, s, n) == n
  {
    if n > 0 {
      ExactSelf(s, n - 1);
    }
  }

  lemma {:induction false} RowSelf(s: seq<nat>, i: nat, m: nat)
    requires Distinct(s) && i < |s| && m <= |s|
    ensures Row(s, s, i, m) == 0
  {
    if m > 0 {
      RowSelf(s, i, m - 1);
      assert i != m - 1 ==> s[i] != s[m - 1];
    }
  }

  lemma {:induction false} ValueSelf(s: seq<nat>, n: nat, m: nat)
    requires Distinct(s) && n <= |s| && m <= |s|
    ensures Value(s, s, n, m) == 0
  {
    if n > 0 {
      ValueSelf(s, n - 1, m);
      RowSelf(s, n - 1, m);
    }
  }

  /** A number with distinct digits scores every place exact and no value match
      against itself. */
  lemma HintSelf(secret: nat, digit: nat)
    requires IsUnique(secret, digit)
    ensures Hint(secret, secret, digit) == Feedback(digit, 0)
  {
    var s := DigitsOf(secret, digit);
    ExactSelf(s, digit);
    ValueSelf(s, digit, digit);
  }

  // ---------------------------------------------------------------------
  // exact + value <= digit when one side has distinct digits.

  /** Number of positions k < m with g[k] == x. */
  function Occ(x: nat, g: seq<nat>, m: nat): nat
    requires m <= |g|
  {
    if m == 0 then 0 else Occ(x, g, m - 1) + (if g[m - 1] == x then 1 else 0)
  }

  lemma {:induction false} OccAbsent(x: nat, g: seq<nat>, m: nat)
    requires m <= |g| && forall k :: 0 <= k < m ==> g[k] != x
    ensures Occ(x, g, m) == 0
  {
    if m > 0 {
      OccAbsent(x, g, m - 1);
    }
  }

  /** In a sequence of distinct digits every value occurs at most once. */
  lemma {:induction false} OccAtMostOne(x: nat, g: seq<nat>, m: nat)
    requires Distinct(g) && m <= |g|
    ensures Occ(x, g, m) <= 1
  {
    if m > 0 {
      OccAtMostOne(x, g, m - 1);
      if g[m - 1] == x {
        OccAbsent(x, g, m - 1);
      }
    }
  }

  /** The inner loop plus the exact test at the same position counts every
      occurrence of s[i] among the first m guess digits. */
  lemma {:induction false} RowPlusExact(s: seq<nat>, g: seq<nat>, i: nat, m: nat)
    requires i < |s| && i < |g| && m <= |g|
    ensures Row(s, g, i, m) + (if i < m && s[i] == g[i] then 1 else 0) == Occ(s[i], g, m)
  {
    if m > 0 {
      RowPlusExact(s, g, i, m - 1);
    }
  }

  /** Sum over secret positions i < n of the occurrences of s[i] in g. */
  function Matches(s: seq<nat>, g: seq<nat>, n: nat): nat
    requires n <= |s|
  {
    if n == 0 then 0 else Matches(s, g, n - 1) + Occ(s[n - 1], g, |g|)
  }

  /** Without the subtraction, exact + value is the number of all (i, k) with s[i] == g[k]. */
  lemma {:induction false} ExactPlusValue(s: seq<nat>, g: seq<nat>, n: nat)
    requires n <= |s| && n <= |g|
    ensures Exact(s, g, n) + Value(s, g, n, |g|) == Matches(s, g, n)
  {
    if n > 0 {
      ExactPlusValue(s, g, n - 1);
      RowPlusExact(s, g, n - 1, |g|);
    }
  }

  lemma {:induction false} MatchesBound(s: seq<nat>, g: seq<nat>, n: nat)
    requires Distinct(g) && n <= |s|
    ensures Matches(s, g, n) <= n
  {
    if n > 0 {
      MatchesBound(s, g, n - 1);
      OccAtMostOne(s[n - 1], g, |g|);
    }
  }

  /** When the guess or the secret has distinct digits, the two counts together
      never exceed the digit count. */
  lemma HintBound(secret: nat, guess: nat, digit: nat)
    requires IsUnique(secret, digit) || IsUnique(guess, digit)
    ensures Hint(secret, guess, digit).exact + Hint(secret, guess, digit).value <= digit
  {
    if IsUnique(guess, digit) {
      GuessDistinctBound(secret, guess, digit);
    } else {
      GuessDistinctBound(guess, secret, digit);
      HintSymmetric(secret, guess, digit);
    }
  }

  lemma GuessDistinctBound(secret: nat, guess: nat, digit: nat)
    requires IsUnique(guess, digit)
    ensures Hint(secret, guess, digit).exact + Hint(secret, guess, digit).value <= digit
  {
    var s := DigitsOf(secret, digit);
    var g := DigitsOf(guess, digit);
    ExactPlusValue(s, g, digit);
    MatchesBound(s, g, digit);
  }

  /** The worked example: secret 1234 against guess 1243 over four digits
      gives two exact matches ('1', '2') and two value matches ('3', '4'). */
  lemma HintExample()
    ensures Hint(1234, 1243, 4) == Feedback(2, 2)
  {
    var s := DigitsOf(1234, 4);
    var g := DigitsOf(1243, 4);
    assert s == [4, 3, 2, 1];
    assert g == [3, 4, 2, 1];
    assert Exact(s, g, 4) == 2;
    assert Row(s, g, 0, 4) == 1;
    assert Row(s, g, 1, 4) == 1;
    assert Row(s, g, 2, 4) == 0;
    assert Row(s, g, 3, 4) == 0;
  }

  // ---------------------------------------------------------------------
  // The nested loops of `hint`.

  method HintScan(secret: nat, guess: nat, digit: nat) returns (firstCount: nat, secondCount: nat)
    ensures Feedback(firstCount, secondCount) == Hint(secret, guess, digit)
  {
    var randArr := FillDigits(secret, digit);
    var guessArr := FillDigits(guess, digit);
    firstCount, secondCount := 0, 0;
    var i := 0;
    while i < digit
      invariant 0 <= i <= digit
      invariant firstCount == Exact(randArr, guessArr, i)
      invariant secondCount == Value(randArr, guessArr, i, digit)
    {
      if randArr[i] == guessArr[i] {
        firstCount := firstCount + 1;
      }
      var k := 0;
      while k < digit
        invariant 0 <= k <= digit
        invariant secondCount == Value(randArr, guessArr, i, digit) + Row(randArr, guessArr, i, k)
      {
        if randArr[i] == guessArr[k] && i != k {
          secondCount := secondCount + 1;
        }
        k := k + 1;
      }
      i := i + 1;
    }
  }
}
