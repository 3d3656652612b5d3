/** Decimal digit arithmetic of the game: powers of ten, the digit count of a
    number (`digitOfNum`), the least-significant-first digit decomposition used
    by `isUnique` and `hint`, and the distinct-digits check itself. */
module Digits {

  /** 10^d as an exact integer; the source's floating-point `pow(10, d)` is
      exact for the exponents it is used with (d <= 9). */
  function Pow10(d: nat): (p: nat)
    ensures p >= 1
  {
    if d == 0 then 1 else 10 * Pow10(d - 1)
  }

  lemma {:induction false} Pow10Increasing(a: nat, b: nat)
    requires a < b
    ensures Pow10(a) < Pow10(b)
  {
    if a + 1 < b {
      Pow10Increasing(a, b - 1);
    }
  }

  /** Powers of ten are ordered exactly as their exponents. */
  lemma Pow10Order(a: nat, b: nat)
    ensures a < b <==> Pow10(a) < Pow10(b)
  {
    if a < b {
      Pow10Increasing(a, b);
    } else if b < a {
      Pow10Increasing(b, a);
    }
  }

  /** `digitOfNum`: divide by ten until zero, counting the divisions. */
  function DigitOfNum(n: nat): (c: nat)
    ensures c == 0 <==> n == 0
    ensures n > 0 ==> Pow10(c - 1) <= n < Pow10(c)
  {
    if n == 0 then 0 else 1 + DigitOfNum(n / 10)
  }

  /** The digit count is the one and only c with 10^(c-1) <= n < 10^c. */
  lemma DigitOfNumIsUnique(n: nat, c: nat)
    requires 1 <= c && Pow10(c - 1) <= n < Pow10(c)
    ensures DigitOfNum(n) == c
  {
    var k := DigitOfNum(n);
    Pow10Order(k - 1, c);
    Pow10Order(c - 1, k);
  }

  /** The `digit` lowest decimal digits of n, least significant first, as
      `isUnique` and `hint` fill their arrays. */
  function DigitsOf(n: nat, digit: nat): (ds: seq<nat>)
    ensures |ds| == digit
    ensures forall i :: 0 <= i < |ds| ==> ds[i] < 10
  {
    if digit == 0 then [] else [n % 10] + DigitsOf(n / 10, digit - 1)
  }

  lemma DivTen(n: nat, p: nat)
    requires p >= 1
    ensures n / 10 / p == n / (10 * p)
  {
    var q := n / (10 * p);
    var r := n % (10 * p);
    assert n == 10 * p * q + r && 0 <= r < 10 * p;
    assert n / 10 == p * q + r / 10;
    assert 0 <= r / 10 < p;
    DivUnique(n / 10, p, q, r / 10);
  }

  lemma {:induction false} MulMonotone(p: nat, a: nat, b: nat)
    ensures a <= b ==> p * a <= p * b
  {
    if a < b {
      MulMonotone(p, a, b - 1);
      assert p * b == p * (b - 1) + p;
    }
  }

  /** Division by p is determined by any quotient/remainder decomposition. */
  lemma DivUnique(x: nat, p: nat, q: nat, t: nat)
    requires p >= 1 && x == p * q + t && t < p
    ensures x / p == q
  {
    var q' := x / p;
    assert x == p * q' + x % p && x % p < p;
    assert p * (q' + 1) == p * q' + p;
    assert p * (q + 1) == p * q + p;
    MulMonotone(p, q' + 1, q);
    MulMonotone(p, q + 1, q');
  }

  /** Entry i of the decomposition is the i-th decimal digit of n. */
  lemma {:induction false} DigitsOfPositional(n: nat, digit: nat, i: nat)
    requires i < digit
    ensures DigitsOf(n, digit)[i] == n / Pow10(i) % 10
  {
    if i > 0 {
      DigitsOfPositional(n / 10, digit - 1, i - 1);
      DivTen(n, Pow10(i - 1));
    }
  }

  /** No two positions hold the same digit. */
  predicate Distinct(ds: seq<nat>)
  {
    forall i, j :: 0 <= i < j < |ds| ==> ds[i] != ds[j]
  }

  /** `isUnique(num, digit)`: the `digit` lowest digits of num are pairwise distinct. */
  predicate IsUnique(num: nat, digit: nat)
  {
    Distinct(DigitsOf(num, digit))
  }

  /** `isUnique` compares the decimal digits of num at positions 0 .. digit-1. */
  lemma IsUniquePositional(num: nat, digit: nat)
    ensures IsUnique(num, digit) <==>
      forall i, j :: 0 <= i < j < digit ==> num / Pow10(i) % 10 != num / Pow10(j) % 10
  {
    var ds := DigitsOf(num, digit);
    forall k | 0 <= k < digit
      ensures ds[k] == num / Pow10(k) % 10
    {
      DigitsOfPositional(num, digit, k);
    }
    if IsUnique(num, digit) {
      forall i, j | 0 <= i < j < digit
        ensures num / Pow10(i) % 10 != num / Pow10(j) % 10
      {
        assert ds[i] != ds[j];
      }
    } else {
      var i, j :| 0 <= i < j < digit && ds[i] == ds[j];
      assert num / Pow10(i) % 10 == num / Pow10(j) % 10;
    }
  }

  /** The array-filling loop shared by `isUnique` and `hint`: repeatedly take
      `num % 10` and divide by ten. */
  method FillDigits(num: nat, digit: nat) returns (arr: seq<nat>)
    ensures arr == DigitsOf(num, digit)
  {
    arr := [];
    var rest := num;
    var i := 0;
    while i < digit
      invariant 0 <= i <= digit
      invariant arr + DigitsOf(rest, digit - i) == DigitsOf(num, digit)
    {
      assert DigitsOf(rest, digit - i) == [rest % 10] + DigitsOf(rest / 10, digit - i - 1);
      arr := arr + [rest % 10];
      rest := rest / 10;
      i := i + 1;
    }
  }

  /** The two loops of `isUnique`: fill the digit array, then compare every
      entry with every later one, returning false on the first repeat. */
  method IsUniqueScan(num: nat, digit: nat) returns (unique: bool)
    ensures unique == IsUnique(num, digit)
  {
    var arr := FillDigits(num, digit);
    var i := 0;
    while i < digit
      invariant 0 <= i <= digit
      invariant forall a, b :: 0 <= a < i && a < b < digit ==> arr[a] != arr[b]
    {
      var k := i + 1;
      while k < digit
        invariant i + 1 <= k <= digit
        invariant forall b :: i < b < k ==> arr[i] != arr[b]
      {
        if arr[i] == arr[k] {
          return false;
        }
        k := k + 1;
      }
      i := i + 1;
    }
    return true;
  }
}
