/** The guess loop `guess` and the top-level flow of `main`. Standard input is
    a finite sequence of reads; reaching its end makes `cin` fail and
    `getchar()` return EOF, which the loop reports as E2. */
module Game {
  import opened Wrappers
  import opened Digits
  import opened Text
  import opened Feedback
  import opened Validation
  import opened Secret

  /** One read of the loop, `cin >> guessNum` followed by `getchar()`:
      `Malformed` when the character after the token is neither a digit nor a
      newline (a failed read included), `Num(n)` for a token read as n. */
  datatype Event = Malformed | Num(n: int)

  /** FOUND after `steps` guesses (exit 0), FAILED at the guess limit, or a
      fatal error code (all three exit 1). */
  datatype End = Found(steps: nat) | Failed | Fatal(code: ErrorCode)

  /** What a session shows: the hints printed, in order, and how it ends. */
  datatype Session = Session(hints: seq<Feedback>, end: End)

  /** The attempt counter that ends the session with FAILED. */
  const MaxGuesses: nat := 100

  /** The do-while loop of `guess`, entered with `count` guesses already made:
      E2 check, `error1`, hint for a non-winning guess, count++, the limit
      test, and only then the loop condition. */
  function Loop(secret: nat, digit: nat, input: seq<Event>, count: nat): (r: Session)
    requires count < MaxGuesses
    ensures r.end.Found? ==> count < r.end.steps < MaxGuesses
    ensures |r.hints| <= MaxGuesses - count
    decreases |input|
  {
    if |input| == 0 then Session([], Fatal(E2))
    else
      match input[0]
      case Malformed => Session([], Fatal(E2))
      case Num(guessNum) =>
        if guessNum < 0 then Session([], Fatal(E2))
        else if !Error1(digit, guessNum) then Session([], Fatal(E1))
        else
          var shown := if guessNum != secret then [Hint(secret, guessNum, digit)] else [];
          var count' := count + 1;
          if count' == MaxGuesses then Session(shown, Failed)
          else if guessNum == secret then Session(shown, Found(count'))
          else
            var rest := Loop(secret, digit, input[1..], count');
            Session(shown + rest.hints, rest.end)
  }

  /** `guess(randNum, digit)`: the loop from a zero counter. */
  function Guess(secret: nat, digit: nat, input: seq<Event>): Session
  {
    Loop(secret, digit, input, 0)
  }

  // ---------------------------------------------------------------------
  // The same session described by position instead of by iteration.

  /** How one read is classified: rejected with a code, the winning guess, or
      an accepted guess that misses, with the hint it prints. */
  datatype Verdict = Reject(code: ErrorCode) | Win | Miss(hint: Feedback)

  /** The malformed/negative test comes before the shape test, so E2 wins
      over E1 whenever both would apply. */
  function Judge(secret: nat, digit: nat, e: Event): (v: Verdict)
    ensures v == Reject(E2) <==> e.Malformed? || e.n < 0
    ensures v == Reject(E1) <==> e.Num? && e.n >= 0 && !Error1(digit, e.n)
    ensures v == Win <==> e.Num? && e.n >= 0 && Error1(digit, e.n) && e.n == secret
    ensures v.Miss? <==> e.Num? && e.n >= 0 && Error1(digit, e.n) && e.n != secret
    ensures v.Miss? ==> v.hint == Hint(secret, e.n, digit)
  {
    match e
    case Malformed => Reject(E2)
    case Num(n) =>
      if n < 0 then Reject(E2)
      else if !Error1(digit, n) then Reject(E1)
      else if n == secret then Win
      else Miss(Hint(secret, n, digit))
  }

  /** The verdict of every read, in order. */
  function Verdicts(secret: nat, digit: nat, input: seq<Event>): (vs: seq<Verdict>)
    ensures |vs| == |input|
  {
    if |input| == 0 then [] else [Judge(secret, digit, input[0])] + Verdicts(secret, digit, input[1..])
  }

  lemma {:induction false} VerdictsAt(secret: nat, digit: nat, input: seq<Event>, i: nat)
    requires i < |input|
    ensures Verdicts(secret, digit, input)[i] == Judge(secret, digit, input[i])
  {
    if i > 0 {
      assert input[1..][i - 1] == input[i];
      VerdictsAt(secret, digit, input[1..], i - 1);
    }
  }

  lemma VerdictsAll(secret: nat, digit: nat, input: seq<Event>)
    ensures forall i :: 0 <= i < |input| ==> Verdicts(secret, digit, input)[i] == Judge(secret, digit, input[i])
  {
    forall i | 0 <= i < |input|
      ensures Verdicts(secret, digit, input)[i] == Judge(secret, digit, input[i])
    {
      VerdictsAt(secret, digit, input, i);
    }
  }

  /** Index of the first verdict that is not a miss (|vs| if none). */
  function FirstStop(vs: seq<Verdict>): (j: nat)
    ensures j <= |vs|
    ensures forall i :: 0 <= i < j ==> vs[i].Miss?
    ensures j < |vs| ==> !vs[j].Miss?
  {
    if |vs| == 0 || !vs[0].Miss? then 0 else 1 + FirstStop(vs[1..])
  }

  /** Every verdict is a miss. */
  predicate AllMiss(vs: seq<Verdict>)
  {
    forall i :: 0 <= i < |vs| ==> vs[i].Miss?
  }

  /** The hints printed for a run of missing guesses, one per guess. */
  function Shown(misses: seq<Verdict>): (hs: seq<Feedback>)
    requires AllMiss(misses)
    ensures |hs| == |misses|
    ensures forall i :: 0 <= i < |misses| ==> hs[i] == misses[i].hint
  {
    if |misses| == 0 then [] else [misses[0].hint] + Shown(misses[1..])
  }

  /** The read that decides the session: the first read that is not a missing
      guess, or the read that brings the counter to 100, whichever is earlier. */
  function StopIndex(vs: seq<Verdict>, count: nat): (stop: nat)
    requires count < MaxGuesses
    ensures stop <= |vs| && count + stop < MaxGuesses
    ensures AllMiss(vs[..stop])
    ensures stop < |vs| && count + stop + 1 < MaxGuesses ==> !vs[stop].Miss?
  {
    var j := FirstStop(vs);
    var k := if j < MaxGuesses - 1 - count then j else MaxGuesses - 1 - count;
    assert forall i :: 0 <= i < k ==> vs[..k][i] == vs[i];
    k
  }

  /** The verdict after the run of misses, `None` at the end of input. */
  function NextRead(vs: seq<Verdict>, stop: nat): Option<Verdict>
    requires stop <= |vs|
  {
    if stop == |vs| then None else Some(vs[stop])
  }

  /** How the deciding read ends the session, `counter` being the counter after
      it: the end of input is E2, a rejected read its code, a win FOUND unless
      the counter reached 100, and a miss can only decide at the limit. */
  function Closing(next: Option<Verdict>, counter: nat): Session
  {
    match next
    case None => Session([], Fatal(E2))
    case Some(Reject(code)) => Session([], Fatal(code))
    case Some(Win) => Session([], if counter == MaxGuesses then Failed else Found(counter))
    case Some(Miss(hint)) => Session([hint], Failed)
  }

  /** The session decided at read `stop`, every earlier read being a miss. */
  function DecideAt(vs: seq<Verdict>, count: nat, stop: nat): Session
    requires stop <= |vs| && count + stop < MaxGuesses
    requires AllMiss(vs[..stop])
  {
    var last := Closing(NextRead(vs, stop), count + stop + 1);
    Session(Shown(vs[..stop]) + last.hints, last.end)
  }

  /** The session by position rather than by iteration. */
  function Decided(vs: seq<Verdict>, count: nat): Session
    requires count < MaxGuesses
  {
    DecideAt(vs, count, StopIndex(vs, count))
  }

  lemma StopIndexAfterMiss(vs: seq<Verdict>, count: nat)
    requires count + 1 < MaxGuesses
    requires |vs| > 0 && vs[0].Miss?
    ensures StopIndex(vs, count) == StopIndex(vs[1..], count + 1) + 1
  {
    assert FirstStop(vs) == FirstStop(vs[1..]) + 1;
  }

  lemma DecideAtAfterMiss(vs: seq<Verdict>, count: nat, stop: nat)
    requires 1 <= stop <= |vs| && count + stop < MaxGuesses
    requires AllMiss(vs[..stop])
    ensures AllMiss(vs[1..][..stop - 1])
    ensures var rest := DecideAt(vs[1..], count + 1, stop - 1);
      DecideAt(vs, count, stop) == Session([vs[0].hint] + rest.hints, rest.end)
  {
    assert vs[..stop][1..] == vs[1..][..stop - 1];
    assert vs[..stop][0] == vs[0];
    assert NextRead(vs, stop) == NextRead(vs[1..], stop - 1);
    var last := Closing(NextRead(vs, stop), count + stop + 1);
    var tail := Shown(vs[1..][..stop - 1]);
    assert [vs[0].hint] + tail + last.hints == [vs[0].hint] + (tail + last.hints);
  }

  /** When the first read decides the session, the positional description
      stops at it. */
  lemma DecidedAtOnce(vs: seq<Verdict>, count: nat)
    requires count < MaxGuesses
    requires |vs| == 0 || !vs[0].Miss? || count + 1 == MaxGuesses
    ensures StopIndex(vs, count) == 0
    ensures Decided(vs, count) == Closing(if |vs| == 0 then None else Some(vs[0]), count + 1)
  {
    assert vs[..0] == [];
  }

  /** The loop and the positional description of its verdicts agree on every
      input. */
  lemma {:induction false} LoopIsDecided(secret: nat, digit: nat, input: seq<Event>, count: nat)
    requires count < MaxGuesses
    ensures Loop(secret, digit, input, count) == Decided(Verdicts(secret, digit, input), count)
    decreases |input|
  {
    var vs := Verdicts(secret, digit, input);
    if |input| > 0 {
      assert vs[0] == Judge(secret, digit, input[0]);
      assert vs[1..] == Verdicts(secret, digit, input[1..]);
    }
    if |input| > 0 && vs[0].Miss? && count + 1 < MaxGuesses {
      LoopIsDecided(secret, digit, input[1..], count + 1);
      StopIndexAfterMiss(vs, count);
      DecideAtAfterMiss(vs, count, StopIndex(vs, count));
    } else {
      DecidedAtOnce(vs, count);
    }
  }

  // ---------------------------------------------------------------------
  // Consequences for a whole session.

  /** FOUND is reported after k guesses exactly when the first k - 1 reads are
      missing guesses, the k-th is the secret, and k <= 99; one hint is printed
      per missing guess and none for the winning one. */
  lemma GuessFound(secret: nat, digit: nat, input: seq<Event>, k: nat)
    ensures Guess(secret, digit, input).end == Found(k) <==>
      && 1 <= k < MaxGuesses
      && k <= |input|
      && (forall i :: 0 <= i < k - 1 ==> Judge(secret, digit, input[i]).Miss?)
      && Judge(secret, digit, input[k - 1]) == Win
    ensures Guess(secret, digit, input).end == Found(k) ==>
      input[k - 1] == Num(secret) && |Guess(secret, digit, input).hints| == k - 1
  {
    LoopIsDecided(secret, digit, input, 0);
    VerdictsAll(secret, digit, input);
  }

  /** FAILED comes exactly when the first 99 reads are missing guesses and the
      100th read is an accepted guess of either kind. */
  lemma GuessFailed(secret: nat, digit: nat, input: seq<Event>)
    ensures Guess(secret, digit, input).end == Failed <==>
      && |input| >= MaxGuesses
      && (forall i :: 0 <= i < MaxGuesses - 1 ==> Judge(secret, digit, input[i]).Miss?)
      && (Judge(secret, digit, input[MaxGuesses - 1]) == Win || Judge(secret, digit, input[MaxGuesses - 1]).Miss?)
  {
    LoopIsDecided(secret, digit, input, 0);
    VerdictsAll(secret, digit, input);
  }

  /** The quirk of the limit test: a 100th guess equal to the secret still
      ends in FAILED, after 99 hints. */
  lemma HundredthGuessFails(secret: nat, digit: nat, input: seq<Event>)
    requires |input| >= MaxGuesses
    requires forall i :: 0 <= i < MaxGuesses - 1 ==> Judge(secret, digit, input[i]).Miss?
    requires input[MaxGuesses - 1] == Num(secret) && Error1(digit, secret)
    ensures Guess(secret, digit, input).end == Failed
    ensures |Guess(secret, digit, input).hints| == MaxGuesses - 1
  {
    LoopIsDecided(secret, digit, input, 0);
    VerdictsAll(secret, digit, input);
    assert FirstStop(Verdicts(secret, digit, input)) == MaxGuesses - 1;
  }

  /** A session ends with a fatal code exactly when a rejected read (or the
      end of input, as E2) comes before any win and within the first 100 reads. */
  lemma GuessFatal(secret: nat, digit: nat, input: seq<Event>, code: ErrorCode)
    ensures Guess(secret, digit, input).end == Fatal(code) <==>
      var j := FirstStop(Verdicts(secret, digit, input));
      && j < MaxGuesses
      && (j == |input| ==> code == E2)
      && (j < |input| ==> Judge(secret, digit, input[j]) == Reject(code))
  {
    LoopIsDecided(secret, digit, input, 0);
    VerdictsAll(secret, digit, input);
  }

  /** Hints of the session decided at `stop`: one per read before it, plus
      one for the deciding read when it is a miss. */
  lemma DecideAtHints(vs: seq<Verdict>, count: nat, stop: nat)
    requires stop <= |vs| && count + stop < MaxGuesses
    requires AllMiss(vs[..stop])
    ensures var hs := DecideAt(vs, count, stop).hints;
      && |hs| <= stop + 1
      && forall i :: 0 <= i < |hs| ==> i < |vs| && vs[i].Miss? && hs[i] == vs[i].hint
  {
    assert forall i :: 0 <= i < stop ==> vs[..stop][i] == vs[i];
  }

  /** Every printed hint belongs to a read, in order, that was an accepted
      guess different from the secret. */
  lemma GuessHints(secret: nat, digit: nat, input: seq<Event>)
    ensures |Guess(secret, digit, input).hints| <= MaxGuesses
    ensures forall i :: 0 <= i < |Guess(secret, digit, input).hints| ==>
      && i < |input|
      && input[i].Num? && input[i].n >= 0 && input[i].n != secret && Error1(digit, input[i].n)
      && Guess(secret, digit, input).hints[i] == Hint(secret, input[i].n, digit)
  {
    var vs := Verdicts(secret, digit, input);
    LoopIsDecided(secret, digit, input, 0);
    DecideAtHints(vs, 0, StopIndex(vs, 0));
    VerdictsAll(secret, digit, input);
  }

  /** Sample sessions against the secret 1234: an immediate win, a short
      guess (E1), a negative guess and a malformed token (both E2). */
  lemma GuessExamples()
    ensures Guess(1234, 4, [Num(1234)]) == Session([], Found(1))
    ensures Guess(1234, 4, [Num(12)]) == Session([], Fatal(E1))
    ensures Guess(1234, 4, [Num(-5)]) == Session([], Fatal(E2))
    ensures Guess(1234, 4, [Malformed]) == Session([], Fatal(E2))
  {
    assert Pow10(3) == 1000 && Pow10(4) == 10000;
    DigitOfNumIsUnique(1234, 4);
    assert DigitsOf(1234, 4) == [4, 3, 2, 1];
    assert DigitOfNum(12) == 2;
  }

  // ---------------------------------------------------------------------
  // main

  /** `main` after the banner: `error0`, then either the rejection loop over
      `draws` (`-r`) or the command-line secret (`-u`), then `guess`. `None`
      means the supply of draws ran out before a secret was found. */
  method Run(argv: seq<string>, draws: seq<nat>, input: seq<Event>) returns (result: Option<Session>)
    requires Error0Defined(argv)
    ensures !Error0(argv) ==> result == Some(Session([], Fatal(E0)))
    ensures Error0(argv) && argv[1] == "-u" ==>
      exists secret: nat :: ValidSecret(secret) && ToDecimal(secret) == argv[2] && result == Some(Guess(secret, |argv[2]|, input))
    ensures Error0(argv) && argv[1] == "-r" ==> 1 <= StrToInt(argv[2]) <= 9
    ensures Error0(argv) && argv[1] == "-r" ==>
      var d := StrToInt(argv[2]);
      && (result.None? <==> forall j :: 0 <= j < |draws| ==> !IsUnique(RandomNum(d, draws[j]), d))
      && (result.Some? ==>
        exists u :: 0 <= u < |draws|
          && IsUnique(RandomNum(d, draws[u]), d)
          && (forall j :: 0 <= j < u ==> !IsUnique(RandomNum(d, draws[j]), d))
          && result == Some(Guess(RandomNum(d, draws[u]), d, input)))
  {
    var config := Setup(argv);
    if config.Failure? {
      return Some(Session([], Fatal(config.error)));
    }
    match config.value
    case RandomDigits(digit) =>
      var randNum, _ := GenerateSecret(digit, draws);
      if randNum.None? {
        return None;
      }
      result := Some(Guess(randNum.value, digit, input));
    case FixedSecret(originalNum, digit) =>
      result := Some(Guess(originalNum, digit, input));
  }
}
