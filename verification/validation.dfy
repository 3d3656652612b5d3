/** The two validators: `error0`, the start-up check of the command line
    (`-r <D>` or `-u <secret>`), and `error1`, the shape check of each guess;
    plus the part of `main` that turns an accepted command line into a game
    configuration. A fatal error becomes a returned `ErrorCode`. */
module Validation {
  import opened Wrappers
  import opened Digits
  import opened Text

  /** The codes printed before `exit(1)`: E0 command line, E1 guess shape,
      E2 malformed or negative guess token. */
  datatype ErrorCode = E0 | E1 | E2

  /** What a session plays with: a secret still to be drawn with `digit`
      digits (`-r`), or the secret given on the command line (`-u`). */
  datatype Config = RandomDigits(digit: nat) | FixedSecret(secret: nat, digit: nat)

  /** A legal secret: 1 to 9 digits, all distinct. */
  predicate ValidSecret(n: nat)
  {
    1 <= DigitOfNum(n) <= 9 && IsUnique(n, DigitOfNum(n))
  }

  /** Inputs on which `main` and `error0` have defined behaviour: argv[1] and
      argv[2] exist (they are read before argc is checked); `strToInt` of the
      companion does not overflow where it is evaluated; and a `-u` companion
      is not empty where `arg2.at(0)` is evaluated (it would throw). argv holds
      the program name at index 0, so argc is |argv|. */
  predicate Error0Defined(argv: seq<string>)
  {
    && |argv| >= 3
    && ((argv[1] == "-r" || argv[1] == "-u") && |argv| == 3 ==> NoOverflow(argv[2]))
    && (argv[1] == "-u" && |argv| == 3 ==> argv[2] != "")
  }

  /** `error0`: true when the program continues, false when it prints E0 and exits. */
  function Error0(argv: seq<string>): bool
    requires Error0Defined(argv)
  {
    var arg1, arg2 := argv[1], argv[2];
    if !(arg1 == "-r" || arg1 == "-u") then false
    else if |argv| != 3 then false
    else if arg1 == "-r" then
      var num := StrToInt(arg2);
      if !IsString(arg2) then false
      else !(num <= 0 || num > 9)
    else
      if !IsString(arg2) then false
      else if arg2[0] == '0' then false
      else if |arg2| > 9 then false
      else
        var num := StrToInt(arg2);
        IsUnique(num, DigitOfNum(num))
  }

  lemma {:induction false} ZeroValueIsZeros(t: string)
    requires IsString(t) && StrToInt(t) == 0
    ensures forall i :: 0 <= i < |t| ==> t[i] == '0'
  {
    if |t| > 0 {
      var init := t[..|t| - 1];
      assert IsString(init);
      ZeroValueIsZeros(init);
      assert forall i :: 0 <= i < |t| - 1 ==> t[i] == init[i];
    }
  }

  lemma {:induction false} ZerosValue(t: string)
    requires forall i :: 0 <= i < |t| ==> t[i] == '0'
    ensures StrToInt(t) == 0
  {
    if |t| > 0 {
      ZerosValue(t[..|t| - 1]);
    }
  }

  /** `-r` accepts exactly a single digit 1..9, possibly after leading zeros. */
  lemma Error0RandomIff(argv: seq<string>)
    requires Error0Defined(argv) && argv[1] == "-r"
    ensures Error0(argv) <==>
      && |argv| == 3
      && |argv[2]| >= 1
      && (forall i :: 0 <= i < |argv[2]| - 1 ==> argv[2][i] == '0')
      && '1' <= argv[2][|argv[2]| - 1] <= '9'
  {
    if |argv| == 3 && |argv[2]| >= 1 {
      var s := argv[2];
      var init := s[..|s| - 1];
      if (forall i :: 0 <= i < |s| - 1 ==> s[i] == '0') && '1' <= s[|s| - 1] <= '9' {
        ZerosValue(init);
        assert IsString(s) by {
          forall i | 0 <= i < |s| ensures IsDigitChar(s[i]) {
            if i < |s| - 1 { assert s[i] == '0'; }
          }
        }
      }
      if Error0(argv) {
        assert IsString(init);
        assert StrToInt(init) == 0;
        ZeroValueIsZeros(init);
        assert forall i :: 0 <= i < |s| - 1 ==> s[i] == init[i];
      }
    }
  }

  /** `-u` accepts exactly the canonical spellings of legal secrets. */
  lemma Error0FixedIff(argv: seq<string>)
    requires Error0Defined(argv) && argv[1] == "-u"
    ensures Error0(argv) <==> |argv| == 3 && exists n: nat :: ValidSecret(n) && ToDecimal(n) == argv[2]
  {
    if |argv| == 3 {
      var s := argv[2];
      if Error0(argv) {
        var n := StrToInt(s);
        ToDecimalOfStrToInt(s);
        DigitOfNumOfStrToInt(s);
        assert ValidSecret(n) && ToDecimal(n) == s;
      }
      if exists n: nat :: ValidSecret(n) && ToDecimal(n) == s {
        var n: nat :| ValidSecret(n) && ToDecimal(n) == s;
        StrToIntOfToDecimal(n);
        ToDecimalLength(n);
        assert Error0(argv);
      }
    }
  }

  /** Sample command lines rejected with E0: a zero or two-digit count, a
      leading zero, a repeated digit, an unknown flag, an extra argument. */
  lemma Error0Rejects()
    ensures Error0Defined(["mastermind", "-r", "0"]) && !Error0(["mastermind", "-r", "0"])
    ensures Error0Defined(["mastermind", "-u", "01"]) && !Error0(["mastermind", "-u", "01"])
    ensures Error0Defined(["mastermind", "-x", "5"]) && !Error0(["mastermind", "-x", "5"])
    ensures Error0Defined(["mastermind", "-r", "4", "extra"]) && !Error0(["mastermind", "-r", "4", "extra"])
  {
    ShortDigitStringFits("0");
    ShortDigitStringFits("01");
  }

  lemma Error0RejectsTen()
    ensures Error0Defined(["mastermind", "-r", "10"]) && !Error0(["mastermind", "-r", "10"])
  {
    ShortDigitStringFits("10");
    assert "10"[..1] == "1";
    assert StrToInt("10") == 10;
  }

  lemma Error0RejectsRepeat()
    ensures Error0Defined(["mastermind", "-u", "112"]) && !Error0(["mastermind", "-u", "112"])
  {
    var argv := ["mastermind", "-u", "112"];
    assert argv[2] == "112";
    ShortDigitStringFits("112");
    assert IsString("112");
    DigitOfNumOfStrToInt("112");
    assert "112"[..2] == "11" && "11"[..1] == "1";
    assert StrToInt("112") == 112;
    var ds := DigitsOf(112, 3);
    assert ds == [2, 1, 1];
    assert ds[1] == ds[2];
    assert !IsUnique(112, 3);
  }

  /** `-r 4` and `-u 1234` pass. */
  lemma Error0AcceptsRandom()
    ensures Error0Defined(["mastermind", "-r", "4"]) && Error0(["mastermind", "-r", "4"])
  {
    ShortDigitStringFits("4");
  }

  lemma Error0AcceptsFixed()
    ensures Error0Defined(["mastermind", "-u", "1234"]) && Error0(["mastermind", "-u", "1234"])
  {
    var argv := ["mastermind", "-u", "1234"];
    assert argv[1] == "-u" && argv[2] == "1234" && |argv| == 3;
    ShortDigitStringFits("1234");
    assert Error0Defined(argv);
    assert IsString("1234") && "1234"[0] == '1';
    Value1234();
    assert IsUnique(StrToInt("1234"), DigitOfNum(StrToInt("1234")));
  }

  lemma Value1234()
    ensures StrToInt("1234") == 1234 && DigitOfNum(1234) == 4 && IsUnique(1234, 4)
  {
    assert "1234"[..3] == "123" && "123"[..2] == "12" && "12"[..1] == "1";
    assert DigitsOf(1234, 4) == [4, 3, 2, 1];
    assert DigitOfNum(1234) == 4;
  }

  /** The branch of `main` after `error0`: `-r` takes the companion's value as
      the digit count; `-u` takes it as the secret and its digit count as D. */
  function Setup(argv: seq<string>): (r: Result<Config, ErrorCode>)
    requires Error0Defined(argv)
    ensures r.Failure? <==> !Error0(argv)
    ensures r.Failure? ==> r.error == E0
    ensures r.Success? ==> (r.value.RandomDigits? <==> argv[1] == "-r")
    ensures r.Success? && r.value.RandomDigits? ==>
      && argv[1] == "-r"
      && r.value.digit == StrToInt(argv[2])
      && 1 <= r.value.digit <= 9
    ensures r.Success? && r.value.FixedSecret? ==>
      && argv[1] == "-u"
      && ValidSecret(r.value.secret)
      && r.value.digit == DigitOfNum(r.value.secret) == |argv[2]|
      && ToDecimal(r.value.secret) == argv[2]
  {
    if !Error0(argv) then Failure(E0)
    else if argv[1] == "-r" then Success(RandomDigits(StrToInt(argv[2])))
    else
      var originalNum := StrToInt(argv[2]);
      DigitOfNumOfStrToInt(argv[2]);
      ToDecimalOfStrToInt(argv[2]);
      Success(FixedSecret(originalNum, DigitOfNum(originalNum)))
  }

  /** `error1`: true when the guess has exactly `digit` digits, all distinct;
      false when the program prints E1 and exits. */
  function Error1(digit: nat, num: nat): bool
  {
    var inputNumDigit := DigitOfNum(num);
    if inputNumDigit != digit then false
    else IsUnique(num, inputNumDigit)
  }

  /** A guess passes `error1` iff it lies in the D-digit range and its D digits
      are distinct; in particular 0 never passes. */
  lemma Error1Iff(digit: nat, num: nat)
    requires digit >= 1
    ensures Error1(digit, num) <==> Pow10(digit - 1) <= num < Pow10(digit) && IsUnique(num, digit)
    ensures !Error1(digit, 0)
  {
    if Pow10(digit - 1) <= num < Pow10(digit) {
      DigitOfNumIsUnique(num, digit);
    }
  }
}
