/** Command-line and token text: the all-digits check `isString`, Horner
    evaluation `strToInt`, and the canonical decimal spelling of a number that
    serves as their partner. */
module Text {
  import opened Digits

  predicate IsDigitChar(c: char)
  {
    '0' <= c <= '9'
  }

  /** `isString`: every character is a decimal digit (the empty string passes). */
  predicate IsString(s: string)
  {
    forall i :: 0 <= i < |s| ==> IsDigitChar(s[i])
  }

  /** `strToInt`: Horner's rule `num * 10 + (c - '0')` over the characters in
      order. A character outside '0'..'9' contributes its code point minus
      that of '0', which agrees with the source's `char` subtraction on ASCII. */
  function StrToInt(s: string): (num: int)
    ensures IsString(s) ==> 0 <= num < Pow10(|s|)
    ensures IsString(s) && |s| > 0 && s[0] != '0' ==> Pow10(|s| - 1) <= num
  {
    if |s| == 0 then 0
    else
      var init := s[..|s| - 1];
      assert IsString(s) ==> IsString(init);
      StrToInt(init) * 10 + (s[|s| - 1] as int - '0' as int)
  }

  const IntMin: int := -0x8000_0000
  const IntMax: int := 0x7FFF_FFFF

  predicate InInt(x: int)
  {
    IntMin <= x <= IntMax
  }

  /** Evaluating `strToInt(s)` on a 32-bit `int` never overflows: neither the
      product by ten nor the sum at any step leaves the `int` range. Signed
      overflow is undefined behaviour, so the model only speaks of such strings. */
  predicate NoOverflow(s: string)
  {
    forall j :: 0 <= j < |s| ==> StepFits(s, j)
  }

  /** Step j of the Horner loop, `num * 10 + (s[j] - '0')`, stays within `int`. */
  predicate StepFits(s: string, j: nat)
    requires j < |s|
  {
    InInt(StrToInt(s[..j]) * 10) && InInt(StrToInt(s[..j + 1]))
  }

  lemma Pow10Nine()
    ensures Pow10(9) == 1_000_000_000
  {
    assert Pow10(3) == 1000;
    assert Pow10(6) == 1000 * Pow10(3) by {
      assert Pow10(6) == 10 * Pow10(5) == 100 * Pow10(4) == 1000 * Pow10(3);
    }
    assert Pow10(9) == 1000 * Pow10(6) by {
      assert Pow10(9) == 10 * Pow10(8) == 100 * Pow10(7) == 1000 * Pow10(6);
    }
  }

  /** A digit string of at most nine characters is evaluated without overflow,
      since every intermediate value is below 10^9. */
  lemma ShortDigitStringFits(s: string)
    requires IsString(s) && |s| <= 9
    ensures NoOverflow(s)
  {
    Pow10Nine();
    forall j | 0 <= j < |s|
      ensures StepFits(s, j)
    {
      assert IsString(s[..j]) && IsString(s[..j + 1]);
      Pow10Order(j, 8);
      Pow10Order(j + 1, 9);
      assert Pow10(9) == 10 * Pow10(8);
    }
  }

  function DigitChar(d: nat): (c: char)
    requires d < 10
    ensures IsDigitChar(c)
  {
    ('0' as int + d) as char
  }

  /** The canonical decimal spelling of n: no leading zero, "0" for zero. */
  function ToDecimal(n: nat): (s: string)
    ensures IsString(s) && |s| >= 1
    ensures n > 0 ==> s[0] != '0'
  {
    if n < 10 then [DigitChar(n)] else ToDecimal(n / 10) + [DigitChar(n % 10)]
  }

  /** `strToInt` reads back the canonical spelling of every number. */
  lemma {:induction false} StrToIntOfToDecimal(n: nat)
    ensures StrToInt(ToDecimal(n)) == n
  {
    if n >= 10 {
      StrToIntOfToDecimal(n / 10);
      var s := ToDecimal(n);
      assert s[..|s| - 1] == ToDecimal(n / 10);
    }
  }

  /** Appending the digit d to the spelling of a positive v spells 10v + d. */
  lemma ToDecimalAppend(v: nat, d: nat)
    requires v >= 1 && d < 10
    ensures ToDecimal(10 * v + d) == ToDecimal(v) + [DigitChar(d)]
  {
    DivUnique(10 * v + d, 10, v, d);
  }

  /** A non-empty digit string without a leading zero is the canonical
      spelling of its `strToInt` value. */
  lemma {:induction false} ToDecimalOfStrToInt(s: string)
    requires IsString(s) && |s| > 0 && s[0] != '0'
    ensures ToDecimal(StrToInt(s)) == s
  {
    var c := s[|s| - 1];
    var d := c as int - '0' as int;
    assert IsDigitChar(c) && 0 <= d < 10 && DigitChar(d) == c;
    if |s| > 1 {
      var init := s[..|s| - 1];
      assert IsString(init) && init[0] == s[0];
      ToDecimalOfStrToInt(init);
      ToDecimalAppend(StrToInt(init), d);
      assert s == init + [c];
    }
  }

  /** The spelling of a positive number is as long as its digit count. */
  lemma {:induction false} ToDecimalLength(n: nat)
    requires n > 0
    ensures |ToDecimal(n)| == DigitOfNum(n)
  {
    if n >= 10 {
      ToDecimalLength(n / 10);
    }
  }

  /** For a canonical digit string, `digitOfNum(strToInt(s))` is its length. */
  lemma DigitOfNumOfStrToInt(s: string)
    requires IsString(s) && |s| > 0 && s[0] != '0'
    ensures DigitOfNum(StrToInt(s)) == |s|
  {
    DigitOfNumIsUnique(StrToInt(s), |s|);
  }
}
