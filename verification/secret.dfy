/** Secret generation for `-r <D>`: `randomNum` maps one draw of `rand()` into
    the D-digit range, and the do-while loop of `main` redraws until the
    candidate's digits are distinct. The draws are inputs to the model. */
module Secret {
  import opened Wrappers
  import opened Digits

  /** `randomNum(digit)` for the draw r = `rand()`:
      r % ((10^D - 1) - 10^(D-1) + 1) + 10^(D-1). */
  function RandomNum(digit: nat, r: nat): (num: nat)
    requires 1 <= digit <= 9
    ensures Pow10(digit - 1) <= num <= Pow10(digit) - 1
    ensures DigitOfNum(num) == digit
  {
    var low := Pow10(digit - 1);
    var high := Pow10(digit) - 1;
    var num := r % (high - low + 1) + low;
    DigitOfNumIsUnique(num, digit);
    num
  }

  /** The rejection loop of `main` over a finite supply of draws. It stops at
      the first draw whose candidate has distinct digits and reports how many
      draws it consumed; `None` means the supply ran out first. */
  method GenerateSecret(digit: nat, draws: seq<nat>) returns (secret: Option<nat>, used: nat)
    requires 1 <= digit <= 9
    ensures secret.Some? ==>
      && 1 <= used <= |draws|
      && secret.value == RandomNum(digit, draws[used - 1])
      && IsUnique(secret.value, digit)
      && DigitOfNum(secret.value) == digit
    ensures secret.Some? ==> forall j :: 0 <= j < used - 1 ==> !IsUnique(RandomNum(digit, draws[j]), digit)
    ensures secret.None? ==> used == |draws| && forall j :: 0 <= j < |draws| ==> !IsUnique(RandomNum(digit, draws[j]), digit)
  {
    var i := 0;
    while i < |draws|
      invariant 0 <= i <= |draws|
      invariant forall j :: 0 <= j < i ==> !IsUnique(RandomNum(digit, draws[j]), digit)
    {
      var randNum := RandomNum(digit, draws[i]);
      var unique := IsUniqueScan(randNum, digit);
      if unique {
        return Some(randNum), i + 1;
      }
      i := i + 1;
    }
    return None, |draws|;
  }
}
