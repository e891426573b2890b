/** `strtol` in base ten and `std::to_string` for non-negative numbers. */
module Decimal {
  import opened Octets

  const LONG_MAX: int := 0x7fff_ffff_ffff_ffff

  const MINUS: byte := '-' as int
  const PLUS: byte := '+' as int
  const ZERO: byte := '0' as int

  /** The octets `c_str()` shows: everything before the first NUL. */
  function CStr(s: Text): Text {
    s[..IndexOf(s, 0)]
  }

  function SpaceRun(s: Text): (n: nat)
    ensures n <= |s|
  {
    if s != [] && IsSpace(s[0]) then 1 + SpaceRun(s[1..]) else 0
  }

  function DigitRun(s: Text): (n: nat)
    ensures n <= |s|
    ensures forall i :: 0 <= i < n ==> IsDigit(s[i])
    ensures n < |s| ==> !IsDigit(s[n])
  {
    if s != [] && IsDigit(s[0]) then 1 + DigitRun(s[1..]) else 0
  }

  function DigitsValue(s: Text): nat
    requires forall i :: 0 <= i < |s| ==> IsDigit(s[i])
  {
    if s == [] then 0
    else
      assert IsDigit(s[|s| - 1]);
      DigitsValue(s[..|s| - 1]) * 10 + (s[|s| - 1] - ZERO)
  }

  /** `end` is where conversion stopped; 0 when nothing was converted. */
  datatype Parsed = Parsed(value: int, end: nat)

  function StrToL(text: Text): Parsed {
    var s := CStr(text);
    var start := SpaceRun(s);
    var signed := start < |s| && (s[start] == MINUS || s[start] == PLUS);
    var first := if signed then start + 1 else start;
    var n := DigitRun(s[first..]);
    if n == 0 then Parsed(0, 0)
    else
      var magnitude: int := DigitsValue(s[first..][..n]);
      var value := if signed && s[start] == MINUS then -magnitude else magnitude;
      Parsed(if value > LONG_MAX then LONG_MAX else if value < -LONG_MAX - 1 then -LONG_MAX - 1 else value, first + n)
  }

  /** The checks around `strtol` that the daemon makes: something converted, nothing left over, not negative. */
  function WholeNonNegative(text: Text): (r: Option<nat>)
    ensures r.Some? ==> r.value <= LONG_MAX
  {
    var p := StrToL(text);
    if p.end == 0 || p.end != |CStr(text)| || p.value < 0 then None else Some(p.value)
  }

  function ToDecimal(n: nat): (s: Text)
    ensures s != []
  {
    if n < 10 then [ZERO + n] else ToDecimal(n / 10) + [ZERO + n % 10]
  }

  function SignedDecimal(n: int): Text {
    if n < 0 then [MINUS] + ToDecimal(-n) else ToDecimal(n)
  }

  lemma {:induction false} ToDecimalDigits(n: nat)
    ensures forall i :: 0 <= i < |ToDecimal(n)| ==> IsDigit(ToDecimal(n)[i])
    ensures DigitsValue(ToDecimal(n)) == n
  {
    if n >= 10 {
      ToDecimalDigits(n / 10);
      assert ToDecimal(n)[..|ToDecimal(n)| - 1] == ToDecimal(n / 10);
    } else {
      assert [ZERO + n][..0] == [];
    }
  }

  lemma AllDigitsRun(s: Text)
    requires forall i :: 0 <= i < |s| ==> IsDigit(s[i])
    ensures DigitRun(s) == |s|
  {
  }

  /** A printed number converts back to itself, with nothing left over. */
  lemma DecimalRoundTrip(n: nat)
    requires n <= LONG_MAX
    ensures WholeNonNegative(ToDecimal(n)) == Some(n)
  {
    hide ToDecimal, DigitsValue;
    var s := ToDecimal(n);
    ToDecimalDigits(n);
    IndexOfUnique(s, 0, |s|);
    assert CStr(s) == s;
    assert SpaceRun(s) == 0;
    assert s[0..] == s;
    AllDigitsRun(s);
    assert s[..|s|] == s;
  }

  /** A printed negative number is no whole non-negative one. */
  lemma NegativeIsRefused(n: int)
    requires -LONG_MAX <= n < 0
    ensures WholeNonNegative(SignedDecimal(n)) == None
  {
    hide ToDecimal, DigitsValue;
    var digits := ToDecimal(-n);
    var s := SignedDecimal(n);
    ToDecimalDigits(-n);
    assert forall i :: 1 <= i < |s| ==> s[i] == digits[i - 1];
    IndexOfUnique(s, 0, |s|);
    assert CStr(s) == s && SpaceRun(s) == 0;
    assert s[1..] == digits;
    AllDigitsRun(digits);
    assert digits[..|digits|] == digits;
  }
}
