/** Stored passwords: base64, the salted digest scheme, and verification. The digest is any function. */
module Password {
  import opened Octets
  import opened Entries
  import opened Decimal

  /** The result of a 20-octet hash. */
  type Digest = d: Text | |d| == 20 witness seq(20, _ => 0)

  /** The digest routine: None when the daemon is built without it. */
  type Sha1 = Text -> Option<Digest>

  const PAD: byte := '=' as int

  // ---------- base64 ----------

  function Base64Char(i: nat): byte
    requires i < 64
  {
    if i < 26 then 'A' as int + i
    else if i < 52 then 'a' as int + (i - 26)
    else if i < 62 then '0' as int + (i - 52)
    else if i == 62 then '+' as int
    else '/' as int
  }

  /** The digit value, or -1. */
  function Base64Value(ch: byte): int {
    if 'A' as int <= ch <= 'Z' as int then ch - 'A' as int
    else if 'a' as int <= ch <= 'z' as int then ch - 'a' as int + 26
    else if '0' as int <= ch <= '9' as int then ch - '0' as int + 52
    else if ch == '+' as int then 62
    else if ch == '/' as int then 63
    else -1
  }

  function At(data: seq<byte>, i: nat): byte {
    if i < |data| then data[i] else 0
  }

  /** The four characters of the group of up to three octets at the front. */
  function EncodeGroup(data: seq<byte>): (s: Text)
    requires data != []
    ensures |s| == 4
  {
    var n := data[0] * 0x1_0000 + At(data, 1) * 0x100 + At(data, 2);
    [Base64Char(n / 0x4_0000 % 64),
     Base64Char(n / 0x1000 % 64),
     if |data| > 1 then Base64Char(n / 0x40 % 64) else PAD,
     if |data| > 2 then Base64Char(n % 64) else PAD]
  }

  function Base64(data: seq<byte>): Text {
    if data == [] then []
    else EncodeGroup(data) + if |data| <= 3 then [] else Base64(data[3..])
  }

  predicate Ignored(ch: byte) {
    ch == PAD || ch == 10 || ch == 13 || ch == 32
  }

  /** The decoder's state: a wrapping 32-bit accumulator, the number of bits ready less eight, the output. */
  datatype Decoder = Decoder(val: int32, bits: int, out: seq<byte>)

  function Push(d: Decoder, digit: nat): Decoder
    requires digit < 64
  {
    var val := ToInt32(d.val * 64 + digit);
    var bits := d.bits + 6;
    if bits >= 0 then Decoder(val, bits - 8, d.out + [val / ShiftBy(bits) % 256])
    else Decoder(val, bits, d.out)
  }

  /** The weight of an arithmetic right shift, never zero. */
  function ShiftBy(bits: nat): (w: int)
    ensures w > 0
  {
    if bits == 0 then 1 else 2 * ShiftBy(bits - 1)
  }

  function DecodeFrom(text: Text, d: Decoder): seq<byte>
    decreases |text|
  {
    if text == [] then d.out
    else if Ignored(text[0]) then DecodeFrom(text[1..], d)
    else
      var digit := Base64Value(text[0]);
      if digit < 0 then [] else DecodeFrom(text[1..], Push(d, digit))
  }

  function Base64Decoded(text: Text): seq<byte> {
    DecodeFrom(text, Decoder(0, -8, []))
  }

  lemma CharRoundTrip(i: nat)
    requires i < 64
    ensures Base64Value(Base64Char(i)) == i && !Ignored(Base64Char(i))
  {
  }

  /** Only the last six accumulated bits reach the next octet, so the wrap never shows. */
  lemma PushLowBits(val: int32, prev: nat, digit: nat)
    requires prev < 64 && digit < 64 && val % 64 == prev
    ensures var v := ToInt32(val * 64 + digit);
            && v % 64 == digit
            && v / 16 % 256 == prev * 4 + digit / 16
            && v / 4 % 256 == prev % 16 * 16 + digit / 4
            && v % 256 == prev % 4 * 64 + digit
  {
    var x := val * 64 + digit;
    var q := (x + 0x8000_0000) / 0x1_0000_0000;
    var v := ToInt32(x);
    assert v == x - q * 0x1_0000_0000;
    var h := val / 64;
    assert x == h * 4096 + prev * 64 + digit;
    assert v == (h - q * 0x10_0000) * 4096 + (prev * 64 + digit);
    LowTwelve(h - q * 0x10_0000, prev, digit);
  }

  lemma LowTwelve(k: int, prev: nat, digit: nat)
    requires prev < 64 && digit < 64
    ensures var v := k * 4096 + (prev * 64 + digit);
            && v % 64 == digit
            && v / 16 % 256 == prev * 4 + digit / 16
            && v / 4 % 256 == prev % 16 * 16 + digit / 4
            && v % 256 == prev % 4 * 64 + digit
  {
    HighOctet(k, prev, digit / 16, digit % 16);
    MiddleOctet(k, prev / 16, prev % 16, digit / 4, digit % 4);
    LowOctet(k, prev / 4, prev % 4, digit);
    LastDigit(k * 64 + prev, digit);
  }

  lemma HighOctet(k: int, prev: nat, a: nat, b: nat)
    requires prev < 64 && a < 4 && b < 16
    ensures (k * 4096 + (prev * 64 + (a * 16 + b))) / 16 % 256 == prev * 4 + a
  {
    Quotient16(k * 4096 + (prev * 64 + (a * 16 + b)), k * 256 + prev * 4 + a, b);
    Remainder256(k, prev * 4 + a);
  }

  lemma MiddleOctet(k: int, a: nat, b: nat, c: nat, e: nat)
    requires a < 4 && b < 16 && c < 16 && e < 4
    ensures (k * 4096 + ((a * 16 + b) * 64 + (c * 4 + e))) / 4 % 256 == b * 16 + c
  {
    Quotient4(k * 4096 + ((a * 16 + b) * 64 + (c * 4 + e)), k * 1024 + (a * 16 + b) * 16 + c, e);
    Remainder256(k * 4 + a, b * 16 + c);
  }

  lemma LowOctet(k: int, a: nat, b: nat, digit: nat)
    requires a < 16 && b < 4 && digit < 64
    ensures (k * 4096 + ((a * 4 + b) * 64 + digit)) % 256 == b * 64 + digit
  {
    Remainder256(k * 16 + a, b * 64 + digit);
  }

  lemma LastDigit(q: int, digit: nat)
    requires digit < 64
    ensures (q * 64 + digit) % 64 == digit
  {
  }

  lemma Quotient16(v: int, q: int, r: int)
    requires v == q * 16 + r && 0 <= r < 16
    ensures v / 16 == q
  {
  }

  lemma Quotient4(v: int, q: int, r: int)
    requires v == q * 4 + r && 0 <= r < 4
    ensures v / 4 == q
  {
  }

  lemma Remainder256(q: int, r: int)
    requires 0 <= r < 256
    ensures (q * 256 + r) % 256 == r
  {
  }

  /** One digit at each of the four phases of a group. */
  lemma PushPhases(d: Decoder, prev: nat, digit: nat)
    requires prev < 64 && digit < 64 && d.val % 64 == prev
    ensures Push(d, digit).val % 64 == digit
    ensures d.bits == -8 ==> Push(d, digit) == Decoder(Push(d, digit).val, -2, d.out)
    ensures d.bits == -2 ==> Push(d, digit) == Decoder(Push(d, digit).val, -4, d.out + [prev * 4 + digit / 16])
    ensures d.bits == -4 ==> Push(d, digit) == Decoder(Push(d, digit).val, -6, d.out + [prev % 16 * 16 + digit / 4])
    ensures d.bits == -6 ==> Push(d, digit) == Decoder(Push(d, digit).val, -8, d.out + [prev % 4 * 64 + digit])
  {
    PushLowBits(d.val, prev, digit);
    assert ShiftBy(4) == 16 && ShiftBy(2) == 4 && ShiftBy(0) == 1;
  }

  /** The six-bit digits of three octets. */
  lemma GroupDigits(a: byte, b: byte, c: byte)
    ensures var n := a * 0x1_0000 + b * 0x100 + c;
            && n / 0x4_0000 % 64 == a / 4
            && n / 0x1000 % 64 == a % 4 * 16 + b / 16
            && n / 0x40 % 64 == b % 16 * 4 + c / 64
            && n % 64 == c % 64
  {
    SplitOctets(a / 4, a % 4, b / 16, b % 16, c / 64, c % 64);
  }

  lemma SplitOctets(a1: nat, a2: nat, b1: nat, b2: nat, c1: nat, c2: nat)
    requires a1 < 64 && a2 < 4 && b1 < 16 && b2 < 16 && c1 < 4 && c2 < 64
    ensures var n := (a1 * 4 + a2) * 0x1_0000 + (b1 * 16 + b2) * 0x100 + (c1 * 64 + c2);
            && n / 0x4_0000 % 64 == a1
            && n / 0x1000 % 64 == a2 * 16 + b1
            && n / 0x40 % 64 == b2 * 4 + c1
            && n % 64 == c2
  {
    var d0, d1, d2 := a1, a2 * 16 + b1, b2 * 4 + c1;
    var n := (a1 * 4 + a2) * 0x1_0000 + (b1 * 16 + b2) * 0x100 + (c1 * 64 + c2);
    assert n == d0 * 0x4_0000 + d1 * 0x1000 + d2 * 0x40 + c2;
    assert n / 0x4_0000 == d0;
    assert n / 0x1000 == d0 * 64 + d1;
    assert n / 0x40 == (d0 * 64 + d1) * 64 + d2;
    LastDigit(d0, d1);
    LastDigit(d0 * 64 + d1, d2);
    LastDigit((d0 * 64 + d1) * 64 + d2, c2);
  }

  function PushAll(d: Decoder, digits: seq<nat>): Decoder
    requires forall i :: 0 <= i < |digits| ==> digits[i] < 64
    decreases |digits|
  {
    if digits == [] then d else PushAll(Push(d, digits[0]), digits[1..])
  }

  lemma PushFew(d: Decoder, a: nat, b: nat, c: nat, e: nat)
    requires a < 64 && b < 64 && c < 64 && e < 64
    ensures PushAll(d, [a, b]) == Push(Push(d, a), b)
    ensures PushAll(d, [a, b, c]) == Push(Push(Push(d, a), b), c)
    ensures PushAll(d, [a, b, c, e]) == Push(Push(Push(Push(d, a), b), c), e)
  {
    hide Push;
    assert [b][1..] == [] && [c][1..] == [] && [e][1..] == [];
    assert [a, b][1..] == [b] && [a, b, c][1..] == [b, c] && [a, b, c, e][1..] == [b, c, e];
    assert [b, c][1..] == [c] && [b, c, e][1..] == [c, e] && [c, e][1..] == [e];
    assert PushAll(Push(d, a), [b]) == Push(Push(d, a), b);
    assert PushAll(Push(Push(d, a), b), [c]) == Push(Push(Push(d, a), b), c);
    assert PushAll(Push(Push(Push(d, a), b), c), [e]) == Push(Push(Push(Push(d, a), b), c), e);
    assert PushAll(Push(d, a), [b, c]) == Push(Push(Push(d, a), b), c);
    assert PushAll(Push(Push(d, a), b), [c, e]) == Push(Push(Push(Push(d, a), b), c), e);
  }

  /** The digits of a group, padding aside. */
  function GroupOf(data: seq<byte>): (digits: seq<nat>)
    requires data != []
    ensures forall i :: 0 <= i < |digits| ==> digits[i] < 64
  {
    var a, b, c := data[0], At(data, 1), At(data, 2);
    [a / 4, a % 4 * 16 + b / 16]
    + (if |data| > 1 then [b % 16 * 4 + c / 64] else [])
    + (if |data| > 2 then [c % 64] else [])
  }

  function Chars(digits: seq<nat>): Text
    requires forall i :: 0 <= i < |digits| ==> digits[i] < 64
  {
    if digits == [] then [] else [Base64Char(digits[0])] + Chars(digits[1..])
  }

  lemma {:induction false} CharsPush(digits: seq<nat>, rest: Text, d: Decoder)
    requires forall i :: 0 <= i < |digits| ==> digits[i] < 64
    ensures DecodeFrom(Chars(digits) + rest, d) == DecodeFrom(rest, PushAll(d, digits))
    decreases |digits|
  {
    hide Push, Base64Char, Base64Value, Ignored;
    if digits == [] {
      assert Chars(digits) + rest == rest;
    } else {
      CharRoundTrip(digits[0]);
      var s := Chars(digits) + rest;
      assert s[0] == Base64Char(digits[0]) && s[1..] == Chars(digits[1..]) + rest;
      CharsPush(digits[1..], rest, Push(d, digits[0]));
    }
  }

  lemma {:induction false} PadsIgnored(pads: Text, d: Decoder)
    requires forall i :: 0 <= i < |pads| ==> pads[i] == PAD
    ensures DecodeFrom(pads, d) == d.out
    decreases |pads|
  {
    if pads != [] {
      PadsIgnored(pads[1..], d);
    }
  }

  lemma EncodedGroup(data: seq<byte>)
    requires data != []
    ensures EncodeGroup(data)
         == Chars(GroupOf(data)) + (if |data| == 1 then [PAD, PAD] else if |data| == 2 then [PAD] else [])
  {
    hide Base64Char;
    var a, b, c := data[0], At(data, 1), At(data, 2);
    GroupDigits(a, b, c);
    var first := [Base64Char(a / 4), Base64Char(a % 4 * 16 + b / 16)];
    var g := GroupOf(data);
    FourChars(g);
  }

  lemma FourChars(g: seq<nat>)
    requires 2 <= |g| <= 4 && forall i :: 0 <= i < |g| ==> g[i] < 64
    ensures |Chars(g)| == |g|
    ensures forall i :: 0 <= i < |g| ==> Chars(g)[i] == Base64Char(g[i])
  {
    assert forall i :: 0 <= i < |g| - 1 ==> g[1..][i] == g[i + 1];
    assert Chars(g) == [Base64Char(g[0])] + Chars(g[1..]);
    CharsOf(g);
  }

  lemma {:induction false} CharsOf(g: seq<nat>)
    requires forall i :: 0 <= i < |g| ==> g[i] < 64
    ensures |Chars(g)| == |g|
    ensures forall i :: 0 <= i < |g| ==> Chars(g)[i] == Base64Char(g[i])
    decreases |g|
  {
    hide Base64Char;
    if g != [] {
      CharsOf(g[1..]);
    }
  }

  lemma OctetsBack(a: byte, b: byte, c: byte)
    ensures a / 4 * 4 + (a % 4 * 16 + b / 16) / 16 == a
    ensures (a % 4 * 16 + b / 16) % 16 * 16 + (b % 16 * 4 + c / 64) / 4 == b
    ensures (b % 16 * 4 + c / 64) % 4 * 64 + c % 64 == c
  {
    assert (a % 4 * 16 + b / 16) / 16 == a % 4 && (a % 4 * 16 + b / 16) % 16 == b / 16;
    assert (b % 16 * 4 + c / 64) / 4 == b % 16 && (b % 16 * 4 + c / 64) % 4 == c / 64;
  }

  /** Four digits from a group boundary, by the octets they make up. */
  lemma PushedDigits(d: Decoder, q0: nat, q1: nat, q2: nat, q3: nat, a: byte, b: byte, c: byte)
    requires d.bits == -8 && q0 < 64 && q1 < 64 && q2 < 64 && q3 < 64
    requires q0 * 4 + q1 / 16 == a && q1 % 16 * 16 + q2 / 4 == b && q2 % 4 * 64 + q3 == c
    ensures PushAll(d, [q0, q1]).out == d.out + [a]
    ensures PushAll(d, [q0, q1, q2]).out == d.out + [a, b]
    ensures PushAll(d, [q0, q1, q2, q3]).out == d.out + [a, b, c]
    ensures PushAll(d, [q0, q1, q2, q3]).bits == -8
  {
    PushFew(d, q0, q1, q2, q3);
    hide Push, PushAll;
    var d1 := Push(d, q0);
    var d2 := Push(d1, q1);
    var d3 := Push(d2, q2);
    PushPhases(d, d.val % 64, q0);
    PushPhases(d1, q0, q1);
    assert d2.out == d.out + [a];
    PushPhases(d2, q1, q2);
    assert d3.out == d2.out + [b];
    PushPhases(d3, q2, q3);
    assert d.out + [a] + [b] == d.out + [a, b];
    assert d.out + [a, b] + [c] == d.out + [a, b, c];
  }

  lemma PushedOctets(d: Decoder, a: byte, b: byte, c: byte)
    requires d.bits == -8
    ensures var q0, q1, q2, q3 := a / 4, a % 4 * 16 + b / 16, b % 16 * 4 + c / 64, c % 64;
            && PushAll(d, [q0, q1]).out == d.out + [a]
            && PushAll(d, [q0, q1, q2]).out == d.out + [a, b]
            && PushAll(d, [q0, q1, q2, q3]).out == d.out + [a, b, c]
            && PushAll(d, [q0, q1, q2, q3]).bits == -8
  {
    hide PushAll;
    OctetsBack(a, b, c);
    PushedDigits(d, a / 4, a % 4 * 16 + b / 16, b % 16 * 4 + c / 64, c % 64, a, b, c);
  }

  /** A group's digits put back its octets and leave the decoder at a group boundary when it was full. */
  lemma GroupPush(data: seq<byte>, d: Decoder)
    requires data != [] && d.bits == -8
    ensures var r := PushAll(d, GroupOf(data));
            r.out == d.out + (if |data| <= 3 then data else data[..3]) && (|data| >= 3 ==> r.bits == -8)
  {
    hide PushAll;
    var a, b, c := data[0], At(data, 1), At(data, 2);
    PushedOctets(d, a, b, c);
    var q0, q1, q2, q3 := a / 4, a % 4 * 16 + b / 16, b % 16 * 4 + c / 64, c % 64;
    var taken := if |data| <= 3 then data else data[..3];
    if |data| == 1 {
      assert taken == [a] && GroupOf(data) == [q0, q1];
    } else if |data| == 2 {
      assert taken == [a, b] && GroupOf(data) == [q0, q1, q2];
    } else {
      assert taken == [a, b, c] && GroupOf(data) == [q0, q1, q2, q3];
    }
  }

  lemma LastGroupDecodes(data: seq<byte>, d: Decoder)
    requires 1 <= |data| <= 3 && d.bits == -8
    ensures DecodeFrom(EncodeGroup(data), d) == d.out + data
  {
    hide EncodeGroup, PushAll, GroupOf, Chars, DecodeFrom;
    EncodedGroup(data);
    GroupPush(data, d);
    var pads := if |data| == 1 then [PAD, PAD] else if |data| == 2 then [PAD] else [];
    CharsPush(GroupOf(data), pads, d);
    PadsIgnored(pads, PushAll(d, GroupOf(data)));
  }

  lemma FullGroupDecodes(data: seq<byte>, rest: Text, d: Decoder)
    requires |data| >= 3 && d.bits == -8
    ensures DecodeFrom(EncodeGroup(data) + rest, d) == DecodeFrom(rest, PushAll(d, GroupOf(data)))
  {
    hide EncodeGroup, PushAll, GroupOf, Chars, DecodeFrom;
    EncodedGroup(data);
    assert Chars(GroupOf(data)) + [] == Chars(GroupOf(data));
    CharsPush(GroupOf(data), rest, d);
  }

  lemma {:induction false} DecodeGroups(data: seq<byte>, d: Decoder)
    requires d.bits == -8
    ensures DecodeFrom(Base64(data), d) == d.out + data
    decreases |data|
  {
    hide EncodeGroup, PushAll, GroupOf, DecodeFrom;
    if data == [] {
      PadsIgnored([], d);
      assert d.out + data == d.out;
    } else if |data| <= 3 {
      LastGroupDecodes(data, d);
      assert EncodeGroup(data) + [] == EncodeGroup(data);
    } else {
      GroupPush(data, d);
      FullGroupDecodes(data, Base64(data[3..]), d);
      DecodeGroups(data[3..], PushAll(d, GroupOf(data)));
      assert d.out + data[..3] + data[3..] == d.out + data;
    }
  }

  /** Decoding inverts encoding for every octet string, whatever the accumulator overflows. */
  lemma Base64RoundTrip(data: seq<byte>)
    ensures Base64Decoded(Base64(data)) == data
  {
    DecodeGroups(data, Decoder(0, -8, []));
    assert [] + data == data;
  }

  /** The encoding loop, three octets a turn. */
  method EncodeBase64(data: seq<byte>) returns (out: Text)
    ensures out == Base64(data)
  {
    hide EncodeGroup;
    out := [];
    var i := 0;
    while i < |data|
      invariant i <= |data| ==> out + Base64(data[i..]) == Base64(data)
      invariant i > |data| ==> out == Base64(data)
    {
      var left := data[i..];
      assert |left| > 3 ==> left[3..] == data[i + 3..];
      out := out + EncodeGroup(left);
      i := i + 3;
    }
  }

  /** The decoding loop over `val`, `bits` and `out`. */
  method DecodeBase64(text: Text) returns (out: seq<byte>)
    ensures out == Base64Decoded(text)
  {
    out := [];
    var val: int32 := 0;
    var bits := -8;
    var i := 0;
    while i < |text|
      invariant 0 <= i <= |text|
      invariant DecodeFrom(text[i..], Decoder(val, bits, out)) == Base64Decoded(text)
    {
      var ch := text[i];
      assert text[i..][0] == ch && text[i..][1..] == text[i + 1..];
      if !Ignored(ch) {
        var digit := Base64Value(ch);
        if digit < 0 {
          return [];
        }
        val := ToInt32(val * 64 + digit);
        bits := bits + 6;
        if bits >= 0 {
          out := out + [val / ShiftBy(bits) % 256];
          bits := bits - 8;
        }
      }
      i := i + 1;
    }
  }

  // ---------- comparison ----------

  /** What the length-masking comparison decides: equal lengths modulo 256, and equal octets, absent ones read as NUL. */
  predicate PasswordsEqual(left: Text, right: Text) {
    && |left| % 256 == |right| % 256
    && forall i | 0 <= i < |left| + |right| :: At(left, i) == At(right, i)
  }

  /** It is equality, except that a longer side may also end in a multiple of 256 NULs. */
  lemma PasswordsEqualExactly(left: Text, right: Text)
    requires |left| <= |right|
    ensures PasswordsEqual(left, right)
       <==> left == right
            || (left < right && (|right| - |left|) % 256 == 0 && forall i :: |left| <= i < |right| ==> right[i] == 0)
  {
    if PasswordsEqual(left, right) {
      forall i | 0 <= i < |left| ensures left[i] == right[i] {
        assert At(left, i) == At(right, i);
      }
      forall i | |left| <= i < |right| ensures right[i] == 0 {
        assert At(left, i) == At(right, i);
      }
      assert |left| == |right| ==> left == right;
    }
  }

  /** The accumulating loop, which never leaves early. The accumulator ORs the XOR of each pair of octets;
      it is zero exactly while no pair differed, so a flag stands for it. */
  method ComparePasswords(left: Text, right: Text) returns (equal: bool)
    ensures equal == PasswordsEqual(left, right)
  {
    var size := if |left| > |right| then |left| else |right|;
    var differs := |left| % 256 != |right| % 256;
    var i := 0;
    while i < size
      invariant 0 <= i <= size
      invariant !differs <==> |left| % 256 == |right| % 256 && forall j :: 0 <= j < i ==> At(left, j) == At(right, j)
    {
      var a, b := At(left, i), At(right, i);
      differs := differs || a != b;
      i := i + 1;
    }
    assert forall j :: size <= j < |left| + |right| ==> At(left, j) == 0 == At(right, j);
    return !differs;
  }

  // ---------- schemes ----------

  const BRACE_OPEN: byte := '{' as int
  const BRACE_CLOSE: byte := '}' as int
  const SSHA_PREFIX: Text := Ascii("{SSHA}")
  const SSHA: Text := Ascii("SSHA")
  const SHA: Text := Ascii("SHA")
  const CLEARTEXT: Text := Ascii("CLEARTEXT")
  const USER_PASSWORD: Text := Ascii("userPassword")
  const USER_ACCOUNT_CONTROL: Text := Ascii("userAccountControl")

  datatype Stored = Stored(scheme: Text, payload: Text)

  function SchemePrefix(value: Text): Option<Stored> {
    if |value| < 3 || value[0] != BRACE_OPEN then None
    else
      var close := IndexOf(value, BRACE_CLOSE);
      if close == |value| || close < 2 then None
      else Some(Stored(value[1..close], value[close + 1..]))
  }

  /** Eight random octets, or None when the generator fails. */
  type Salt = s: Text | |s| == 8 witness seq(8, _ => 0)

  /** The hashed form; empty when hashing is not possible. */
  function HashSsha(sha1: Sha1, salt: Option<Salt>, password: Text): Text {
    match salt
    case None => []
    case Some(octets) =>
      match sha1(password + octets)
      case None => []
      case Some(digest) => SSHA_PREFIX + Base64(digest + octets)
  }

  function EncodeUserPassword(sha1: Sha1, salt: Option<Salt>, value: Text): Text {
    if SchemePrefix(value).Some? || value == [] then value
    else
      var hashed := HashSsha(sha1, salt, value);
      if hashed == [] then value else hashed
  }

  predicate VerifySsha(sha1: Sha1, payload: Text, password: Text) {
    var decoded := Base64Decoded(payload);
    && |decoded| > 20
    && sha1(password + decoded[20..]) == Some(decoded[..20])
  }

  predicate VerifySha(sha1: Sha1, payload: Text, password: Text) {
    var decoded := Base64Decoded(payload);
    |decoded| == 20 && sha1(password) == Some(decoded)
  }

  predicate VerifyUserPassword(sha1: Sha1, stored: Text, provided: Text) {
    match SchemePrefix(stored)
    case None => PasswordsEqual(provided, stored)
    case Some(s) =>
      if IEquals(s.scheme, CLEARTEXT) then PasswordsEqual(provided, s.payload)
      else if IEquals(s.scheme, SSHA) then VerifySsha(sha1, s.payload, provided)
      else if IEquals(s.scheme, SHA) then VerifySha(sha1, s.payload, provided)
      else false
  }

  lemma HashedHasScheme(payload: Text)
    ensures SchemePrefix(SSHA_PREFIX + payload) == Some(Stored(SSHA, payload))
  {
    var value := SSHA_PREFIX + payload;
    assert SSHA_PREFIX[0] == BRACE_OPEN && SSHA_PREFIX[5] == BRACE_CLOSE;
    assert SSHA_PREFIX[1] == 'S' as int && SSHA_PREFIX[2] == 'S' as int
        && SSHA_PREFIX[3] == 'H' as int && SSHA_PREFIX[4] == 'A' as int;
    IndexOfUnique(value, BRACE_CLOSE, 5);
    assert value[1..5] == SSHA;
    assert value[6..] == payload;
  }

  /** Whatever is stored for a new password without a scheme prefix verifies against that password,
      for every digest function and every salt. */
  lemma StoredPasswordVerifies(sha1: Sha1, salt: Option<Salt>, value: Text)
    requires SchemePrefix(value).None?
    ensures VerifyUserPassword(sha1, EncodeUserPassword(sha1, salt, value), value)
  {
    hide SchemePrefix, Base64, Base64Decoded;
    var hashed := HashSsha(sha1, salt, value);
    if value != [] && hashed != [] {
      var octets: Salt := salt.value;
      var digest: Digest := sha1(value + octets).value;
      var payload := Base64(digest + octets);
      HashedHasScheme(payload);
      Base64RoundTrip(digest + octets);
      assert (digest + octets)[..20] == digest && (digest + octets)[20..] == octets;
      assert |SSHA| != |CLEARTEXT|;
    }
  }

  /** Any `userAccountControl` value that is a whole non-negative number with bit 1 set. */
  predicate AccountDisabled(attributes: Attributes) {
    var values := ValuesNamed(attributes, USER_ACCOUNT_CONTROL);
    && values.Some?
    && exists v | v in values.value :: WholeNonNegative(v).Some? && WholeNonNegative(v).value / 2 % 2 == 1
  }
}
