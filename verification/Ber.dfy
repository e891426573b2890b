/** BER elements (X.690, definite lengths of at most four octets) as functions on octet strings.
    Readers take the unread octets and return the value with what is left. */
module Ber {
  import opened Octets

  const TWO_32: int := 0x1_0000_0000
  const TWO_63: int := 0x8000_0000_0000_0000
  const TWO_64: int := 0x1_0000_0000_0000_0000

  const BER_BOOLEAN: byte := 0x01
  const BER_INTEGER: byte := 0x02
  const BER_OCTET_STRING: byte := 0x04
  const BER_ENUMERATED: byte := 0x0A
  const BER_SEQUENCE: byte := 0x30
  const BER_SET: byte := 0x31

  // ---------- base-256 numerals ----------

  function BigEndian(n: nat): (s: seq<byte>)
    ensures n > 0 ==> s != []
  {
    if n == 0 then [] else BigEndian(n / 256) + [n % 256]
  }

  function Numeral(s: seq<byte>): nat {
    if s == [] then 0 else Numeral(s[..|s| - 1]) * 256 + s[|s| - 1]
  }

  function Pow256(k: nat): (p: nat)
    ensures p > 0
  {
    if k == 0 then 1 else 256 * Pow256(k - 1)
  }

  lemma {:induction false} NumeralOfBigEndian(n: nat)
    ensures Numeral(BigEndian(n)) == n
  {
    if n > 0 {
      NumeralOfBigEndian(n / 256);
      assert BigEndian(n)[..|BigEndian(n)| - 1] == BigEndian(n / 256);
    }
  }

  lemma {:induction false} BigEndianWidth(n: nat, k: nat)
    ensures n < Pow256(k) <==> |BigEndian(n)| <= k
  {
    if n > 0 && k > 0 {
      BigEndianWidth(n / 256, k - 1);
    }
  }

  lemma {:induction false} NumeralBound(s: seq<byte>)
    ensures Numeral(s) < Pow256(|s|)
  {
    if s != [] {
      NumeralBound(s[..|s| - 1]);
    }
  }

  // ---------- lengths ----------

  /** `0x80 | raw.size()` truncated to an octet; a `size_t` has at most eight octets. */
  function LengthBytes(n: nat): (s: seq<byte>)
    ensures s != []
  {
    if n < 128 then [n]
    else var raw := BigEndian(n); [(0x80 + |raw|) % 256] + raw
  }

  function ReadLength(s: seq<byte>): (r: Option<(nat, seq<byte>)>)
    ensures r.Some? ==> |r.value.1| < |s| && r.value.0 < TWO_32
    ensures r.Some? ==> |LengthBytes(r.value.0)| + |r.value.1| <= |s|
  {
    if s == [] then None
    else if s[0] < 0x80 then Some((s[0], s[1..]))
    else
      var count := s[0] - 0x80;
      if count == 0 || count > 4 || |s| < 1 + count then None
      else
        var n := Numeral(s[1..1 + count]);
        assert n < Pow256(count) && (n >= 128 ==> |BigEndian(n)| <= count) by {
          NumeralBound(s[1..1 + count]);
          BigEndianWidth(n, count);
        }
        assert Pow256(4) == TWO_32 && Pow256(3) < TWO_32 && Pow256(2) < TWO_32 && Pow256(1) < TWO_32;
        Some((n, s[1 + count..]))
  }

  lemma LengthRoundTrip(n: nat, rest: seq<byte>)
    requires n < TWO_32
    ensures ReadLength(LengthBytes(n) + rest) == Some((n, rest))
  {
    PowersUpTo8();
    hide BigEndian, Numeral, Pow256;
    if n >= 128 {
      var raw := BigEndian(n);
      BigEndianWidth(n, 4);
      NumeralOfBigEndian(n);
      var s := LengthBytes(n) + rest;
      assert s[1..1 + |raw|] == raw && s[1 + |raw|..] == rest;
    }
  }

  // ---------- elements ----------

  function Element(tag: byte, body: seq<byte>): (s: seq<byte>)
    ensures |s| >= 2 + |body|
    ensures s[0] == tag
  {
    [tag] + LengthBytes(|body|) + body
  }

  datatype Tlv = Tlv(tag: byte, body: seq<byte>)

  function ReadTagLength(s: seq<byte>): (r: Option<((byte, nat), seq<byte>)>)
    ensures r.Some? ==> |r.value.1| + 2 <= |s| && r.value.0.1 < TWO_32
    ensures r.Some? ==> 1 + |LengthBytes(r.value.0.1)| + |r.value.1| <= |s|
  {
    if s == [] then None
    else
      var (length, rest) :- ReadLength(s[1..]);
      Some(((s[0], length), rest))
  }

  function ReadElement(s: seq<byte>): (r: Option<(Tlv, seq<byte>)>)
    ensures r.Some? ==> |r.value.0.body| + |r.value.1| + 2 <= |s| && |r.value.0.body| < TWO_32
    ensures r.Some? ==> |Element(r.value.0.tag, r.value.0.body)| + |r.value.1| <= |s|
    ensures r.Some? ==> s[0] == r.value.0.tag
  {
    var ((tag, length), rest) :- ReadTagLength(s);
    if |rest| < length then None
    else Some((Tlv(tag, rest[..length]), rest[length..]))
  }

  lemma ElementRoundTrip(tag: byte, body: seq<byte>, rest: seq<byte>)
    requires |body| < TWO_32
    ensures ReadElement(Element(tag, body) + rest) == Some((Tlv(tag, body), rest))
  {
    var s := Element(tag, body) + rest;
    assert s[1..] == LengthBytes(|body|) + (body + rest);
    LengthRoundTrip(|body|, body + rest);
    assert (body + rest)[..|body|] == body && (body + rest)[|body|..] == rest;
  }

  /** `readConstructed(tag, ...)` and `readOctetString(tag, ...)`: the contents of one element with this tag. */
  function ReadTagged(tag: byte, s: seq<byte>): (r: Option<(seq<byte>, seq<byte>)>)
    ensures r.Some? ==> |r.value.0| + |r.value.1| + 2 <= |s| && |r.value.0| < TWO_32
    ensures r.Some? ==> |Element(tag, r.value.0)| + |r.value.1| <= |s|
  {
    var (e, rest) :- ReadElement(s);
    if e.tag != tag then None else Some((e.body, rest))
  }

  lemma TaggedRoundTrip(tag: byte, body: seq<byte>, rest: seq<byte>)
    requires |body| < TWO_32
    ensures ReadTagged(tag, Element(tag, body) + rest) == Some((body, rest))
  {
    ElementRoundTrip(tag, body, rest);
  }

  lemma TaggedRoundTripEnd(tag: byte, body: seq<byte>)
    requires |body| < TWO_32
    ensures ReadTagged(tag, Element(tag, body)) == Some((body, []))
  {
    TaggedRoundTrip(tag, body, []);
    assert Element(tag, body) + [] == Element(tag, body);
  }

  function ReadOctetString(s: seq<byte>): (r: Option<(Text, seq<byte>)>)
    ensures r.Some? ==> |r.value.0| + |r.value.1| + 2 <= |s|
  {
    ReadTagged(BER_OCTET_STRING, s)
  }

  function OctetString(value: Text): seq<byte> {
    Element(BER_OCTET_STRING, value)
  }

  /** `skip()`: one element of any tag. */
  function Skip(s: seq<byte>): (r: Option<seq<byte>>)
    ensures r.Some? ==> |r.value| + 2 <= |s|
  {
    var (e, rest) :- ReadElement(s);
    Some(rest)
  }

  // ---------- integers ----------

  function FixedBytes(u: nat, k: nat): (s: seq<byte>)
    ensures |s| == k
  {
    if k == 0 then [] else FixedBytes(u / 256, k - 1) + [u % 256]
  }

  /** Drops leading octets that only repeat the sign of the next one. */
  function TrimSign(raw: seq<byte>): (s: seq<byte>)
    ensures |s| <= |raw| && (raw != [] ==> s != [])
  {
    if |raw| >= 2 && ((raw[0] == 0x00 && raw[1] < 0x80) || (raw[0] == 0xff && raw[1] >= 0x80))
    then TrimSign(raw[1..])
    else raw
  }

  function IntegerBytes(v: int64): (s: seq<byte>)
    ensures 1 <= |s| <= 8
  {
    TrimSign(FixedBytes(v % TWO_64, 8))
  }

  /** The decoder's shift loop on a 64-bit register. */
  function ShiftIn(bits: nat, s: seq<byte>): nat
    decreases |s|
  {
    if s == [] then bits else (ShiftIn(bits, s[..|s| - 1]) * 256 + s[|s| - 1]) % TWO_64
  }

  function AsSigned64(bits: int): int64
    requires 0 <= bits < TWO_64
  {
    if bits < TWO_63 then bits else bits - TWO_64
  }

  lemma ShiftInBound(bits: nat, s: seq<byte>)
    requires bits < TWO_64
    ensures ShiftIn(bits, s) < TWO_64
  {
  }

  function IntegerOf(s: seq<byte>): int64
    requires 1 <= |s| <= 8
  {
    var start := if s[0] >= 0x80 then TWO_64 - 1 else 0;
    ShiftInBound(start, s);
    AsSigned64(ShiftIn(start, s))
  }

  function ReadInteger(s: seq<byte>): (r: Option<(int64, seq<byte>)>)
    ensures r.Some? ==> |r.value.1| + 2 <= |s|
  {
    var (body, rest) :- ReadTagged(BER_INTEGER, s);
    if |body| == 0 || |body| > 8 then None else Some((IntegerOf(body), rest))
  }

  function Integer(v: int64): seq<byte> {
    Element(BER_INTEGER, IntegerBytes(v))
  }

  /** Two's-complement reading of an octet string of any width. */
  function SignedValue(s: seq<byte>): int
    requires s != []
  {
    Numeral(s) - (if s[0] >= 0x80 then Pow256(|s|) else 0)
  }

  lemma {:induction false} NumeralSplitsFirst(s: seq<byte>)
    requires s != []
    ensures Numeral(s) == s[0] * Pow256(|s| - 1) + Numeral(s[1..])
  {
    if |s| > 1 {
      NumeralSplitsFirst(s[..|s| - 1]);
      assert s[..|s| - 1][1..] == s[1..][..|s| - 2];
      assert s[1..][|s| - 2] == s[|s| - 1];
      var p := Pow256(|s| - 2);
      calc {
        Numeral(s);
        (s[0] * p + Numeral(s[1..|s| - 1])) * 256 + s[|s| - 1];
        s[0] * (256 * p) + (Numeral(s[1..|s| - 1]) * 256 + s[|s| - 1]);
      }
    } else {
      assert s[..0] == [] && s[1..] == [];
      assert Pow256(0) == 1;
    }
  }

  lemma {:induction false} TrimSignKeepsValue(raw: seq<byte>)
    requires raw != []
    ensures SignedValue(TrimSign(raw)) == SignedValue(raw)
  {
    if TrimSign(raw) != raw {
      NumeralSplitsFirst(raw);
      TrimSignKeepsValue(raw[1..]);
      assert Pow256(|raw|) == 256 * Pow256(|raw| - 1);
      hide Numeral, Pow256;
      if raw[0] == 0xff {
        assert Numeral(raw) == 0xff * Pow256(|raw| - 1) + Numeral(raw[1..]);
      } else {
        assert Numeral(raw) == Numeral(raw[1..]);
      }
    }
  }

  lemma {:induction false} NumeralOfFixedBytes(u: nat, k: nat)
    requires u < Pow256(k)
    ensures Numeral(FixedBytes(u, k)) == u
  {
    if k > 0 {
      NumeralOfFixedBytes(u / 256, k - 1);
      assert FixedBytes(u, k)[..k - 1] == FixedBytes(u / 256, k - 1);
    }
  }

  /** The shift loop without the 64-bit wrap. */
  function ShiftUnbounded(start: nat, s: seq<byte>): nat
    decreases |s|
  {
    if s == [] then start else ShiftUnbounded(start, s[..|s| - 1]) * 256 + s[|s| - 1]
  }

  lemma {:induction false} ShiftInIsModular(start: nat, s: seq<byte>)
    requires start < TWO_64
    ensures ShiftIn(start, s) == ShiftUnbounded(start, s) % TWO_64
  {
    if s != [] {
      var init := s[..|s| - 1];
      ShiftInIsModular(start, init);
      ShiftStep(ShiftUnbounded(start, init), s[|s| - 1]);
    }
  }

  lemma ShiftStep(x: nat, b: byte)
    ensures (x % TWO_64 * 256 + b) % TWO_64 == (x * 256 + b) % TWO_64
  {
    var q := x / TWO_64;
    assert x == x % TWO_64 + q * TWO_64;
    ModuloShift(x % TWO_64 * 256 + b, q * 256);
  }

  lemma {:induction false} ShiftFromZero(s: seq<byte>)
    ensures ShiftUnbounded(0, s) == Numeral(s)
  {
    if s != [] {
      ShiftFromZero(s[..|s| - 1]);
    }
  }

  lemma {:induction false} ShiftFromOnes(s: seq<byte>)
    ensures ShiftUnbounded(TWO_64 - 1, s) == TWO_64 * Pow256(|s|) - Pow256(|s|) + Numeral(s)
  {
    if s != [] {
      ShiftFromOnes(s[..|s| - 1]);
    }
  }

  lemma ModuloShift(a: int, q: int)
    ensures (a + q * TWO_64) % TWO_64 == a % TWO_64
  {
  }

  lemma FirstOctetWeight(b: byte, q: int, tail: int)
    requires 0 <= tail < q
    ensures b >= 0x80 ==> 0x80 * q <= b * q + tail
    ensures b < 0x80 ==> b * q + tail < 0x80 * q
    ensures b < 0xff ==> b * q + tail < 0xff * q
    ensures b > 0 ==> b * q + tail >= q
    ensures b * q + tail < 0x100 * q
  {
    var above := if b < 0x80 then 0x7f else if b < 0xff then 0xfe else 0xff;
    var below := if b >= 0x80 then 0x80 else if b > 0 then 1 else 0;
    MultiplyMonotone(b, above, q);
    MultiplyMonotone(below, b, q);
  }

  lemma MultiplyMonotone(a: int, b: int, q: int)
    requires a <= b && q >= 0
    ensures a * q <= b * q
  {
  }

  /** With `q` the weight of the first octet, the value lies in [-128q, 128q) and has the first octet's sign. */
  lemma SignedRange(s: seq<byte>, q: int)
    requires s != [] && q == Pow256(|s| - 1)
    ensures -0x80 * q <= SignedValue(s) < 0x80 * q
    ensures s[0] >= 0x80 <==> SignedValue(s) < 0
  {
    NumeralSplitsFirst(s);
    NumeralBound(s[1..]);
    FirstOctetWeight(s[0], q, Numeral(s[1..]));
    assert Pow256(|s|) == 256 * q;
  }

  lemma {:induction false} Pow256Monotone(j: nat, k: nat)
    requires j <= k
    ensures Pow256(j) <= Pow256(k)
  {
    if j < k {
      Pow256Monotone(j, k - 1);
    }
  }

  lemma SignedFits(s: seq<byte>)
    requires 1 <= |s| <= 8
    ensures -TWO_63 <= SignedValue(s) < TWO_63
  {
    SignedRange(s, Pow256(|s| - 1));
    Pow256Monotone(|s| - 1, 7);
    PowersUpTo8();
    hide Numeral, Pow256;
  }

  /** The sign-extending shift loop computes the two's-complement value. */
  lemma IntegerOfIsSignedValue(s: seq<byte>)
    requires 1 <= |s| <= 8
    ensures IntegerOf(s) == SignedValue(s)
  {
    hide ShiftIn, Numeral, Pow256, ShiftUnbounded;
    SignedFits(s);
    SignedRange(s, Pow256(|s| - 1));
    if s[0] >= 0x80 {
      ShiftInIsModular(TWO_64 - 1, s);
      ShiftFromOnes(s);
      ModuloShift(SignedValue(s), Pow256(|s|));
    } else {
      ShiftInIsModular(0, s);
      ShiftFromZero(s);
    }
  }

  lemma PowersUpTo8()
    ensures Pow256(0) == 1 && Pow256(1) == 0x100 && Pow256(2) == 0x1_0000 && Pow256(3) == 0x100_0000
    ensures Pow256(4) == TWO_32 && Pow256(5) == 0x100_0000_0000 && Pow256(6) == 0x1_0000_0000_0000
    ensures Pow256(7) == 0x100_0000_0000_0000 && Pow256(8) == TWO_64
  {
    assert Pow256(2) == 0x1_0000;
    assert Pow256(4) == TWO_32;
    assert Pow256(6) == 0x1_0000_0000_0000;
  }

  /** Minimal two's-complement octets read back as the same number, for every 64-bit integer. */
  lemma IntegerBytesRoundTrip(v: int64)
    ensures IntegerOf(IntegerBytes(v)) == v
  {
    var u := v % TWO_64;
    var raw := FixedBytes(u, 8);
    PowersUpTo8();
    NumeralOfFixedBytes(u, 8);
    NumeralSplitsFirst(raw);
    NumeralBound(raw[1..]);
    assert SignedValue(raw) == v;
    TrimSignKeepsValue(raw);
    IntegerOfIsSignedValue(IntegerBytes(v));
  }

  lemma IntegerRoundTrip(v: int64, rest: seq<byte>)
    ensures ReadInteger(Integer(v) + rest) == Some((v, rest))
  {
    IntegerBytesRoundTrip(v);
    TaggedRoundTrip(BER_INTEGER, IntegerBytes(v), rest);
  }

  // ---------- enumerated values: read without sign extension ----------

  function EnumeratedOf(s: seq<byte>): int32
    requires 1 <= |s| <= 8
  {
    ShiftInBound(0, s);
    ToInt32(AsSigned64(ShiftIn(0, s)))
  }

  function ReadEnumerated(s: seq<byte>): (r: Option<(int32, seq<byte>)>)
    ensures r.Some? ==> |r.value.1| + 2 <= |s|
  {
    var (body, rest) :- ReadTagged(BER_ENUMERATED, s);
    if |body| == 0 || |body| > 8 then None else Some((EnumeratedOf(body), rest))
  }

  function Enumerated(v: int32): seq<byte> {
    Element(BER_ENUMERATED, IntegerBytes(v))
  }

  lemma ShiftInZero(s: seq<byte>)
    requires |s| <= 4
    ensures ShiftIn(0, s) == Numeral(s) < TWO_32
  {
    ShiftInIsModular(0, s);
    ShiftFromZero(s);
    NumeralBound(s);
    PowersUpTo8();
  }

  /** Without sign extension, a negative value comes back offset by the weight of its octets. */
  lemma EnumeratedValue(v: int32, p: int)
    requires p == Pow256(|IntegerBytes(v)|)
    ensures EnumeratedOf(IntegerBytes(v)) == ToInt32(v + if v < 0 then p else 0)
  {
    var s := IntegerBytes(v);
    IntegerBytesWidth(v);
    assert Numeral(s) == v + if v < 0 then p else 0 by {
      IntegerBytesRoundTrip(v);
      IntegerOfIsSignedValue(s);
      SignedRange(s, Pow256(|s| - 1));
    }
    ShiftInZero(s);
  }

  /** An enumerated value survives the trip exactly when it is non-negative or needs all four octets. */
  lemma EnumeratedRoundTrip(v: int32, rest: seq<byte>)
    ensures ReadEnumerated(Enumerated(v) + rest) == Some((v, rest)) <==> v >= 0 || v < -0x80_0000
  {
    var s := IntegerBytes(v);
    var p := Pow256(|s|);
    TaggedRoundTrip(BER_ENUMERATED, s, rest);
    EnumeratedValue(v, p);
    IntegerBytesWidth(v);
    PowersUpTo8();
    OffsetIsLost(v, p);
  }

  lemma OffsetIsLost(v: int32, p: int)
    requires p == 0x100 || p == 0x1_0000 || p == 0x100_0000 || p == TWO_32
    ensures ToInt32(v + p) == v <==> p == TWO_32
    ensures ToInt32(v) == v
  {
  }

  lemma {:induction false} TrimmedFirst(raw: seq<byte>)
    requires raw != []
    ensures var s := TrimSign(raw);
            |s| >= 2 ==> !((s[0] == 0x00 && s[1] < 0x80) || (s[0] == 0xff && s[1] >= 0x80))
  {
    if TrimSign(raw) != raw {
      TrimmedFirst(raw[1..]);
    }
  }

  /** A trimmed numeral does not fit in one octet less. */
  lemma TrimmedIsMinimal(s: seq<byte>, r: int)
    requires |s| >= 2 && r == Pow256(|s| - 2)
    requires !((s[0] == 0x00 && s[1] < 0x80) || (s[0] == 0xff && s[1] >= 0x80))
    ensures !(-0x80 * r <= SignedValue(s) < 0x80 * r)
  {
    hide Numeral;
    NumeralSplitsFirst(s);
    NumeralSplitsFirst(s[1..]);
    NumeralBound(s[1..][1..]);
    NumeralBound(s[1..]);
    FirstOctetWeight(s[1], r, Numeral(s[1..][1..]));
    FirstOctetWeight(s[0], Pow256(|s| - 1), Numeral(s[1..]));
    assert Pow256(|s| - 1) == 256 * r;
    assert Pow256(|s|) == 256 * Pow256(|s| - 1);
  }

  /** The width of the minimal form, for values that fit an `int`. */
  lemma IntegerBytesWidth(v: int32)
    ensures |IntegerBytes(v)| <= 4
    ensures |IntegerBytes(v)| == 4 <==> !(-0x80_0000 <= v < 0x80_0000)
  {
    var s := IntegerBytes(v);
    IntegerBytesRoundTrip(v);
    IntegerOfIsSignedValue(s);
    SignedRange(s, Pow256(|s| - 1));
    if |s| >= 2 {
      TrimmedFirst(FixedBytes(v % TWO_64, 8));
      TrimmedIsMinimal(s, Pow256(|s| - 2));
    }
    PowersUpTo8();
  }

  // ---------- booleans ----------

  function ReadBoolean(s: seq<byte>): (r: Option<(bool, seq<byte>)>)
    ensures r.Some? ==> |r.value.1| + 2 <= |s|
  {
    var (body, rest) :- ReadTagged(BER_BOOLEAN, s);
    if |body| != 1 then None else Some((body[0] != 0, rest))
  }

  function Boolean(v: bool): seq<byte> {
    Element(BER_BOOLEAN, [if v then 0xff else 0x00])
  }

  lemma BooleanRoundTrip(v: bool, rest: seq<byte>)
    ensures ReadBoolean(Boolean(v) + rest) == Some((v, rest))
  {
    TaggedRoundTrip(BER_BOOLEAN, [if v then 0xff else 0x00], rest);
  }
}
