/** The BER writer, which appends to a buffer, and the BER reader, which advances through one. */
module BerStream {
  import opened Octets
  import opened Ber

  // ---------- the encoding loops ----------

  lemma BigEndianSplit(n: nat)
    requires n > 0
    ensures BigEndian(n) == BigEndian(n / 256) + [n % 256]
  {
  }

  function Reversed(s: seq<byte>): seq<byte> {
    if s == [] then [] else [s[|s| - 1]] + Reversed(s[..|s| - 1])
  }

  lemma ReversedPush(s: seq<byte>, b: byte)
    ensures Reversed(s + [b]) == [b] + Reversed(s)
  {
    assert (s + [b])[..|s|] == s;
  }

  lemma {:induction false} ReversedLength(s: seq<byte>)
    ensures |Reversed(s)| == |s|
  {
    if s != [] {
      ReversedLength(s[..|s| - 1]);
    }
  }

  lemma MoveOctet(value: nat, raw: seq<byte>)
    requires value > 0
    ensures BigEndian(value / 256) + Reversed(raw + [value % 256]) == BigEndian(value) + Reversed(raw)
  {
    hide BigEndian, Reversed;
    BigEndianSplit(value);
    ReversedPush(raw, value % 256);
  }

  /** Octets are collected least significant first and copied out reversed. */
  method EncodeLength(length: nat) returns (encoded: seq<byte>)
    ensures encoded == LengthBytes(length)
  {
    hide BigEndian, Reversed;
    if length < 128 {
      return [length];
    }
    var raw: seq<byte> := [];
    var value := length;
    NoOctets();
    assert BigEndian(length) + [] == BigEndian(length);
    while value > 0
      invariant BigEndian(value) + Reversed(raw) == BigEndian(length)
    {
      MoveOctet(value, raw);
      raw := raw + [value % 256];
      value := value / 256;
    }
    assert [] + Reversed(raw) == Reversed(raw);
    ReversedLength(raw);
    encoded := [(0x80 + |raw|) % 256] + Reversed(raw);
  }

  lemma NoOctets()
    ensures BigEndian(0) == [] && Reversed([]) == []
  {
  }

  lemma {:induction false} FixedBytesAt(u: nat, k: nat, i: nat)
    requires i < k
    ensures FixedBytes(u, k)[i] == u / Pow256(k - 1 - i) % 256
    decreases k
  {
    if i < k - 1 {
      FixedBytesAt(u / 256, k - 1, i);
      DivideTwice(u, Pow256(k - 2 - i));
    }
  }

  lemma DivideTwice(u: nat, p: nat)
    requires p > 0
    ensures u / 256 / p == u / (256 * p)
  {
    var q, r := u / 256, u % 256;
    var a, b := q / p, q % p;
    assert u == 256 * (p * a + b) + r;
    Regroup(p, a, b, r);
    QuotientIs(u, 256 * p, a, 256 * b + r);
  }

  lemma Regroup(p: nat, a: nat, b: nat, r: nat)
    requires b < p && r < 256
    ensures 256 * (p * a + b) + r == (256 * p) * a + (256 * b + r) && 256 * b + r < 256 * p
  {
  }

  lemma QuotientIs(u: nat, d: nat, q: nat, r: nat)
    requires d > 0 && u == d * q + r && r < d
    ensures u / d == q
  {
    var q1, r1 := u / d, u % d;
    assert d * q1 + r1 == u;
    if q1 < q {
      Larger(d, q1, q);
      assert false;
    }
    if q < q1 {
      Larger(d, q, q1);
      assert false;
    }
  }

  lemma Larger(d: nat, a: nat, b: nat)
    requires a < b
    ensures d * a + d <= d * b
  {
    assert d * b == d * a + d * (b - a);
    Positive(d, b - a);
  }

  lemma Positive(d: nat, k: nat)
    requires k >= 1
    ensures d * k >= d
  {
  }

  /** Eight octets, most significant first, without the leading ones that only repeat the sign. */
  method EncodeInteger(value: int64) returns (encoded: seq<byte>)
    ensures encoded == IntegerBytes(value)
  {
    hide FixedBytes, Pow256;
    var bits := value % TWO_64;
    var raw: seq<byte> := [];
    var i := 0;
    while i < 8
      invariant 0 <= i <= 8 && |raw| == i
      invariant forall j :: 0 <= j < i ==> raw[j] == FixedBytes(bits, 8)[j]
    {
      FixedBytesAt(bits, 8, i);
      raw := raw + [bits / Pow256(7 - i) % 256];
      i := i + 1;
    }
    assert raw == FixedBytes(bits, 8);
    var start := 0;
    assert raw[0..] == raw;
    while start + 1 < |raw|
      invariant start < |raw|
      invariant TrimSign(raw[start..]) == TrimSign(raw)
    {
      var zeros := raw[start] == 0x00 && raw[start + 1] < 0x80;
      var ones := raw[start] == 0xff && raw[start + 1] >= 0x80;
      if !zeros && !ones {
        break;
      }
      assert raw[start..][1..] == raw[start + 1..];
      start := start + 1;
    }
    return raw[start..];
  }

  // ---------- the writer ----------

  class BerWriter {
    var bytes: seq<byte>

    constructor ()
      ensures bytes == []
    {
      bytes := [];
    }

    method WriteBytes(octets: seq<byte>)
      modifies this
      ensures bytes == old(bytes) + octets
    {
      bytes := bytes + octets;
    }

    method WriteTagLength(tag: byte, length: nat)
      modifies this
      ensures bytes == old(bytes) + [tag] + LengthBytes(length)
    {
      bytes := bytes + [tag];
      var encoded := EncodeLength(length);
      WriteBytes(encoded);
    }

    /** `writeConstructed`, and `writeOctetString` with a tag: the same octets. */
    method WriteElement(tag: byte, body: seq<byte>)
      modifies this
      ensures bytes == old(bytes) + Element(tag, body)
    {
      hide LengthBytes;
      WriteTagLength(tag, |body|);
      if body != [] {
        WriteBytes(body);
      }
      assert bytes == old(bytes) + ([tag] + LengthBytes(|body|) + body);
    }

    method WriteOctetString(value: Text)
      modifies this
      ensures bytes == old(bytes) + OctetString(value)
    {
      hide Element;
      WriteElement(BER_OCTET_STRING, value);
    }

    method WriteInteger(value: int64)
      modifies this
      ensures bytes == old(bytes) + Integer(value)
    {
      hide Element, IntegerBytes;
      var encoded := EncodeInteger(value);
      WriteElement(BER_INTEGER, encoded);
    }

    method WriteEnumerated(value: int32)
      modifies this
      ensures bytes == old(bytes) + Enumerated(value)
    {
      hide Element, IntegerBytes;
      var encoded := EncodeInteger(value);
      WriteElement(BER_ENUMERATED, encoded);
    }

    method WriteBoolean(value: bool)
      modifies this
      ensures bytes == old(bytes) + Boolean(value)
    {
      hide Element;
      WriteElement(BER_BOOLEAN, [if value then 0xff else 0x00]);
    }
  }

  // ---------- the reader ----------

  lemma NumeralPush(s: seq<byte>, i: nat)
    requires i < |s|
    ensures Numeral(s[..i + 1]) == Numeral(s[..i]) * 256 + s[i]
  {
    assert s[..i + 1][..i] == s[..i];
  }

  lemma ShiftInPush(bits: nat, s: seq<byte>, i: nat)
    requires i < |s|
    ensures ShiftIn(bits, s[..i + 1]) == (ShiftIn(bits, s[..i]) * 256 + s[i]) % TWO_64
    ensures ShiftIn(bits, s[..0]) == bits
  {
    assert s[..i + 1][..i] == s[..i];
  }

  /** The register loop of the integer readers. */
  method ShiftOctets(start: nat, octets: seq<byte>) returns (bits: nat)
    requires start < TWO_64
    ensures bits == ShiftIn(start, octets) && bits < TWO_64
  {
    hide ShiftIn;
    bits := start;
    var i := 0;
    assert octets[..0] == [];
    NothingShifted(start);
    while i < |octets|
      invariant 0 <= i <= |octets|
      invariant bits == ShiftIn(start, octets[..i])
    {
      ShiftInPush(start, octets, i);
      bits := (bits * 256 + octets[i]) % TWO_64;
      i := i + 1;
    }
    assert octets[..|octets|] == octets;
    ShiftInBound(start, octets);
  }

  lemma NothingShifted(start: nat)
    ensures ShiftIn(start, []) == start
  {
  }

  method JoinOctets(octets: seq<byte>) returns (n: nat)
    ensures n == Numeral(octets)
  {
    hide Numeral;
    n := 0;
    var i := 0;
    NothingRead(octets);
    while i < |octets|
      invariant 0 <= i <= |octets|
      invariant n == Numeral(octets[..i])
    {
      NumeralPush(octets, i);
      n := n * 256 + octets[i];
      i := i + 1;
    }
    assert octets[..|octets|] == octets;
  }

  /** The cases of a length prefix. */
  lemma LengthForms(s: seq<byte>)
    ensures s == [] ==> ReadLength(s) == None
    ensures s != [] && s[0] < 0x80 ==> ReadLength(s) == Some((s[0], s[1..]))
    ensures s != [] && s[0] >= 0x80 ==>
              var count := s[0] - 0x80;
              ReadLength(s) == if count == 0 || count > 4 || |s| < 1 + count then None
                               else Some((Numeral(s[1..1 + count]), s[1 + count..]))
  {
    hide Numeral, Pow256, BigEndian;
  }

  class BerReader {
    const data: seq<byte>
    var offset: nat
    var ok: bool

    /** The offset never passes the end. */
    ghost predicate Valid()
      reads this
    {
      offset <= |data|
    }

    /** The unread octets; a reader that failed has none left. */
    ghost function Rest(): (s: seq<byte>)
      requires Valid()
      reads this
    {
      if ok then data[offset..] else []
    }

    constructor (octets: seq<byte>)
      ensures Valid() && ok && data == octets && Rest() == octets
    {
      data := octets;
      offset := 0;
      ok := true;
    }

    method AtEnd() returns (r: bool)
      requires Valid()
      ensures r == (Rest() == [])
    {
      return !ok || offset >= |data|;
    }

    method PeekTag() returns (tag: byte)
      requires Valid()
      ensures tag == if Rest() == [] then 0 else Rest()[0]
    {
      if !ok || offset >= |data| {
        return 0;
      }
      return data[offset];
    }

    method Consume(n: nat) returns (r: bool, octets: seq<byte>)
      requires Valid()
      modifies this
      ensures Valid() && offset >= old(offset) && ok == r
      ensures r == (old(ok) && n <= |old(Rest())|)
      ensures r ==> octets == old(Rest())[..n] && Rest() == old(Rest())[n..]
    {
      if !ok || offset + n > |data| {
        ok := false;
        return false, [];
      }
      octets := data[offset..offset + n];
      offset := offset + n;
      return true, octets;
    }

    /** The octets of a long length, shifted together. */
    method NextNumeral(count: nat) returns (r: bool, length: nat)
      requires Valid()
      modifies this
      ensures Valid() && offset >= old(offset) && ok == r
      ensures r == (old(ok) && count <= |old(Rest())|)
      ensures r ==> length == Numeral(old(Rest())[..count]) && Rest() == old(Rest())[count..]
    {
      hide Numeral;
      var octets;
      length := 0;
      r, octets := Consume(count);
      if r {
        length := JoinOctets(octets);
      }
    }

    method NextLength() returns (r: bool, length: nat)
      requires Valid()
      modifies this
      ensures Valid() && offset >= old(offset) && ok == r
      ensures ReadLength(old(Rest())) == if r then Some((length, Rest())) else None
    {
      hide Numeral, ReadLength;
      ghost var s := Rest();
      LengthForms(s);
      var first;
      length := 0;
      r, first := Consume(1);
      if !r {
        return;
      }
      if first[0] < 0x80 {
        return true, first[0];
      }
      var count := first[0] - 0x80;
      if count == 0 || count > 4 {
        ok := false;
        return false, 0;
      }
      assert Rest() == s[1..];
      assert count < |s| ==> s[1..][..count] == s[1..1 + count] && s[1..][count..] == s[1 + count..];
      r, length := NextNumeral(count);
    }

    method NextTagLength() returns (r: bool, tag: byte, length: nat)
      requires Valid()
      modifies this
      ensures Valid() && offset >= old(offset) && ok == r
      ensures ReadTagLength(old(Rest())) == if r then Some(((tag, length), Rest())) else None
    {
      hide ReadLength;
      var first;
      tag, length := 0, 0;
      r, first := Consume(1);
      if !r {
        return;
      }
      tag := first[0];
      r, length := NextLength();
    }

    /** `readConstructed` and the tagged `readOctetString`: the contents of the next element, if it has this tag. */
    method NextTagged(tag: byte) returns (r: bool, body: seq<byte>)
      requires Valid()
      modifies this
      ensures Valid() && offset >= old(offset) && ok == r
      ensures ReadTagged(tag, old(Rest())) == if r then Some((body, Rest())) else None
    {
      hide ReadTagLength;
      var actual, length;
      body := [];
      r, actual, length := NextTagLength();
      if !r || actual != tag {
        ok := false;
        return false, [];
      }
      r, body := Consume(length);
    }

    method NextOctetString() returns (r: bool, value: Text)
      requires Valid()
      modifies this
      ensures Valid() && offset >= old(offset) && ok == r
      ensures ReadOctetString(old(Rest())) == if r then Some((value, Rest())) else None
    {
      hide ReadTagged;
      r, value := NextTagged(BER_OCTET_STRING);
    }

    /** The reader over the contents, which are a copy of their own. */
    method NextConstructed(tag: byte) returns (r: bool, inner: BerReader)
      requires Valid()
      modifies this
      ensures Valid() && offset >= old(offset) && ok == r
      ensures fresh(inner) && inner.Valid() && inner.ok
      ensures ReadTagged(tag, old(Rest())) == if r then Some((inner.Rest(), Rest())) else None
    {
      hide ReadTagged;
      var body;
      r, body := NextTagged(tag);
      inner := new BerReader(body);
    }

    method NextInteger() returns (r: bool, value: int64)
      requires Valid()
      modifies this
      ensures Valid() && offset >= old(offset) && ok == r
      ensures ReadInteger(old(Rest())) == if r then Some((value, Rest())) else None
    {
      hide ReadTagged, ShiftIn;
      var body;
      r, body := NextTagged(BER_INTEGER);
      if !r || |body| == 0 || |body| > 8 {
        ok := false;
        return false, 0;
      }
      var bits := ShiftOctets(if body[0] >= 0x80 then TWO_64 - 1 else 0, body);
      value := AsSigned64(bits);
    }

    /** No sign extension here. */
    method NextEnumerated() returns (r: bool, value: int32)
      requires Valid()
      modifies this
      ensures Valid() && offset >= old(offset) && ok == r
      ensures ReadEnumerated(old(Rest())) == if r then Some((value, Rest())) else None
    {
      hide ReadTagged, ShiftIn;
      var body;
      r, body := NextTagged(BER_ENUMERATED);
      if !r || |body| == 0 || |body| > 8 {
        ok := false;
        return false, 0;
      }
      var bits := ShiftOctets(0, body);
      value := ToInt32(AsSigned64(bits));
    }

    method NextBoolean() returns (r: bool, value: bool)
      requires Valid()
      modifies this
      ensures Valid() && offset >= old(offset) && ok == r
      ensures ReadBoolean(old(Rest())) == if r then Some((value, Rest())) else None
    {
      hide ReadTagged;
      var body;
      r, body := NextTagged(BER_BOOLEAN);
      if !r || |body| != 1 {
        ok := false;
        return false, false;
      }
      value := body[0] != 0;
    }

    method SkipElement() returns (r: bool)
      requires Valid()
      modifies this
      ensures Valid() && offset >= old(offset) && ok == r
      ensures Skip(old(Rest())) == if r then Some(Rest()) else None
    {
      hide ReadTagLength;
      var tag, length, body;
      r, tag, length := NextTagLength();
      if !r {
        return;
      }
      r, body := Consume(length);
    }
  }

  lemma NothingRead(s: seq<byte>)
    ensures Numeral(s[..0]) == 0
  {
  }
}
