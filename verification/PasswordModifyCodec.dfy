/** The value of the password modify extended request. */
module PasswordModifyCodec {
  import opened Octets
  import opened Ber
  import opened Messages

  datatype PasswordModifyRequest = PasswordModifyRequest(userIdentity: Text, oldPassword: Option<Text>, newPassword: Option<Text>)

  const NO_CHANGE: PasswordModifyRequest := PasswordModifyRequest([], None, None)

  function OptionalField(tag: byte, field: Option<Text>): seq<byte> {
    if field.None? then [] else Element(tag, field.value)
  }

  function FieldsBytes(r: PasswordModifyRequest): seq<byte> {
    Optional(TAG_CONTEXT_0, r.userIdentity)
    + (OptionalField(TAG_CONTEXT_1, r.oldPassword)
       + OptionalField(TAG_CONTEXT_2, r.newPassword))
  }

  function PasswordModifyBytes(r: PasswordModifyRequest): Text {
    Element(BER_SEQUENCE, FieldsBytes(r))
  }

  /** Fields in any order, the last of each kind counting; unknown elements are skipped. */
  function ReadFields(s: seq<byte>, sofar: PasswordModifyRequest): Option<PasswordModifyRequest>
    decreases |s|
  {
    if s == [] then Some(sofar)
    else
      var (e, rest) :- ReadElement(s);
      if e.tag == TAG_CONTEXT_0 then ReadFields(rest, sofar.(userIdentity := e.body))
      else if e.tag == TAG_CONTEXT_1 then ReadFields(rest, sofar.(oldPassword := Some(e.body)))
      else if e.tag == TAG_CONTEXT_2 then ReadFields(rest, sofar.(newPassword := Some(e.body)))
      else ReadFields(rest, sofar)
  }

  function ReadPasswordModify(value: Text): Option<PasswordModifyRequest> {
    if value == [] then Some(NO_CHANGE)
    else
      var (fields, _) :- ReadTagged(BER_SEQUENCE, value);
      ReadFields(fields, NO_CHANGE)
  }

  lemma FieldRoundTrip(tag: byte, body: Text, tail: seq<byte>, sofar: PasswordModifyRequest)
    requires |body| < TWO_32
    ensures tag == TAG_CONTEXT_0 ==> ReadFields(Element(tag, body) + tail, sofar) == ReadFields(tail, sofar.(userIdentity := body))
    ensures tag == TAG_CONTEXT_1 ==> ReadFields(Element(tag, body) + tail, sofar) == ReadFields(tail, sofar.(oldPassword := Some(body)))
    ensures tag == TAG_CONTEXT_2 ==> ReadFields(Element(tag, body) + tail, sofar) == ReadFields(tail, sofar.(newPassword := Some(body)))
  {
    hide Element, ReadElement;
    ElementRoundTrip(tag, body, tail);
  }

  /** Every password modify request reads back from its own value. */
  lemma PasswordModifyRoundTrip(r: PasswordModifyRequest)
    requires |FieldsBytes(r)| < TWO_32
    ensures ReadPasswordModify(PasswordModifyBytes(r)) == Some(r)
  {
    hide Element, ReadElement, ReadTagged, ReadFields;
    TaggedRoundTripEnd(BER_SEQUENCE, FieldsBytes(r));
    var last := OptionalField(TAG_CONTEXT_2, r.newPassword);
    var middle := OptionalField(TAG_CONTEXT_1, r.oldPassword) + last;
    var r1 := NO_CHANGE.(userIdentity := r.userIdentity);
    var r2 := r1.(oldPassword := r.oldPassword);
    assert ReadFields([], r) == Some(r) by {
      NoFields(r);
    }
    assert ReadFields(last, r2) == Some(r) by {
      if r.newPassword.Some? {
        FieldRoundTrip(TAG_CONTEXT_2, r.newPassword.value, [], r2);
        assert last + [] == last;
      }
    }
    assert ReadFields(middle, r1) == Some(r) by {
      if r.oldPassword.Some? {
        FieldRoundTrip(TAG_CONTEXT_1, r.oldPassword.value, last, r1);
      } else {
        assert middle == last;
      }
    }
    if r.userIdentity != [] {
      FieldRoundTrip(TAG_CONTEXT_0, r.userIdentity, middle, NO_CHANGE);
    } else {
      assert FieldsBytes(r) == middle;
    }
  }

  lemma NoFields(r: PasswordModifyRequest)
    ensures ReadFields([], r) == Some(r)
  {
  }
}
