/** Directory entries, result codes and the enumerations shared by the protocol and the backends.
    Enumerations are read from the wire by unchecked casts, so they are modelled by their integers. */
module Entries {
  import opened Octets
  import opened OrderedKeys

  type Attributes = map<Text, seq<Text>>

  datatype DirectoryEntry = DirectoryEntry(dn: Text, attributes: Attributes)

  type ResultCode = byte

  const SUCCESS: ResultCode := 0
  const OPERATIONS_ERROR: ResultCode := 1
  const PROTOCOL_ERROR: ResultCode := 2
  const TIME_LIMIT_EXCEEDED: ResultCode := 3
  const SIZE_LIMIT_EXCEEDED: ResultCode := 4
  const AUTH_METHOD_NOT_SUPPORTED: ResultCode := 7
  const UNAVAILABLE_CRITICAL_EXTENSION: ResultCode := 12
  const CONFIDENTIALITY_REQUIRED: ResultCode := 13
  const SASL_BIND_IN_PROGRESS: ResultCode := 14
  const NO_SUCH_ATTRIBUTE: ResultCode := 16
  const UNDEFINED_ATTRIBUTE_TYPE: ResultCode := 17
  const CONSTRAINT_VIOLATION: ResultCode := 19
  const ATTRIBUTE_OR_VALUE_EXISTS: ResultCode := 20
  const INVALID_ATTRIBUTE_SYNTAX: ResultCode := 21
  const NO_SUCH_OBJECT: ResultCode := 32
  const INVALID_DN_SYNTAX: ResultCode := 34
  const INVALID_CREDENTIALS: ResultCode := 49
  const INSUFFICIENT_ACCESS_RIGHTS: ResultCode := 50
  const BUSY: ResultCode := 51
  const UNWILLING_TO_PERFORM: ResultCode := 53
  const NAMING_VIOLATION: ResultCode := 64
  const OBJECT_CLASS_VIOLATION: ResultCode := 65
  const NOT_ALLOWED_ON_NON_LEAF: ResultCode := 66
  const ENTRY_ALREADY_EXISTS: ResultCode := 68

  type SearchScope = int32

  const BASE: SearchScope := 0
  const ONE_LEVEL: SearchScope := 1
  const SUBTREE: SearchScope := 2

  type ModifyOp = int32

  const ADD: ModifyOp := 0
  const DELETE: ModifyOp := 1
  const REPLACE: ModifyOp := 2

  datatype AttributeModification = AttributeModification(op: ModifyOp, attribute: Text, values: seq<Text>)

  /** The values of the first attribute, in map order, whose name equals `name` up to case. */
  function ValuesNamed(attributes: Attributes, name: Text): (r: Option<seq<Text>>)
    ensures r.Some? <==> exists k :: k in attributes && IEquals(k, name)
  {
    match FindKey(attributes.Keys, name)
    case None => None
    case Some(k) => Some(attributes[k])
  }
}
