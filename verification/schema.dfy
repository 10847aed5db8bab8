/** The linked protobuf descriptors the engine reads, as plain data. A
    message-typed field refers to its type by name (the linked graph may be
    cyclic); a `Universe` resolves such a reference to the descriptor. */
module Schema {
  import opened Wrappers

  /** `FieldDescriptorProto.Type` of google/protobuf/descriptor.proto. */
  datatype FieldType =
    | TYPE_DOUBLE | TYPE_FLOAT | TYPE_INT64 | TYPE_UINT64 | TYPE_INT32
    | TYPE_FIXED64 | TYPE_FIXED32 | TYPE_BOOL | TYPE_STRING | TYPE_GROUP
    | TYPE_MESSAGE | TYPE_BYTES | TYPE_UINT32 | TYPE_ENUM | TYPE_SFIXED32
    | TYPE_SFIXED64 | TYPE_SINT32 | TYPE_SINT64

  /** The wire number descriptor.proto assigns to each type. */
  function Number(t: FieldType): (n: nat)
    ensures 1 <= n <= 18
  {
    match t
    case TYPE_DOUBLE => 1
    case TYPE_FLOAT => 2
    case TYPE_INT64 => 3
    case TYPE_UINT64 => 4
    case TYPE_INT32 => 5
    case TYPE_FIXED64 => 6
    case TYPE_FIXED32 => 7
    case TYPE_BOOL => 8
    case TYPE_STRING => 9
    case TYPE_GROUP => 10
    case TYPE_MESSAGE => 11
    case TYPE_BYTES => 12
    case TYPE_UINT32 => 13
    case TYPE_ENUM => 14
    case TYPE_SFIXED32 => 15
    case TYPE_SFIXED64 => 16
    case TYPE_SINT32 => 17
    case TYPE_SINT64 => 18
  }

  /** The enumeration value with wire number `n`, if there is one. */
  function FromNumber(n: int): (r: Option<FieldType>)
    ensures r.Some? <==> 1 <= n <= 18
  {
    if n == 1 then Some(TYPE_DOUBLE)
    else if n == 2 then Some(TYPE_FLOAT)
    else if n == 3 then Some(TYPE_INT64)
    else if n == 4 then Some(TYPE_UINT64)
    else if n == 5 then Some(TYPE_INT32)
    else if n == 6 then Some(TYPE_FIXED64)
    else if n == 7 then Some(TYPE_FIXED32)
    else if n == 8 then Some(TYPE_BOOL)
    else if n == 9 then Some(TYPE_STRING)
    else if n == 10 then Some(TYPE_GROUP)
    else if n == 11 then Some(TYPE_MESSAGE)
    else if n == 12 then Some(TYPE_BYTES)
    else if n == 13 then Some(TYPE_UINT32)
    else if n == 14 then Some(TYPE_ENUM)
    else if n == 15 then Some(TYPE_SFIXED32)
    else if n == 16 then Some(TYPE_SFIXED64)
    else if n == 17 then Some(TYPE_SINT32)
    else if n == 18 then Some(TYPE_SINT64)
    else None
  }

  /** The numbering is a bijection between the enumeration and 1..18. */
  lemma NumberRoundTrip(t: FieldType, n: int)
    ensures FromNumber(Number(t)) == Some(t)
    ensures FromNumber(n).Some? ==> Number(FromNumber(n).value) == n
  {
  }

  /** The enumeration's generated `String()` name, e.g. "TYPE_INT32". */
  function TypeName(t: FieldType): string {
    match t
    case TYPE_DOUBLE => "TYPE_DOUBLE"
    case TYPE_FLOAT => "TYPE_FLOAT"
    case TYPE_INT64 => "TYPE_INT64"
    case TYPE_UINT64 => "TYPE_UINT64"
    case TYPE_INT32 => "TYPE_INT32"
    case TYPE_FIXED64 => "TYPE_FIXED64"
    case TYPE_FIXED32 => "TYPE_FIXED32"
    case TYPE_BOOL => "TYPE_BOOL"
    case TYPE_STRING => "TYPE_STRING"
    case TYPE_GROUP => "TYPE_GROUP"
    case TYPE_MESSAGE => "TYPE_MESSAGE"
    case TYPE_BYTES => "TYPE_BYTES"
    case TYPE_UINT32 => "TYPE_UINT32"
    case TYPE_ENUM => "TYPE_ENUM"
    case TYPE_SFIXED32 => "TYPE_SFIXED32"
    case TYPE_SFIXED64 => "TYPE_SFIXED64"
    case TYPE_SINT32 => "TYPE_SINT32"
    case TYPE_SINT64 => "TYPE_SINT64"
  }

  /** A reference to a message type: its fully-qualified name (".pkg.Msg")
      and its bare name ("Msg"). */
  datatype TypeRef = TypeRef(fqn: string, name: string)

  /** A field descriptor. `fqJsonName` is what `GetFullyQualifiedJSONName()`
      returns; `repeated` is true for a repeated field (map fields included);
      `messageType` and `enumType` are what the linked descriptor's
      `GetMessageType()` / `GetEnumType()` return (None for nil); `oneof` is
      the containing oneof, if any. */
  datatype FieldDesc = FieldDesc(
    name: string,
    fqJsonName: string,
    typ: FieldType,
    repeated: bool,
    messageType: Option<TypeRef>,
    enumType: Option<string>,
    oneof: Option<string>)

  /** A message descriptor with its declared fields and the message types
      declared inside it. */
  datatype MessageDesc = MessageDesc(
    name: string,
    fqn: string,
    fields: seq<FieldDesc>,
    nested: seq<MessageDesc>)

  /** Every message descriptor of the loaded schema, by fully-qualified name. */
  type Universe = map<string, MessageDesc>

  /** `IsMessageType` of entity/env.go and `isMessageType` of env/call.go. */
  predicate IsMessageType(t: FieldType) {
    t == TYPE_MESSAGE
  }

  /** `IsEnumType`: the descriptor has an enum type. */
  predicate IsEnumType(f: FieldDesc) {
    f.enumType.Some?
  }

  /** `IsOneOf`: the field belongs to a oneof. */
  predicate IsOneOf(f: FieldDesc) {
    f.oneof.Some?
  }
}
