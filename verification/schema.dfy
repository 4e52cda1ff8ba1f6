/** Projecting a schema element's name out of an already-decoded Thrift
    struct (`SchemaElement::try_from`). The struct arrives as its ordered
    list of fields; the decoder that produced it is not part of this model. */
module Schema {
  import opened Results
  import opened Bytes

  /** A decoded Thrift value. Doubles are kept as their raw IEEE-754 bits. */
  datatype Data =
    | Bool(b: bool)
    | I8(i8: int)
    | I16(i16: int)
    | I32(i32: int)
    | I64(i64: int)
    | Double(bits: nat)
    | Binary(bytes: seq<u8>)
    | Struct(fields: seq<Field>)
    | List(elements: seq<Data>)
    | Set(members: seq<Data>)
    | Map(entries: seq<(Data, Data)>)

  /** One field of a decoded struct: its Thrift field id and its value. */
  datatype Field = Field(id: int, data: Data)

  /** Field id of `SchemaElement.name` in the Parquet Thrift definition. */
  const NameFieldId: int := 4

  datatype SchemaError =
    | NoNameField     // no field has id 4 (the `unwrap` on `find`)
    | NameNotBinary   // the first field with id 4 is not a byte string (the `panic!`)

  /** `i` is the position of the first field carrying `id`. */
  predicate IsFirstWithId(fields: seq<Field>, i: int, id: int) {
    && 0 <= i < |fields|
    && fields[i].id == id
    && forall j | 0 <= j < i :: fields[j].id != id
  }

  /** Position of the first field with the given id, as `iter().find` scans. */
  function FindField(fields: seq<Field>, id: int): (r: Option<nat>)
    ensures r.None? <==> forall i | 0 <= i < |fields| :: fields[i].id != id
    ensures r.Some? ==> IsFirstWithId(fields, r.value, id)
  {
    if |fields| == 0 then None
    else if fields[0].id == id then Some(0)
    else
      match FindField(fields[1..], id)
      case None => None
      case Some(j) => Some(j + 1)
  }

  /** The name of a schema element: the byte payload of the first field with
      id 4. Every other field, including any later field with id 4, is
      ignored. */
  function ElementName(fields: seq<Field>): (r: Result<seq<u8>, SchemaError>)
    ensures r == Err(NoNameField) <==> forall i | 0 <= i < |fields| :: fields[i].id != NameFieldId
    ensures r == Err(NameNotBinary) <==>
              exists i :: IsFirstWithId(fields, i, NameFieldId) && !fields[i].data.Binary?
    ensures r.Ok? <==>
              exists i :: IsFirstWithId(fields, i, NameFieldId) && fields[i].data.Binary?
    ensures r.Ok? ==>
              forall i :: IsFirstWithId(fields, i, NameFieldId) ==> r.value == fields[i].data.bytes
  {
    match FindField(fields, NameFieldId)
    case None => Err(NoNameField)
    case Some(i) =>
      FirstIsUnique(fields, i, NameFieldId);
      if fields[i].data.Binary? then Ok(fields[i].data.bytes) else Err(NameNotBinary)
  }

  /** There is at most one first field with a given id. */
  lemma FirstIsUnique(fields: seq<Field>, i: int, id: int)
    requires IsFirstWithId(fields, i, id)
    ensures forall k :: IsFirstWithId(fields, k, id) ==> k == i
  {
  }

  /** A struct built as some unrelated fields, then a byte-string field 4,
      then anything at all, is named by that byte string. */
  lemma NameOfBuiltElement(before: seq<Field>, name: seq<u8>, after: seq<Field>)
    requires forall j | 0 <= j < |before| :: before[j].id != NameFieldId
    ensures ElementName(before + [Field(NameFieldId, Binary(name))] + after) == Ok(name)
  {
    var fields := before + [Field(NameFieldId, Binary(name))] + after;
    assert IsFirstWithId(fields, |before|, NameFieldId);
  }

  /** Adding, removing or changing fields after the first field 4 never
      changes the name. */
  lemma NameIgnoresLaterFields(fields: seq<Field>, i: nat, tail: seq<Field>)
    requires IsFirstWithId(fields, i, NameFieldId)
    ensures ElementName(fields[..i + 1] + tail) == ElementName(fields)
  {
    var g := fields[..i + 1] + tail;
    assert IsFirstWithId(g, i, NameFieldId);
  }
}
