/** Message descriptors and messages (src/google/protobuf-c/protobuf-c.h). */
module Schema {
  import opened Bytes
  import opened Wire

  datatype Label = Required | Optional | Repeated

  /** The default a field may have. The language has none for nested messages. */
  datatype Default = NoDefault | DefaultWord(word: nat) | DefaultText(text: seq<byte>) | DefaultData(data: seq<byte>)

  /** `sub` is the descriptor of a nested message, by its index in the schema. */
  datatype Field = Field(id: uint32, rule: Label, kind: FieldType, packed: bool, default: Default, sub: nat)

  datatype Descriptor = Descriptor(fields: seq<Field>)

  type Schema = seq<Descriptor>

  /** A pointer to characters: none, the field's default, or some of the message's own. */
  datatype Chars = Null | Default | Own(bytes: seq<byte>)

  datatype Value =
    | Num(word: nat)
    | Text(chars: Chars)
    | Data(bytes: seq<byte>)
    | Sub(message: Message)
    | NoMessage

  /** A field of a message: one value, with its "has" flag, or an array. */
  datatype Slot = Single(has: bool, value: Value) | Many(values: seq<Value>)

  datatype Unknown = Unknown(tag: uint32, wire: nat, data: seq<byte>)

  datatype Message = Message(desc: nat, slots: seq<Slot>, unknown: seq<Unknown>)

  // ---------------------------------------------------------------------------
  // Descriptors
  // ---------------------------------------------------------------------------

  predicate NoNul(s: seq<byte>) {
    forall i | 0 <= i < |s| :: s[i] != 0
  }

  predicate WellFormedField(schema: Schema, f: Field) {
    && 0 < f.id < 0x7FFF_FFFF
    && (f.packed ==> f.rule == Repeated && IsScalar(f.kind))
    && (f.kind == Nested ==> f.sub < |schema|)
    && match f.default
       case NoDefault => true
       case DefaultWord(word) => IsScalar(f.kind) && word < Range(f.kind)
       case DefaultText(text) => f.kind == String && NoNul(text)
       case DefaultData(_) => f.kind == Binary
  }

  /** At least one field, and all in the order of their numbers. */
  predicate WellFormedDescriptor(schema: Schema, d: Descriptor) {
    && |d.fields| > 0
    && (forall i | 0 <= i < |d.fields| :: WellFormedField(schema, d.fields[i]))
    && (forall i, j | 0 <= i < j < |d.fields| :: d.fields[i].id < d.fields[j].id)
  }

  predicate WellFormed(schema: Schema) {
    forall d | 0 <= d < |schema| :: WellFormedDescriptor(schema, schema[d])
  }

  /** A field alone makes a schema if its number is positive and below 2^31 - 1, only an array of scalars is
      packed, a nested message is of this descriptor, and its default is one of its type. */
  lemma OneFieldSchema(f: Field)
    ensures WellFormed([Descriptor([f])]) <==>
      && 1 <= f.id <= 0x7FFF_FFFE
      && (f.packed ==> f.rule == Repeated && f.kind != String && f.kind != Binary && f.kind != Nested)
      && (f.kind == Nested ==> f.sub == 0)
      && match f.kind
         case String => f.default == NoDefault || (f.default.DefaultText? && 0 !in f.default.text)
         case Binary => f.default == NoDefault || f.default.DefaultData?
         case Nested => f.default == NoDefault
         case Int64 | Uint64 | Sint64 | Sfixed64 | Fixed64 | Double =>
           f.default == NoDefault || (f.default.DefaultWord? && f.default.word < 0x1_0000_0000_0000_0000)
         case _ => f.default == NoDefault || (f.default.DefaultWord? && f.default.word < 0x1_0000_0000)
  {
    var schema := [Descriptor([f])];
    assert schema[0].fields == [f] && [f][0] == f;
    if f.default.DefaultText? {
      assert 0 !in f.default.text <==> NoNul(f.default.text);
    }
    assert WellFormed(schema) <==> WellFormedField(schema, f);
  }

  /** The index of the field with a number, or -1: a linear search. */
  function FieldIndex(fields: seq<Field>, id: nat): (k: int)
    ensures -1 <= k < |fields|
    ensures k >= 0 ==> fields[k].id == id
    ensures k == -1 ==> forall i | 0 <= i < |fields| :: fields[i].id != id
  {
    if |fields| == 0 then -1
    else if fields[0].id == id then 0
    else
      var k := FieldIndex(fields[1..], id);
      assert forall i | 1 <= i < |fields| :: fields[i] == fields[1..][i - 1];
      if k == -1 then -1 else k + 1
  }

  lemma FieldIndexIs(schema: Schema, d: Descriptor, i: nat)
    requires WellFormedDescriptor(schema, d) && i < |d.fields|
    ensures FieldIndex(d.fields, d.fields[i].id) == i
  {
    var k := FieldIndex(d.fields, d.fields[i].id);
    assert d.fields[k].id == d.fields[i].id;
  }

  // ---------------------------------------------------------------------------
  // Fresh messages
  // ---------------------------------------------------------------------------

  /** Strings and messages say by their pointer whether they are there. */
  predicate HasFlag(kind: FieldType) {
    kind != String && kind != Nested
  }

  function InitValue(f: Field): Value {
    match f.kind
    case String => Text(if f.default.DefaultText? then Default else Null)
    case Binary => Data(if f.default.DefaultData? then f.default.data else [])
    case Nested => NoMessage
    case _ => Num(if f.default.DefaultWord? then f.default.word else 0)
  }

  function InitSlot(f: Field): Slot {
    if f.rule == Repeated then Many([]) else Single(false, InitValue(f))
  }

  function InitSlots(fields: seq<Field>): (s: seq<Slot>)
    ensures |s| == |fields| && forall i | 0 <= i < |s| :: s[i] == InitSlot(fields[i])
  {
    seq(|fields|, i requires 0 <= i < |fields| => InitSlot(fields[i]))
  }

  /** protobuf_c_message_init_generic. */
  function Init(schema: Schema, d: nat): Message
    requires d < |schema|
  {
    Message(d, InitSlots(schema[d].fields), [])
  }
}
