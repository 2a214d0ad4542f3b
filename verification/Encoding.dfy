/** What a message packs to: a list of members, each nested message packed in turn. */
module Encoding {
  import opened Bytes
  import opened Wire
  import opened Members
  import opened Schema

  /** The characters before the first NUL. */
  function UpToNul(s: seq<byte>): (r: seq<byte>)
    ensures NoNul(r) && r <= s && (|r| < |s| ==> s[|r|] == 0)
  {
    if |s| == 0 || s[0] == 0 then [] else [s[0]] + UpToNul(s[1..])
  }

  /** The characters behind a pointer; none is as good as the empty string. */
  function CharsOf(f: Field, c: Chars): seq<byte> {
    match c
    case Null => []
    case Default => if f.default.DefaultText? then f.default.text else []
    case Own(bytes) => UpToNul(bytes)
  }

  function Prefixed(s: seq<byte>): seq<byte> {
    Varint(|s|) + s
  }

  // ---------------------------------------------------------------------------
  // Messages that belong to the schema
  // ---------------------------------------------------------------------------

  predicate ConformsValue(schema: Schema, f: Field, v: Value)
    requires WellFormed(schema)
    decreases v, 0
  {
    match f.kind
    case String =>
      && v.Text?
      && (v.chars.Default? ==> f.default.DefaultText?) && (f.rule == Repeated ==> v.chars.Own?)
      && |Prefixed(CharsOf(f, v.chars))| < UINT32
    case Binary => v.Data? && |Prefixed(v.bytes)| < UINT32
    case Nested =>
      if v.Sub? then
        v.message.desc == f.sub && Conforms(schema, v.message) && |Prefixed(Encode(schema, v.message))| < UINT32
      else v.NoMessage? && f.rule != Repeated
    case _ => v.Num? && v.word < Range(f.kind)
  }

  predicate ConformsValues(schema: Schema, f: Field, vs: seq<Value>)
    requires WellFormed(schema)
    decreases vs, 0
  {
    |vs| > 0 ==> ConformsValue(schema, f, vs[0]) && ConformsValues(schema, f, vs[1..])
  }

  predicate ConformsSlot(schema: Schema, f: Field, s: Slot)
    requires WellFormed(schema)
    decreases s, 0
  {
    if f.rule == Repeated then
      && s.Many? && |s.values| < UINT32
      && ConformsValues(schema, f, s.values)
      && (f.packed ==> AllWords(f.kind, s.values) && |Prefixed(Payload(f.kind, s.values))| < UINT32)
    else
      && s.Single? && ConformsValue(schema, f, s.value)
      && (s.has ==> f.rule == Optional && HasFlag(f.kind))
  }

  predicate ConformsSlots(schema: Schema, fields: seq<Field>, slots: seq<Slot>)
    requires WellFormed(schema)
    decreases slots, 0
  {
    && |fields| == |slots|
    && (|slots| > 0 ==> ConformsSlot(schema, fields[0], slots[0]) && ConformsSlots(schema, fields[1..], slots[1..]))
  }

  /** Values of the types the descriptors say, every length, with what says it, within 32 bits. */
  predicate Conforms(schema: Schema, m: Message)
    requires WellFormed(schema)
    decreases m, 0
  {
    && m.desc < |schema|
    && ConformsSlots(schema, schema[m.desc].fields, m.slots)
    && forall i | 0 <= i < |m.unknown| :: m.unknown[i].wire < 8
  }

  predicate AllWords(kind: FieldType, vs: seq<Value>) {
    IsScalar(kind) && forall i | 0 <= i < |vs| :: vs[i].Num? && vs[i].word < Range(kind)
  }

  // ---------------------------------------------------------------------------
  // Their encoding
  // ---------------------------------------------------------------------------

  /** A packed array. */
  function Payload(kind: FieldType, vs: seq<Value>): seq<byte>
    requires AllWords(kind, vs)
    decreases |vs|
  {
    if |vs| == 0 then [] else EncodeWord(kind, vs[0].word) + Payload(kind, vs[1..])
  }

  /** The bytes behind the length of a string, a byte array or a nested message. */
  function Content(schema: Schema, f: Field, v: Value): seq<byte>
    requires WellFormed(schema) && ConformsValue(schema, f, v) && !IsScalar(f.kind)
    decreases v, 1
  {
    match v
    case Text(c) => CharsOf(f, c)
    case Data(bytes) => bytes
    case Sub(m) => Encode(schema, m)
    case NoMessage => []
  }

  function ValueMember(schema: Schema, f: Field, v: Value): (m: Member)
    requires WellFormed(schema) && ConformsValue(schema, f, v)
    ensures m.wire == WireOf(f.kind)
    decreases v, 2
  {
    if IsScalar(f.kind) then Member(f.id, WireOf(f.kind), 0, EncodeWord(f.kind, v.word))
    else
      var content := Content(schema, f, v);
      Member(f.id, PREFIXED, |Varint(|content|)|, Prefixed(content))
  }

  function ValueMembers(schema: Schema, f: Field, vs: seq<Value>): (ms: seq<Member>)
    requires WellFormed(schema) && ConformsValues(schema, f, vs)
    ensures Tagged(ms)
    decreases vs, 1
  {
    if |vs| == 0 then [] else [ValueMember(schema, f, vs[0])] + ValueMembers(schema, f, vs[1..])
  }

  function PackedMember(f: Field, payload: seq<byte>): Member {
    Member(f.id, PREFIXED, |Varint(|payload|)|, Prefixed(payload))
  }

  /** An optional field that is not there: by its pointer, or by its flag. */
  predicate Absent(f: Field, s: Slot)
    requires s.Single?
  {
    match s.value
    case Text(c) => !c.Own?
    case Sub(_) => false
    case NoMessage => true
    case _ => !s.has
  }

  function SlotMembers(schema: Schema, f: Field, s: Slot): (ms: seq<Member>)
    requires WellFormed(schema) && ConformsSlot(schema, f, s)
    ensures Tagged(ms)
    decreases s, 1
  {
    match f.rule
    case Required => [ValueMember(schema, f, s.value)]
    case Optional => if Absent(f, s) then [] else [ValueMember(schema, f, s.value)]
    case Repeated =>
      if !f.packed then ValueMembers(schema, f, s.values)
      else if |s.values| == 0 then []
      else [PackedMember(f, Payload(f.kind, s.values))]
  }

  function SlotsMembers(schema: Schema, fields: seq<Field>, slots: seq<Slot>): (ms: seq<Member>)
    requires WellFormed(schema) && ConformsSlots(schema, fields, slots)
    ensures Tagged(ms)
    decreases slots, 1
  {
    if |slots| == 0 then []
    else SlotMembers(schema, fields[0], slots[0]) + SlotsMembers(schema, fields[1..], slots[1..])
  }

  function UnknownMember(u: Unknown): Member {
    var e := BodyExtent(u.wire, u.data);
    Member(u.tag, u.wire, if e.Extent? then e.prefix else 0, u.data)
  }

  function UnknownMembers(us: seq<Unknown>): (ms: seq<Member>)
    ensures |ms| == |us| && forall i | 0 <= i < |us| :: ms[i] == UnknownMember(us[i])
  {
    seq(|us|, i requires 0 <= i < |us| => UnknownMember(us[i]))
  }

  function MembersOf(schema: Schema, m: Message): (ms: seq<Member>)
    requires WellFormed(schema) && Conforms(schema, m)
    ensures Tagged(ms)
    decreases m, 1
  {
    SlotsMembers(schema, schema[m.desc].fields, m.slots) + UnknownMembers(m.unknown)
  }

  function Encode(schema: Schema, m: Message): seq<byte>
    requires WellFormed(schema) && Conforms(schema, m)
    decreases m, 2
  {
    Concat(MembersOf(schema, m))
  }
}
