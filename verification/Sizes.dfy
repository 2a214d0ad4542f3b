/** The size calculator: the packed size without packing. */
module Sizes {
  import opened Bytes
  import opened Wire
  import opened Members
  import opened Schema
  import opened Encoding

  function Int32Size(u: uint32): nat {
    if u >= HALF32 then 10 else Uint32Size(u)
  }

  /** The size of a scalar, by its type. */
  function WordSize(t: FieldType, u: nat): nat
    requires IsScalar(t) && u < Range(t)
  {
    match t
    case Sint32 => Uint32Size(Zigzag(u, HALF32))
    case Int32 => Int32Size(u)
    case Uint32 | Enum => Uint32Size(u)
    case Sint64 => Uint64Size(Zigzag(u, HALF64))
    case Int64 | Uint64 => Uint64Size(u)
    case Sfixed32 | Fixed32 | Float => 4
    case Sfixed64 | Fixed64 | Double => 8
    case Bool => 1
  }

  lemma WordSizeCounts(t: FieldType, u: nat)
    requires IsScalar(t) && u < Range(t)
    ensures WordSize(t, u) == |EncodeWord(t, u)|
  {
    if t == Int32 && u >= HALF32 {
      var v: uint64 := u + (UINT64 - UINT32);
      assert Uint64Size(v) == 10;
    }
  }

  lemma MemberSize(m: Member)
    requires m.wire < 8
    ensures |MemberBytes(m)| == TagSize(m.tag) + |m.body|
  {
    TagSizeCounts(m.tag, m.wire);
  }

  /** The body of a member: a scalar, or a length and as many bytes. */
  method BodySize(schema: Schema, f: Field, v: Value) returns (rv: nat)
    requires WellFormed(schema) && ConformsValue(schema, f, v)
    ensures rv == |ValueMember(schema, f, v).body|
    decreases v, 0
  {
    if IsScalar(f.kind) {
      WordSizeCounts(f.kind, v.word);
      return WordSize(f.kind, v.word);
    }
    var len := 0;
    match v {
      case Text(c) => len := |CharsOf(f, c)|;
      case Data(bytes) => len := |bytes|;
      case Sub(m) => len := GetPackedSize(schema, m);
      case NoMessage =>
    }
    rv := Uint32Size(len) + len;
  }

  /** required_field_get_packed_size. */
  method RequiredFieldSize(schema: Schema, f: Field, v: Value) returns (rv: nat)
    requires WellFormed(schema) && ConformsValue(schema, f, v)
    ensures rv == |MemberBytes(ValueMember(schema, f, v))|
    decreases v, 1
  {
    MemberSize(ValueMember(schema, f, v));
    rv := BodySize(schema, f, v);
    rv := TagSize(f.id) + rv;
  }

  /** optional_field_get_packed_size. */
  method OptionalFieldSize(schema: Schema, f: Field, s: Slot) returns (rv: nat)
    requires WellFormed(schema) && f.rule == Optional && ConformsSlot(schema, f, s)
    ensures rv == |Concat(SlotMembers(schema, f, s))|
    decreases s, 0
  {
    if Absent(f, s) {
      return 0;
    }
    rv := RequiredFieldSize(schema, f, s.value);
    ConcatOne(ValueMember(schema, f, s.value));
  }

  lemma ConcatOne(m: Member)
    requires m.wire < 8
    ensures Concat([m]) == MemberBytes(m)
  {
    assert [m][1..] == [];
  }

  /** The loops of repeated_field_get_packed_size over the elements of a packed array. */
  method PayloadSize(kind: FieldType, vs: seq<Value>) returns (rv: nat)
    requires AllWords(kind, vs)
    ensures rv == |Payload(kind, vs)|
  {
    rv := 0;
    var i := 0;
    ghost var all, todo := Payload(kind, vs), Payload(kind, vs);
    assert vs[0..] == vs;
    while i < |vs|
      invariant 0 <= i <= |vs| && |all| == rv + |todo| && todo == Payload(kind, vs[i..])
    {
      ghost var s, rest := EncodeWord(kind, vs[i].word), Payload(kind, vs[i + 1..]);
      assert todo == s + rest by {
        assert vs[i..][1..] == vs[i + 1..];
      }
      WordSizeCounts(kind, vs[i].word);
      rv := rv + WordSize(kind, vs[i].word);
      todo, i := rest, i + 1;
    }
    assert todo == [] by {
      assert vs[i..] == [];
    }
  }

  lemma {:induction false} SuffixConforms(schema: Schema, f: Field, vs: seq<Value>, i: nat)
    requires WellFormed(schema) && i < |vs| && ConformsValues(schema, f, vs[i..])
    ensures ConformsValue(schema, f, vs[i]) && ConformsValues(schema, f, vs[i + 1..])
    ensures ValueMembers(schema, f, vs[i..]) == [ValueMember(schema, f, vs[i])] + ValueMembers(schema, f, vs[i + 1..])
  {
    assert vs[i..][0] == vs[i] && vs[i..][1..] == vs[i + 1..];
  }

  /** The sizes of the bodies of the elements of an array that is not packed. */
  method BodiesSize(schema: Schema, f: Field, vs: seq<Value>) returns (rv: nat)
    requires WellFormed(schema) && ConformsValues(schema, f, vs)
    ensures rv + TagSize(f.id) * |vs| == |Concat(ValueMembers(schema, f, vs))|
    decreases vs, 0
  {
    rv := 0;
    var i := 0;
    assert vs[0..] == vs;
    ghost var h := TagSize(f.id);
    while i < |vs|
      invariant 0 <= i <= |vs| && ConformsValues(schema, f, vs[i..])
      invariant |Concat(ValueMembers(schema, f, vs))| == rv + h * i + |Concat(ValueMembers(schema, f, vs[i..]))|
    {
      SuffixConforms(schema, f, vs, i);
      MemberSize(ValueMember(schema, f, vs[i]));
      var n := BodySize(schema, f, vs[i]);
      assert h * (i + 1) == h * i + h;
      rv := rv + n;
      i := i + 1;
    }
  }

  /** repeated_field_get_packed_size. */
  method RepeatedFieldSize(schema: Schema, f: Field, s: Slot) returns (rv: nat)
    requires WellFormed(schema) && f.rule == Repeated && ConformsSlot(schema, f, s)
    ensures rv == |Concat(SlotMembers(schema, f, s))|
    decreases s, 0
  {
    var count := |s.values|;
    if count == 0 {
      return 0;
    }
    var headerSize := TagSize(f.id);
    if f.packed {
      rv := PayloadSize(f.kind, s.values);
      var m := PackedMember(f, Payload(f.kind, s.values));
      MemberSize(m);
      ConcatOne(m);
      headerSize := headerSize + Uint32Size(rv);
    } else {
      headerSize := headerSize * count;
      rv := BodiesSize(schema, f, s.values);
    }
    rv := headerSize + rv;
  }

  method SlotSize(schema: Schema, f: Field, s: Slot) returns (rv: nat)
    requires WellFormed(schema) && ConformsSlot(schema, f, s)
    ensures rv == |Concat(SlotMembers(schema, f, s))|
    decreases s, 1
  {
    match f.rule {
      case Required =>
        rv := RequiredFieldSize(schema, f, s.value);
        ConcatOne(ValueMember(schema, f, s.value));
      case Optional =>
        rv := OptionalFieldSize(schema, f, s);
      case Repeated =>
        rv := RepeatedFieldSize(schema, f, s);
    }
  }

  lemma {:induction false} SlotsSuffix(schema: Schema, fields: seq<Field>, slots: seq<Slot>, i: nat)
    requires WellFormed(schema) && i < |slots| && i < |fields| && ConformsSlots(schema, fields[i..], slots[i..])
    ensures ConformsSlot(schema, fields[i], slots[i]) && ConformsSlots(schema, fields[i + 1..], slots[i + 1..])
    ensures Concat(SlotsMembers(schema, fields[i..], slots[i..])) ==
      Concat(SlotMembers(schema, fields[i], slots[i])) + Concat(SlotsMembers(schema, fields[i + 1..], slots[i + 1..]))
  {
    assert fields[i..][1..] == fields[i + 1..] && slots[i..][1..] == slots[i + 1..];
    ConcatJoin(SlotMembers(schema, fields[i], slots[i]), SlotsMembers(schema, fields[i + 1..], slots[i + 1..]));
  }

  /** The bytes left for the fields from the i-th on. */
  ghost predicate SlotsLeft(schema: Schema, fields: seq<Field>, slots: seq<Slot>, i: nat, todo: seq<byte>)
    requires WellFormed(schema)
  {
    && i <= |fields| == |slots| && ConformsSlots(schema, fields[i..], slots[i..])
    && todo == Concat(SlotsMembers(schema, fields[i..], slots[i..]))
  }

  lemma {:induction false} AllSlotsLeft(schema: Schema, fields: seq<Field>, slots: seq<Slot>, all: seq<byte>)
    requires WellFormed(schema) && ConformsSlots(schema, fields, slots)
    requires all == Concat(SlotsMembers(schema, fields, slots))
    ensures SlotsLeft(schema, fields, slots, 0, all)
  {
    assert fields[0..] == fields && slots[0..] == slots;
  }

  lemma NextSlot(schema: Schema, fields: seq<Field>, slots: seq<Slot>, i: nat, todo: seq<byte>)
      returns (s: seq<byte>, rest: seq<byte>)
    requires WellFormed(schema) && SlotsLeft(schema, fields, slots, i, todo) && i < |fields|
    ensures ConformsSlot(schema, fields[i], slots[i]) && s == Concat(SlotMembers(schema, fields[i], slots[i]))
    ensures todo == s + rest && SlotsLeft(schema, fields, slots, i + 1, rest)
  {
    SlotsSuffix(schema, fields, slots, i);
    s := Concat(SlotMembers(schema, fields[i], slots[i]));
    rest := Concat(SlotsMembers(schema, fields[i + 1..], slots[i + 1..]));
  }

  lemma NoSlotsLeft(schema: Schema, fields: seq<Field>, slots: seq<Slot>, todo: seq<byte>)
    requires WellFormed(schema) && SlotsLeft(schema, fields, slots, |fields|, todo)
    ensures todo == []
  {
    assert fields[|fields|..] == [] && slots[|fields|..] == [];
  }

  /** The bytes left for the elements of an array from the i-th on. */
  ghost predicate ValuesLeft(schema: Schema, f: Field, vs: seq<Value>, i: nat, todo: seq<byte>)
    requires WellFormed(schema)
  {
    && i <= |vs| && ConformsValues(schema, f, vs[i..])
    && todo == Concat(ValueMembers(schema, f, vs[i..]))
  }

  lemma {:induction false} AllValuesLeft(schema: Schema, f: Field, vs: seq<Value>, all: seq<byte>)
    requires WellFormed(schema) && ConformsValues(schema, f, vs) && all == Concat(ValueMembers(schema, f, vs))
    ensures ValuesLeft(schema, f, vs, 0, all)
  {
    assert vs[0..] == vs;
  }

  lemma NextValue(schema: Schema, f: Field, vs: seq<Value>, i: nat, todo: seq<byte>)
      returns (s: seq<byte>, rest: seq<byte>)
    requires WellFormed(schema) && ValuesLeft(schema, f, vs, i, todo) && i < |vs|
    ensures ConformsValue(schema, f, vs[i]) && s == MemberBytes(ValueMember(schema, f, vs[i]))
    ensures todo == s + rest && ValuesLeft(schema, f, vs, i + 1, rest)
  {
    SuffixConforms(schema, f, vs, i);
    var m, ms := ValueMember(schema, f, vs[i]), ValueMembers(schema, f, vs[i + 1..]);
    s, rest := MemberBytes(m), Concat(ms);
    assert ([m] + ms)[1..] == ms;
  }

  lemma NoValuesLeft(schema: Schema, f: Field, vs: seq<Value>, todo: seq<byte>)
    requires WellFormed(schema) && ValuesLeft(schema, f, vs, |vs|, todo)
    ensures todo == []
  {
    assert vs[|vs|..] == [];
  }

  lemma UnknownSuffix(us: seq<Unknown>, i: nat)
    requires i < |us| && forall k | 0 <= k < |us| :: us[k].wire < 8
    ensures Concat(UnknownMembers(us[i..])) == MemberBytes(UnknownMember(us[i])) + Concat(UnknownMembers(us[i + 1..]))
  {
    assert UnknownMembers(us[i..])[1..] == UnknownMembers(us[i + 1..]);
  }

  /** protobuf_c_message_get_packed_size is the length of the encoding. */
  method GetPackedSize(schema: Schema, m: Message) returns (rv: nat)
    requires WellFormed(schema) && Conforms(schema, m)
    ensures rv == |Encode(schema, m)|
    decreases m
  {
    var fields := schema[m.desc].fields;
    rv := 0;
    var i := 0;
    assert fields[0..] == fields && m.slots[0..] == m.slots && m.unknown[0..] == m.unknown;
    ConcatJoin(SlotsMembers(schema, fields, m.slots), UnknownMembers(m.unknown));
    ghost var known := Concat(SlotsMembers(schema, fields, m.slots));
    while i < |fields|
      invariant 0 <= i <= |fields| && ConformsSlots(schema, fields[i..], m.slots[i..])
      invariant |known| == rv + |Concat(SlotsMembers(schema, fields[i..], m.slots[i..]))|
    {
      SlotsSuffix(schema, fields, m.slots, i);
      var n := SlotSize(schema, fields[i], m.slots[i]);
      rv := rv + n;
      i := i + 1;
    }
    i := 0;
    while i < |m.unknown|
      invariant 0 <= i <= |m.unknown|
      invariant |Encode(schema, m)| == rv + |Concat(UnknownMembers(m.unknown[i..]))|
    {
      UnknownSuffix(m.unknown, i);
      MemberSize(UnknownMember(m.unknown[i]));
      rv := rv + (TagSize(m.unknown[i].tag) + |m.unknown[i].data|);
      i := i + 1;
    }
  }
}
