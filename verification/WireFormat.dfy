/** The bytes of a message, told from the numbers of the wire format alone: what packing comes to, without
    members, scans or wire types. */
module WireFormat {
  import opened Bytes
  import opened Wire
  import opened Members
  import opened Schema
  import opened Encoding

  // ---------------------------------------------------------------------------
  // The format
  // ---------------------------------------------------------------------------

  /** The number behind a field number: what kind of body follows. */
  function KindNumber(kind: FieldType): nat {
    match kind
    case Int32 | Sint32 | Int64 | Sint64 | Uint32 | Uint64 | Bool | Enum => 0
    case Sfixed64 | Fixed64 | Double => 1
    case String | Binary | Nested => 2
    case Sfixed32 | Fixed32 | Float => 5
  }

  /** Small numbers of either sign have small codes. */
  function SignedCode(x: int): nat {
    if x >= 0 then 2 * x else -2 * x - 1
  }

  /** A scalar, from its word in memory. */
  function WordBytes(kind: FieldType, u: nat): seq<byte> {
    match kind
    case Sfixed32 | Fixed32 | Float => [u % 256, u / 0x100 % 256, u / 0x1_0000 % 256, u / 0x100_0000 % 256]
    case Sfixed64 | Fixed64 | Double =>
      [u % 256, u / 0x100 % 256, u / 0x1_0000 % 256, u / 0x100_0000 % 256, u / 0x1_0000_0000 % 256,
       u / 0x100_0000_0000 % 256, u / 0x1_0000_0000_0000 % 256, u / 0x100_0000_0000_0000 % 256]
    case Int32 => Varint(if u < 0x8000_0000 then u else u + 0xFFFF_FFFF_0000_0000)
    case Sint32 => Varint(SignedCode(if u < 0x8000_0000 then u else u - 0x1_0000_0000))
    case Sint64 => Varint(SignedCode(if u < 0x8000_0000_0000_0000 then u else u - 0x1_0000_0000_0000_0000))
    case Bool => [if u == 0 then 0 else 1]
    case Uint32 | Int64 | Uint64 | Enum => Varint(u)
    case String | Binary | Nested => []
  }

  function Delimited(s: seq<byte>): seq<byte> {
    Varint(|s|) + s
  }

  /** One value with its tag. */
  function ValueBytes(schema: Schema, f: Field, v: Value): seq<byte>
    decreases v, 0
  {
    Varint(8 * f.id + KindNumber(f.kind)) +
    match v
    case Num(word) => WordBytes(f.kind, word)
    case Text(Null) => Delimited([])
    case Text(Default) => Delimited(if f.default.DefaultText? then f.default.text else [])
    case Text(Own(bytes)) => Delimited(UpToNul(bytes))
    case Data(bytes) => Delimited(bytes)
    case Sub(m) => Delimited(MessageBytes(schema, m))
    case NoMessage => Delimited([])
  }

  function AllValueBytes(schema: Schema, f: Field, vs: seq<Value>): seq<byte>
    decreases vs, 0
  {
    if |vs| == 0 then [] else ValueBytes(schema, f, vs[0]) + AllValueBytes(schema, f, vs[1..])
  }

  function AllWordBytes(kind: FieldType, vs: seq<Value>): seq<byte> {
    if |vs| == 0 then []
    else (if vs[0].Num? then WordBytes(kind, vs[0].word) else []) + AllWordBytes(kind, vs[1..])
  }

  /** One field. An optional string or message is there if its pointer is to something of its own, another
      optional field if its flag is set. */
  function SlotBytes(schema: Schema, f: Field, s: Slot): seq<byte>
    decreases s, 0
  {
    match s
    case Single(has, v) =>
      if f.rule == Required then ValueBytes(schema, f, v)
      else
        var there := match v
          case Num(_) => has
          case Data(_) => has
          case Text(Null) => false
          case Text(Default) => false
          case Text(Own(_)) => true
          case Sub(_) => true
          case NoMessage => false;
        if there then ValueBytes(schema, f, v) else []
    case Many(vs) =>
      if !f.packed then AllValueBytes(schema, f, vs)
      else if |vs| == 0 then []
      else Varint(8 * f.id + 2) + Delimited(AllWordBytes(f.kind, vs))
  }

  /** The fields in the order of the descriptor. */
  function SlotsBytes(schema: Schema, fields: seq<Field>, slots: seq<Slot>): seq<byte>
    decreases slots, 0
  {
    if |fields| == 0 || |slots| == 0 then []
    else SlotBytes(schema, fields[0], slots[0]) + SlotsBytes(schema, fields[1..], slots[1..])
  }

  function UnknownBytes(us: seq<Unknown>): seq<byte> {
    if |us| == 0 then [] else Varint(8 * us[0].tag + us[0].wire) + us[0].data + UnknownBytes(us[1..])
  }

  /** The fields, and the unknown ones behind them. */
  function MessageBytes(schema: Schema, m: Message): seq<byte>
    decreases m, 0
  {
    if m.desc < |schema| then SlotsBytes(schema, schema[m.desc].fields, m.slots) + UnknownBytes(m.unknown) else []
  }

  // ---------------------------------------------------------------------------
  // Packing comes to that
  // ---------------------------------------------------------------------------

  lemma SentIs(kind: FieldType, u: nat)
    requires IsScalar(kind) && u < Range(kind) && KindNumber(kind) == 0
    ensures WireOf(kind) == VARINT && Varint(Sent(kind, u)) == WordBytes(kind, u)
  {}

  lemma {:induction false} WordIs(kind: FieldType, u: nat)
    requires IsScalar(kind) && u < Range(kind)
    ensures EncodeWord(kind, u) == WordBytes(kind, u)
  {
    if KindNumber(kind) == 0 {
      SentIs(kind, u);
    } else if KindNumber(kind) == 1 {
      EightBytes(u);
    }
  }

  lemma EightBytes(u: nat)
    ensures u / UINT32 % 256 == u / 0x1_0000_0000 % 256
    ensures u / UINT32 / 0x100 % 256 == u / 0x100_0000_0000 % 256
    ensures u / UINT32 / 0x1_0000 % 256 == u / 0x1_0000_0000_0000 % 256
    ensures u / UINT32 / 0x100_0000 % 256 == u / 0x100_0000_0000_0000 % 256
  {}

  lemma {:induction false} WordsAre(kind: FieldType, vs: seq<Value>)
    requires AllWords(kind, vs)
    ensures Payload(kind, vs) == AllWordBytes(kind, vs)
  {
    if |vs| > 0 {
      WordIs(kind, vs[0].word);
      WordsAre(kind, vs[1..]);
    }
  }

  lemma {:induction false} ScalarIs(schema: Schema, f: Field, v: Value)
    requires WellFormed(schema) && ConformsValue(schema, f, v) && IsScalar(f.kind)
    ensures MemberBytes(ValueMember(schema, f, v)) == Varint(8 * f.id + KindNumber(f.kind)) + WordBytes(f.kind, v.word)
  {
    WordIs(f.kind, v.word);
  }

  lemma {:induction false} DelimitedIs(schema: Schema, f: Field, v: Value, content: seq<byte>)
    requires WellFormed(schema) && ConformsValue(schema, f, v) && !IsScalar(f.kind)
    requires content == Content(schema, f, v)
    ensures MemberBytes(ValueMember(schema, f, v)) == Varint(8 * f.id + 2) + Delimited(content)
  {}

  lemma {:induction false} ValueIs(schema: Schema, f: Field, v: Value)
    requires WellFormed(schema) && ConformsValue(schema, f, v)
    ensures MemberBytes(ValueMember(schema, f, v)) == ValueBytes(schema, f, v)
    decreases v, 0
  {
    if IsScalar(f.kind) {
      ScalarIs(schema, f, v);
    } else {
      DelimitedIs(schema, f, v, Content(schema, f, v));
      if v.Sub? {
        EncodeIsWireFormat(schema, v.message);
      }
    }
  }

  lemma {:induction false} ValuesAre(schema: Schema, f: Field, vs: seq<Value>)
    requires WellFormed(schema) && ConformsValues(schema, f, vs)
    ensures Concat(ValueMembers(schema, f, vs)) == AllValueBytes(schema, f, vs)
    decreases vs, 1
  {
    if |vs| > 0 {
      ValueIs(schema, f, vs[0]);
      ValuesAre(schema, f, vs[1..]);
      FirstOf(ValueMember(schema, f, vs[0]), ValueMembers(schema, f, vs[1..]));
    }
  }

  lemma {:induction false} FirstOf(m: Member, ms: seq<Member>)
    requires m.wire < 8 && Tagged(ms)
    ensures Tagged([m] + ms) && Concat([m] + ms) == MemberBytes(m) + Concat(ms)
  {
    assert ([m] + ms)[1..] == ms;
  }

  lemma {:induction false} PackedIs(f: Field, vs: seq<Value>)
    requires AllWords(f.kind, vs)
    ensures Concat([PackedMember(f, Payload(f.kind, vs))])
         == Varint(8 * f.id + 2) + Delimited(AllWordBytes(f.kind, vs))
  {
    var m := PackedMember(f, Payload(f.kind, vs));
    WordsAre(f.kind, vs);
    FirstOf(m, []);
    assert [m] + [] == [m] && MemberBytes(m) + Concat([]) == MemberBytes(m);
  }

  lemma {:induction false} OneIs(schema: Schema, f: Field, v: Value)
    requires WellFormed(schema) && ConformsValue(schema, f, v)
    ensures Concat([ValueMember(schema, f, v)]) == ValueBytes(schema, f, v)
    decreases v, 1
  {
    var m := ValueMember(schema, f, v);
    ValueIs(schema, f, v);
    FirstOf(m, []);
    assert [m] + [] == [m] && MemberBytes(m) + Concat([]) == MemberBytes(m);
  }

  lemma {:induction false} SingleBytes(schema: Schema, f: Field, s: Slot)
    requires s.Single? && f.rule != Repeated
    ensures SlotBytes(schema, f, s) ==
      if f.rule == Optional && Absent(f, s) then [] else ValueBytes(schema, f, s.value)
  {}

  lemma {:induction false} SingleSlotIs(schema: Schema, f: Field, s: Slot)
    requires WellFormed(schema) && ConformsSlot(schema, f, s) && f.rule != Repeated
    ensures Concat(SlotMembers(schema, f, s)) == SlotBytes(schema, f, s)
    decreases s, 2
  {
    SingleBytes(schema, f, s);
    OneIs(schema, f, s.value);
  }

  lemma {:induction false} ArraySlotIs(schema: Schema, f: Field, s: Slot)
    requires WellFormed(schema) && ConformsSlot(schema, f, s) && f.rule == Repeated
    ensures Concat(SlotMembers(schema, f, s)) == SlotBytes(schema, f, s)
    decreases s, 2
  {
    if !f.packed {
      ValuesAre(schema, f, s.values);
    } else if |s.values| > 0 {
      PackedIs(f, s.values);
    }
  }

  lemma {:induction false} SlotIs(schema: Schema, f: Field, s: Slot)
    requires WellFormed(schema) && ConformsSlot(schema, f, s)
    ensures Concat(SlotMembers(schema, f, s)) == SlotBytes(schema, f, s)
    decreases s, 3
  {
    if f.rule == Repeated {
      ArraySlotIs(schema, f, s);
    } else {
      SingleSlotIs(schema, f, s);
    }
  }

  lemma {:induction false} SlotsAre(schema: Schema, fields: seq<Field>, slots: seq<Slot>)
    requires WellFormed(schema) && ConformsSlots(schema, fields, slots)
    ensures Concat(SlotsMembers(schema, fields, slots)) == SlotsBytes(schema, fields, slots)
    decreases slots, 4
  {
    if |slots| > 0 {
      SlotIs(schema, fields[0], slots[0]);
      SlotsAre(schema, fields[1..], slots[1..]);
      ConcatJoin(SlotMembers(schema, fields[0], slots[0]), SlotsMembers(schema, fields[1..], slots[1..]));
    }
  }

  lemma {:induction false} UnknownsAre(us: seq<Unknown>)
    requires forall i | 0 <= i < |us| :: us[i].wire < 8
    ensures Tagged(UnknownMembers(us)) && Concat(UnknownMembers(us)) == UnknownBytes(us)
  {
    if |us| > 0 {
      var rest := UnknownMembers(us[1..]);
      UnknownsAre(us[1..]);
      assert UnknownMembers(us) == [UnknownMember(us[0])] + rest;
      FirstOf(UnknownMember(us[0]), rest);
    }
  }

  /** A message packs to just these bytes. */
  lemma {:induction false} EncodeIsWireFormat(schema: Schema, m: Message)
    requires WellFormed(schema) && Conforms(schema, m)
    ensures Encode(schema, m) == MessageBytes(schema, m)
    decreases m, 5
  {
    var fields := schema[m.desc].fields;
    SlotsAre(schema, fields, m.slots);
    UnknownsAre(m.unknown);
    ConcatJoin(SlotsMembers(schema, fields, m.slots), UnknownMembers(m.unknown));
  }
  /** With a small number the tag is one byte. */
  lemma {:induction false} FirstByte(schema: Schema, f: Field, v: Value)
    requires WellFormed(schema) && ConformsValue(schema, f, v) && f.id < 16
    ensures var first := MemberBytes(ValueMember(schema, f, v))[0];
      match f.kind
      case Int32 | Sint32 | Int64 | Sint64 | Uint32 | Uint64 | Bool | Enum => first == 8 * f.id
      case Sfixed64 | Fixed64 | Double => first == 8 * f.id + 1
      case String | Binary | Nested => first == 8 * f.id + 2
      case Sfixed32 | Fixed32 | Float => first == 8 * f.id + 5
  {
    ValueIs(schema, f, v);
    assert Varint(8 * f.id + KindNumber(f.kind)) == [8 * f.id + KindNumber(f.kind)];
  }

  // ---------------------------------------------------------------------------
  // What the scan makes of bytes
  // ---------------------------------------------------------------------------

  /** The number a varint stands for: seven bits of each byte, the first ones lowest. */
  lemma {:induction false} VarintSum(b: byte, s: seq<byte>)
    ensures VarintValue([]) == 0 && VarintValue([b] + s) == b % 128 + 128 * VarintValue(s)
  {
    assert ([b] + s)[1..] == s;
  }

  /** The first n bytes are a varint: all but the last have their top bit. */
  ghost predicate VarintOf(s: seq<byte>, n: nat) {
    1 <= n <= |s| && s[n - 1] < 128 && forall i | 0 <= i < n - 1 :: s[i] >= 128
  }

  lemma {:induction false} EndsAt(s: seq<byte>, max: nat, n: nat)
    ensures VarintEnd(s, max) == n > 0 <==> VarintOf(s, n) && n <= max
  {
    if VarintOf(s, n) {
      LeadingIs(s, n - 1);
    }
  }

  /** How far a body reaches and how much of it is its length, by the number of its kind. */
  lemma {:induction false} BodyReaches(kind: nat, s: seq<byte>, len: nat, prefix: nat)
    ensures BodyExtent(kind, s) == Extent(len, prefix) <==>
      || (kind == 0 && prefix == 0 && VarintOf(s, len) && len <= 10)
      || (kind == 1 && prefix == 0 && len == 8 <= |s|)
      || (kind == 2 && VarintOf(s, prefix) && prefix <= 5
          && len == prefix + VarintValue(s[..prefix]) % 0x1_0000_0000 <= |s|)
      || (kind == 5 && prefix == 0 && len == 4 <= |s|)
  {
    if kind == 0 {
      EndsAt(s, 10, len);
    } else if kind == 2 {
      EndsAt(s, 5, prefix);
    }
  }

  /** A number and a kind in n bytes, and a body behind them. */
  ghost predicate MemberBehind(s: seq<byte>, n: nat, m: Member, used: nat)
    requires n <= |s|
  {
    var head := VarintValue(s[..n]);
    && m.tag == head / 8 % 0x1_0000_0000 && m.wire == head % 8
    && used == n + |m.body| <= |s| && m.body == s[n..used]
    && BodyExtent(m.wire, s[n..]) == Extent(|m.body|, m.prefix)
  }

  lemma {:induction false} FoundBehind(s: seq<byte>, n: nat, m: Member, used: nat)
    requires VarintOf(s, n) && n <= 5
    ensures ScanOne(s) == One(m, used) <==> MemberBehind(s, n, m, used)
  {
    EndsAt(s, 5, n);
    var e := BodyExtent(VarintValue(s[..n]) % 8, s[n..]);
    if e.Extent? {
      assert s[n..][..e.len] == s[n..n + e.len];
    }
  }

  /** The member at the front: a varint of at most five bytes that is its field number and, in the low
      three bits, the kind of its body; and the body. */
  lemma {:induction false} MemberAtFront(s: seq<byte>, m: Member, used: nat)
    ensures ScanOne(s) == One(m, used) <==> exists n | 1 <= n <= 5 :: VarintOf(s, n) && MemberBehind(s, n, m, used)
  {
    forall n | 1 <= n <= 5 && VarintOf(s, n)
      ensures ScanOne(s) == One(m, used) <==> MemberBehind(s, n, m, used)
    {
      FoundBehind(s, n, m, used);
    }
    var end := VarintEnd(s, 5);
    if end > 0 {
      EndsAt(s, 5, end);
    }
  }

  lemma {:induction false} OneByteVarint(b: byte)
    requires b < 128
    ensures VarintValue([b]) == b
  {
    VarintSum(b, []);
    assert [b] + [] == [b];
  }

  lemma {:induction false} OneByteTag(s: seq<byte>, id: uint32, kind: nat, body: seq<byte>, rest: seq<byte>)
    requires 0 < id < 16 && kind < 8 && BodyExtent(kind, body + rest) == Extent(|body|, 0)
    requires s == [8 * id + kind] + body + rest
    ensures ScanOne(s) == One(Member(id, kind, 0, body), 1 + |body|)
  {
    var first: byte, m := 8 * id + kind, Member(id, kind, 0, body);
    assert MemberBehind(s, 1, m, 1 + |body|) by {
      assert s[..1] == [first] && s[1..] == body + rest && s[1..1 + |body|] == body;
      OneByteVarint(first);
      assert first / 8 == id && first % 8 == kind;
    }
    FoundBehind(s, 1, m, 1 + |body|);
  }

  /** Four bytes behind 8 * id + 5, and eight behind 8 * id + 1, are a member. */
  lemma {:induction false} FixedAtFront(id: uint32, body: seq<byte>, rest: seq<byte>)
    requires 0 < id < 16
    ensures |body| == 4 ==> ScanOne([8 * id + 5] + body + rest) == One(Member(id, 5, 0, body), 5)
    ensures |body| == 8 ==> ScanOne([8 * id + 1] + body + rest) == One(Member(id, 1, 0, body), 9)
  {
    if |body| == 4 {
      BodyReaches(5, body + rest, 4, 0);
      OneByteTag([8 * id + 5] + body + rest, id, 5, body, rest);
    } else if |body| == 8 {
      BodyReaches(1, body + rest, 8, 0);
      OneByteTag([8 * id + 1] + body + rest, id, 1, body, rest);
    }
  }
}
