/** What unpacking accepts: a message of the types its descriptor says, clean and complete, which packs
    and unpacks again. */
module Acceptance {
  import opened Bytes
  import opened Wire
  import opened Members
  import opened Schema
  import opened Encoding
  import opened Decoding
  import opened RoundTrip

  // ---------------------------------------------------------------------------
  // Messages of the types their descriptors say, of whatever lengths
  // ---------------------------------------------------------------------------

  predicate ShapedValue(schema: Schema, f: Field, v: Value)
    decreases v
  {
    match f.kind
    case String => v.Text? && (v.chars.Default? ==> f.default.DefaultText?) && (f.rule == Repeated ==> v.chars.Own?)
    case Binary => v.Data?
    case Nested =>
      if v.Sub? then v.message.desc == f.sub && Shaped(schema, v.message) else v.NoMessage? && f.rule != Repeated
    case _ => v.Num? && v.word < Range(f.kind)
  }

  predicate ShapedSlot(schema: Schema, f: Field, s: Slot)
    decreases s
  {
    if f.rule == Repeated then
      s.Many? && forall i | 0 <= i < |s.values| :: ShapedValue(schema, f, s.values[i])
    else
      s.Single? && ShapedValue(schema, f, s.value) && (s.has ==> f.rule == Optional && HasFlag(f.kind))
  }

  predicate Shaped(schema: Schema, m: Message)
    decreases m
  {
    && m.desc < |schema| && |schema[m.desc].fields| == |m.slots|
    && (forall i | 0 <= i < |m.slots| :: ShapedSlot(schema, schema[m.desc].fields[i], m.slots[i]))
    && forall i | 0 <= i < |m.unknown| :: m.unknown[i].wire < 8
  }

  /** All lengths within 32 bits, together with what says them. */
  predicate BriefValue(schema: Schema, f: Field, v: Value)
    requires WellFormed(schema)
    decreases v
  {
    match v
    case Text(c) => |Prefixed(CharsOf(f, c))| < UINT32
    case Data(bytes) => |Prefixed(bytes)| < UINT32
    case Sub(m) => Brief(schema, m) && (Conforms(schema, m) ==> |Prefixed(Encode(schema, m))| < UINT32)
    case _ => true
  }

  predicate BriefSlot(schema: Schema, f: Field, s: Slot)
    requires WellFormed(schema)
    decreases s
  {
    match s
    case Single(_, v) => BriefValue(schema, f, v)
    case Many(vs) =>
      && |vs| < UINT32 && (forall i | 0 <= i < |vs| :: BriefValue(schema, f, vs[i]))
      && (f.packed && AllWords(f.kind, vs) ==> |Prefixed(Payload(f.kind, vs))| < UINT32)
  }

  predicate Brief(schema: Schema, m: Message)
    requires WellFormed(schema)
    decreases m
  {
    m.desc < |schema| && |schema[m.desc].fields| == |m.slots| ==>
      forall i | 0 <= i < |m.slots| :: BriefSlot(schema, schema[m.desc].fields[i], m.slots[i])
  }

  lemma {:induction false} ConformsValueExactly(schema: Schema, f: Field, v: Value)
    requires WellFormed(schema)
    ensures ConformsValue(schema, f, v) <==> ShapedValue(schema, f, v) && BriefValue(schema, f, v)
    decreases v, 0
  {
    if v.Sub? {
      ConformsExactly(schema, v.message);
    }
  }

  lemma {:induction false} ConformsValuesExactly(schema: Schema, f: Field, vs: seq<Value>)
    requires WellFormed(schema)
    ensures ConformsValues(schema, f, vs) <==>
      forall i | 0 <= i < |vs| :: ShapedValue(schema, f, vs[i]) && BriefValue(schema, f, vs[i])
    decreases vs, 1
  {
    if |vs| > 0 {
      ConformsValueExactly(schema, f, vs[0]);
      ConformsValuesExactly(schema, f, vs[1..]);
      assert forall i | 0 < i < |vs| :: vs[i] == vs[1..][i - 1];
    }
  }

  lemma {:induction false} ConformsSlotExactly(schema: Schema, f: Field, s: Slot)
    requires WellFormed(schema) && WellFormedField(schema, f)
    ensures ConformsSlot(schema, f, s) <==> ShapedSlot(schema, f, s) && BriefSlot(schema, f, s)
    decreases s, 2
  {
    match s
    case Single(_, v) => ConformsValueExactly(schema, f, v);
    case Many(vs) => ConformsValuesExactly(schema, f, vs);
  }

  lemma {:induction false} ConformsSlotsExactly(schema: Schema, fields: seq<Field>, slots: seq<Slot>)
    requires WellFormed(schema) && |fields| == |slots|
    requires forall i | 0 <= i < |fields| :: WellFormedField(schema, fields[i])
    ensures ConformsSlots(schema, fields, slots) <==>
      forall i | 0 <= i < |slots| :: ShapedSlot(schema, fields[i], slots[i]) && BriefSlot(schema, fields[i], slots[i])
    decreases slots, 3
  {
    if |slots| > 0 {
      ConformsSlotExactly(schema, fields[0], slots[0]);
      ConformsSlotsExactly(schema, fields[1..], slots[1..]);
      assert forall i | 0 < i < |slots| :: slots[i] == slots[1..][i - 1] && fields[i] == fields[1..][i - 1];
    }
  }

  /** Conforming is having those types and those lengths. */
  lemma {:induction false} ConformsExactly(schema: Schema, m: Message)
    requires WellFormed(schema)
    ensures Conforms(schema, m) <==> Shaped(schema, m) && Brief(schema, m)
    decreases m, 4
  {
    if m.desc < |schema| && |schema[m.desc].fields| == |m.slots| {
      ConformsSlotsExactly(schema, schema[m.desc].fields, m.slots);
    }
  }

  // ---------------------------------------------------------------------------
  // Messages that come back as they were
  // ---------------------------------------------------------------------------

  /** Booleans are 0 or 1, strings are the message's own and have no NUL in them, nested messages are there. */
  predicate NormalValue(schema: Schema, f: Field, v: Value)
    decreases v
  {
    match v
    case Num(word) => f.kind == Bool ==> word <= 1
    case Text(c) => c.Own? && NoNul(c.bytes)
    case Data(_) => true
    case Sub(m) => Normal(schema, m)
    case NoMessage => f.sub >= |schema|
  }

  /** An optional field that is absent has its default, and one that is not has its flag. */
  predicate NormalSlot(schema: Schema, f: Field, s: Slot)
    decreases s
  {
    match s
    case Many(values) => forall i | 0 <= i < |values| :: NormalValue(schema, f, values[i])
    case Single(has, v) =>
      if f.rule == Required then !has && NormalValue(schema, f, v)
      else if Absent(f, s) then !has && v == InitValue(f)
      else has == HasFlag(f.kind) && NormalValue(schema, f, v)
  }

  predicate Normal(schema: Schema, m: Message)
    decreases m
  {
    m.desc < |schema| && |schema[m.desc].fields| == |m.slots| ==>
      forall i | 0 <= i < |m.slots| :: NormalSlot(schema, schema[m.desc].fields[i], m.slots[i])
  }

  lemma {:induction false} NoNulIsAll(s: seq<byte>)
    ensures UpToNul(s) == s <==> NoNul(s)
  {
    var r := UpToNul(s);
    assert |r| == |s| ==> r == s;
  }

  lemma {:induction false} NormalValueExactly(schema: Schema, f: Field, v: Value)
    ensures NormValue(schema, f, v) == v <==> NormalValue(schema, f, v)
    decreases v, 0
  {
    match v
    case Text(c) =>
      if c.Own? {
        NoNulIsAll(c.bytes);
      }
    case Sub(m) => NormalExactly(schema, m);
    case _ =>
  }

  lemma {:induction false} NormalValuesExactly(schema: Schema, f: Field, vs: seq<Value>)
    ensures NormValues(schema, f, vs) == vs <==> forall i | 0 <= i < |vs| :: NormalValue(schema, f, vs[i])
    decreases vs, 1
  {
    if |vs| > 0 {
      var first, rest := NormValue(schema, f, vs[0]), NormValues(schema, f, vs[1..]);
      NormalValueExactly(schema, f, vs[0]);
      NormalValuesExactly(schema, f, vs[1..]);
      assert vs == [vs[0]] + vs[1..];
      assert ([first] + rest)[0] == first && ([first] + rest)[1..] == rest;
      assert forall i | 0 < i < |vs| :: vs[i] == vs[1..][i - 1];
    }
  }

  lemma {:induction false} NormalSlotExactly(schema: Schema, f: Field, s: Slot)
    ensures NormSlot(schema, f, s) == s <==> NormalSlot(schema, f, s)
    decreases s, 2
  {
    match s
    case Single(_, v) => NormalValueExactly(schema, f, v);
    case Many(vs) => NormalValuesExactly(schema, f, vs);
  }

  lemma {:induction false} NormalSlotsExactly(schema: Schema, fields: seq<Field>, slots: seq<Slot>)
    requires |fields| == |slots|
    ensures NormSlots(schema, fields, slots) == slots <==>
      forall i | 0 <= i < |slots| :: NormalSlot(schema, fields[i], slots[i])
    decreases slots, 3
  {
    if |slots| > 0 {
      var first, rest := NormSlot(schema, fields[0], slots[0]), NormSlots(schema, fields[1..], slots[1..]);
      NormalSlotExactly(schema, fields[0], slots[0]);
      NormalSlotsExactly(schema, fields[1..], slots[1..]);
      assert slots == [slots[0]] + slots[1..];
      assert ([first] + rest)[0] == first && ([first] + rest)[1..] == rest;
      assert forall i | 0 < i < |slots| :: slots[i] == slots[1..][i - 1] && fields[i] == fields[1..][i - 1];
    }
  }

  /** A message is its own normal form exactly when it is normal. */
  lemma {:induction false} NormalExactly(schema: Schema, m: Message)
    ensures Norm(schema, m) == m <==> Normal(schema, m)
    decreases m, 4
  {
    if m.desc < |schema| && |schema[m.desc].fields| == |m.slots| {
      NormalSlotsExactly(schema, schema[m.desc].fields, m.slots);
    }
  }

  // ---------------------------------------------------------------------------
  // What every member keeps
  // ---------------------------------------------------------------------------

  ghost predicate ValueOk(schema: Schema, f: Field, v: Value) {
    ShapedValue(schema, f, v) && CleanValue(schema, v) && CompleteValue(schema, f, v)
  }

  /** A single field has been given a value, or is as it was initialised. */
  ghost predicate SlotOk(schema: Schema, f: Field, s: Slot) {
    if f.rule == Repeated then
      s.Many? && forall i | 0 <= i < |s.values| :: ValueOk(schema, f, s.values[i])
    else
      && s.Single? && (s.has ==> f.rule == Optional && HasFlag(f.kind))
      && (s.value == InitValue(f) || ValueOk(schema, f, s.value))
  }

  ghost predicate AllOk(schema: Schema, m: Message) {
    && Fits(schema, m)
    && (forall i | 0 <= i < |m.slots| :: SlotOk(schema, schema[m.desc].fields[i], m.slots[i]))
    && forall i | 0 <= i < |m.unknown| :: CleanUnknown(schema[m.desc].fields, m.unknown[i])
  }

  lemma InitOk(schema: Schema, d: nat)
    requires WellFormed(schema) && d < |schema|
    ensures AllOk(schema, Init(schema, d))
  {}

  lemma {:induction false} PackedOk(kind: FieldType, s: seq<byte>)
    requires IsScalar(kind) && ParsePacked(kind, s).ParsedAll?
    ensures forall i | 0 <= i < |ParsePacked(kind, s).values| ::
      var v := ParsePacked(kind, s).values[i]; v.Num? && v.word < Range(kind)
    decreases |s|
  {
    if |s| > 0 {
      PackedOk(kind, s[NextWord(kind, s)..]);
    }
  }

  lemma {:induction false} ParsedOk(schema: Schema, f: Field, m: Member, n: nat)
    requires WellFormed(schema) && WellFormedField(schema, f) && GoodMember(m) && |m.body| < n < UINT32
    requires ParseValue(schema, f, m, n).Parsed?
    ensures ValueOk(schema, f, ParseValue(schema, f, m, n).value)
    ensures f.kind == Nested ==> ParseValue(schema, f, m, n).value.Sub?
    decreases n, 0
  {
    if f.kind == Nested {
      AcceptedIsSound(schema, f.sub, Inside(m));
    }
  }

  /** A slot that is still in order with more values, or with a new one. */
  lemma MoreOk(schema: Schema, f: Field, s: Slot, vs: seq<Value>)
    requires f.rule == Repeated && SlotOk(schema, f, s) && forall i | 0 <= i < |vs| :: ValueOk(schema, f, vs[i])
    ensures SlotOk(schema, f, Many(s.values + vs))
  {
    var all := s.values + vs;
    forall i | 0 <= i < |all| ensures ValueOk(schema, f, all[i]) {
      if i >= |s.values| {
        assert all[i] == vs[i - |s.values|];
      }
    }
  }

  lemma {:induction false} ApplyKeeps(schema: Schema, msg: Message, m: Member, n: nat)
    requires WellFormed(schema) && AllOk(schema, msg) && GoodMember(m) && |m.body| < n < UINT32
    requires Apply(schema, msg, m, n).Unpacked?
    ensures AllOk(schema, Apply(schema, msg, m, n).message)
    decreases n, 1
  {
    var fields := schema[msg.desc].fields;
    var k := FieldIndex(fields, m.tag);
    var next := Apply(schema, msg, m, n).message;
    if k < 0 {
      var u := Unknown(m.tag, m.wire, m.body);
      assert UnknownMember(u) == m && CleanUnknown(fields, u);
    } else if IsPacked(fields[k], m) {
      assert WellFormedField(schema, fields[k]);
      PackedOk(fields[k].kind, Inside(m));
      MoreOk(schema, fields[k], msg.slots[k], ParsePacked(fields[k].kind, Inside(m)).values);
    } else {
      assert WellFormedField(schema, fields[k]);
      ParsedOk(schema, fields[k], m, n);
      if fields[k].rule == Repeated {
        MoreOk(schema, fields[k], msg.slots[k], [ParseValue(schema, fields[k], m, n).value]);
      }
    }
  }

  lemma {:induction false} ApplyAllKeeps(schema: Schema, msg: Message, ms: seq<Member>, n: nat)
    requires WellFormed(schema) && AllOk(schema, msg) && Below(ms, n) && n < UINT32
    requires ApplyAll(schema, msg, ms, n).Unpacked?
    ensures AllOk(schema, ApplyAll(schema, msg, ms, n).message)
    decreases n, 2, |ms|
  {
    if |ms| > 0 {
      ApplyKeeps(schema, msg, ms[0], n);
      ApplyAllKeeps(schema, Apply(schema, msg, ms[0], n).message, ms[1..], n);
    }
  }

  lemma {:induction false} NestedStep(schema: Schema, msg: Message, m: Member, n: nat, k: nat)
    requires WellFormed(schema) && Fits(schema, msg) && GoodMember(m) && |m.body| < n && k < |msg.slots|
    requires schema[msg.desc].fields[k].kind == Nested && schema[msg.desc].fields[k].rule == Required
    requires Apply(schema, msg, m, n).Unpacked?
    ensures var next := Apply(schema, msg, m, n).message;
      if m.tag == schema[msg.desc].fields[k].id then next.slots[k].value.Sub? else next.slots[k] == msg.slots[k]
  {
    var f := schema[msg.desc].fields[k];
    FieldIndexIs(schema, schema[msg.desc], k);
    assert WellFormedField(schema, f);
    if m.tag == f.id {
      assert ParseValue(schema, f, m, n).Parsed? && ParseValue(schema, f, m, n).value.Sub?;
    }
  }

  /** A nested message that has been there, or is, is there in the end. */
  lemma {:induction false} NestedStays(schema: Schema, msg: Message, ms: seq<Member>, n: nat, k: nat)
    requires WellFormed(schema) && Fits(schema, msg) && Below(ms, n) && k < |msg.slots|
    requires schema[msg.desc].fields[k].kind == Nested && schema[msg.desc].fields[k].rule == Required
    requires ApplyAll(schema, msg, ms, n).Unpacked?
    requires msg.slots[k].value.Sub? || Present(ms, schema[msg.desc].fields[k].id)
    ensures ApplyAll(schema, msg, ms, n).message.slots[k].value.Sub?
    decreases |ms|
  {
    if |ms| > 0 {
      var id := schema[msg.desc].fields[k].id;
      var next := Apply(schema, msg, ms[0], n).message;
      NestedStep(schema, msg, ms[0], n, k);
      if !next.slots[k].value.Sub? {
        var i :| 0 <= i < |ms| && ms[i].tag == id;
        assert ms[1..][i - 1].tag == id;
      }
      NestedStays(schema, next, ms[1..], n, k);
    }
  }

  // ---------------------------------------------------------------------------
  // Whatever is accepted, is sound
  // ---------------------------------------------------------------------------

  lemma {:induction false} ValuesSound(schema: Schema, f: Field, vs: seq<Value>)
    requires forall i | 0 <= i < |vs| :: ValueOk(schema, f, vs[i])
    ensures CleanValues(schema, vs) && CompleteValues(schema, f, vs)
  {
    if |vs| > 0 {
      assert ValueOk(schema, f, vs[0]);
      assert forall i | 0 <= i < |vs| - 1 :: vs[1..][i] == vs[i + 1];
      ValuesSound(schema, f, vs[1..]);
    }
  }

  lemma {:induction false} SlotSound(schema: Schema, f: Field, s: Slot)
    requires WellFormedField(schema, f) && SlotOk(schema, f, s)
    requires f.kind == Nested && f.rule == Required ==> s.value.Sub?
    ensures ShapedSlot(schema, f, s) && CleanSlot(schema, s) && CompleteSlot(schema, f, s)
  {
    if f.rule == Repeated {
      ValuesSound(schema, f, s.values);
    }
  }

  lemma {:induction false} SlotsSound(schema: Schema, fields: seq<Field>, slots: seq<Slot>)
    requires |fields| == |slots|
    requires forall i | 0 <= i < |slots| :: CleanSlot(schema, slots[i]) && CompleteSlot(schema, fields[i], slots[i])
    ensures CleanSlots(schema, slots) && CompleteSlots(schema, fields, slots)
  {
    if |slots| > 0 {
      assert forall i | 0 <= i < |slots| - 1 :: slots[1..][i] == slots[i + 1] && fields[1..][i] == fields[i + 1];
      SlotsSound(schema, fields[1..], slots[1..]);
    }
  }

  /** Less than 2^32 bytes that unpack give a message of the right types, clean and complete. */
  lemma {:induction false} AcceptedIsSound(schema: Schema, d: nat, data: seq<byte>)
    requires WellFormed(schema) && d < |schema| && |data| < UINT32 && Unpack(schema, d, data).Unpacked?
    ensures var m := Unpack(schema, d, data).message;
      m.desc == d && Shaped(schema, m) && Clean(schema, m) && Complete(schema, m)
    decreases |data|, 3
  {
    var fields, ms, n := schema[d].fields, ScanAll(data).members, |data|;
    var m := Unpack(schema, d, data).message;
    InitOk(schema, d);
    ApplyAllKeeps(schema, Init(schema, d), ms, n);
    forall i | 0 <= i < |fields|
      ensures ShapedSlot(schema, fields[i], m.slots[i])
      ensures CleanSlot(schema, m.slots[i]) && CompleteSlot(schema, fields[i], m.slots[i])
    {
      if fields[i].kind == Nested && fields[i].rule == Required {
        assert Mandatory(fields[i]);
        NestedStays(schema, Init(schema, d), ms, n, i);
      }
      SlotSound(schema, fields[i], m.slots[i]);
    }
    SlotsSound(schema, fields, m.slots);
  }

  /** So it packs and unpacks again, provided its lengths are still within 32 bits: the bytes may have
      grown, since a negative 32-bit number may come in five bytes and goes out in ten. It is the same
      message then exactly when it is normal. */
  lemma {:induction false} AcceptedRoundTrip(schema: Schema, d: nat, data: seq<byte>, m: Message)
    requires WellFormed(schema) && d < |schema| && |data| < UINT32 && Unpack(schema, d, data) == Unpacked(m)
    requires Brief(schema, m)
    ensures Conforms(schema, m)
    ensures |MembersOf(schema, m)| <= MAX_MEMBERS ==>
      && Unpack(schema, d, Encode(schema, m)) == Unpacked(Norm(schema, m))
      && (Unpack(schema, d, Encode(schema, m)) == Unpacked(m) <==> Normal(schema, m))
  {
    AcceptedIsSound(schema, d, data);
    ConformsExactly(schema, m);
    if |MembersOf(schema, m)| <= MAX_MEMBERS {
      UnpackOfEncode(schema, m);
      NormalExactly(schema, m);
    }
  }
}
