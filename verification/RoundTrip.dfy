/** Unpacking what a message packs to. */
module RoundTrip {
  import opened Bytes
  import opened Wire
  import opened Members
  import opened Schema
  import opened Encoding
  import opened Decoding

  // ---------------------------------------------------------------------------
  // What comes back
  // ---------------------------------------------------------------------------

  /** A boolean comes back as 0 or 1, a string as its own characters up to the first NUL, and a
      message that was not there as a fresh one. */
  function NormValue(schema: Schema, f: Field, v: Value): Value
    decreases v
  {
    match v
    case Num(word) => Num(NormalWord(f.kind, word))
    case Text(c) => Text(Own(CharsOf(f, c)))
    case Data(_) => v
    case Sub(m) => Sub(Norm(schema, m))
    case NoMessage => if f.sub < |schema| then Sub(Init(schema, f.sub)) else v
  }

  function NormValues(schema: Schema, f: Field, vs: seq<Value>): (r: seq<Value>)
    ensures |r| == |vs|
    decreases vs
  {
    if |vs| == 0 then [] else [NormValue(schema, f, vs[0])] + NormValues(schema, f, vs[1..])
  }

  /** An optional field that was not there comes back with its default. */
  function NormSlot(schema: Schema, f: Field, s: Slot): Slot
    decreases s
  {
    match s
    case Many(values) => Many(NormValues(schema, f, values))
    case Single(_, v) =>
      if f.rule == Required then Single(false, NormValue(schema, f, v))
      else if Absent(f, s) then Single(false, InitValue(f))
      else Single(HasFlag(f.kind), NormValue(schema, f, v))
  }

  function NormSlots(schema: Schema, fields: seq<Field>, slots: seq<Slot>): (r: seq<Slot>)
    requires |fields| == |slots|
    ensures |r| == |slots|
    decreases slots
  {
    if |slots| == 0 then []
    else [NormSlot(schema, fields[0], slots[0])] + NormSlots(schema, fields[1..], slots[1..])
  }

  function Norm(schema: Schema, m: Message): (r: Message)
    decreases m
  {
    if m.desc < |schema| && |schema[m.desc].fields| == |m.slots| then
      Message(m.desc, NormSlots(schema, schema[m.desc].fields, m.slots), m.unknown)
    else m
  }

  // ---------------------------------------------------------------------------
  // When anything comes back
  // ---------------------------------------------------------------------------

  predicate HasMandatory(fields: seq<Field>) {
    exists i | 0 <= i < |fields| :: Mandatory(fields[i])
  }

  /** A required message that is not there is packed as an empty one, which only a descriptor without
      mandatory fields accepts. */
  predicate CompleteValue(schema: Schema, f: Field, v: Value)
    decreases v
  {
    match v
    case Sub(m) => Complete(schema, m)
    case NoMessage => f.sub < |schema| && !HasMandatory(schema[f.sub].fields)
    case _ => true
  }

  predicate CompleteValues(schema: Schema, f: Field, vs: seq<Value>)
    decreases vs
  {
    |vs| > 0 ==> CompleteValue(schema, f, vs[0]) && CompleteValues(schema, f, vs[1..])
  }

  predicate CompleteSlot(schema: Schema, f: Field, s: Slot)
    decreases s
  {
    match s
    case Many(values) => CompleteValues(schema, f, values)
    case Single(_, v) => (f.rule == Optional && Absent(f, s)) || CompleteValue(schema, f, v)
  }

  predicate CompleteSlots(schema: Schema, fields: seq<Field>, slots: seq<Slot>)
    requires |fields| == |slots|
    decreases slots
  {
    |slots| > 0 ==> CompleteSlot(schema, fields[0], slots[0]) && CompleteSlots(schema, fields[1..], slots[1..])
  }

  predicate Complete(schema: Schema, m: Message)
    decreases m
  {
    && m.desc < |schema| && |schema[m.desc].fields| == |m.slots|
    && CompleteSlots(schema, schema[m.desc].fields, m.slots)
  }

  /** Unknown fields, here and in nested messages, are unknown to the descriptor and have a body of
      their wire type. */
  predicate CleanValue(schema: Schema, v: Value)
    decreases v
  {
    v.Sub? ==> Clean(schema, v.message)
  }

  predicate CleanValues(schema: Schema, vs: seq<Value>)
    decreases vs
  {
    |vs| > 0 ==> CleanValue(schema, vs[0]) && CleanValues(schema, vs[1..])
  }

  predicate CleanSlot(schema: Schema, s: Slot)
    decreases s
  {
    if s.Many? then CleanValues(schema, s.values) else CleanValue(schema, s.value)
  }

  predicate CleanSlots(schema: Schema, slots: seq<Slot>)
    decreases slots
  {
    |slots| > 0 ==> CleanSlot(schema, slots[0]) && CleanSlots(schema, slots[1..])
  }

  predicate CleanUnknown(fields: seq<Field>, u: Unknown) {
    u.wire < 8 && FieldIndex(fields, u.tag) == -1 && GoodMember(UnknownMember(u)) && Short(UnknownMember(u))
  }

  predicate Clean(schema: Schema, m: Message)
    decreases m
  {
    && m.desc < |schema|
    && CleanSlots(schema, m.slots)
    && forall i | 0 <= i < |m.unknown| :: CleanUnknown(schema[m.desc].fields, m.unknown[i])
  }

  // ---------------------------------------------------------------------------
  // The members are sound
  // ---------------------------------------------------------------------------

  /** A length and as many bytes are a body that the scan takes whole. */
  lemma {:induction false} PrefixedExtent(content: seq<byte>)
    requires |content| < UINT32
    ensures BodyExtent(PREFIXED, Prefixed(content)) == Extent(|Prefixed(content)|, |Varint(|content|)|)
    ensures Prefixed(content)[|Varint(|content|)|..] == content
  {
    var head, all := Varint(|content|), Prefixed(content);
    VarintRoundTrip(|content|);
    VarintLength32(|content|);
    VarintEndsThere(head, content, 5);
    assert all[..|head|] == head;
    SmallRemainder(|content|, UINT32);
  }

  lemma {:induction false} ValueMemberGood(schema: Schema, f: Field, v: Value)
    requires WellFormed(schema) && ConformsValue(schema, f, v)
    ensures GoodMember(ValueMember(schema, f, v)) && Short(ValueMember(schema, f, v))
    ensures !IsScalar(f.kind) ==> Inside(ValueMember(schema, f, v)) == Content(schema, f, v)
  {
    if IsScalar(f.kind) {
      var body := EncodeWord(f.kind, v.word);
      WordStandsAlone(f.kind, v.word);
      if WireOf(f.kind) == VARINT {
        assert body + [] == body;
        VarintEndsThere(body, [], 10);
      }
    } else {
      PrefixedExtent(Content(schema, f, v));
    }
  }

  lemma {:induction false} PayloadCountable(kind: FieldType, vs: seq<Value>)
    requires AllWords(kind, vs)
    ensures Countable(kind, Payload(kind, vs))
    decreases |vs|
  {
    if |vs| > 0 {
      var s, rest := EncodeWord(kind, vs[0].word), Payload(kind, vs[1..]);
      assert WireOf(kind) == THIRTYTWO ==> |s| == 4;
      assert WireOf(kind) == SIXTYFOUR ==> |s| == 8;
      assert Countable(kind, rest) by {
        PayloadCountable(kind, vs[1..]);
      }
      CountableJoin(kind, s, rest);
    }
  }

  lemma CountableJoin(kind: FieldType, s: seq<byte>, rest: seq<byte>)
    requires Countable(kind, rest)
    requires WireOf(kind) == THIRTYTWO ==> |s| == 4
    requires WireOf(kind) == SIXTYFOUR ==> |s| == 8
    ensures Countable(kind, s + rest)
  {
  }

  /** A member of a field: sound, short, of its number, and countable if it is an array. */
  predicate Belongs(f: Field, m: Member) {
    && GoodMember(m) && Short(m) && m.tag == f.id
    && (IsPacked(f, m) ==> Countable(f.kind, Inside(m)))
  }

  predicate AllBelong(f: Field, ms: seq<Member>) {
    forall i | 0 <= i < |ms| :: Belongs(f, ms[i])
  }

  lemma {:induction false} ValueMembersBelong(schema: Schema, f: Field, vs: seq<Value>)
    requires WellFormed(schema) && ConformsValues(schema, f, vs) && !f.packed
    ensures AllBelong(f, ValueMembers(schema, f, vs))
    decreases |vs|
  {
    if |vs| > 0 {
      var first, rest := ValueMember(schema, f, vs[0]), ValueMembers(schema, f, vs[1..]);
      assert Belongs(f, first) by {
        ValueMemberGood(schema, f, vs[0]);
      }
      assert AllBelong(f, rest) by {
        ValueMembersBelong(schema, f, vs[1..]);
      }
      assert forall i | 0 <= i < |rest| + 1 :: Belongs(f, ([first] + rest)[i]);
    }
  }

  lemma {:induction false} SlotMembersBelong(schema: Schema, f: Field, s: Slot)
    requires WellFormed(schema) && WellFormedField(schema, f) && ConformsSlot(schema, f, s)
    ensures AllBelong(f, SlotMembers(schema, f, s))
    ensures f.rule == Required ==> |SlotMembers(schema, f, s)| == 1
  {
    if f.rule != Repeated {
      ValueMemberGood(schema, f, s.value);
    } else if f.packed {
      PayloadCountable(f.kind, s.values);
      PrefixedExtent(Payload(f.kind, s.values));
    } else {
      ValueMembersBelong(schema, f, s.values);
    }
  }

  /** What the checks on the scanned members ask of the members of the slots from `k` on. */
  ghost predicate PassChecks(fields: seq<Field>, k: nat, ms: seq<Member>)
    requires k <= |fields|
  {
    && GoodMembers(ms) && AllShort(ms) && AllCountable(fields, ms)
    && forall i | k <= i < |fields| :: fields[i].rule == Required ==> Present(ms, fields[i].id)
  }

  lemma {:induction false} SlotsPassChecks(schema: Schema, d: nat, k: nat, slots: seq<Slot>)
    requires WellFormed(schema) && d < |schema| && k + |slots| == |schema[d].fields|
    requires ConformsSlots(schema, schema[d].fields[k..], slots)
    ensures PassChecks(schema[d].fields, k, SlotsMembers(schema, schema[d].fields[k..], slots))
    decreases |slots|
  {
    if |slots| > 0 {
      var fields := schema[d].fields;
      var f := fields[k];
      assert fields[k..][0] == f && fields[k..][1..] == fields[k + 1..];
      var here, rest := SlotMembers(schema, f, slots[0]), SlotsMembers(schema, fields[k + 1..], slots[1..]);
      assert PassChecks(fields, k + 1, rest) by {
        SlotsPassChecks(schema, d, k + 1, slots[1..]);
      }
      SlotMembersBelong(schema, f, slots[0]);
      FieldIndexIs(schema, schema[d], k);
      ChecksJoin(fields, k, here, rest);
    }
  }

  lemma {:induction false} ChecksJoin(fields: seq<Field>, k: nat, here: seq<Member>, rest: seq<Member>)
    requires k < |fields| && FieldIndex(fields, fields[k].id) == k
    requires AllBelong(fields[k], here)
    requires fields[k].rule == Required ==> |here| == 1
    requires PassChecks(fields, k + 1, rest)
    ensures PassChecks(fields, k, here + rest)
  {
    var all := here + rest;
    assert forall i | 0 <= i < |all| :: GoodMember(all[i]) && Short(all[i]) && CountableMember(fields, all[i]);
    forall i | k <= i < |fields| && fields[i].rule == Required ensures Present(all, fields[i].id) {
      if i == k {
        assert all[0].tag == fields[k].id;
      } else {
        var j :| 0 <= j < |rest| && rest[j].tag == fields[i].id;
        assert all[|here| + j].tag == fields[i].id;
      }
    }
  }

  lemma {:induction false} MembersPassChecks(schema: Schema, m: Message)
    requires WellFormed(schema) && Conforms(schema, m) && Clean(schema, m)
    ensures PassChecks(schema[m.desc].fields, 0, MembersOf(schema, m))
  {
    var fields := schema[m.desc].fields;
    assert fields[0..] == fields;
    var known, unknown := SlotsMembers(schema, fields, m.slots), UnknownMembers(m.unknown);
    SlotsPassChecks(schema, m.desc, 0, m.slots);
    forall i | 0 <= i < |unknown|
      ensures GoodMember(unknown[i]) && Short(unknown[i]) && CountableMember(fields, unknown[i])
    {
      assert CleanUnknown(fields, m.unknown[i]);
    }
    var all := known + unknown;
    assert forall i | 0 <= i < |all| :: GoodMember(all[i]) && Short(all[i]) && CountableMember(fields, all[i]);
    forall i | 0 <= i < |fields| && fields[i].rule == Required ensures Present(all, fields[i].id) {
      var j :| 0 <= j < |known| && known[j].tag == fields[i].id;
      assert all[j].tag == fields[i].id;
    }
  }

  lemma {:induction false} NoMoreThanBytes(ms: seq<Member>)
    requires Tagged(ms)
    ensures |ms| <= |Concat(ms)|
  {
    if |ms| > 0 {
      NoMoreThanBytes(ms[1..]);
    }
  }

  // ---------------------------------------------------------------------------
  // Packed arrays
  // ---------------------------------------------------------------------------

  lemma NextWordOf(kind: FieldType, u: nat, rest: seq<byte>)
    requires IsScalar(kind) && u < Range(kind)
    ensures var s := EncodeWord(kind, u);
      NextWord(kind, s + rest) == |s| && (s + rest)[..|s|] == s && (s + rest)[|s|..] == rest
  {
    var s := EncodeWord(kind, u);
    WordStandsAlone(kind, u);
    if WireOf(kind) == VARINT && kind != Bool {
      VarintEndsThere(s, rest, 10);
    }
  }

  lemma {:induction false} PackedRoundTrip(schema: Schema, f: Field, vs: seq<Value>)
    requires WellFormed(schema) && ConformsValues(schema, f, vs) && AllWords(f.kind, vs)
    ensures ParsePacked(f.kind, Payload(f.kind, vs)) == ParsedAll(NormValues(schema, f, vs))
    decreases |vs|
  {
    if |vs| > 0 {
      var u, rest := vs[0].word, Payload(f.kind, vs[1..]);
      var s := EncodeWord(f.kind, u);
      NextWordOf(f.kind, u, rest);
      assert DecodeWord(f.kind, s) == NormalWord(f.kind, u) by {
        WordRoundTrip(f.kind, u);
      }
      assert ParsePacked(f.kind, rest) == ParsedAll(NormValues(schema, f, vs[1..])) by {
        PackedRoundTrip(schema, f, vs[1..]);
      }
      assert |s| > 0 && |s + rest| > 0;
    }
  }

  // ---------------------------------------------------------------------------
  // One member, one slot, a message
  // ---------------------------------------------------------------------------

  /** An empty message unpacks to a fresh one, unless a field is mandatory. */
  lemma {:induction false} UnpackOfNothing(schema: Schema, d: nat)
    requires WellFormed(schema) && d < |schema|
    ensures Unpack(schema, d, []) ==
      if HasMandatory(schema[d].fields) then Failed else Unpacked(Init(schema, d))
  {
    var fields := schema[d].fields;
    if HasMandatory(fields) {
      var i :| 0 <= i < |fields| && Mandatory(fields[i]);
      assert !Present([], fields[i].id);
    }
  }

  lemma {:induction false} ValueRoundTrip(schema: Schema, f: Field, v: Value, n: nat)
    requires WellFormed(schema) && WellFormedField(schema, f) && ConformsValue(schema, f, v) && CleanValue(schema, v)
    requires GoodMember(ValueMember(schema, f, v)) && |ValueMember(schema, f, v).body| < n
    ensures ParseValue(schema, f, ValueMember(schema, f, v), n) ==
      if CompleteValue(schema, f, v) then Parsed(NormValue(schema, f, v)) else Refused
    decreases v, 0
  {
    ValueMemberGood(schema, f, v);
    if IsScalar(f.kind) {
      WordRoundTrip(f.kind, v.word);
    } else if v.Sub? {
      NoMoreThanBytes(MembersOf(schema, v.message));
      UnpackOfEncode(schema, v.message);
    } else if v.NoMessage? {
      UnpackOfNothing(schema, f.sub);
    }
  }

  lemma {:induction false} ApplyOne(schema: Schema, st: Message, m: Member, n: nat)
    requires WellFormed(schema) && Fits(schema, st) && GoodMember(m) && |m.body| < n
    ensures ApplyAll(schema, st, [m], n) == Apply(schema, st, m, n)
  {
    assert [m][1..] == [];
  }

  lemma BelowParts(ms: seq<Member>, ns: seq<Member>, n: nat)
    requires Below(ms + ns, n)
    ensures Below(ms, n) && Below(ns, n)
  {
    var all := ms + ns;
    assert forall i | 0 <= i < |ms| :: ms[i] == all[i];
    assert forall i | 0 <= i < |ns| :: ns[i] == all[|ms| + i];
  }

  lemma FirstBelow(m: Member, rest: seq<Member>, n: nat)
    requires Below([m] + rest, n)
    ensures GoodMember(m) && |m.body| < n && Below(rest, n)
  {
    BelowParts([m], rest, n);
    assert GoodMember([m][0]) && |[m][0].body| < n;
  }

  /** The state with one slot replaced. */
  function WithSlot(st: Message, k: nat, s: Slot): Message
    requires k < |st.slots|
  {
    st.(slots := st.slots[k := s])
  }

  lemma WithSlotTwice(st: Message, k: nat, a: Slot, b: Slot)
    requires k < |st.slots|
    ensures WithSlot(WithSlot(st, k, a), k, b) == WithSlot(st, k, b)
  {
    assert st.slots[k := a][k := b] == st.slots[k := b];
  }

  /** One member and those behind it. */
  lemma {:induction false} ApplyFirst(schema: Schema, st: Message, m: Member, rest: seq<Member>, n: nat)
    requires WellFormed(schema) && Fits(schema, st) && GoodMember(m) && |m.body| < n && Below(rest, n)
    ensures Below([m] + rest, n)
    ensures ApplyAll(schema, st, [m] + rest, n) ==
      match Apply(schema, st, m, n)
      case Failed => Failed
      case Unpacked(next) => ApplyAll(schema, next, rest, n)
  {
    var all := [m] + rest;
    assert all[0] == m && all[1..] == rest;
    assert Below(all, n);
  }

  /** One element of an array that is not packed. */
  lemma {:induction false} ApplyValue(schema: Schema, st: Message, k: nat, pre: seq<Value>, v: Value, n: nat)
    requires WellFormed(schema) && Fits(schema, st) && k < |st.slots| && st.slots[k] == Many(pre)
    requires var f := schema[st.desc].fields[k];
      && ConformsValue(schema, f, v) && CleanValue(schema, v) && !f.packed
      && GoodMember(ValueMember(schema, f, v)) && |ValueMember(schema, f, v).body| < n
    ensures var f := schema[st.desc].fields[k];
      Apply(schema, st, ValueMember(schema, f, v), n) ==
      if CompleteValue(schema, f, v) then Unpacked(WithSlot(st, k, Many(pre + [NormValue(schema, f, v)]))) else Failed
    decreases v, 1
  {
    FieldIndexIs(schema, schema[st.desc], k);
    ValueRoundTrip(schema, schema[st.desc].fields[k], v, n);
  }

  lemma {:induction false} ApplyValues(schema: Schema, st: Message, k: nat, pre: seq<Value>, vs: seq<Value>, n: nat)
    requires WellFormed(schema) && Fits(schema, st) && k < |st.slots| && st.slots[k] == Many(pre)
    requires var f := schema[st.desc].fields[k];
      ConformsValues(schema, f, vs) && CleanValues(schema, vs) && !f.packed && Below(ValueMembers(schema, f, vs), n)
    ensures var f := schema[st.desc].fields[k];
      ApplyAll(schema, st, ValueMembers(schema, f, vs), n) ==
      if CompleteValues(schema, f, vs) then Unpacked(WithSlot(st, k, Many(pre + NormValues(schema, f, vs)))) else Failed
    decreases vs, 2
  {
    var f := schema[st.desc].fields[k];
    if |vs| == 0 {
      assert pre + [] == pre && st.slots[k := Many(pre)] == st.slots;
    } else {
      var m, rest := ValueMember(schema, f, vs[0]), ValueMembers(schema, f, vs[1..]);
      var v, others := NormValue(schema, f, vs[0]), NormValues(schema, f, vs[1..]);
      FirstBelow(m, rest, n);
      var next, last := WithSlot(st, k, Many(pre + [v])), Many(pre + ([v] + others));
      assert ApplyAll(schema, st, [m] + rest, n) ==
        if CompleteValue(schema, f, vs[0]) then ApplyAll(schema, next, rest, n) else Failed by {
        ApplyFirst(schema, st, m, rest, n);
        ApplyValue(schema, st, k, pre, vs[0], n);
      }
      if CompleteValue(schema, f, vs[0]) {
        assert pre + [v] + others == pre + ([v] + others);
        WithSlotTwice(st, k, Many(pre + [v]), last);
        assert ApplyAll(schema, next, rest, n) ==
          if CompleteValues(schema, f, vs[1..]) then Unpacked(WithSlot(st, k, last)) else Failed by {
          ApplyValues(schema, next, k, pre + [v], vs[1..], n);
        }
      }
    }
  }

  lemma {:induction false} ApplySlot(schema: Schema, st: Message, k: nat, s: Slot, n: nat)
    requires WellFormed(schema) && Fits(schema, st) && k < |st.slots|
    requires st.slots[k] == InitSlot(schema[st.desc].fields[k])
    requires var f := schema[st.desc].fields[k];
      ConformsSlot(schema, f, s) && CleanSlot(schema, s) && Below(SlotMembers(schema, f, s), n)
    ensures var f := schema[st.desc].fields[k];
      ApplyAll(schema, st, SlotMembers(schema, f, s), n) ==
      if CompleteSlot(schema, f, s) then Unpacked(WithSlot(st, k, NormSlot(schema, f, s))) else Failed
    decreases s, 2
  {
    var f := schema[st.desc].fields[k];
    if |SlotMembers(schema, f, s)| == 0 {
      assert st.slots[k := st.slots[k]] == st.slots;
    } else if f.rule != Repeated {
      var m := ValueMember(schema, f, s.value);
      assert SlotMembers(schema, f, s) == [m] && GoodMember([m][0]) && |[m][0].body| < n;
      ApplyOne(schema, st, m, n);
      FieldIndexIs(schema, schema[st.desc], k);
      ValueRoundTrip(schema, f, s.value, n);
    } else if f.packed {
      ApplyPacked(schema, st, k, s.values, n);
    } else {
      ApplyValues(schema, st, k, [], s.values, n);
      assert [] + NormValues(schema, f, s.values) == NormValues(schema, f, s.values);
    }
  }

  lemma {:induction false} ApplyPacked(schema: Schema, st: Message, k: nat, vs: seq<Value>, n: nat)
    requires WellFormed(schema) && Fits(schema, st) && k < |st.slots| && st.slots[k] == Many([])
    requires var f := schema[st.desc].fields[k];
      ConformsSlot(schema, f, Many(vs)) && f.packed && |vs| > 0 && Below(SlotMembers(schema, f, Many(vs)), n)
    ensures var f := schema[st.desc].fields[k];
      && ApplyAll(schema, st, SlotMembers(schema, f, Many(vs)), n)
         == Unpacked(WithSlot(st, k, Many(NormValues(schema, f, vs))))
      && CompleteValues(schema, f, vs)
  {
    var f, payload := schema[st.desc].fields[k], Payload(schema[st.desc].fields[k].kind, vs);
    var m := PackedMember(f, payload);
    assert SlotMembers(schema, f, Many(vs)) == [m] && GoodMember([m][0]) && |[m][0].body| < n;
    ApplyOne(schema, st, m, n);
    FieldIndexIs(schema, schema[st.desc], k);
    assert Inside(m) == payload by {
      PrefixedExtent(payload);
    }
    assert ParsePacked(f.kind, payload) == ParsedAll(NormValues(schema, f, vs)) by {
      PackedRoundTrip(schema, f, vs);
    }
    assert [] + NormValues(schema, f, vs) == NormValues(schema, f, vs);
    WordsComplete(schema, f, vs);
  }

  lemma {:induction false} WordsComplete(schema: Schema, f: Field, vs: seq<Value>)
    requires WellFormed(schema) && ConformsValues(schema, f, vs) && AllWords(f.kind, vs)
    ensures CompleteValues(schema, f, vs)
    decreases |vs|
  {
    if |vs| > 0 {
      WordsComplete(schema, f, vs[1..]);
    }
  }

  lemma SlotTaken(slots: seq<Slot>, k: nat, s: Slot, others: seq<Slot>)
    requires k < |slots|
    ensures slots[k := s][..k + 1] + others == slots[..k] + ([s] + others)
  {
    assert slots[k := s][..k + 1] == slots[..k] + [s];
  }

  /** The members of one slot and of those behind it, one after the other. */
  lemma {:induction false} SlotsInTurn(schema: Schema, st: Message, k: nat,
      here: seq<Member>, rest: seq<Member>, n: nat, s: Slot, others: seq<Slot>, first: bool, later: bool)
    requires WellFormed(schema) && Fits(schema, st) && k < |st.slots| && Below(here, n) && Below(rest, n)
    requires ApplyAll(schema, st, here, n) == if first then Unpacked(WithSlot(st, k, s)) else Failed
    requires Fits(schema, WithSlot(st, k, s))
    requires first ==>
      ApplyAll(schema, WithSlot(st, k, s), rest, n) ==
      if later then Unpacked(st.(slots := st.slots[k := s][..k + 1] + others)) else Failed
    ensures Below(here + rest, n)
    ensures ApplyAll(schema, st, here + rest, n) ==
      if first && later then Unpacked(st.(slots := st.slots[..k] + ([s] + others))) else Failed
  {
    ApplyJoin(schema, st, here, rest, n);
    SlotTaken(st.slots, k, s, others);
  }

  lemma {:induction false} ApplySlots(schema: Schema, st: Message, k: nat, ss: seq<Slot>, n: nat)
    requires WellFormed(schema) && Fits(schema, st) && k + |ss| == |st.slots|
    requires forall j | k <= j < |st.slots| :: st.slots[j] == InitSlot(schema[st.desc].fields[j])
    requires var fs := schema[st.desc].fields[k..];
      ConformsSlots(schema, fs, ss) && CleanSlots(schema, ss) && Below(SlotsMembers(schema, fs, ss), n)
    ensures var fs := schema[st.desc].fields[k..];
      ApplyAll(schema, st, SlotsMembers(schema, fs, ss), n) ==
      if CompleteSlots(schema, fs, ss) then Unpacked(st.(slots := st.slots[..k] + NormSlots(schema, fs, ss)))
      else Failed
    decreases ss, 2
  {
    var fields := schema[st.desc].fields;
    var fs := fields[k..];
    if |ss| == 0 {
      assert st.slots[..k] + [] == st.slots;
    } else {
      var f := fields[k];
      assert fs[0] == f && fs[1..] == fields[k + 1..];
      var here, rest := SlotMembers(schema, f, ss[0]), SlotsMembers(schema, fs[1..], ss[1..]);
      var s, others := NormSlot(schema, f, ss[0]), NormSlots(schema, fs[1..], ss[1..]);
      var first, later := CompleteSlot(schema, f, ss[0]), CompleteSlots(schema, fs[1..], ss[1..]);
      BelowParts(here, rest, n);
      assert ApplyAll(schema, st, here, n) == if first then Unpacked(WithSlot(st, k, s)) else Failed by {
        ApplySlot(schema, st, k, ss[0], n);
      }
      if first {
        var next := WithSlot(st, k, s);
        assert ApplyAll(schema, next, rest, n) ==
          if later then Unpacked(next.(slots := next.slots[..k + 1] + others)) else Failed by {
          ApplySlots(schema, next, k + 1, ss[1..], n);
        }
      }
      SlotsInTurn(schema, st, k, here, rest, n, s, others, first, later);
    }
  }

  /** The state with more unknown fields. */
  function WithUnknown(st: Message, us: seq<Unknown>): Message {
    st.(unknown := st.unknown + us)
  }

  lemma WithUnknownTwice(st: Message, us: seq<Unknown>, vs: seq<Unknown>)
    ensures WithUnknown(WithUnknown(st, us), vs) == WithUnknown(st, us + vs)
    ensures WithUnknown(st, []) == st
  {
    assert st.unknown + us + vs == st.unknown + (us + vs) && st.unknown + [] == st.unknown;
  }

  lemma {:induction false} ApplyOneUnknown(schema: Schema, st: Message, u: Unknown, n: nat)
    requires WellFormed(schema) && Fits(schema, st) && CleanUnknown(schema[st.desc].fields, u) && |u.data| < n
    ensures Apply(schema, st, UnknownMember(u), n) == Unpacked(WithUnknown(st, [u]))
  {}

  lemma {:induction false} ApplyUnknown(schema: Schema, st: Message, us: seq<Unknown>, n: nat)
    requires WellFormed(schema) && Fits(schema, st) && Below(UnknownMembers(us), n)
    requires forall i | 0 <= i < |us| :: CleanUnknown(schema[st.desc].fields, us[i])
    ensures ApplyAll(schema, st, UnknownMembers(us), n) == Unpacked(WithUnknown(st, us))
    decreases |us|
  {
    if |us| == 0 {
      WithUnknownTwice(st, [], []);
    } else {
      UnknownsSplit(us);
      var m, rest := UnknownMember(us[0]), UnknownMembers(us[1..]);
      FirstBelow(m, rest, n);
      ApplyFirst(schema, st, m, rest, n);
      ApplyOneUnknown(schema, st, us[0], n);
      ApplyUnknown(schema, WithUnknown(st, [us[0]]), us[1..], n);
      WithUnknownTwice(st, [us[0]], us[1..]);
    }
  }

  lemma UnknownsSplit(us: seq<Unknown>)
    requires |us| > 0
    ensures UnknownMembers(us) == [UnknownMember(us[0])] + UnknownMembers(us[1..]) && [us[0]] + us[1..] == us
  {}

  /** Unpacking the packed bytes gives the message back, normalised, when it is complete, and fails
      when it is not. */
  lemma {:induction false} UnpackOfEncode(schema: Schema, m: Message)
    requires WellFormed(schema) && Conforms(schema, m) && Clean(schema, m)
    requires |MembersOf(schema, m)| <= MAX_MEMBERS
    ensures Unpack(schema, m.desc, Encode(schema, m)) ==
      if Complete(schema, m) then Unpacked(Norm(schema, m)) else Failed
    decreases m, 3
  {
    var fields, ms, n := schema[m.desc].fields, MembersOf(schema, m), |Encode(schema, m)|;
    assert ScanAll(Encode(schema, m)) == Found(ms) by {
      MembersPassChecks(schema, m);
      ScanOfConcat(ms);
    }
    MembersPassChecks(schema, m);
    assert Unpack(schema, m.desc, Encode(schema, m)) == ApplyAll(schema, Init(schema, m.desc), ms, n);
    ApplyMembers(schema, m, n);
  }

  lemma {:induction false} ApplyMembers(schema: Schema, m: Message, n: nat)
    requires WellFormed(schema) && Conforms(schema, m) && Clean(schema, m) && Below(MembersOf(schema, m), n)
    ensures ApplyAll(schema, Init(schema, m.desc), MembersOf(schema, m), n) ==
      if Complete(schema, m) then Unpacked(Norm(schema, m)) else Failed
    decreases m, 2
  {
    var fields, start := schema[m.desc].fields, Init(schema, m.desc);
    var known, unknown := SlotsMembers(schema, fields, m.slots), UnknownMembers(m.unknown);
    var ms := known + unknown;
    assert ms == MembersOf(schema, m);
    BelowParts(known, unknown, n);
    ApplyJoin(schema, start, known, unknown, n);
    var slots := NormSlots(schema, fields, m.slots);
    assert ApplyAll(schema, start, known, n) ==
      if Complete(schema, m) then Unpacked(Message(m.desc, slots, [])) else Failed by {
      assert fields[0..] == fields && start.slots[..0] + slots == slots;
      ApplySlots(schema, start, 0, m.slots, n);
    }
    if Complete(schema, m) {
      assert ApplyAll(schema, Message(m.desc, slots, []), unknown, n) == Unpacked(Norm(schema, m)) by {
        ApplyUnknown(schema, Message(m.desc, slots, []), m.unknown, n);
        assert [] + m.unknown == m.unknown;
      }
    }
  }
}
