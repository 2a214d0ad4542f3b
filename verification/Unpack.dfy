/** The second pass of unpacking: the kept members fill a message whose arrays were allocated by the
    counts of the first. */
module Unpacking {
  import opened Bytes
  import opened Wire
  import opened Members
  import opened Schema
  import opened Decoding
  import opened Counting
  import opened Lengths
  import opened Lookup
  import opened NullReads
  import opened ParseWords
  import opened SlabStores
  import opened Scan
  import opened UnpackedFields

  /** A message being filled. Of each array the first `n` elements are there; the others are memory
      that has been allocated for it, and an element can only be written within it. */
  class Draft {
    const desc: nat
    var has: seq<bool>
    var single: seq<Value>
    var n: seq<nat>
    var arrays: seq<seq<Value>>
    var unknown: seq<Unknown>
    var nUnknown: nat

    predicate Valid(fields: seq<Field>)
      reads this
    {
      && |has| == |single| == |n| == |arrays| == |fields|
      && (forall i | 0 <= i < |fields| :: n[i] <= |arrays[i]|)
      && nUnknown <= |unknown|
    }

    function SlotOf(fields: seq<Field>, i: nat): Slot
      requires Valid(fields) && i < |fields|
      reads this
    {
      if fields[i].rule == Repeated then Many(arrays[i][..n[i]]) else Single(has[i], single[i])
    }

    function View(fields: seq<Field>): (m: Message)
      requires Valid(fields)
      reads this
      ensures m.desc == desc && |m.slots| == |fields| && m.unknown == unknown[..nUnknown]
      ensures forall i | 0 <= i < |fields| :: m.slots[i] == SlotOf(fields, i)
      ensures forall i | 0 <= i < |fields| :: m.slots[i].Many? <==> fields[i].rule == Repeated
    {
      Message(desc, seq(|fields|, i requires 0 <= i < |fields| && Valid(fields) reads this => SlotOf(fields, i)),
        unknown[..nUnknown])
    }

    /** The message is initialised, with memory for as many elements and unknown fields as counted; the
        counts of elements are taken in 32 bits. */
    constructor (schema: Schema, d: nat, t: Tally)
      requires d < |schema| && |t.counts| == |schema[d].fields|
      ensures Valid(schema[d].fields) && View(schema[d].fields) == Init(schema, d)
      ensures n == seq(|schema[d].fields|, _ => 0) && nUnknown == 0 && |unknown| == t.unclaimed
      ensures forall i | 0 <= i < |arrays| :: |arrays[i]| == t.counts[i] % UINT32
    {
      var fields := schema[d].fields;
      desc := d;
      has := seq(|fields|, _ => false);
      single := seq(|fields|, i requires 0 <= i < |fields| => InitValue(fields[i]));
      n := seq(|fields|, _ => 0);
      arrays := seq(|fields|, i requires 0 <= i < |fields| => seq(t.counts[i] % UINT32, _ => NoMessage));
      unknown, nUnknown := seq(t.unclaimed, _ => Unknown(0, 0, [])), 0;
      new;
      assert forall i | 0 <= i < |fields| :: SlotOf(fields, i) == InitSlot(fields[i]);
      assert View(fields).slots == InitSlots(fields);
    }

    /** How much room is left for a field. */
    ghost predicate Room(fields: seq<Field>, ms: seq<Member>)
      requires Valid(fields) && GoodMembers(ms)
      reads this
    {
      && (forall i | 0 <= i < |fields| :: n[i] + Total(fields, ms, i) == |arrays[i]|)
      && nUnknown + Unclaimed(fields, ms) == |unknown|
    }

    method PutUnknown(fields: seq<Field>, u: Unknown)
      requires Valid(fields) && nUnknown < |unknown|
      modifies this
      ensures Valid(fields) && n == old(n) && arrays == old(arrays)
      ensures nUnknown == old(nUnknown) + 1 && |unknown| == |old(unknown)|
      ensures View(fields) == old(View(fields)).(unknown := old(View(fields)).unknown + [u])
    {
      ghost var was := View(fields);
      unknown := unknown[nUnknown := u];
      nUnknown := nUnknown + 1;
      assert View(fields).slots == was.slots;
      assert View(fields).unknown == was.unknown + [u];
    }

    method PutSingle(fields: seq<Field>, k: nat, h: bool, v: Value)
      requires Valid(fields) && k < |fields| && fields[k].rule != Repeated
      modifies this
      ensures Valid(fields) && n == old(n) && arrays == old(arrays)
      ensures nUnknown == old(nUnknown) && unknown == old(unknown)
      ensures View(fields) == old(View(fields)).(slots := old(View(fields)).slots[k := Single(h, v)])
    {
      ghost var was := View(fields);
      has := has[k := h];
      single := single[k := v];
      assert View(fields).slots == was.slots[k := Single(h, v)];
    }

    /** An element goes behind those that are there, where there is room for it. */
    method PutElement(fields: seq<Field>, k: nat, v: Value)
      requires Valid(fields) && k < |fields| && fields[k].rule == Repeated && n[k] < |arrays[k]|
      modifies this
      ensures Valid(fields) && n == old(n)[k := old(n)[k] + 1]
      ensures |arrays| == |old(arrays)| && forall i | 0 <= i < |arrays| :: |arrays[i]| == |old(arrays)[i]|
      ensures nUnknown == old(nUnknown) && unknown == old(unknown)
      ensures View(fields) ==
        old(View(fields)).(slots := old(View(fields)).slots[k := Many(old(View(fields)).slots[k].values + [v])])
    {
      ghost var was := View(fields);
      arrays := arrays[k := arrays[k][n[k] := v]];
      n := n[k := n[k] + 1];
      assert arrays[k][..n[k]] == was.slots[k].values + [v];
      assert View(fields).slots == was.slots[k := Many(was.slots[k].values + [v])];
    }
  }

  // ---------------------------------------------------------------------------
  // Packed arrays
  // ---------------------------------------------------------------------------

  /** The length of the element at the front, or 0 if it is not sound. */
  method NextWordLength(kind: FieldType, s: seq<byte>) returns (n: nat)
    requires IsScalar(kind) && |s| > 0
    ensures n == NextWord(kind, s)
  {
    match kind {
      case Sfixed32 | Fixed32 | Float => n := if |s| < 4 then 0 else 4;
      case Sfixed64 | Fixed64 | Double => n := if |s| < 8 then 0 else 8;
      case Int32 | Sint32 | Enum | Uint32 | Int64 | Sint64 | Uint64 => n := ScanVarint(s, 10);
      case Bool => n := if s[0] > 1 then 0 else 1;
    }
  }

  /** Parsing `all` comes down to parsing `rest` after the elements done. */
  ghost predicate Remains(kind: FieldType, all: seq<byte>, done: seq<Value>, rest: seq<byte>)
    requires IsScalar(kind)
  {
    && Countable(kind, rest) && |done| + PackedCount(kind, rest) == PackedCount(kind, all)
    && ParsePacked(kind, all) == match ParsePacked(kind, rest)
       case RefusedAll => RefusedAll
       case ParsedAll(vs) => ParsedAll(done + vs)
  }

  lemma {:induction false} RemainsMore(kind: FieldType, all: seq<byte>, done: seq<Value>, rest: seq<byte>)
    requires IsScalar(kind) && |rest| > 0 && Remains(kind, all, done, rest)
    ensures var n := NextWord(kind, rest);
      if n == 0 then ParsePacked(kind, all) == RefusedAll
      else
        && Remains(kind, all, done + [Num(DecodeWord(kind, rest[..n]))], rest[n..])
        && |done| < PackedCount(kind, all)
  {
    var n := NextWord(kind, rest);
    if n > 0 {
      var v, later := Num(DecodeWord(kind, rest[..n])), rest[n..];
      assert Countable(kind, later) && PackedCount(kind, rest) == 1 + PackedCount(kind, later) by {
        CountOfNext(kind, rest);
      }
      assert ParsePacked(kind, rest) == match ParsePacked(kind, later)
        case RefusedAll => RefusedAll
        case ParsedAll(vs) => ParsedAll([v] + vs);
      if ParsePacked(kind, later).ParsedAll? {
        ValuesAssociate(done, v, ParsePacked(kind, later).values);
      }
    }
  }

  lemma ValuesAssociate(done: seq<Value>, v: Value, vs: seq<Value>)
    ensures done + ([v] + vs) == (done + [v]) + vs
  {}

  /** A message with more elements in one of its arrays. */
  function WithMore(m: Message, k: nat, vs: seq<Value>): Message
    requires k < |m.slots| && m.slots[k].Many?
  {
    m.(slots := m.slots[k := Many(m.slots[k].values + vs)])
  }

  lemma WithMoreTwice(m: Message, k: nat, vs: seq<Value>, v: Value)
    requires k < |m.slots| && m.slots[k].Many?
    ensures WithMore(WithMore(m, k, vs), k, [v]) == WithMore(m, k, vs + [v])
    ensures WithMore(m, k, []) == m
  {
    var values := m.slots[k].values;
    assert values + vs + [v] == values + (vs + [v]) && values + [] == values;
    assert m.slots[k := m.slots[k]] == m.slots;
  }

  /** A draft has got `vs` behind the elements of one of its arrays, and is otherwise as it was. */
  ghost predicate Grown(fields: seq<Field>, draft: Draft, k: nat, vs: seq<Value>,
      was: Message, n: seq<nat>, lengths: seq<nat>)
    requires k < |fields| == |n| && k < |was.slots| && was.slots[k].Many?
    reads draft
  {
    && draft.Valid(fields) && draft.n == n[k := n[k] + |vs|]
    && |lengths| == |fields| && (forall i | 0 <= i < |fields| :: |draft.arrays[i]| == lengths[i])
    && draft.View(fields) == WithMore(was, k, vs)
  }

  method GrowOne(fields: seq<Field>, draft: Draft, k: nat, v: Value,
      ghost vs: seq<Value>, ghost was: Message, ghost n: seq<nat>, ghost lengths: seq<nat>)
    requires k < |fields| == |n| && k < |was.slots| && was.slots[k].Many? && fields[k].rule == Repeated
    requires Grown(fields, draft, k, vs, was, n, lengths) && n[k] + |vs| < lengths[k]
    modifies draft
    ensures Grown(fields, draft, k, vs + [v], was, n, lengths)
    ensures draft.nUnknown == old(draft.nUnknown) && draft.unknown == old(draft.unknown)
  {
    draft.PutElement(fields, k, v);
    WithMoreTwice(was, k, vs, v);
  }

  /** parse_packed_repeated_member: no more elements are written than were counted. */
  method ParsePackedMember(fields: seq<Field>, draft: Draft, k: nat, s: seq<byte>, ghost lengths: seq<nat>)
    returns (ok: bool)
    requires draft.Valid(fields) && k < |fields| && fields[k].rule == Repeated && Countable(fields[k].kind, s)
    requires |lengths| == |fields| && forall i | 0 <= i < |fields| :: |draft.arrays[i]| == lengths[i]
    requires draft.n[k] + PackedCount(fields[k].kind, s) <= lengths[k]
    modifies draft
    ensures ok == ParsePacked(fields[k].kind, s).ParsedAll?
    ensures ok ==> draft.nUnknown == old(draft.nUnknown) && draft.unknown == old(draft.unknown)
    ensures ok ==> |ParsePacked(fields[k].kind, s).values| == PackedCount(fields[k].kind, s)
    ensures ok ==> Grown(fields, draft, k, ParsePacked(fields[k].kind, s).values,
                     old(draft.View(fields)), old(draft.n), lengths)
  {
    var kind := fields[k].kind;
    var rest := s;
    ghost var done: seq<Value>, was, n := [], draft.View(fields), draft.n;
    WithMoreTwice(was, k, [], NoMessage);
    assert n[k := n[k]] == n;
    AllRemains(kind, s);
    while |rest| > 0
      invariant draft.nUnknown == old(draft.nUnknown) && draft.unknown == old(draft.unknown)
      invariant Remains(kind, s, done, rest) && Grown(fields, draft, k, done, was, n, lengths)
      decreases |rest|
    {
      RemainsMore(kind, s, done, rest);
      var len := NextWordLength(kind, rest);
      if len == 0 {
        return false;
      }
      var u := ParseWord(kind, rest[..len]);
      GrowOne(fields, draft, k, Num(u), done, was, n, lengths);
      done, rest := done + [Num(u)], rest[len..];
    }
    assert rest == [];
    NothingRemains(kind, s, done);
    ok := true;
  }

  lemma {:induction false} NothingRemains(kind: FieldType, all: seq<byte>, done: seq<Value>)
    requires IsScalar(kind) && Remains(kind, all, done, [])
    ensures ParsePacked(kind, all) == ParsedAll(done) && |done| == PackedCount(kind, all)
  {
    assert done + [] == done;
  }

  lemma AllRemains(kind: FieldType, all: seq<byte>)
    requires Countable(kind, all)
    ensures Remains(kind, all, [], all)
  {
    if ParsePacked(kind, all).ParsedAll? {
      assert [] + ParsePacked(kind, all).values == ParsePacked(kind, all).values;
    }
  }

  // ---------------------------------------------------------------------------
  // Members and messages
  // ---------------------------------------------------------------------------

  ghost predicate AreTables(schema: Schema, tables: seq<seq<IntRange>>) {
    |tables| == |schema| && forall d | 0 <= d < |schema| :: IsTable(schema[d].fields, tables[d])
  }

  /** parse_required_member. Before it replaces bytes it looks up their default. */
  method ParseRequiredMember(schema: Schema, tables: seq<seq<IntRange>>, f: Field, m: Member,
      was: Value, maybeClear: bool, ghost n: nat)
    returns (p: Parsed)
    requires WellFormed(schema) && AreTables(schema, tables) && WellFormedField(schema, f)
    requires GoodMember(m) && |m.body| < n
    requires f.kind == Nested && m.wire == PREFIXED ==>
      LengthsFit(schema, f.sub, Inside(m)) && !ReadsNull(schema, f.sub, Inside(m))
    requires f.kind == Binary && m.wire == PREFIXED && maybeClear && NotEmpty(was) ==> !f.default.NoDefault?
    ensures p == ParseValue(schema, f, m, n)
    decreases n, 0
  {
    if f.kind != Bool && m.wire != WireOf(f.kind) {
      return Refused;
    }
    match f.kind {
      case String => p := Parsed(Text(Own(m.body[m.prefix..])));
      case Binary =>
        if maybeClear && NotEmpty(was) {
          var def := f.default.data; // what is there is freed unless it is this
        }
        p := Parsed(Data(m.body[m.prefix..]));
      case Nested =>
        var subm := UnpackMessage(schema, tables, f.sub, m.body[m.prefix..]);
        p := if subm.Unpacked? then Parsed(Sub(subm.message)) else Refused;
      case _ =>
        var u := ParseWord(f.kind, m.body);
        p := Parsed(Num(u));
    }
  }

  /** A member has been taken into the draft as specified, and there is room for those behind it. */
  twostate predicate Took(schema: Schema, draft: Draft, m: Member, ms: seq<Member>, n: nat, ok: bool)
    requires WellFormed(schema) && draft.desc < |schema| && GoodMember(m) && |m.body| < n && GoodMembers(ms)
    requires old(draft.Valid(schema[draft.desc].fields))
    reads draft
  {
    var fields := schema[draft.desc].fields;
    && (ok ==> draft.Valid(fields) && draft.Room(fields, ms))
    && match Decoding.Apply(schema, old(draft.View(fields)), m, n)
       case Failed => !ok
       case Unpacked(next) => ok && draft.View(fields) == next
  }

  /** The room there is for a member and those behind it. */
  lemma {:induction false} RoomForFirst(fields: seq<Field>, draft: Draft, m: Member, ms: seq<Member>)
    requires GoodMember(m) && GoodMembers(ms) && draft.Valid(fields)
    requires GoodMembers([m] + ms) && draft.Room(fields, [m] + ms)
    ensures forall i | 0 <= i < |fields| ::
      draft.n[i] + CountOf(fields, m, i) + Total(fields, ms, i) == |draft.arrays[i]|
    ensures draft.nUnknown + (if FieldIndex(fields, m.tag) == -1 then 1 else 0) + Unclaimed(fields, ms)
         == |draft.unknown|
  {
    var all := [m] + ms;
    assert all[0] == m && all[1..] == ms;
    forall i | 0 <= i < |fields|
      ensures draft.n[i] + CountOf(fields, m, i) + Total(fields, ms, i) == |draft.arrays[i]|
    {
      assert Total(fields, all, i) == CountOf(fields, m, i) + Total(fields, ms, i);
    }
  }

  /** A member no field claims. */
  method TakeUnknown(schema: Schema, draft: Draft, m: Member, ghost ms: seq<Member>, ghost n: nat)
    requires WellFormed(schema) && draft.desc < |schema| && GoodMember(m) && |m.body| < n && GoodMembers(ms)
    requires draft.Valid(schema[draft.desc].fields) && FieldIndex(schema[draft.desc].fields, m.tag) == -1
    requires GoodMembers([m] + ms) && draft.Room(schema[draft.desc].fields, [m] + ms)
    modifies draft
    ensures Took(schema, draft, m, ms, n, true)
  {
    RoomForFirst(schema[draft.desc].fields, draft, m, ms);
    draft.PutUnknown(schema[draft.desc].fields, Unknown(m.tag, m.wire, m.body));
  }

  /** A packed array. */
  method TakePacked(schema: Schema, draft: Draft, k: nat, m: Member, ghost ms: seq<Member>, ghost n: nat)
    returns (ok: bool)
    requires WellFormed(schema) && draft.desc < |schema| && GoodMember(m) && |m.body| < n && GoodMembers(ms)
    requires draft.Valid(schema[draft.desc].fields) && k == FieldIndex(schema[draft.desc].fields, m.tag)
    requires GoodMembers([m] + ms) && draft.Room(schema[draft.desc].fields, [m] + ms)
    requires IsPacked(schema[draft.desc].fields[k], m) && CountableMember(schema[draft.desc].fields, m)
    modifies draft
    ensures Took(schema, draft, m, ms, n, ok)
  {
    var fields := schema[draft.desc].fields;
    RoomForFirst(fields, draft, m, ms);
    ghost var lengths := seq(|fields|,
      i requires 0 <= i < |fields| && draft.Valid(fields) reads draft => |draft.arrays[i]|);
    ok := ParsePackedMember(fields, draft, k, m.body[m.prefix..], lengths);
  }

  /** One value, for a single field or behind the elements of an array. */
  method TakeValue(schema: Schema, draft: Draft, k: nat, m: Member, v: Value, ghost ms: seq<Member>, ghost n: nat)
    requires WellFormed(schema) && draft.desc < |schema| && GoodMember(m) && |m.body| < n && GoodMembers(ms)
    requires draft.Valid(schema[draft.desc].fields) && k == FieldIndex(schema[draft.desc].fields, m.tag)
    requires GoodMembers([m] + ms) && draft.Room(schema[draft.desc].fields, [m] + ms)
    requires !IsPacked(schema[draft.desc].fields[k], m)
    requires ParseValue(schema, schema[draft.desc].fields[k], m, n) == Parsed(v)
    modifies draft
    ensures Took(schema, draft, m, ms, n, true)
  {
    var fields := schema[draft.desc].fields;
    RoomForFirst(fields, draft, m, ms);
    var f := fields[k];
    if f.rule == Repeated {
      draft.PutElement(fields, k, v);
    } else {
      draft.PutSingle(fields, k, draft.has[k] || (f.rule == Optional && HasFlag(f.kind)), v);
    }
  }

  /** parse_member. */
  method ParseMember(schema: Schema, tables: seq<seq<IntRange>>, draft: Draft, e: Entry,
      ghost ms: seq<Member>, ghost n: nat)
    returns (ok: bool)
    requires WellFormed(schema) && AreTables(schema, tables) && draft.desc < |schema|
    requires GoodMember(e.member) && |e.member.body| < n && e == EntryOf(schema[draft.desc].fields, e.member)
    requires CountableMember(schema[draft.desc].fields, e.member) && NestedFits(schema, draft.desc, e.member, n)
    requires GoodMembers(ms) && draft.Valid(schema[draft.desc].fields)
    requires GoodMembers([e.member] + ms) && draft.Room(schema[draft.desc].fields, [e.member] + ms)
    requires !ReadsNullOn(schema, draft.View(schema[draft.desc].fields), e.member, n)
    modifies draft
    ensures Took(schema, draft, e.member, ms, n, ok)
    decreases n, 1
  {
    if e.field < 0 {
      TakeUnknown(schema, draft, e.member, ms, n);
      return true;
    }
    var k: nat, m := e.field, e.member;
    var f := schema[draft.desc].fields[k];
    if f.rule == Repeated && f.packed && m.wire == PREFIXED {
      ok := TakePacked(schema, draft, k, m, ms, n);
      return;
    }
    var p := ParseRequiredMember(schema, tables, f, m, draft.single[k], f.rule != Repeated, n);
    if p.Refused? {
      return false;
    }
    TakeValue(schema, draft, k, m, p.value, ms, n);
    ok := true;
  }

  /** What the first pass has made sure of. */
  ghost predicate Sound(schema: Schema, d: nat, ms: seq<Member>, n: nat)
    requires WellFormed(schema) && d < |schema|
  {
    Below(ms, n) && AllCountable(schema[d].fields, ms) && AllNestedFit(schema, d, ms, n)
  }

  lemma SoundFrom(schema: Schema, d: nat, ms: seq<Member>, k: nat, n: nat)
    requires WellFormed(schema) && d < |schema| && Sound(schema, d, ms, n) && k <= |ms|
    ensures Sound(schema, d, ms[k..], n)
  {
    var rest := ms[k..];
    assert forall i | 0 <= i < |rest| :: rest[i] == ms[k + i] && GoodMember(ms[k + i]) && |ms[k + i].body| < n;
    assert forall i | 0 <= i < |rest| ::
      CountableMember(schema[d].fields, rest[i]) && NestedFits(schema, d, rest[i], n);
  }

  /** The members still to be taken bring the draft to the goal without reading through a null pointer,
      and there is just the room for them. */
  ghost predicate Filling(schema: Schema, draft: Draft, todo: seq<Member>, n: nat, goal: Unpacked)
    requires WellFormed(schema) && draft.desc < |schema| && Below(todo, n)
    reads draft
  {
    var fields := schema[draft.desc].fields;
    && draft.Valid(fields) && draft.Room(fields, todo)
    && ApplyAll(schema, draft.View(fields), todo, n) == goal
    && !ReadsNullFrom(schema, draft.View(fields), todo, n)
  }

  /** One member more, or the failure of all. */
  method FillOne(schema: Schema, tables: seq<seq<IntRange>>, draft: Draft, e: Entry,
      ghost todo: seq<Member>, ghost n: nat, ghost goal: Unpacked)
    returns (ok: bool)
    requires WellFormed(schema) && AreTables(schema, tables) && draft.desc < |schema|
    requires |todo| > 0 && Sound(schema, draft.desc, todo, n) && Filling(schema, draft, todo, n, goal)
    requires e == EntryOf(schema[draft.desc].fields, todo[0])
    modifies draft
    ensures Sound(schema, draft.desc, todo[1..], n)
    ensures ok ==> Filling(schema, draft, todo[1..], n, goal)
    ensures !ok ==> goal == Failed
    decreases n, 2
  {
    SoundFrom(schema, draft.desc, todo, 1, n);
    assert todo == [todo[0]] + todo[1..];
    assert CountableMember(schema[draft.desc].fields, todo[0]) && NestedFits(schema, draft.desc, todo[0], n);
    ok := ParseMember(schema, tables, draft, e, todo[1..], n);
  }

  /** The members of one slab. */
  method FillFromSlab(schema: Schema, tables: seq<seq<IntRange>>, draft: Draft, slab: seq<Entry>,
      ghost todo: seq<Member>, ghost n: nat, ghost goal: Unpacked)
    returns (ok: bool, ghost left: seq<Member>)
    requires WellFormed(schema) && AreTables(schema, tables) && draft.desc < |schema|
    requires Sound(schema, draft.desc, todo, n) && Filling(schema, draft, todo, n, goal)
    requires slab <= EntriesOf(schema[draft.desc].fields, todo)
    modifies draft
    ensures left == todo[|slab|..] && Sound(schema, draft.desc, left, n)
    ensures ok ==> Filling(schema, draft, left, n, goal)
    ensures !ok ==> goal == Failed
    decreases n, 3
  {
    left := todo;
    for j := 0 to |slab|
      invariant left == todo[j..] && Sound(schema, draft.desc, left, n)
      invariant Filling(schema, draft, left, n, goal)
    {
      assert slab[j] == EntriesOf(schema[draft.desc].fields, todo)[j] && left[0] == todo[j];
      ok := FillOne(schema, tables, draft, slab[j], left, n, goal);
      if !ok {
        SoundFrom(schema, draft.desc, todo, |slab|, n);
        left := todo[|slab|..];
        return;
      }
      left := left[1..];
    }
    ok := true;
  }

  /** The next slab has the first of the members left, and the slabs behind it the others. */
  lemma NextPart(fields: seq<Field>, parts: seq<seq<Entry>>, i: nat, todo: seq<Member>)
    requires i < |parts| && Joined(parts[i..]) == EntriesOf(fields, todo)
    ensures parts[i] <= EntriesOf(fields, todo)
    ensures Joined(parts[i + 1..]) == EntriesOf(fields, todo[|parts[i]|..])
  {
    var part, rest, all := parts[i], Joined(parts[i + 1..]), EntriesOf(fields, todo);
    assert all == part + rest by {
      assert parts[i..][0] == part && parts[i..][1..] == parts[i + 1..];
    }
    EntriesFrom(fields, todo, |part|);
    assert (part + rest)[|part|..] == rest;
  }

  lemma EntriesFrom(fields: seq<Field>, ms: seq<Member>, k: nat)
    requires k <= |ms|
    ensures EntriesOf(fields, ms[k..]) == EntriesOf(fields, ms)[k..]
  {}

  /** Slab after slab, which is all members in wire order. */
  method FillFromSlabs(schema: Schema, tables: seq<seq<IntRange>>, draft: Draft, slabs: seq<seq<Entry>>,
      ghost ms: seq<Member>, ghost n: nat, ghost goal: Unpacked)
    returns (ok: bool)
    requires WellFormed(schema) && AreTables(schema, tables) && draft.desc < |schema|
    requires Sound(schema, draft.desc, ms, n) && Filling(schema, draft, ms, n, goal)
    requires Joined(slabs) == EntriesOf(schema[draft.desc].fields, ms)
    modifies draft
    ensures ok ==> Filling(schema, draft, [], n, goal)
    ensures !ok ==> goal == Failed
    decreases n, 4
  {
    ghost var todo := ms;
    assert slabs[0..] == slabs;
    for iSlab := 0 to |slabs|
      invariant Joined(slabs[iSlab..]) == EntriesOf(schema[draft.desc].fields, todo)
      invariant Sound(schema, draft.desc, todo, n) && Filling(schema, draft, todo, n, goal)
    {
      NextPart(schema[draft.desc].fields, slabs, iSlab, todo);
      ok, todo := FillFromSlab(schema, tables, draft, slabs[iSlab], todo, n, goal);
      if !ok {
        return;
      }
    }
    assert |todo| == |EntriesOf(schema[draft.desc].fields, todo)| == 0;
    assert todo == [];
    ok := true;
  }

  /** All members. */
  method FillAll(schema: Schema, tables: seq<seq<IntRange>>, draft: Draft, slabs: Slabs,
      ghost ms: seq<Member>, ghost n: nat, ghost goal: Unpacked)
    returns (ok: bool)
    requires WellFormed(schema) && AreTables(schema, tables) && draft.desc < |schema|
    requires Sound(schema, draft.desc, ms, n) && Filling(schema, draft, ms, n, goal)
    requires slabs.Valid() && slabs.entries == EntriesOf(schema[draft.desc].fields, ms)
    modifies draft
    ensures ok ==> draft.Valid(schema[draft.desc].fields)
    ensures ok ==> forall i | 0 <= i < |draft.n| :: draft.n[i] == |draft.arrays[i]|
    ensures goal == if ok then Unpacked(draft.View(schema[draft.desc].fields)) else Failed
    decreases n, 5
  {
    var parts := slabs.Parts();
    ok := FillFromSlabs(schema, tables, draft, parts, ms, n, goal);
  }

  /** Every mandatory field must have been there. When one is missing, the arrays behind it are freed by
      their counts, and have not been allocated yet. */
  method CheckRequired(fields: seq<Field>, t: Tally) returns (ok: bool)
    requires |t.present| == |t.counts| == |fields|
    requires forall f, g | 0 <= f < g < |fields| ::
      Mandatory(fields[f]) && !t.present[f] && PointerArray(fields[g]) ==> t.counts[g] == 0
    ensures ok <==> forall i | 0 <= i < |fields| :: Mandatory(fields[i]) ==> t.present[i]
  {
    var f := 0;
    while f < |fields|
      invariant 0 <= f <= |fields| && forall i | 0 <= i < f :: Mandatory(fields[i]) ==> t.present[i]
    {
      if fields[f].rule == Required && fields[f].default.NoDefault? && !t.present[f] {
        assert forall g | f < g < |fields| && PointerArray(fields[g]) :: t.counts[g] == 0;
        return false;
      }
      f := f + 1;
    }
    ok := true;
  }

  /** The second pass over what the first one kept. */
  method SecondPass(schema: Schema, tables: seq<seq<IntRange>>, d: nat, t: Tally, slabs: Slabs,
      ghost ms: seq<Member>, ghost n: nat)
    returns (r: Unpacked)
    requires WellFormed(schema) && AreTables(schema, tables) && d < |schema|
    requires Tallies(schema[d].fields, ms, t) && Sound(schema, d, ms, n) && CountsFit(schema[d].fields, ms)
    requires slabs.Valid() && slabs.entries == EntriesOf(schema[d].fields, ms)
    requires !ReadsNullFrom(schema, Init(schema, d), ms, n)
    ensures r == ApplyAll(schema, Init(schema, d), ms, n)
    decreases n, 7
  {
    var fields := schema[d].fields;
    var draft := new Draft(schema, d, t);
    assert draft.Room(fields, ms) by {
      forall i | 0 <= i < |fields| ensures draft.n[i] + Total(fields, ms, i) == |draft.arrays[i]| {
        assert TalliesField(fields, ms, t, i);
        SmallRemainder(t.counts[i], UINT32);
      }
    }
    var ok := FillAll(schema, tables, draft, slabs, ms, n, ApplyAll(schema, Init(schema, d), ms, n));
    r := if ok then Unpacked(draft.View(fields)) else Failed;
  }

  /** protobuf_c_message_unpack, in its two passes, on bytes in which no 32-bit number wraps and on which
      it does not read through a null pointer. */
  method UnpackMessage(schema: Schema, tables: seq<seq<IntRange>>, d: nat, data: seq<byte>) returns (r: Unpacked)
    requires WellFormed(schema) && AreTables(schema, tables) && d < |schema|
    requires LengthsFit(schema, d, data) && !ReadsNull(schema, d, data)
    ensures r == Decoding.Unpack(schema, d, data)
    ensures forall m :: r == Unpacked(m) <==> IsUnpacked(schema, d, data, m)
    decreases |data|, 8
  {
    AlwaysUnpacked(schema, d, data);
    var slabs := new Slabs();
    var ok, t := ScanMembers(schema, d, tables[d], data, slabs);
    if !ok {
      return Failed;
    }
    ghost var ms := ScanAll(data).members;
    AcceptedMembers(schema, d, data, ms);
    PresentAsTallied(schema[d].fields, ms, t);
    NothingStray(schema, d, ms, t);
    ok := CheckRequired(schema[d].fields, t);
    if !ok {
      return Failed;
    }
    r := SecondPass(schema, tables, d, t, slabs, ms, |data|);
  }

  lemma {:induction false} AcceptedMembers(schema: Schema, d: nat, data: seq<byte>, ms: seq<Member>)
    requires WellFormed(schema) && d < |schema| && LengthsFit(schema, d, data) && !ReadsNull(schema, d, data)
    requires Accepted(schema[d].fields, data) && ms == ScanAll(data).members
    ensures Sound(schema, d, ms, |data|) && CountsFit(schema[d].fields, ms)
    ensures if AllPresent(schema[d].fields, ms) then !ReadsNullFrom(schema, Init(schema, d), ms, |data|)
            else !StrayArray(schema[d].fields, ms)
    ensures Decoding.Unpack(schema, d, data) ==
      if AllPresent(schema[d].fields, ms) then ApplyAll(schema, Init(schema, d), ms, |data|) else Failed
  {}

  lemma PresentAsTallied(fields: seq<Field>, ms: seq<Member>, t: Tally)
    requires Tallies(fields, ms, t)
    ensures (forall i | 0 <= i < |fields| :: Mandatory(fields[i]) ==> t.present[i]) <==> AllPresent(fields, ms)
  {
    forall i | 0 <= i < |fields| && Mandatory(fields[i]) ensures t.present[i] <==> Present(ms, fields[i].id) {
      assert TalliesField(fields, ms, t, i);
    }
  }
  /** Behind a missing mandatory field no array has been counted whose elements would be freed. */
  lemma NothingStray(schema: Schema, d: nat, ms: seq<Member>, t: Tally)
    requires WellFormed(schema) && d < |schema| && Tallies(schema[d].fields, ms, t)
    requires !AllPresent(schema[d].fields, ms) ==> !StrayArray(schema[d].fields, ms)
    ensures forall f, g | 0 <= f < g < |schema[d].fields| ::
      Mandatory(schema[d].fields[f]) && !t.present[f] && PointerArray(schema[d].fields[g]) ==> t.counts[g] == 0
  {
    var fields := schema[d].fields;
    forall f, g | 0 <= f < g < |fields| && Mandatory(fields[f]) && !t.present[f] && PointerArray(fields[g])
      ensures t.counts[g] == 0
    {
      assert TalliesField(fields, ms, t, f) && TalliesField(fields, ms, t, g);
      ThereIfCounted(schema, d, ms, g);
    }
  }
}
