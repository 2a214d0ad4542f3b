/** The first pass of unpacking: the members are found, counted and kept. */
module Scan {
  import opened Bytes
  import opened Wire
  import opened Members
  import opened Schema
  import opened Decoding
  import opened Counting
  import opened Lookup
  import opened ParseWords
  import opened SlabStores

  /** The member at the front, its extent found by its wire type. */
  method ScanMember(s: seq<byte>) returns (r: Scanned)
    requires |s| > 0 && MemberFits(s)
    ensures r == ScanOne(s)
  {
    var used, tag, wire := ParseTag(s);
    if used == 0 {
      return NoMember;
    }
    var rest := s[used..];
    var len, prefix := 0, 0;
    if wire == VARINT {
      len := ScanVarint(rest, 10);
    } else if wire == SIXTYFOUR {
      len := if |rest| < 8 then 0 else 8;
    } else if wire == PREFIXED {
      Extent32IsTrue(rest);
      len, prefix := ScanLengthPrefixed(rest);
    } else if wire == THIRTYTWO {
      len := if |rest| < 4 then 0 else 4;
    }
    if len == 0 {
      return NoMember;
    }
    r := One(Member(tag, wire, prefix, rest[..len]), used + len);
  }

  /** The field of a tag: the one found last, if it is that, or else by lookup. */
  method FindField(ghost schema: Schema, d: Descriptor, ranges: seq<IntRange>, tag: uint32, lastField: nat)
    returns (k: int, last: nat)
    requires WellFormedDescriptor(schema, d) && IsTable(d.fields, ranges) && lastField < |d.fields|
    ensures k == FieldIndex(d.fields, tag) && last == if k < 0 then lastField else k
  {
    k, last := lastField, lastField;
    if d.fields[lastField].id != tag {
      k := IntRangeLookup(schema, d, |ranges| - 1, ranges, tag);
      if k >= 0 {
        last := k;
      }
    } else {
      FieldIndexIs(schema, d, lastField);
    }
  }

  /** count_packed_elements. */
  method CountPackedElements(kind: FieldType, s: seq<byte>) returns (ok: bool, count: nat)
    requires IsScalar(kind)
    ensures ok == Countable(kind, s) && (ok ==> count == PackedCount(kind, s))
  {
    ok, count := true, 0;
    match kind {
      case Sfixed32 | Fixed32 | Float =>
        ok, count := |s| % 4 == 0, |s| / 4;
      case Sfixed64 | Fixed64 | Double =>
        ok, count := |s| % 8 == 0, |s| / 8;
      case Int32 | Sint32 | Enum | Uint32 | Int64 | Sint64 | Uint64 =>
        count := MaxB128Numbers(s);
      case Bool =>
        count := |s|;
    }
  }

  // ---------------------------------------------------------------------------
  // The loop
  // ---------------------------------------------------------------------------

  /** Scanning `data` comes down to scanning `rest` after the members found. */
  ghost predicate Continues(data: seq<byte>, found: seq<Member>, rest: seq<byte>) {
    ScanAll(data) == match ScanAll(rest)
      case Bad => Bad
      case Found(ms) => Found(found + ms)
  }

  lemma {:induction false} ContinuesMore(data: seq<byte>, found: seq<Member>, rest: seq<byte>)
    requires Continues(data, found, rest) && |rest| > 0
    ensures match ScanOne(rest)
      case NoMember => ScanAll(data) == Bad
      case One(m, used) => Continues(data, found + [m], rest[used..])
  {
    match ScanOne(rest)
    case NoMember =>
    case One(m, used) =>
      match ScanAll(rest[used..]) {
        case Bad =>
        case Found(ms) => assert found + ([m] + ms) == (found + [m]) + ms;
      }
  }

  /** What the first pass knows: the count of every array, the required fields that are there, and how
      many members no field claims. */
  datatype Tally = Tally(counts: seq<nat>, present: seq<bool>, unclaimed: nat)

  ghost predicate Tallies(fields: seq<Field>, ms: seq<Member>, t: Tally) {
    && GoodMembers(ms) && |t.counts| == |fields| && |t.present| == |fields|
    && t.unclaimed == Unclaimed(fields, ms)
    && forall i | 0 <= i < |fields| :: TalliesField(fields, ms, t, i)
  }

  ghost predicate TalliesField(fields: seq<Field>, ms: seq<Member>, t: Tally, i: nat)
    requires GoodMembers(ms) && i < |fields| && |t.counts| == |fields| && |t.present| == |fields|
  {
    && t.counts[i] == Total(fields, ms, i)
    && (t.present[i] <==> fields[i].rule == Required && Present(ms, fields[i].id))
  }

  function EntryOf(fields: seq<Field>, m: Member): Entry {
    Entry(m, FieldIndex(fields, m.tag))
  }

  function EntriesOf(fields: seq<Field>, ms: seq<Member>): (es: seq<Entry>)
    ensures |es| == |ms| && forall i | 0 <= i < |ms| :: es[i] == EntryOf(fields, ms[i])
  {
    seq(|ms|, i requires 0 <= i < |ms| => EntryOf(fields, ms[i]))
  }

  /** A member with its field is tallied, unless its elements cannot be counted. */
  method TallyMember(schema: Schema, d: nat, t: Tally, m: Member, k: int, ghost found: seq<Member>)
    returns (ok: bool, r: Tally)
    requires WellFormed(schema) && d < |schema|
    requires Tallies(schema[d].fields, found, t) && GoodMember(m) && k == FieldIndex(schema[d].fields, m.tag)
    ensures ok == CountableMember(schema[d].fields, m)
    ensures ok ==> Tallies(schema[d].fields, found + [m], r)
  {
    ghost var fields := schema[d].fields;
    ok, r := true, t;
    if k < 0 {
      r := t.(unclaimed := t.unclaimed + 1);
    } else if schema[d].fields[k].rule == Required {
      r := t.(present := t.present[k := true]);
    } else if schema[d].fields[k].rule == Repeated {
      var f := schema[d].fields[k];
      var count := 1;
      if f.packed && m.wire == PREFIXED {
        ok, count := CountPackedElements(f.kind, m.body[m.prefix..]);
      }
      r := t.(counts := t.counts[k := t.counts[k] + count]);
    }
    if ok {
      UnclaimedMore(fields, found, m);
      forall i | 0 <= i < |fields| ensures GoodMembers(found + [m]) && TalliesField(fields, found + [m], r, i) {
        TalliedMore(schema, d, t, r, found, m, i);
      }
    }
  }

  lemma TalliedMore(schema: Schema, d: nat, t: Tally, r: Tally, found: seq<Member>, m: Member, i: nat)
    requires WellFormed(schema) && d < |schema| && i < |schema[d].fields|
    requires Tallies(schema[d].fields, found, t) && GoodMember(m)
    requires |r.counts| == |t.counts| && |r.present| == |t.present|
    requires r.counts[i] == t.counts[i] + CountOf(schema[d].fields, m, i)
    requires r.present[i] ==
      (t.present[i] || (FieldIndex(schema[d].fields, m.tag) == i && schema[d].fields[i].rule == Required))
    ensures GoodMembers(found + [m]) && TalliesField(schema[d].fields, found + [m], r, i)
  {
    var fields := schema[d].fields;
    assert TalliesField(fields, found, t, i);
    TotalMore(fields, found, m, i);
    FieldIndexIs(schema, schema[d], i);
    var all, id := found + [m], fields[i].id;
    assert Present(all, id) <==> Present(found, id) || m.tag == id by {
      if Present(found, id) {
        var j :| 0 <= j < |found| && found[j].tag == id;
        assert all[j].tag == id;
      }
      assert all[|found|].tag == m.tag;
    }
  }

  /** Every member is found, fits into the slabs and can be counted. */
  ghost predicate Accepted(fields: seq<Field>, data: seq<byte>) {
    var all := ScanAll(data);
    all.Found? && |all.members| <= MAX_MEMBERS && AllCountable(fields, all.members)
  }

  /** Where the loop of the first pass stands after the members found. */
  ghost predicate Standing(fields: seq<Field>, data: seq<byte>, found: seq<Member>, rest: seq<byte>, t: Tally) {
    && Continues(data, found, rest) && |found| <= MAX_MEMBERS
    && Tallies(fields, found, t) && AllCountable(fields, found)
  }

  /** One turn of the loop: a member is found, kept and counted. */
  method ScanNext(schema: Schema, d: nat, ranges: seq<IntRange>, slabs: Slabs, rest: seq<byte>, lastField: nat,
      t: Tally, ghost data: seq<byte>, ghost found: seq<Member>)
    returns (ok: bool, used: nat, last: nat, r: Tally, ghost m: Member)
    requires WellFormed(schema) && d < |schema| && IsTable(schema[d].fields, ranges) && lastField < |schema[d].fields|
    requires slabs.Valid() && slabs.entries == EntriesOf(schema[d].fields, found)
    requires |rest| > 0 && ScanFits(rest) && Standing(schema[d].fields, data, found, rest, t)
    modifies slabs, slabs.repr
    ensures fresh(slabs.repr - old(slabs.repr))
    ensures !ok ==> !Accepted(schema[d].fields, data)
    ensures ok ==> 0 < used <= |rest| && last < |schema[d].fields| && ScanFits(rest[used..])
    ensures ok ==> Standing(schema[d].fields, data, found + [m], rest[used..], r)
    ensures ok ==> slabs.Valid() && slabs.entries == EntriesOf(schema[d].fields, found + [m])
  {
    ContinuesMore(data, found, rest);
    var scanned := ScanMember(rest);
    if scanned.NoMember? {
      return false, 0, 0, t, Member(0, 0, 0, []);
    }
    var k: int;
    used := scanned.used;
    m := scanned.member;
    var member := scanned.member;
    k, last := FindField(schema, schema[d], ranges, member.tag, lastField);
    AllFound(data, found + [m], rest[used..]);
    var added := slabs.Add(Entry(member, k));
    if !added {
      assert |found + [m]| > MAX_MEMBERS;
      return false, 0, 0, t, m;
    }
    ok, r := TallyMember(schema, d, t, member, k, found);
    if ok {
      CountableMore(schema[d].fields, found, m);
    } else {
      NotCountable(schema[d].fields, data, found, m);
    }
  }

  /** Of less than 2^32 bytes the members fill only slabs whose size is a 32-bit number. */
  lemma {:induction false} FewSlabs(data: seq<byte>, k: nat)
    requires |data| < UINT32 && ScanAll(data).Found? && SlabStart(k) <= |ScanAll(data).members|
    ensures k < 28 && SlabSize(k) < UINT32
  {
    BodiesFit(data);
    SlabsInWords(k, |ScanAll(data).members|);
  }

  /** The loop of the first pass succeeds when the bytes are acceptable; then the slabs hold the
      members in wire order. */
  method ScanMembers(schema: Schema, d: nat, ranges: seq<IntRange>, data: seq<byte>, slabs: Slabs)
    returns (ok: bool, t: Tally)
    requires WellFormed(schema) && d < |schema| && IsTable(schema[d].fields, ranges) && ScanFits(data)
    requires slabs.Valid() && slabs.entries == []
    modifies slabs, slabs.repr
    ensures ok == Accepted(schema[d].fields, data)
    ensures ok ==> Tallies(schema[d].fields, ScanAll(data).members, t)
    ensures ok ==> slabs.Valid() && slabs.entries == EntriesOf(schema[d].fields, ScanAll(data).members)
  {
    var n := |schema[d].fields|;
    t := Tally(seq(n, _ => 0), seq(n, _ => false), 0);
    var rest := data;
    var lastField: nat := 0;
    ghost var found: seq<Member> := [];
    NothingFound(schema[d].fields, data);
    while |rest| > 0
      invariant Standing(schema[d].fields, data, found, rest, t) && lastField < n && ScanFits(rest)
      invariant slabs.Valid() && slabs.entries == EntriesOf(schema[d].fields, found)
      invariant fresh(slabs.repr - old(slabs.repr))
      decreases |rest|
    {
      var used;
      ghost var m;
      ok, used, lastField, t, m := ScanNext(schema, d, ranges, slabs, rest, lastField, t, data, found);
      if !ok {
        return;
      }
      rest, found := rest[used..], found + [m];
    }
    assert rest == [];
    ScanDone(schema[d].fields, data, found);
    ok := true;
  }

  lemma NothingFound(fields: seq<Field>, data: seq<byte>)
    ensures Standing(fields, data, [], data, Tally(seq(|fields|, _ => 0), seq(|fields|, _ => false), 0))
  {
    var t := Tally(seq(|fields|, _ => 0), seq(|fields|, _ => false), 0);
    assert Tallies(fields, [], t) by {
      forall i | 0 <= i < |fields| ensures TalliesField(fields, [], t, i) {
        assert !Present([], fields[i].id);
      }
    }
    assert Continues(data, [], data) by {
      if ScanAll(data).Found? {
        assert [] + ScanAll(data).members == ScanAll(data).members;
      }
    }
  }

  /** The members found so far are the first of all of them. */
  lemma {:induction false} AllFound(data: seq<byte>, found: seq<Member>, rest: seq<byte>)
    requires Continues(data, found, rest)
    ensures ScanAll(data).Found? ==> found <= ScanAll(data).members
  {}

  lemma CountableMore(fields: seq<Field>, found: seq<Member>, m: Member)
    requires GoodMembers(found) && GoodMember(m) && AllCountable(fields, found) && CountableMember(fields, m)
    ensures GoodMembers(found + [m]) && AllCountable(fields, found + [m])
    ensures EntriesOf(fields, found + [m]) == EntriesOf(fields, found) + [EntryOf(fields, m)]
  {
    var all := found + [m];
    assert forall i | 0 <= i < |all| :: GoodMember(all[i]) && CountableMember(fields, all[i]);
  }

  lemma {:induction false} ScanDone(fields: seq<Field>, data: seq<byte>, found: seq<Member>)
    requires Continues(data, found, []) && GoodMembers(found) && AllCountable(fields, found) && |found| <= MAX_MEMBERS
    ensures Accepted(fields, data) && ScanAll(data) == Found(found)
  {
    assert ScanAll([]) == Found([]) && found + [] == found;
  }

  lemma {:induction false} NotCountable(fields: seq<Field>, data: seq<byte>, found: seq<Member>, m: Member)
    requires GoodMember(m) && !CountableMember(fields, m)
    requires ScanAll(data).Found? ==> found + [m] <= ScanAll(data).members
    ensures !Accepted(fields, data)
  {
    if ScanAll(data).Found? {
      assert (found + [m])[|found|] == m;
      assert ScanAll(data).members[|found|] == m;
    }
  }
}
