/** The two passes of unpacking agree on how many elements each array has. */
module Counting {
  import opened Bytes
  import opened Members
  import opened Schema
  import opened Decoding

  /** The elements the first pass counts for a field when it meets a member. */
  function CountOf(fields: seq<Field>, m: Member, i: nat): nat
    requires GoodMember(m) && i < |fields|
  {
    if FieldIndex(fields, m.tag) != i || fields[i].rule != Repeated then 0
    else if IsPacked(fields[i], m) then PackedCount(fields[i].kind, Inside(m))
    else 1
  }

  function Total(fields: seq<Field>, ms: seq<Member>, i: nat): nat
    requires GoodMembers(ms) && i < |fields|
  {
    if |ms| == 0 then 0 else CountOf(fields, ms[0], i) + Total(fields, ms[1..], i)
  }

  lemma {:induction false} TotalJoin(fields: seq<Field>, ms: seq<Member>, ns: seq<Member>, i: nat)
    requires GoodMembers(ms) && GoodMembers(ns) && i < |fields|
    ensures GoodMembers(ms + ns) && Total(fields, ms + ns, i) == Total(fields, ms, i) + Total(fields, ns, i)
  {
    if |ms| == 0 {
      assert ms + ns == ns;
    } else {
      assert (ms + ns)[1..] == ms[1..] + ns;
      TotalJoin(fields, ms[1..], ns, i);
    }
  }

  lemma {:induction false} TotalMore(fields: seq<Field>, ms: seq<Member>, m: Member, i: nat)
    requires GoodMembers(ms) && GoodMember(m) && i < |fields|
    ensures GoodMembers(ms + [m]) && Total(fields, ms + [m], i) == Total(fields, ms, i) + CountOf(fields, m, i)
  {
    TotalJoin(fields, ms, [m], i);
    assert [m][1..] == [];
    assert Total(fields, [m], i) == CountOf(fields, m, i) + Total(fields, [m][1..], i);
  }

  /** The members no field claims. */
  function Unclaimed(fields: seq<Field>, ms: seq<Member>): nat {
    if |ms| == 0 then 0 else (if FieldIndex(fields, ms[0].tag) == -1 then 1 else 0) + Unclaimed(fields, ms[1..])
  }

  lemma {:induction false} UnclaimedMore(fields: seq<Field>, ms: seq<Member>, m: Member)
    ensures Unclaimed(fields, ms + [m]) == Unclaimed(fields, ms) + if FieldIndex(fields, m.tag) == -1 then 1 else 0
  {
    if |ms| == 0 {
      assert [] + [m] == [m] && [m][1..] == [];
    } else {
      assert (ms + [m])[1..] == ms[1..] + [m];
      UnclaimedMore(fields, ms[1..], m);
    }
  }

  // ---------------------------------------------------------------------------
  // No more is counted than there are bytes
  // ---------------------------------------------------------------------------

  function Bodies(ms: seq<Member>): nat {
    if |ms| == 0 then 0 else |ms[0].body| + Bodies(ms[1..])
  }

  lemma CountOfFits(fields: seq<Field>, m: Member, i: nat)
    requires GoodMember(m) && i < |fields|
    ensures CountOf(fields, m, i) <= |m.body|
  {}

  lemma {:induction false} TotalFits(fields: seq<Field>, ms: seq<Member>, i: nat)
    requires GoodMembers(ms) && i < |fields|
    ensures Total(fields, ms, i) <= Bodies(ms)
  {
    if |ms| > 0 {
      CountOfFits(fields, ms[0], i);
      TotalFits(fields, ms[1..], i);
    }
  }

  /** A member has a tag of a byte at least, and a body of a byte at least. */
  lemma {:induction false} BodiesFit(data: seq<byte>)
    requires ScanAll(data).Found?
    ensures Bodies(ScanAll(data).members) + |ScanAll(data).members| <= |data|
    ensures 2 * |ScanAll(data).members| <= |data|
    decreases |data|
  {
    if |data| > 0 {
      var first, ms := ScanOne(data).member, ScanAll(data).members;
      BodiesFit(data[ScanOne(data).used..]);
      assert ms[0] == first && ms[1..] == ScanAll(data[ScanOne(data).used..]).members;
    }
  }

  /** Neither the elements of an array nor the members are more than there are bytes. */
  lemma {:induction false} CountsAreSmall(fields: seq<Field>, data: seq<byte>, i: nat)
    requires ScanAll(data).Found? && i < |fields|
    ensures Total(fields, ScanAll(data).members, i) <= |data|
    ensures 2 * |ScanAll(data).members| <= |data|
  {
    TotalFits(fields, ScanAll(data).members, i);
    BodiesFit(data);
  }

  /** The elements a slot holds. */
  function Held(s: Slot): nat {
    if s.Many? then |s.values| else 0
  }

  lemma {:induction false} AppliedOnce(schema: Schema, msg: Message, m: Member, n: nat, i: nat)
    requires WellFormed(schema) && Fits(schema, msg) && GoodMember(m) && |m.body| < n
    requires i < |msg.slots| && CountableMember(schema[msg.desc].fields, m)
    requires Apply(schema, msg, m, n).Unpacked?
    ensures var next := Apply(schema, msg, m, n).message;
      Held(next.slots[i]) == Held(msg.slots[i]) + CountOf(schema[msg.desc].fields, m, i)
  {
    var fields := schema[msg.desc].fields;
    var k := FieldIndex(fields, m.tag);
    if k == i && IsPacked(fields[k], m) {
      ParsedAsCounted(fields[k].kind, Inside(m));
    }
  }

  /** When all members parse, each array has got exactly the elements that were counted for it. */
  lemma {:induction false} FilledAsCounted(schema: Schema, msg: Message, ms: seq<Member>, n: nat, i: nat)
    requires WellFormed(schema) && Fits(schema, msg) && Below(ms, n) && i < |msg.slots|
    requires AllCountable(schema[msg.desc].fields, ms) && ApplyAll(schema, msg, ms, n).Unpacked?
    ensures var done := ApplyAll(schema, msg, ms, n).message;
      Held(done.slots[i]) == Held(msg.slots[i]) + Total(schema[msg.desc].fields, ms, i)
    decreases |ms|
  {
    if |ms| > 0 {
      var next := Apply(schema, msg, ms[0], n).message;
      assert CountableMember(schema[msg.desc].fields, ms[0]);
      AppliedOnce(schema, msg, ms[0], n, i);
      assert Below(ms[1..], n);
      FilledAsCounted(schema, next, ms[1..], n, i);
    }
  }

  /** The arrays of an unpacked message have as many elements as the first pass counted. */
  lemma {:induction false} UnpackedAsCounted(schema: Schema, d: nat, data: seq<byte>, i: nat)
    requires WellFormed(schema) && d < |schema| && i < |schema[d].fields| && Unpack(schema, d, data).Unpacked?
    ensures ScanAll(data).Found?
    ensures Held(Unpack(schema, d, data).message.slots[i]) == Total(schema[d].fields, ScanAll(data).members, i)
  {
    FilledAsCounted(schema, Init(schema, d), ScanAll(data).members, |data|, i);
  }
}
