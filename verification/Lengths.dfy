/** Where the parser's 32-bit numbers are the true ones: the sums of a length and its prefix, and the
    counts of the arrays. */
module Lengths {
  import opened Bytes
  import opened Wire
  import opened Members
  import opened Schema
  import opened Encoding
  import opened Decoding
  import opened Counting
  import opened RoundTrip

  /** Every array has less than 2^32 elements. */
  predicate CountsFit(fields: seq<Field>, ms: seq<Member>)
    requires GoodMembers(ms)
  {
    forall i | 0 <= i < |fields| :: Total(fields, ms, i) < UINT32
  }

  /** No length wraps and no array is too large in a message, nor in the messages nested in it. */
  predicate LengthsFit(schema: Schema, d: nat, data: seq<byte>)
    requires WellFormed(schema) && d < |schema|
    decreases |data|, 1
  {
    && ScanFits(data)
    && (ScanAll(data).Found? ==>
         && CountsFit(schema[d].fields, ScanAll(data).members)
         && forall i | 0 <= i < |ScanAll(data).members| :: NestedFits(schema, d, ScanAll(data).members[i], |data|))
  }

  /** The same for what is nested in one member. */
  predicate NestedFits(schema: Schema, d: nat, m: Member, n: nat)
    requires WellFormed(schema) && d < |schema| && GoodMember(m) && |m.body| < n
    decreases n, 0
  {
    var k := FieldIndex(schema[d].fields, m.tag);
    k >= 0 && schema[d].fields[k].kind == Nested && m.wire == PREFIXED ==>
      LengthsFit(schema, schema[d].fields[k].sub, Inside(m))
  }

  ghost predicate AllNestedFit(schema: Schema, d: nat, ms: seq<Member>, n: nat)
    requires WellFormed(schema) && d < |schema| && Below(ms, n)
  {
    forall i | 0 <= i < |ms| :: NestedFits(schema, d, ms[i], n)
  }

  // ---------------------------------------------------------------------------
  // Whatever is accepted, fits
  // ---------------------------------------------------------------------------

  /** Every member of a message that is accepted is. */
  lemma {:induction false} EachApplied(schema: Schema, msg: Message, ms: seq<Member>, n: nat, i: nat)
    requires WellFormed(schema) && Fits(schema, msg) && Below(ms, n) && i < |ms|
    requires ApplyAll(schema, msg, ms, n).Unpacked?
    ensures exists at :: Fits(schema, at) && at.desc == msg.desc && Apply(schema, at, ms[i], n).Unpacked?
    decreases |ms|
  {
    if i > 0 {
      EachApplied(schema, Apply(schema, msg, ms[0], n).message, ms[1..], n, i - 1);
    }
  }

  lemma {:induction false} NestedAccepted(schema: Schema, at: Message, m: Member, n: nat)
    requires WellFormed(schema) && Fits(schema, at) && GoodMember(m) && |m.body| < n
    requires Apply(schema, at, m, n).Unpacked?
    ensures var fields, k := schema[at.desc].fields, FieldIndex(schema[at.desc].fields, m.tag);
      k >= 0 && fields[k].kind == Nested ==> Unpack(schema, fields[k].sub, Inside(m)).Unpacked?
  {
    var k := FieldIndex(schema[at.desc].fields, m.tag);
    if k >= 0 {
      assert WellFormedField(schema, schema[at.desc].fields[k]);
    }
  }

  /** In less than 2^32 bytes that unpack, nothing wraps at any depth. */
  lemma {:induction false} AcceptedFits(schema: Schema, d: nat, data: seq<byte>)
    requires WellFormed(schema) && d < |schema| && |data| < UINT32 && Unpack(schema, d, data).Unpacked?
    ensures LengthsFit(schema, d, data)
    decreases |data|
  {
    FoundFits(data);
    var fields, ms := schema[d].fields, ScanAll(data).members;
    forall i | 0 <= i < |fields| ensures Total(fields, ms, i) < UINT32 {
      CountsAreSmall(fields, data, i);
    }
    forall i | 0 <= i < |ms| ensures NestedFits(schema, d, ms[i], |data|) {
      var k := FieldIndex(fields, ms[i].tag);
      if k >= 0 && fields[k].kind == Nested && ms[i].wire == PREFIXED {
        EachApplied(schema, Init(schema, d), ms, |data|, i);
        var at :| Fits(schema, at) && at.desc == d && Apply(schema, at, ms[i], |data|).Unpacked?;
        NestedAccepted(schema, at, ms[i], |data|);
        AcceptedFits(schema, fields[k].sub, Inside(ms[i]));
      }
    }
  }

  // ---------------------------------------------------------------------------
  // Whatever is packed, fits
  // ---------------------------------------------------------------------------

  lemma {:induction false} NothingFits(schema: Schema, d: nat)
    requires WellFormed(schema) && d < |schema|
    ensures LengthsFit(schema, d, [])
  {
    assert CountsFit(schema[d].fields, []);
  }

  lemma {:induction false} ValueFits(schema: Schema, d: nat, k: nat, v: Value, n: nat)
    requires WellFormed(schema) && d < |schema| && k < |schema[d].fields|
    requires ConformsValue(schema, schema[d].fields[k], v) && CleanValue(schema, v)
    requires Below([ValueMember(schema, schema[d].fields[k], v)], n)
    ensures AllNestedFit(schema, d, [ValueMember(schema, schema[d].fields[k], v)], n)
    decreases v, 0
  {
    var f := schema[d].fields[k];
    var m := ValueMember(schema, f, v);
    assert GoodMember([m][0]) && |[m][0].body| < n;
    FieldIndexIs(schema, schema[d], k);
    if f.kind == Nested {
      assert Inside(m) == Content(schema, f, v) by {
        ValueMemberGood(schema, f, v);
      }
      if v.Sub? {
        EncodedFits(schema, v.message);
      } else {
        NothingFits(schema, f.sub);
      }
    }
    assert NestedFits(schema, d, m, n);
  }

  lemma FitJoin(schema: Schema, d: nat, ms: seq<Member>, ns: seq<Member>, n: nat)
    requires WellFormed(schema) && d < |schema| && Below(ms + ns, n)
    requires Below(ms, n) && Below(ns, n) && AllNestedFit(schema, d, ms, n) && AllNestedFit(schema, d, ns, n)
    ensures AllNestedFit(schema, d, ms + ns, n)
  {
    var all := ms + ns;
    forall i | 0 <= i < |all| ensures NestedFits(schema, d, all[i], n) {
      if i < |ms| {
        assert all[i] == ms[i];
      } else {
        assert all[i] == ns[i - |ms|];
      }
    }
  }

  lemma {:induction false} ValuesFit(schema: Schema, d: nat, k: nat, vs: seq<Value>, n: nat)
    requires WellFormed(schema) && d < |schema| && k < |schema[d].fields|
    requires ConformsValues(schema, schema[d].fields[k], vs) && CleanValues(schema, vs)
    requires Below(ValueMembers(schema, schema[d].fields[k], vs), n)
    ensures AllNestedFit(schema, d, ValueMembers(schema, schema[d].fields[k], vs), n)
    decreases vs, 1
  {
    if |vs| > 0 {
      var f := schema[d].fields[k];
      var first, rest := [ValueMember(schema, f, vs[0])], ValueMembers(schema, f, vs[1..]);
      BelowParts(first, rest, n);
      ValueFits(schema, d, k, vs[0], n);
      ValuesFit(schema, d, k, vs[1..], n);
      FitJoin(schema, d, first, rest, n);
    }
  }

  lemma {:induction false} SlotFits(schema: Schema, d: nat, k: nat, s: Slot, n: nat)
    requires WellFormed(schema) && d < |schema| && k < |schema[d].fields|
    requires ConformsSlot(schema, schema[d].fields[k], s) && CleanSlot(schema, s)
    requires Below(SlotMembers(schema, schema[d].fields[k], s), n)
    ensures AllNestedFit(schema, d, SlotMembers(schema, schema[d].fields[k], s), n)
    decreases s, 2
  {
    var f := schema[d].fields[k];
    if |SlotMembers(schema, f, s)| == 0 {
    } else if f.rule != Repeated {
      ValueFits(schema, d, k, s.value, n);
    } else if f.packed {
      FieldIndexIs(schema, schema[d], k);
    } else {
      ValuesFit(schema, d, k, s.values, n);
    }
  }

  lemma {:induction false} SlotsFit(schema: Schema, d: nat, k: nat, ss: seq<Slot>, n: nat)
    requires WellFormed(schema) && d < |schema| && k + |ss| == |schema[d].fields|
    requires ConformsSlots(schema, schema[d].fields[k..], ss) && CleanSlots(schema, ss)
    requires Below(SlotsMembers(schema, schema[d].fields[k..], ss), n)
    ensures AllNestedFit(schema, d, SlotsMembers(schema, schema[d].fields[k..], ss), n)
    decreases ss, 2
  {
    if |ss| > 0 {
      var fs := schema[d].fields[k..];
      assert fs[0] == schema[d].fields[k] && fs[1..] == schema[d].fields[k + 1..];
      var here, rest := SlotMembers(schema, fs[0], ss[0]), SlotsMembers(schema, fs[1..], ss[1..]);
      BelowParts(here, rest, n);
      SlotFits(schema, d, k, ss[0], n);
      SlotsFit(schema, d, k + 1, ss[1..], n);
      FitJoin(schema, d, here, rest, n);
    }
  }

  // ---------------------------------------------------------------------------
  // The counts of what is packed
  // ---------------------------------------------------------------------------

  lemma {:induction false} NoneCounted(fields: seq<Field>, ms: seq<Member>, i: nat)
    requires GoodMembers(ms) && i < |fields|
    requires forall j | 0 <= j < |ms| :: CountOf(fields, ms[j], i) == 0
    ensures Total(fields, ms, i) == 0
  {
    if |ms| > 0 {
      assert forall j | 0 <= j < |ms| - 1 :: ms[1..][j] == ms[j + 1];
      NoneCounted(fields, ms[1..], i);
    }
  }

  lemma {:induction false} OneEach(fields: seq<Field>, ms: seq<Member>, i: nat)
    requires GoodMembers(ms) && i < |fields|
    requires forall j | 0 <= j < |ms| :: CountOf(fields, ms[j], i) <= 1
    ensures Total(fields, ms, i) <= |ms|
  {
    if |ms| > 0 {
      assert forall j | 0 <= j < |ms| - 1 :: ms[1..][j] == ms[j + 1];
      OneEach(fields, ms[1..], i);
    }
  }

  lemma {:induction false} AsManyMembers(schema: Schema, f: Field, vs: seq<Value>)
    requires WellFormed(schema) && ConformsValues(schema, f, vs)
    ensures |ValueMembers(schema, f, vs)| == |vs|
    decreases |vs|
  {
    if |vs| > 0 {
      AsManyMembers(schema, f, vs[1..]);
    }
  }

  lemma {:induction false} PayloadCount(schema: Schema, f: Field, vs: seq<Value>)
    requires WellFormed(schema) && ConformsValues(schema, f, vs) && AllWords(f.kind, vs)
    ensures PackedCount(f.kind, Payload(f.kind, vs)) == |vs|
  {
    PackedRoundTrip(schema, f, vs);
    PayloadCountable(f.kind, vs);
    ParsedAsCounted(f.kind, Payload(f.kind, vs));
  }

  /** The members of a slot count for its own field alone, and there within 32 bits. */
  lemma {:induction false} SlotCount(schema: Schema, d: nat, k: nat, s: Slot, i: nat)
    requires WellFormed(schema) && d < |schema| && k < |schema[d].fields| && i < |schema[d].fields|
    requires ConformsSlot(schema, schema[d].fields[k], s) && GoodMembers(SlotMembers(schema, schema[d].fields[k], s))
    ensures Total(schema[d].fields, SlotMembers(schema, schema[d].fields[k], s), i) < if i == k then UINT32 else 1
  {
    var fields := schema[d].fields;
    var f := fields[k];
    var ms := SlotMembers(schema, f, s);
    FieldIndexIs(schema, schema[d], k);
    assert AllBelong(f, ms) by {
      SlotMembersBelong(schema, f, s);
    }
    if i != k || f.rule != Repeated || |ms| == 0 {
      NoneCounted(fields, ms, i);
    } else if f.packed {
      var payload := Payload(f.kind, s.values);
      PrefixedExtent(payload);
      PayloadCount(schema, f, s.values);
      assert [ms[0]] == ms && ms[1..] == [];
    } else {
      AsManyMembers(schema, f, s.values);
      OneEach(fields, ms, i);
    }
  }

  lemma {:induction false} SlotsCount(schema: Schema, d: nat, k: nat, ss: seq<Slot>, i: nat)
    requires WellFormed(schema) && d < |schema| && k + |ss| == |schema[d].fields| && i < |schema[d].fields|
    requires ConformsSlots(schema, schema[d].fields[k..], ss)
    requires GoodMembers(SlotsMembers(schema, schema[d].fields[k..], ss))
    ensures Total(schema[d].fields, SlotsMembers(schema, schema[d].fields[k..], ss), i) < if i < k then 1 else UINT32
    decreases |ss|
  {
    if |ss| > 0 {
      var fields := schema[d].fields;
      var fs := fields[k..];
      assert fs[0] == fields[k] && fs[1..] == fields[k + 1..];
      var here, rest := SlotMembers(schema, fs[0], ss[0]), SlotsMembers(schema, fs[1..], ss[1..]);
      GoodParts(here, rest);
      SlotCount(schema, d, k, ss[0], i);
      SlotsCount(schema, d, k + 1, ss[1..], i);
      TotalJoin(fields, here, rest, i);
    }
  }

  lemma GoodParts(ms: seq<Member>, ns: seq<Member>)
    requires GoodMembers(ms + ns)
    ensures GoodMembers(ms) && GoodMembers(ns)
  {
    var all := ms + ns;
    assert forall i | 0 <= i < |ms| :: ms[i] == all[i];
    assert forall i | 0 <= i < |ns| :: ns[i] == all[|ms| + i];
  }

  lemma {:induction false} MembersCount(schema: Schema, m: Message, i: nat)
    requires WellFormed(schema) && Conforms(schema, m) && Clean(schema, m) && i < |schema[m.desc].fields|
    requires GoodMembers(MembersOf(schema, m))
    ensures Total(schema[m.desc].fields, MembersOf(schema, m), i) < UINT32
  {
    var fields := schema[m.desc].fields;
    var known, unknown := SlotsMembers(schema, fields, m.slots), UnknownMembers(m.unknown);
    assert fields[0..] == fields;
    GoodParts(known, unknown);
    SlotsCount(schema, m.desc, 0, m.slots, i);
    forall j | 0 <= j < |unknown| ensures CountOf(fields, unknown[j], i) == 0 {
      assert CleanUnknown(fields, m.unknown[j]);
    }
    NoneCounted(fields, unknown, i);
    TotalJoin(fields, known, unknown, i);
  }

  /** In the bytes of a conforming message nothing wraps at any depth, however long they are. */
  lemma {:induction false} EncodedFits(schema: Schema, m: Message)
    requires WellFormed(schema) && Conforms(schema, m) && Clean(schema, m)
    ensures LengthsFit(schema, m.desc, Encode(schema, m))
    decreases m, 3
  {
    var fields, ms, n := schema[m.desc].fields, MembersOf(schema, m), |Encode(schema, m)|;
    var known, unknown := SlotsMembers(schema, fields, m.slots), UnknownMembers(m.unknown);
    MembersPassChecks(schema, m);
    assert ScanAll(Encode(schema, m)) == Found(ms) by {
      ScanOfConcat(ms);
    }
    assert CountsFit(fields, ms) by {
      forall i | 0 <= i < |fields| ensures Total(fields, ms, i) < UINT32 {
        MembersCount(schema, m, i);
      }
    }
    BelowParts(known, unknown, n);
    assert AllNestedFit(schema, m.desc, known, n) by {
      assert fields[0..] == fields;
      SlotsFit(schema, m.desc, 0, m.slots, n);
    }
    assert AllNestedFit(schema, m.desc, unknown, n) by {
      forall i | 0 <= i < |unknown| ensures NestedFits(schema, m.desc, unknown[i], n) {
        assert CleanUnknown(fields, m.unknown[i]);
      }
    }
    FitJoin(schema, m.desc, known, unknown, n);
    assert ScanFits(Encode(schema, m)) by {
      ConcatFits(ms);
    }
  }
}
