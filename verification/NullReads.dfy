/** Where the parser reads through a null pointer: on replacing bytes that have no default, and on freeing
    a message whose arrays have been counted and not allocated. */
module NullReads {
  import opened Bytes
  import opened Wire
  import opened Members
  import opened Schema
  import opened Encoding
  import opened Decoding
  import opened RoundTrip
  import opened UnpackedFields
  import opened Counting
  import opened Lengths

  /** Bytes whose default the parser looks up before it replaces them, although there is none. */
  predicate BytesWithoutDefault(f: Field) {
    f.kind == Binary && f.rule != Repeated && f.default.NoDefault?
  }

  predicate NotEmpty(v: Value) {
    v.Data? && |v.bytes| > 0
  }

  /** An array whose elements are visited when its message is freed. */
  predicate PointerArray(f: Field) {
    f.rule == Repeated && !IsScalar(f.kind)
  }

  /** A mandatory field is missing, and an array behind it is not. */
  predicate StrayArray(fields: seq<Field>, ms: seq<Member>) {
    exists f, g | 0 <= f < g < |fields| ::
      Mandatory(fields[f]) && !Present(ms, fields[f].id) && PointerArray(fields[g]) && Present(ms, fields[g].id)
  }

  /** Taking a member reads through a null pointer, here or in the message nested in it. */
  predicate ReadsNullOn(schema: Schema, msg: Message, m: Member, n: nat)
    requires WellFormed(schema) && Fits(schema, msg) && GoodMember(m) && |m.body| < n
    decreases n, 1, 0
  {
    var fields := schema[msg.desc].fields;
    var k := FieldIndex(fields, m.tag);
    && k >= 0 && m.wire == PREFIXED
    && ((BytesWithoutDefault(fields[k]) && NotEmpty(msg.slots[k].value)) || NestedReadsNull(schema, fields[k], m, n))
  }

  predicate NestedReadsNull(schema: Schema, f: Field, m: Member, n: nat)
    requires WellFormed(schema) && GoodMember(m) && |m.body| < n
    decreases n, 0, 0
  {
    f.kind == Nested && f.sub < |schema| && ReadsNull(schema, f.sub, Inside(m))
  }

  /** So does taking one of the members, those before it having been taken. */
  predicate ReadsNullFrom(schema: Schema, msg: Message, ms: seq<Member>, n: nat)
    requires WellFormed(schema) && Fits(schema, msg) && Below(ms, n)
    decreases n, 2, |ms|
  {
    |ms| > 0 &&
    (ReadsNullOn(schema, msg, ms[0], n) ||
     (Apply(schema, msg, ms[0], n).Unpacked? &&
      ReadsNullFrom(schema, Apply(schema, msg, ms[0], n).message, ms[1..], n)))
  }

  /** So does unpacking. */
  predicate ReadsNull(schema: Schema, d: nat, data: seq<byte>)
    requires WellFormed(schema) && d < |schema|
    decreases |data|, 3, 0
  {
    match ScanAll(data)
    case Bad => false
    case Found(ms) =>
      && |ms| <= MAX_MEMBERS && AllCountable(schema[d].fields, ms)
      && if AllPresent(schema[d].fields, ms) then ReadsNullFrom(schema, Init(schema, d), ms, |data|)
         else StrayArray(schema[d].fields, ms)
  }

  // ---------------------------------------------------------------------------
  // Told from the bytes
  // ---------------------------------------------------------------------------

  /** The bytes of the last member of a field, or none. */
  function LastBody(ms: seq<Member>, id: nat): seq<byte>
    requires GoodMembers(ms)
  {
    if |ms| == 0 then []
    else if ms[|ms| - 1].tag == id then Inside(ms[|ms| - 1])
    else LastBody(ms[..|ms| - 1], id)
  }

  /** The j-th member replaces bytes that are not empty and have no default. */
  predicate ReplacesBytes(fields: seq<Field>, ms: seq<Member>, j: nat)
    requires GoodMembers(ms) && j < |ms|
  {
    var k := FieldIndex(fields, ms[j].tag);
    && k >= 0 && ms[j].wire == PREFIXED && BytesWithoutDefault(fields[k])
    && LastBody(ms[..j], ms[j].tag) != []
  }

  /** The j-th member is reached, and is where it happens. */
  ghost predicate HappensAt(schema: Schema, d: nat, ms: seq<Member>, n: nat, j: nat)
    requires WellFormed(schema) && d < |schema| && Below(ms, n) && j < |ms|
  {
    var fields := schema[d].fields;
    var k := FieldIndex(fields, ms[j].tag);
    && ApplyAll(schema, Init(schema, d), ms[..j], n).Unpacked?
    && (ReplacesBytes(fields, ms, j) ||
        (k >= 0 && ms[j].wire == PREFIXED && NestedReadsNull(schema, fields[k], ms[j], n)))
  }

  /** After any members the bytes of a field are those of the last member with its number. */
  lemma {:induction false} HoldsLastBody(schema: Schema, d: nat, ms: seq<Member>, n: nat, k: nat)
    requires WellFormed(schema) && d < |schema| && Below(ms, n) && k < |schema[d].fields|
    requires BytesWithoutDefault(schema[d].fields[k]) && ApplyAll(schema, Init(schema, d), ms, n).Unpacked?
    ensures ApplyAll(schema, Init(schema, d), ms, n).message.slots[k].value
         == Data(LastBody(ms, schema[d].fields[k].id))
    decreases |ms|
  {
    if |ms| > 0 {
      var front, m := ms[..|ms| - 1], ms[|ms| - 1];
      assert ms == front + [m];
      assert Below(front, n) && Below([m], n);
      ApplyJoin(schema, Init(schema, d), front, [m], n);
      var at := ApplyAll(schema, Init(schema, d), front, n).message;
      ApplyOne(schema, at, m, n);
      HoldsLastBody(schema, d, front, n, k);
      BytesStep(schema, at, m, n, k);
    }
  }

  lemma {:induction false} BytesStep(schema: Schema, at: Message, m: Member, n: nat, k: nat)
    requires WellFormed(schema) && Fits(schema, at) && GoodMember(m) && |m.body| < n && k < |at.slots|
    requires BytesWithoutDefault(schema[at.desc].fields[k]) && Apply(schema, at, m, n).Unpacked?
    ensures Apply(schema, at, m, n).message.slots[k].value ==
      if m.tag == schema[at.desc].fields[k].id then Data(Inside(m)) else at.slots[k].value
  {
    var f := schema[at.desc].fields[k];
    FieldIndexIs(schema, schema[at.desc], k);
    if m.tag == f.id {
      assert ParseValue(schema, f, m, n) == Parsed(Data(Inside(m)));
    }
  }

  /** It happens on the way through the members exactly when it does at one that is reached. */
  lemma {:induction false} FromSomewhere(schema: Schema, msg: Message, ms: seq<Member>, n: nat)
    requires WellFormed(schema) && Fits(schema, msg) && Below(ms, n)
    ensures ReadsNullFrom(schema, msg, ms, n) <==> exists j | 0 <= j < |ms| :: ReachedAt(schema, msg, ms, n, j)
    decreases |ms|
  {
    if |ms| > 0 {
      ReachedFirst(schema, msg, ms, n);
      if Apply(schema, msg, ms[0], n).Unpacked? {
        var next := Apply(schema, msg, ms[0], n).message;
        FromSomewhere(schema, next, ms[1..], n);
        forall j | 0 <= j < |ms| - 1
          ensures ReachedAt(schema, msg, ms, n, j + 1) == ReachedAt(schema, next, ms[1..], n, j)
        {
          ReachedLater(schema, msg, ms, n, j);
        }
        if exists j | 0 <= j < |ms| :: ReachedAt(schema, msg, ms, n, j) {
          var j :| 0 <= j < |ms| && ReachedAt(schema, msg, ms, n, j);
          assert j > 0 ==> ReachedAt(schema, next, ms[1..], n, j - 1);
        }
      } else {
        forall j | 0 < j < |ms| ensures !ReachedAt(schema, msg, ms, n, j) {
          NotReached(schema, msg, ms, n, j);
        }
      }
    }
  }

  ghost predicate ReachedAt(schema: Schema, msg: Message, ms: seq<Member>, n: nat, j: nat)
    requires WellFormed(schema) && Fits(schema, msg) && Below(ms, n) && j < |ms|
  {
    var r := ApplyAll(schema, msg, ms[..j], n);
    r.Unpacked? && ReadsNullOn(schema, r.message, ms[j], n)
  }

  lemma {:induction false} ReachedFirst(schema: Schema, msg: Message, ms: seq<Member>, n: nat)
    requires WellFormed(schema) && Fits(schema, msg) && Below(ms, n) && |ms| > 0
    ensures ReachedAt(schema, msg, ms, n, 0) == ReadsNullOn(schema, msg, ms[0], n)
  {
    assert ms[..0] == [];
  }

  lemma {:induction false} ReachedLater(schema: Schema, msg: Message, ms: seq<Member>, n: nat, j: nat)
    requires WellFormed(schema) && Fits(schema, msg) && Below(ms, n) && j + 1 < |ms|
    requires Apply(schema, msg, ms[0], n).Unpacked?
    ensures Below(ms[1..], n)
    ensures ReachedAt(schema, msg, ms, n, j + 1)
         == ReachedAt(schema, Apply(schema, msg, ms[0], n).message, ms[1..], n, j)
  {
    var front := ms[..j + 1];
    assert front[0] == ms[0] && front[1..] == ms[1..][..j];
  }

  lemma {:induction false} NotReached(schema: Schema, msg: Message, ms: seq<Member>, n: nat, j: nat)
    requires WellFormed(schema) && Fits(schema, msg) && Below(ms, n) && 0 < j < |ms|
    requires Apply(schema, msg, ms[0], n).Failed?
    ensures !ReachedAt(schema, msg, ms, n, j)
  {
    assert ms[..j][0] == ms[0];
  }

  lemma {:induction false} ReachedHere(schema: Schema, d: nat, ms: seq<Member>, n: nat, j: nat)
    requires WellFormed(schema) && d < |schema| && Below(ms, n) && j < |ms|
    ensures ReachedAt(schema, Init(schema, d), ms, n, j) == HappensAt(schema, d, ms, n, j)
  {
    var fields := schema[d].fields;
    var k := FieldIndex(fields, ms[j].tag);
    if k >= 0 && BytesWithoutDefault(fields[k]) && ApplyAll(schema, Init(schema, d), ms[..j], n).Unpacked? {
      HoldsLastBody(schema, d, ms[..j], n, k);
    }
  }

  /** The j-th member is of a bytes field without a default of which the last one before it is not empty,
      or has a message in it whose bytes make the parser read through a null pointer. */
  ghost predicate ReadsNullFor(schema: Schema, f: Field, ms: seq<Member>, j: nat)
    requires WellFormed(schema) && GoodMembers(ms) && j < |ms|
  {
    || (f.kind == Binary && f.rule != Repeated && f.default == NoDefault
        && exists i: nat | IsLast(ms[..j], ms[j].tag, i) :: |ms[i].body| > ms[i].prefix)
    || (f.kind == Nested && f.sub < |schema| && ReadsNull(schema, f.sub, ms[j].body[ms[j].prefix..]))
  }

  /** The members before the j-th one are acceptable, and it is such a one. */
  ghost predicate ReadsNullAt(schema: Schema, fields: seq<Field>, ms: seq<Member>, j: nat)
    requires WellFormed(schema) && GoodMembers(ms) && j < |ms|
  {
    && (forall i | 0 <= i < j :: Acceptable(schema, fields, ms[i])) && ms[j].wire == 2
    && exists k | 0 <= k < |fields| && fields[k].id == ms[j].tag :: ReadsNullFor(schema, fields[k], ms, j)
  }

  lemma {:induction false} LastBodyIs(ms: seq<Member>, id: nat)
    requires GoodMembers(ms)
    ensures LastBody(ms, id) != [] <==> exists i: nat | IsLast(ms, id, i) :: |ms[i].body| > ms[i].prefix
  {
    if |ms| > 0 {
      var front, m := ms[..|ms| - 1], ms[|ms| - 1];
      assert ms == front + [m];
      LastOneMore(front, m, id);
      LastBodyIs(front, id);
      if m.tag == id {
        assert IsLast(ms, id, |front|) && ms[|front|] == m;
      } else {
        forall i: nat | IsLast(front, id, i) ensures IsLast(ms, id, i) && ms[i] == front[i] {}
      }
    }
  }

  lemma {:induction false} ReadsNullForField(schema: Schema, f: Field, ms: seq<Member>, n: nat, j: nat)
    requires WellFormed(schema) && Below(ms, n) && j < |ms|
    ensures ReadsNullFor(schema, f, ms, j) <==>
      (BytesWithoutDefault(f) && LastBody(ms[..j], ms[j].tag) != []) || NestedReadsNull(schema, f, ms[j], n)
  {
    LastBodyIs(ms[..j], ms[j].tag);
    assert forall i | 0 <= i < j :: ms[..j][i] == ms[i];
  }

  lemma {:induction false} ReachedIfAcceptable(schema: Schema, d: nat, ms: seq<Member>, n: nat, j: nat)
    requires WellFormed(schema) && d < |schema| && Below(ms, n) && j < |ms|
    ensures ApplyAll(schema, Init(schema, d), ms[..j], n).Unpacked? <==>
      forall i | 0 <= i < j :: Acceptable(schema, schema[d].fields, ms[i])
  {
    AllTaken(schema, Init(schema, d), ms[..j], n);
    assert forall i | 0 <= i < j :: ms[..j][i] == ms[i];
  }

  lemma {:induction false} HappensThere(schema: Schema, d: nat, ms: seq<Member>, n: nat, j: nat)
    requires WellFormed(schema) && d < |schema| && Below(ms, n) && j < |ms|
    ensures HappensAt(schema, d, ms, n, j) <==> ReadsNullAt(schema, schema[d].fields, ms, j)
  {
    var fields, k := schema[d].fields, FieldIndex(schema[d].fields, ms[j].tag);
    ReachedIfAcceptable(schema, d, ms, n, j);
    if k >= 0 {
      ReadsNullForField(schema, fields[k], ms, n, j);
    }
    forall i | 0 <= i < |fields| && fields[i].id == ms[j].tag ensures i == k {
      FieldIndexIs(schema, schema[d], i);
    }
  }

  lemma {:induction false} StrayExactly(fields: seq<Field>, ms: seq<Member>)
    ensures StrayArray(fields, ms) <==> exists f, g | 0 <= f < g < |fields| ::
      && fields[f].rule == Required && fields[f].default == NoDefault && Missing(ms, fields[f].id)
      && fields[g].rule == Repeated
      && (fields[g].kind == String || fields[g].kind == Binary || fields[g].kind == Nested)
      && !Missing(ms, fields[g].id)
  {
    forall k | 0 <= k < |fields| ensures Present(ms, fields[k].id) <==> !Missing(ms, fields[k].id) {}
  }

  /** Unpacking reads through a null pointer if and only if the bytes pass the scan, and either a
      mandatory field is missing and an array of strings, bytes or messages behind it is not, or none is
      missing and some member, those before it being acceptable, replaces bytes without a default that are
      not empty, or has a message nested in it of which the same is true. */
  lemma {:induction false} ReadsNullExactly(schema: Schema, d: nat, data: seq<byte>)
    requires WellFormed(schema) && d < |schema|
    ensures ReadsNull(schema, d, data) <==>
      && ScanAll(data).Found?
      && var fields, ms := schema[d].fields, ScanAll(data).members;
      && |ms| <= 0x7F_FFFF_FFFF_FFFF0 && AllCountable(fields, ms)
      && if exists f | 0 <= f < |fields| ::
              fields[f].rule == Required && fields[f].default == NoDefault && Missing(ms, fields[f].id)
         then exists f, g | 0 <= f < g < |fields| ::
           && fields[f].rule == Required && fields[f].default == NoDefault && Missing(ms, fields[f].id)
           && fields[g].rule == Repeated
           && (fields[g].kind == String || fields[g].kind == Binary || fields[g].kind == Nested)
           && !Missing(ms, fields[g].id)
         else exists j | 0 <= j < |ms| :: ReadsNullAt(schema, fields, ms, j)
  {
    if ScanAll(data).Found? {
      var ms := ScanAll(data).members;
      FromSomewhere(schema, Init(schema, d), ms, |data|);
      forall j | 0 <= j < |ms|
        ensures ReachedAt(schema, Init(schema, d), ms, |data|, j) == ReadsNullAt(schema, schema[d].fields, ms, j)
      {
        ReachedHere(schema, d, ms, |data|, j);
        HappensThere(schema, d, ms, |data|, j);
      }
      NoneMissing(schema[d].fields, ms);
      StrayExactly(schema[d].fields, ms);
    }
  }

  /** An array is there exactly when elements have been counted for it. */
  lemma {:induction false} ThereIfCounted(schema: Schema, d: nat, ms: seq<Member>, g: nat)
    requires WellFormed(schema) && d < |schema| && g < |schema[d].fields| && PointerArray(schema[d].fields[g])
    requires GoodMembers(ms)
    ensures Present(ms, schema[d].fields[g].id) <==> Total(schema[d].fields, ms, g) > 0
  {
    var fields := schema[d].fields;
    var id := fields[g].id;
    assert WellFormedField(schema, fields[g]);
    if |ms| > 0 {
      FieldIndexIs(schema, schema[d], g);
      ThereIfCounted(schema, d, ms[1..], g);
      assert CountOf(fields, ms[0], g) > 0 <==> ms[0].tag == id;
      PresentInRest(ms, id);
    }
  }

  lemma PresentInRest(ms: seq<Member>, id: nat)
    requires |ms| > 0
    ensures Present(ms, id) <==> ms[0].tag == id || Present(ms[1..], id)
  {
    if Present(ms, id) && ms[0].tag != id {
      var i :| 0 <= i < |ms| && ms[i].tag == id;
      assert ms[1..][i - 1].tag == id;
    }
    if Present(ms[1..], id) {
      var i :| 0 <= i < |ms| - 1 && ms[1..][i].tag == id;
      assert ms[i + 1].tag == id;
    }
  }

  // ---------------------------------------------------------------------------
  // Two inputs
  // ---------------------------------------------------------------------------

  /** A member with one byte behind its length. */
  function OneByte(id: uint32, b: byte): Member {
    Member(id, PREFIXED, 1, [1, b])
  }

  /** With a small number it is three bytes: 0A 01 41 for field 1 and the letter A. */
  lemma OneByteIsGood(id: uint32, b: byte)
    ensures GoodMember(OneByte(id, b)) && Inside(OneByte(id, b)) == [b]
    ensures id < 16 ==> MemberBytes(OneByte(id, b)) == [8 * id + 2, 1, b]
  {
    PrefixedExtent([b]);
    assert Varint(1) == [1] && Prefixed([b]) == [1, b];
    if id < 16 {
      assert Tag(id, PREFIXED) == [8 * id + 2];
    }
  }

  lemma OneMember(a: Member)
    requires GoodMember(a)
    ensures ScanAll(MemberBytes(a)) == Found([a])
  {
    ScanOfConcat([a]);
    assert [a][1..] == [];
    assert Concat([a]) == MemberBytes(a) + [] == MemberBytes(a);
  }

  lemma TwoMembers(a: Member, b: Member)
    requires GoodMember(a) && GoodMember(b)
    ensures ScanAll(MemberBytes(a) + MemberBytes(b)) == Found([a, b])
  {
    ScanOfConcat([a, b]);
    assert [a, b][1..] == [b] && [b][1..] == [];
    assert Concat([b]) == MemberBytes(b) + [] == MemberBytes(b);
  }

  /** The message with other bytes in a field. */
  function WithBytes(schema: Schema, st: Message, k: nat, bytes: seq<byte>): Message
    requires Fits(schema, st) && k < |st.slots|
  {
    WithSlot(st, k, Single(schema[st.desc].fields[k].rule == Optional, Data(bytes)))
  }

  lemma {:induction false} OneByteApplied(schema: Schema, st: Message, k: nat, b: byte, n: nat)
    requires WellFormed(schema) && Fits(schema, st) && k < |st.slots| && n > 2
    requires BytesWithoutDefault(schema[st.desc].fields[k])
    requires st.slots[k].has ==> schema[st.desc].fields[k].rule == Optional
    ensures var m := OneByte(schema[st.desc].fields[k].id, b);
      && GoodMember(m)
      && Apply(schema, st, m, n) == Unpacked(WithBytes(schema, st, k, [b]))
      && (NotEmpty(st.slots[k].value) ==> ReadsNullOn(schema, st, m, n))
  {
    var f := schema[st.desc].fields[k];
    OneByteIsGood(f.id, b);
    FieldIndexIs(schema, schema[st.desc], k);
    assert ParseValue(schema, f, OneByte(f.id, b), n) == Parsed(Data([b]));
  }

  lemma {:induction false} TwiceApplied(schema: Schema, st: Message, k: nat, b: byte, c: byte, n: nat)
    requires WellFormed(schema) && Fits(schema, st) && k < |st.slots| && n > 2
    requires BytesWithoutDefault(schema[st.desc].fields[k])
    requires st.slots[k].has ==> schema[st.desc].fields[k].rule == Optional
    ensures var id := schema[st.desc].fields[k].id;
      && Below([OneByte(id, b), OneByte(id, c)], n)
      && ReadsNullFrom(schema, st, [OneByte(id, b), OneByte(id, c)], n)
      && ApplyAll(schema, st, [OneByte(id, b), OneByte(id, c)], n) == Unpacked(WithBytes(schema, st, k, [c]))
  {
    var id, first := schema[st.desc].fields[k].id, WithBytes(schema, st, k, [b]);
    var x, y := OneByte(id, b), OneByte(id, c);
    OneByteApplied(schema, st, k, b, n);
    OneByteApplied(schema, first, k, c, n);
    ApplyOne(schema, first, y, n);
    ApplyFirst(schema, st, x, [y], n);
    assert [x] + [y] == [x, y] && [x, y][1..] == [y];
    assert ReadsNullFrom(schema, first, [y], n);
    WithSlotTwice(st, k, first.slots[k], Single(schema[st.desc].fields[k].rule == Optional, Data([c])));
  }

  /** Two members of a field pass the first pass, if no other field is mandatory. */
  lemma {:induction false} TwicePasses(schema: Schema, d: nat, k: nat, b: byte, c: byte)
    requires WellFormed(schema) && d < |schema| && k < |schema[d].fields|
    requires BytesWithoutDefault(schema[d].fields[k])
    requires forall i | 0 <= i < |schema[d].fields| :: Mandatory(schema[d].fields[i]) ==> i == k
    ensures var x, y := OneByte(schema[d].fields[k].id, b), OneByte(schema[d].fields[k].id, c);
      && GoodMember(x) && GoodMember(y) && ScanAll(MemberBytes(x) + MemberBytes(y)) == Found([x, y])
      && 2 < |MemberBytes(x) + MemberBytes(y)| < UINT32
      && AllPresent(schema[d].fields, [x, y]) && AllCountable(schema[d].fields, [x, y])
  {
    var id := schema[d].fields[k].id;
    var x, y := OneByte(id, b), OneByte(id, c);
    OneByteIsGood(id, b);
    OneByteIsGood(id, c);
    TwoMembers(x, y);
    TagLength(id);
    FieldIndexIs(schema, schema[d], k);
    assert [x, y][0].tag == id;
  }

  /** Any bytes field without a default, given twice, where nothing else is mandatory: the specification
      has a message, and the code reads through a null pointer. */
  lemma {:induction false} BytesGivenTwice(schema: Schema, d: nat, k: nat, b: byte, c: byte, data: seq<byte>)
    requires WellFormed(schema) && d < |schema| && k < |schema[d].fields|
    requires BytesWithoutDefault(schema[d].fields[k])
    requires forall i | 0 <= i < |schema[d].fields| :: Mandatory(schema[d].fields[i]) ==> i == k
    requires data == MemberBytes(OneByte(schema[d].fields[k].id, b)) + MemberBytes(OneByte(schema[d].fields[k].id, c))
    ensures LengthsFit(schema, d, data) && ReadsNull(schema, d, data)
    ensures Unpack(schema, d, data) == Unpacked(WithBytes(schema, Init(schema, d), k, [c]))
  {
    TwicePasses(schema, d, k, b, c);
    TwiceApplied(schema, Init(schema, d), k, b, c, |data|);
    AcceptedFits(schema, d, data);
  }

  lemma TagLength(id: uint32)
    ensures |Tag(id, PREFIXED)| <= 5
  {
    TagSizeCounts(id, PREFIXED);
  }

  /** A string of any array, and a mandatory field in front of it missing: the code reads through a null
      pointer on the way to refusing it. */
  lemma {:induction false} ArrayBehindMissing(schema: Schema, d: nat, f: nat, g: nat, b: byte, data: seq<byte>)
    requires WellFormed(schema) && d < |schema| && f < g < |schema[d].fields|
    requires Mandatory(schema[d].fields[f])
    requires schema[d].fields[g].rule == Repeated && schema[d].fields[g].kind == String
    requires data == MemberBytes(OneByte(schema[d].fields[g].id, b))
    ensures LengthsFit(schema, d, data) && ReadsNull(schema, d, data) && Unpack(schema, d, data) == Failed
  {
    var fields, m := schema[d].fields, OneByte(schema[d].fields[g].id, b);
    OneByteIsGood(m.tag, b);
    OneMember(m);
    assert WellFormedField(schema, fields[f]) && WellFormedField(schema, fields[g]);
    FieldIndexIs(schema, schema[d], g);
    assert [m][0].tag == fields[g].id;
    assert Mandatory(fields[f]) && !Present([m], fields[f].id) && PointerArray(fields[g]) && Present([m], fields[g].id);
    assert |data| < UINT32 by {
      TagLength(m.tag);
    }
    FoundFits(data);
    forall i | 0 <= i < |fields| ensures Total(fields, [m], i) < UINT32 {
      CountsAreSmall(fields, data, i);
    }
  }

  // ---------------------------------------------------------------------------
  // It does not happen to what has been packed
  // ---------------------------------------------------------------------------

  lemma {:induction false} FromJoin(schema: Schema, msg: Message, ms: seq<Member>, ns: seq<Member>, n: nat)
    requires WellFormed(schema) && Fits(schema, msg) && Below(ms, n) && Below(ns, n)
    requires !ReadsNullFrom(schema, msg, ms, n)
    requires ApplyAll(schema, msg, ms, n).Unpacked? ==>
      !ReadsNullFrom(schema, ApplyAll(schema, msg, ms, n).message, ns, n)
    ensures Below(ms + ns, n) && !ReadsNullFrom(schema, msg, ms + ns, n)
    decreases |ms|
  {
    var all := ms + ns;
    assert Below(all, n);
    if |ms| == 0 {
      assert all == ns;
    } else {
      assert all[0] == ms[0] && all[1..] == ms[1..] + ns;
      if Apply(schema, msg, ms[0], n).Unpacked? {
        FromJoin(schema, Apply(schema, msg, ms[0], n).message, ms[1..], ns, n);
      }
    }
  }

  lemma {:induction false} NothingReadsNull(schema: Schema, d: nat)
    requires WellFormed(schema) && d < |schema|
    ensures !ReadsNull(schema, d, [])
  {
    assert forall i | 0 <= i < |schema[d].fields| :: !Present([], schema[d].fields[i].id);
  }

  /** A value behind none does not replace anything, and nothing nested in it does. */
  lemma {:induction false} ValueReadsNoNull(schema: Schema, st: Message, k: nat, v: Value, n: nat)
    requires WellFormed(schema) && Fits(schema, st) && k < |st.slots|
    requires var f := schema[st.desc].fields[k];
      && ConformsValue(schema, f, v) && CleanValue(schema, v)
      && GoodMember(ValueMember(schema, f, v)) && |ValueMember(schema, f, v).body| < n
    requires BytesWithoutDefault(schema[st.desc].fields[k]) ==> !NotEmpty(st.slots[k].value)
    ensures !ReadsNullOn(schema, st, ValueMember(schema, schema[st.desc].fields[k], v), n)
    decreases v, 0
  {
    var f := schema[st.desc].fields[k];
    var m := ValueMember(schema, f, v);
    FieldIndexIs(schema, schema[st.desc], k);
    if f.kind == Nested {
      ValueMemberGood(schema, f, v);
      if v.Sub? {
        EncodedReadsNoNull(schema, v.message);
      } else {
        NothingReadsNull(schema, f.sub);
      }
    }
  }

  lemma {:induction false} ValuesReadNoNull(schema: Schema, st: Message, k: nat, vs: seq<Value>, n: nat)
    requires WellFormed(schema) && Fits(schema, st) && k < |st.slots| && schema[st.desc].fields[k].rule == Repeated
    requires var f := schema[st.desc].fields[k];
      ConformsValues(schema, f, vs) && CleanValues(schema, vs) && Below(ValueMembers(schema, f, vs), n)
    ensures !ReadsNullFrom(schema, st, ValueMembers(schema, schema[st.desc].fields[k], vs), n)
    decreases vs, 1
  {
    if |vs| > 0 {
      var f := schema[st.desc].fields[k];
      var m, rest := ValueMember(schema, f, vs[0]), ValueMembers(schema, f, vs[1..]);
      FirstBelow(m, rest, n);
      ValueReadsNoNull(schema, st, k, vs[0], n);
      if Apply(schema, st, m, n).Unpacked? {
        ValuesReadNoNull(schema, Apply(schema, st, m, n).message, k, vs[1..], n);
      }
      FirstReadsNoNull(schema, st, m, rest, n);
    }
  }

  lemma {:induction false} FirstReadsNoNull(schema: Schema, st: Message, m: Member, rest: seq<Member>, n: nat)
    requires WellFormed(schema) && Fits(schema, st) && GoodMember(m) && |m.body| < n && Below(rest, n)
    requires !ReadsNullOn(schema, st, m, n)
    requires Apply(schema, st, m, n).Unpacked? ==>
      !ReadsNullFrom(schema, Apply(schema, st, m, n).message, rest, n)
    ensures Below([m] + rest, n) && !ReadsNullFrom(schema, st, [m] + rest, n)
  {
    var all := [m] + rest;
    assert all[0] == m && all[1..] == rest && Below(all, n);
  }

  lemma {:induction false} SlotReadsNoNull(schema: Schema, st: Message, k: nat, s: Slot, n: nat)
    requires WellFormed(schema) && Fits(schema, st) && k < |st.slots|
    requires st.slots[k] == InitSlot(schema[st.desc].fields[k])
    requires var f := schema[st.desc].fields[k];
      ConformsSlot(schema, f, s) && CleanSlot(schema, s) && Below(SlotMembers(schema, f, s), n)
    ensures !ReadsNullFrom(schema, st, SlotMembers(schema, schema[st.desc].fields[k], s), n)
    decreases s, 2
  {
    var f := schema[st.desc].fields[k];
    if |SlotMembers(schema, f, s)| == 0 {
    } else if f.rule != Repeated {
      var m := ValueMember(schema, f, s.value);
      assert [m] + [] == [m];
      FirstBelow(m, [], n);
      ValueReadsNoNull(schema, st, k, s.value, n);
      FirstReadsNoNull(schema, st, m, [], n);
    } else if f.packed {
      var m := PackedMember(f, Payload(f.kind, s.values));
      assert [m] + [] == [m];
      FirstBelow(m, [], n);
      FieldIndexIs(schema, schema[st.desc], k);
      assert WellFormedField(schema, f);
      FirstReadsNoNull(schema, st, m, [], n);
    } else {
      ValuesReadNoNull(schema, st, k, s.values, n);
    }
  }

  lemma {:induction false} SlotsReadNoNull(schema: Schema, st: Message, k: nat, ss: seq<Slot>, n: nat)
    requires WellFormed(schema) && Fits(schema, st) && k + |ss| == |st.slots|
    requires forall j | k <= j < |st.slots| :: st.slots[j] == InitSlot(schema[st.desc].fields[j])
    requires var fs := schema[st.desc].fields[k..];
      ConformsSlots(schema, fs, ss) && CleanSlots(schema, ss) && Below(SlotsMembers(schema, fs, ss), n)
    ensures !ReadsNullFrom(schema, st, SlotsMembers(schema, schema[st.desc].fields[k..], ss), n)
    decreases ss, 2
  {
    var fields := schema[st.desc].fields;
    var fs := fields[k..];
    if |ss| > 0 {
      var f := fields[k];
      assert fs[0] == f && fs[1..] == fields[k + 1..];
      var here, rest := SlotMembers(schema, f, ss[0]), SlotsMembers(schema, fs[1..], ss[1..]);
      BelowParts(here, rest, n);
      SlotReadsNoNull(schema, st, k, ss[0], n);
      ApplySlot(schema, st, k, ss[0], n);
      if CompleteSlot(schema, f, ss[0]) {
        SlotsReadNoNull(schema, WithSlot(st, k, NormSlot(schema, f, ss[0])), k + 1, ss[1..], n);
      }
      FromJoin(schema, st, here, rest, n);
    }
  }

  lemma {:induction false} UnknownsReadNoNull(schema: Schema, st: Message, us: seq<Unknown>, n: nat)
    requires WellFormed(schema) && Fits(schema, st) && Below(UnknownMembers(us), n)
    requires forall i | 0 <= i < |us| :: CleanUnknown(schema[st.desc].fields, us[i])
    ensures !ReadsNullFrom(schema, st, UnknownMembers(us), n)
    decreases |us|
  {
    if |us| > 0 {
      UnknownsSplit(us);
      var m, rest := UnknownMember(us[0]), UnknownMembers(us[1..]);
      FirstBelow(m, rest, n);
      ApplyOneUnknown(schema, st, us[0], n);
      UnknownsReadNoNull(schema, WithUnknown(st, [us[0]]), us[1..], n);
      FirstReadsNoNull(schema, st, m, rest, n);
    }
  }

  /** The bytes of a conforming message are unpacked without reading through a null pointer. */
  lemma {:induction false} EncodedReadsNoNull(schema: Schema, m: Message)
    requires WellFormed(schema) && Conforms(schema, m) && Clean(schema, m)
    ensures !ReadsNull(schema, m.desc, Encode(schema, m))
    decreases m, 3
  {
    var fields, ms, n := schema[m.desc].fields, MembersOf(schema, m), |Encode(schema, m)|;
    var start := Init(schema, m.desc);
    var known, unknown := SlotsMembers(schema, fields, m.slots), UnknownMembers(m.unknown);
    MembersPassChecks(schema, m);
    ScanOfConcat(ms);
    BelowParts(known, unknown, n);
    assert fields[0..] == fields;
    SlotsReadNoNull(schema, start, 0, m.slots, n);
    if ApplyAll(schema, start, known, n).Unpacked? {
      UnknownsReadNoNull(schema, ApplyAll(schema, start, known, n).message, m.unknown, n);
    }
    FromJoin(schema, start, known, unknown, n);
  }
}
