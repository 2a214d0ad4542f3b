/** What unpacking comes to, field by field: which bytes are accepted, and what every field of the message
    then is, told from the members alone, without taking them in turn. */
module UnpackedFields {
  import opened Bytes
  import opened Wire
  import opened Members
  import opened Schema
  import opened Decoding
  import opened RoundTrip

  // ---------------------------------------------------------------------------
  // One value
  // ---------------------------------------------------------------------------

  /** The words of four and of eight bytes, low byte first. */
  predicate IsWord4(s: seq<byte>, u: nat) {
    |s| == 4 && u == s[0] as int + 0x100 * s[1] as int + 0x1_0000 * s[2] as int + 0x100_0000 * s[3] as int
  }

  predicate IsWord8(s: seq<byte>, u: nat) {
    && |s| == 8
    && u == s[0] as int + 0x100 * s[1] as int + 0x1_0000 * s[2] as int + 0x100_0000 * s[3] as int
         + 0x1_0000_0000 * s[4] as int + 0x100_0000_0000 * s[5] as int
         + 0x1_0000_0000_0000 * s[6] as int + 0x100_0000_0000_0000 * s[7] as int
  }

  /** A word for a number whose low bit is its sign. */
  function Unfolded(z: nat, range: nat): int {
    if z % 2 == 0 then z / 2 else range - 1 - z / 2
  }

  /** The scalar that bytes of its kind stand for. */
  predicate IsScalarOf(kind: FieldType, s: seq<byte>, v: Value) {
    var number := VarintValue(s);
    match kind
    case Int32 | Uint32 | Enum => v == Num(number % 0x1_0000_0000)
    case Int64 | Uint64 => v == Num(number % 0x1_0000_0000_0000_0000)
    case Sint32 => v.Num? && v.word == Unfolded(number % 0x1_0000_0000, 0x1_0000_0000)
    case Sint64 => v.Num? && v.word == Unfolded(number % 0x1_0000_0000_0000_0000, 0x1_0000_0000_0000_0000)
    case Bool => v == Num(if exists i | 0 <= i < |s| :: s[i] % 128 != 0 then 1 else 0)
    case Sfixed32 | Fixed32 | Float => v.Num? && IsWord4(s, v.word)
    case Sfixed64 | Fixed64 | Double => v.Num? && IsWord8(s, v.word)
    case String | Binary | Nested => false
  }

  /** The value of a field in a member. Only a boolean may have a body of any kind. */
  predicate IsValue(schema: Schema, f: Field, m: Member, v: Value)
    requires WellFormed(schema) && GoodMember(m)
  {
    match f.kind
    case Int32 | Uint32 | Enum | Int64 | Uint64 | Sint32 | Sint64 => m.wire == 0 && IsScalarOf(f.kind, m.body, v)
    case Sfixed32 | Fixed32 | Float => m.wire == 5 && IsScalarOf(f.kind, m.body, v)
    case Sfixed64 | Fixed64 | Double => m.wire == 1 && IsScalarOf(f.kind, m.body, v)
    case Bool => IsScalarOf(f.kind, m.body, v)
    case String => m.wire == 2 && v == Text(Own(m.body[m.prefix..]))
    case Binary => m.wire == 2 && v == Data(m.body[m.prefix..])
    case Nested =>
      m.wire == 2 && v.Sub? && f.sub < |schema| && Unpack(schema, f.sub, m.body[m.prefix..]) == Unpacked(v.message)
  }

  lemma {:induction false} NotZero(s: seq<byte>)
    ensures VarintValue(s) != 0 <==> exists i | 0 <= i < |s| :: s[i] % 128 != 0
  {
    if |s| > 0 {
      NotZero(s[1..]);
      assert forall i | 0 < i < |s| :: s[i] == s[1..][i - 1];
    }
  }

  lemma Word4Is(s: seq<byte>, u: nat)
    requires |s| == 4
    ensures IsWord4(s, u) <==> u == FromLittle4(s)
  {}

  lemma Word8Is(s: seq<byte>, u: nat)
    requires |s| == 8
    ensures IsWord8(s, u) <==> u == FromLittle8(s)
  {}

  lemma {:induction false} DecodedExactly(kind: FieldType, s: seq<byte>, v: Value)
    requires IsScalar(kind) && LongEnough(kind, s)
    requires (WireOf(kind) == THIRTYTWO ==> |s| == 4) && (WireOf(kind) == SIXTYFOUR ==> |s| == 8)
    ensures v == Num(DecodeWord(kind, s)) <==> IsScalarOf(kind, s, v)
  {
    match kind
    case Bool => NotZero(s);
    case Sfixed32 | Fixed32 | Float =>
      if v.Num? {
        Word4Is(s, v.word);
      }
    case Sfixed64 | Fixed64 | Double =>
      if v.Num? {
        Word8Is(s, v.word);
      }
    case _ =>
  }

  lemma {:induction false} ScalarParsed(schema: Schema, f: Field, m: Member, n: nat, v: Value)
    requires WellFormed(schema) && WellFormedField(schema, f) && GoodMember(m) && |m.body| < n && IsScalar(f.kind)
    ensures ParseValue(schema, f, m, n) == Parsed(v) <==>
      (f.kind == Bool || m.wire == WireOf(f.kind)) && IsScalarOf(f.kind, m.body, v)
  {
    if f.kind == Bool || m.wire == WireOf(f.kind) {
      DecodedExactly(f.kind, m.body, v);
    }
  }

  lemma {:induction false} BytesParsed(schema: Schema, f: Field, m: Member, n: nat)
    requires WellFormed(schema) && WellFormedField(schema, f) && GoodMember(m) && |m.body| < n
    requires f.kind == String || f.kind == Binary
    ensures ParseValue(schema, f, m, n) ==
      if m.wire != 2 then Refused
      else Parsed(if f.kind == String then Text(Own(m.body[m.prefix..])) else Data(m.body[m.prefix..]))
  {}

  lemma {:induction false} NestedParsed(schema: Schema, f: Field, m: Member, n: nat, sub: Unpacked)
    requires WellFormed(schema) && WellFormedField(schema, f) && GoodMember(m) && |m.body| < n
    requires f.kind == Nested && sub == Unpack(schema, f.sub, Inside(m))
    ensures ParseValue(schema, f, m, n) ==
      if m.wire != 2 || sub.Failed? then Refused else Parsed(Sub(sub.message))
  {}

  /** Parsing a member gives the value it has, and refuses one that has none. */
  lemma {:induction false} ParsedExactly(schema: Schema, f: Field, m: Member, n: nat, v: Value)
    requires WellFormed(schema) && WellFormedField(schema, f) && GoodMember(m) && |m.body| < n
    ensures ParseValue(schema, f, m, n) == Parsed(v) <==> IsValue(schema, f, m, v)
  {
    if IsScalar(f.kind) {
      ScalarParsed(schema, f, m, n, v);
    } else if f.kind == Nested {
      NestedParsed(schema, f, m, n, Unpack(schema, f.sub, Inside(m)));
    } else {
      BytesParsed(schema, f, m, n);
    }
  }

  // ---------------------------------------------------------------------------
  // Packed arrays
  // ---------------------------------------------------------------------------

  /** The bytes of one element: those of a scalar of its kind, and no others; a boolean is 0 or 1. */
  predicate IsElement(kind: FieldType, s: seq<byte>, v: Value) {
    match kind
    case Bool => |s| == 1 && s[0] <= 1 && v == Num(s[0])
    case Int32 | Uint32 | Enum | Int64 | Uint64 | Sint32 | Sint64 =>
      && 1 <= |s| <= 10 && s[|s| - 1] < 128 && (forall i | 0 <= i < |s| - 1 :: s[i] >= 128)
      && IsScalarOf(kind, s, v)
    case _ => IsScalarOf(kind, s, v)
  }

  /** The elements, one after the other. */
  ghost predicate AreElements(kind: FieldType, s: seq<byte>, vs: seq<Value>)
    decreases |vs|
  {
    if |vs| == 0 then s == []
    else exists n | 0 < n <= |s| :: IsElement(kind, s[..n], vs[0]) && AreElements(kind, s[n..], vs[1..])
  }

  lemma {:induction false} BoolElement(s: seq<byte>, n: nat, v: Value)
    requires 0 < n <= |s|
    ensures IsElement(Bool, s[..n], v) <==> NextWord(Bool, s) == n && v == Num(DecodeWord(Bool, s[..n]))
  {
    if n == 1 && s[0] <= 1 {
      var front := s[..1];
      assert front[1..] == [] && VarintValue(front) == s[0] % 128 + 128 * VarintValue([]);
      assert DecodeWord(Bool, front) == s[0];
    }
  }

  lemma {:induction false} FixedElement(kind: FieldType, s: seq<byte>, n: nat, v: Value)
    requires WireOf(kind) == THIRTYTWO || WireOf(kind) == SIXTYFOUR
    requires 0 < n <= |s|
    ensures IsElement(kind, s[..n], v) <==> NextWord(kind, s) == n && v == Num(DecodeWord(kind, s[..n]))
  {
    if NextWord(kind, s) == n {
      DecodedExactly(kind, s[..n], v);
    }
  }

  lemma {:induction false} VarintElement(kind: FieldType, s: seq<byte>, n: nat, v: Value)
    requires WireOf(kind) == VARINT && kind != Bool && 0 < n <= |s|
    ensures IsElement(kind, s[..n], v) <==> NextWord(kind, s) == n && v == Num(DecodeWord(kind, s[..n]))
  {
    DecodedExactly(kind, s[..n], v);
    NextVarint(s, n);
    assert forall i | 0 <= i < n :: s[..n][i] == s[i];
  }

  lemma {:induction false} NextVarint(s: seq<byte>, n: nat)
    requires 0 < n <= |s|
    ensures VarintEnd(s, 10) == n <==> n <= 10 && s[n - 1] < 128 && forall i | 0 <= i < n - 1 :: s[i] >= 128
  {
    if s[n - 1] < 128 && forall i | 0 <= i < n - 1 :: s[i] >= 128 {
      LeadingIs(s, n - 1);
    }
  }

  lemma {:induction false} ElementExactly(kind: FieldType, s: seq<byte>, n: nat, v: Value)
    requires IsScalar(kind) && 0 < n <= |s|
    ensures IsElement(kind, s[..n], v) <==> NextWord(kind, s) == n && v == Num(DecodeWord(kind, s[..n]))
  {
    if kind == Bool {
      BoolElement(s, n, v);
    } else if WireOf(kind) == VARINT {
      VarintElement(kind, s, n, v);
    } else {
      FixedElement(kind, s, n, v);
    }
  }

  /** A packed array parses to its elements, and is refused if it has none. */
  lemma {:induction false} PackedExactly(kind: FieldType, s: seq<byte>, vs: seq<Value>)
    requires IsScalar(kind)
    ensures ParsePacked(kind, s) == ParsedAll(vs) <==> AreElements(kind, s, vs)
    decreases |vs|
  {
    if |vs| > 0 && |s| > 0 {
      forall n | 0 < n <= |s|
        ensures IsElement(kind, s[..n], vs[0]) && AreElements(kind, s[n..], vs[1..]) <==>
          && NextWord(kind, s) == n && vs[0] == Num(DecodeWord(kind, s[..n]))
          && ParsePacked(kind, s[n..]) == ParsedAll(vs[1..])
      {
        ElementExactly(kind, s, n, vs[0]);
        PackedExactly(kind, s[n..], vs[1..]);
      }
      PackedFirst(kind, s, vs);
    }
  }

  lemma {:induction false} PackedFirst(kind: FieldType, s: seq<byte>, vs: seq<Value>)
    requires IsScalar(kind) && |vs| > 0 && |s| > 0
    ensures var n := NextWord(kind, s);
      ParsePacked(kind, s) == ParsedAll(vs) <==>
        n > 0 && vs[0] == Num(DecodeWord(kind, s[..n])) && ParsePacked(kind, s[n..]) == ParsedAll(vs[1..])
  {
    var n := NextWord(kind, s);
    if n > 0 && ParsePacked(kind, s[n..]).ParsedAll? {
      var first, rest := Num(DecodeWord(kind, s[..n])), ParsePacked(kind, s[n..]).values;
      assert ([first] + rest)[0] == first && ([first] + rest)[1..] == rest;
      assert vs == [vs[0]] + vs[1..];
    }
  }
  // ---------------------------------------------------------------------------
  // The fields of a message
  // ---------------------------------------------------------------------------

  /** What a member gives to an array: one element, or the elements packed in it. */
  ghost predicate Gives(schema: Schema, f: Field, m: Member, vs: seq<Value>)
    requires WellFormed(schema) && GoodMember(m)
  {
    if f.packed && m.wire == 2 then AreElements(f.kind, m.body[m.prefix..], vs)
    else |vs| == 1 && IsValue(schema, f, m, vs[0])
  }

  /** The elements of an array are what the members with its number give, in their order. */
  ghost predicate ArrayIs(schema: Schema, f: Field, ms: seq<Member>, vs: seq<Value>)
    requires WellFormed(schema) && GoodMembers(ms)
    decreases |ms|
  {
    if |ms| == 0 then vs == []
    else
      var front, m := ms[..|ms| - 1], ms[|ms| - 1];
      if m.tag != f.id then ArrayIs(schema, f, front, vs)
      else exists i | 0 <= i <= |vs| :: ArrayIs(schema, f, front, vs[..i]) && Gives(schema, f, m, vs[i..])
  }

  /** The last member with a number. */
  predicate IsLast(ms: seq<Member>, id: nat, j: nat) {
    j < |ms| && ms[j].tag == id && forall i | j < i < |ms| :: ms[i].tag != id
  }

  predicate Missing(ms: seq<Member>, id: nat) {
    forall i | 0 <= i < |ms| :: ms[i].tag != id
  }

  /** A single field has the value of the last member with its number, or its default if there is none;
      if it is optional and neither a string nor a message, its flag says which. */
  ghost predicate SingleIs(schema: Schema, f: Field, ms: seq<Member>, s: Slot)
    requires WellFormed(schema) && GoodMembers(ms) && s.Single?
  {
    && (forall j: nat | IsLast(ms, f.id, j) :: IsValue(schema, f, ms[j], s.value))
    && (Missing(ms, f.id) ==>
         match f.kind
         case String => s.value == Text(if f.default.DefaultText? then Default else Null)
         case Binary => s.value == Data(if f.default.DefaultData? then f.default.data else [])
         case Nested => s.value == NoMessage
         case _ => s.value == Num(if f.default.DefaultWord? then f.default.word else 0))
    && s.has ==
         match f.kind
         case Int32 | Sint32 | Sfixed32 | Int64 | Sint64 | Sfixed64 | Uint32 | Fixed32 | Uint64 | Fixed64
            | Float | Double | Bool | Enum | Binary => f.rule == Optional && !Missing(ms, f.id)
         case String | Nested => false
  }

  ghost predicate FieldIs(schema: Schema, f: Field, ms: seq<Member>, s: Slot)
    requires WellFormed(schema) && GoodMembers(ms)
  {
    if f.rule == Repeated then s.Many? && ArrayIs(schema, f, ms, s.values)
    else s.Single? && SingleIs(schema, f, ms, s)
  }

  /** The members whose numbers no field has, in their order. */
  function UnclaimedIn(fields: seq<Field>, ms: seq<Member>): seq<Unknown> {
    if |ms| == 0 then []
    else
      var m := ms[|ms| - 1];
      UnclaimedIn(fields, ms[..|ms| - 1])
      + if exists k | 0 <= k < |fields| :: fields[k].id == m.tag then [] else [Unknown(m.tag, m.wire, m.body)]
  }

  /** The field with the number of a member, if there is one, can take it. */
  ghost predicate Acceptable(schema: Schema, fields: seq<Field>, m: Member)
    requires WellFormed(schema) && GoodMember(m)
  {
    forall k | 0 <= k < |fields| && fields[k].id == m.tag ::
      if fields[k].rule == Repeated then exists vs :: Gives(schema, fields[k], m, vs)
      else exists v :: IsValue(schema, fields[k], m, v)
  }

  /** A message is what bytes unpack to: they are members, no more than fit into 55 slabs; every required
      field without a default is among them; every member is acceptable; and every field is what the
      members with its number say. */
  ghost predicate IsUnpacked(schema: Schema, d: nat, data: seq<byte>, r: Message)
    requires WellFormed(schema) && d < |schema|
  {
    var fields := schema[d].fields;
    && ScanAll(data).Found?
    && var ms := ScanAll(data).members;
    && |ms| <= 0x7F_FFFF_FFFF_FFFF0
    && (forall k | 0 <= k < |fields| && fields[k].rule == Required && fields[k].default == NoDefault ::
          !Missing(ms, fields[k].id))
    && (forall j | 0 <= j < |ms| :: Acceptable(schema, fields, ms[j]))
    && r.desc == d && |r.slots| == |fields|
    && (forall k | 0 <= k < |fields| :: FieldIs(schema, fields[k], ms, r.slots[k]))
    && r.unknown == UnclaimedIn(fields, ms)
  }

  // ---------------------------------------------------------------------------
  // Taking the members in turn comes to that
  // ---------------------------------------------------------------------------

  lemma {:induction false} ValueIfAny(schema: Schema, f: Field, m: Member, n: nat)
    requires WellFormed(schema) && WellFormedField(schema, f) && GoodMember(m) && |m.body| < n
    ensures ParseValue(schema, f, m, n).Parsed? <==> exists v :: IsValue(schema, f, m, v)
  {
    if ParseValue(schema, f, m, n).Parsed? {
      ParsedExactly(schema, f, m, n, ParseValue(schema, f, m, n).value);
    }
    forall v | IsValue(schema, f, m, v) ensures ParseValue(schema, f, m, n) == Parsed(v) {
      ParsedExactly(schema, f, m, n, v);
    }
  }

  lemma {:induction false} GivesIfAny(schema: Schema, f: Field, m: Member, n: nat)
    requires WellFormed(schema) && WellFormedField(schema, f) && GoodMember(m) && |m.body| < n && f.rule == Repeated
    ensures (exists vs :: Gives(schema, f, m, vs)) <==>
      if IsPacked(f, m) then ParsePacked(f.kind, Inside(m)).ParsedAll? else ParseValue(schema, f, m, n).Parsed?
  {
    if IsPacked(f, m) {
      if ParsePacked(f.kind, Inside(m)).ParsedAll? {
        PackedExactly(f.kind, Inside(m), ParsePacked(f.kind, Inside(m)).values);
        assert Gives(schema, f, m, ParsePacked(f.kind, Inside(m)).values);
      }
      forall vs | Gives(schema, f, m, vs) ensures ParsePacked(f.kind, Inside(m)) == ParsedAll(vs) {
        PackedExactly(f.kind, Inside(m), vs);
      }
    } else {
      ValueIfAny(schema, f, m, n);
      if ParseValue(schema, f, m, n).Parsed? {
        ParsedExactly(schema, f, m, n, ParseValue(schema, f, m, n).value);
        assert Gives(schema, f, m, [ParseValue(schema, f, m, n).value]);
      }
    }
  }

  /** A member is taken exactly when it is acceptable, whatever the message is so far. */
  lemma {:induction false} TakenIfAcceptable(schema: Schema, at: Message, m: Member, n: nat)
    requires WellFormed(schema) && Fits(schema, at) && GoodMember(m) && |m.body| < n
    ensures Apply(schema, at, m, n).Unpacked? <==> Acceptable(schema, schema[at.desc].fields, m)
  {
    var fields := schema[at.desc].fields;
    forall k | 0 <= k < |fields| && fields[k].id == m.tag
      ensures FieldIndex(fields, m.tag) == k
      ensures (exists v :: IsValue(schema, fields[k], m, v)) <==> ParseValue(schema, fields[k], m, n).Parsed?
      ensures fields[k].rule == Repeated ==> ((exists vs :: Gives(schema, fields[k], m, vs)) <==>
        if IsPacked(fields[k], m) then ParsePacked(fields[k].kind, Inside(m)).ParsedAll?
        else ParseValue(schema, fields[k], m, n).Parsed?)
    {
      FieldIndexIs(schema, schema[at.desc], k);
      ValueIfAny(schema, fields[k], m, n);
      if fields[k].rule == Repeated {
        GivesIfAny(schema, fields[k], m, n);
      }
    }
  }

  lemma {:induction false} AllTaken(schema: Schema, at: Message, ms: seq<Member>, n: nat)
    requires WellFormed(schema) && Fits(schema, at) && Below(ms, n)
    ensures ApplyAll(schema, at, ms, n).Unpacked? <==>
      forall j | 0 <= j < |ms| :: Acceptable(schema, schema[at.desc].fields, ms[j])
    decreases |ms|
  {
    if |ms| > 0 {
      TakenIfAcceptable(schema, at, ms[0], n);
      if Apply(schema, at, ms[0], n).Unpacked? {
        AllTaken(schema, Apply(schema, at, ms[0], n).message, ms[1..], n);
        assert forall j | 0 < j < |ms| :: ms[j] == ms[1..][j - 1];
      }
    }
  }
  /** The members before the last one, and the last one. */
  lemma {:induction false} LastOneMore(front: seq<Member>, m: Member, id: nat)
    ensures Missing(front + [m], id) <==> Missing(front, id) && m.tag != id
    ensures forall j: nat :: IsLast(front + [m], id, j) <==>
      if m.tag == id then j == |front| else IsLast(front, id, j)
  {
    var all := front + [m];
    assert all[|front|] == m && forall i | 0 <= i < |front| :: all[i] == front[i];
    if Missing(all, id) {
      assert forall i | 0 <= i < |front| :: front[i].tag == all[i].tag;
    }
    forall j: nat | IsLast(front, id, j) && m.tag != id ensures IsLast(all, id, j) {
      assert all[j] == front[j];
    }
    forall j: nat | IsLast(all, id, j) && m.tag != id ensures IsLast(front, id, j) {
      assert forall i | j < i < |front| :: front[i].tag == all[i].tag;
    }
  }

  lemma {:induction false} ArrayOneMore(schema: Schema, f: Field, front: seq<Member>, m: Member,
      vs: seq<Value>, more: seq<Value>)
    requires WellFormed(schema) && GoodMembers(front) && GoodMember(m) && ArrayIs(schema, f, front, vs)
    requires if m.tag == f.id then Gives(schema, f, m, more) else more == []
    ensures GoodMembers(front + [m]) && ArrayIs(schema, f, front + [m], vs + more)
  {
    var all := front + [m];
    assert all[..|all| - 1] == front && all[|all| - 1] == m;
    assert (vs + more)[..|vs|] == vs && (vs + more)[|vs|..] == more;
    if m.tag != f.id {
      assert vs + more == vs;
    }
  }

  lemma {:induction false} SingleKeeps(schema: Schema, f: Field, front: seq<Member>, m: Member, s: Slot)
    requires WellFormed(schema) && GoodMembers(front) && GoodMember(m) && s.Single? && SingleIs(schema, f, front, s)
    requires m.tag != f.id
    ensures GoodMembers(front + [m]) && SingleIs(schema, f, front + [m], s)
  {
    LastOneMore(front, m, f.id);
    assert forall j | 0 <= j < |front| :: (front + [m])[j] == front[j];
  }

  lemma {:induction false} SingleTakes(schema: Schema, f: Field, front: seq<Member>, m: Member, s: Slot, t: Slot)
    requires WellFormed(schema) && GoodMembers(front) && GoodMember(m) && s.Single? && SingleIs(schema, f, front, s)
    requires m.tag == f.id && t.Single? && IsValue(schema, f, m, t.value)
    requires t.has == (s.has || (f.rule == Optional && HasFlag(f.kind)))
    ensures GoodMembers(front + [m]) && SingleIs(schema, f, front + [m], t)
  {
    LastOneMore(front, m, f.id);
    assert (front + [m])[|front|] == m;
  }

  /** Every field stays what the members say when one more is taken. */
  lemma {:induction false} FieldOneMore(schema: Schema, at: Message, front: seq<Member>, m: Member, n: nat, k: nat)
    requires WellFormed(schema) && Fits(schema, at) && GoodMembers(front) && GoodMember(m) && |m.body| < n
    requires k < |at.slots| && FieldIs(schema, schema[at.desc].fields[k], front, at.slots[k])
    requires Apply(schema, at, m, n).Unpacked?
    ensures GoodMembers(front + [m])
    ensures FieldIs(schema, schema[at.desc].fields[k], front + [m], Apply(schema, at, m, n).message.slots[k])
  {
    var f, next := schema[at.desc].fields[k], Apply(schema, at, m, n).message;
    FieldIndexIs(schema, schema[at.desc], k);
    assert WellFormedField(schema, f);
    if m.tag != f.id {
      assert next.slots[k] == at.slots[k];
      if f.rule == Repeated {
        ArrayOneMore(schema, f, front, m, at.slots[k].values, []);
        assert at.slots[k].values + [] == at.slots[k].values;
      } else {
        SingleKeeps(schema, f, front, m, at.slots[k]);
      }
    } else if f.rule == Repeated {
      ArrayTakes(schema, at, front, m, n, k);
    } else {
      var v := ParseValue(schema, f, m, n).value;
      ParsedExactly(schema, f, m, n, v);
      SingleTakes(schema, f, front, m, at.slots[k], next.slots[k]);
    }
  }

  lemma {:induction false} ArrayTakes(schema: Schema, at: Message, front: seq<Member>, m: Member, n: nat, k: nat)
    requires WellFormed(schema) && Fits(schema, at) && GoodMembers(front) && GoodMember(m) && |m.body| < n
    requires k < |at.slots| && schema[at.desc].fields[k].rule == Repeated && schema[at.desc].fields[k].id == m.tag
    requires ArrayIs(schema, schema[at.desc].fields[k], front, at.slots[k].values)
    requires Apply(schema, at, m, n).Unpacked?
    ensures GoodMembers(front + [m]) && Apply(schema, at, m, n).message.slots[k].Many?
    ensures ArrayIs(schema, schema[at.desc].fields[k], front + [m], Apply(schema, at, m, n).message.slots[k].values)
  {
    var f := schema[at.desc].fields[k];
    FieldIndexIs(schema, schema[at.desc], k);
    assert WellFormedField(schema, f);
    if IsPacked(f, m) {
      var vs := ParsePacked(f.kind, Inside(m)).values;
      PackedExactly(f.kind, Inside(m), vs);
      ArrayOneMore(schema, f, front, m, at.slots[k].values, vs);
    } else {
      var v := ParseValue(schema, f, m, n).value;
      ParsedExactly(schema, f, m, n, v);
      ArrayOneMore(schema, f, front, m, at.slots[k].values, [v]);
    }
  }

  lemma {:induction false} UnclaimedMore(fields: seq<Field>, front: seq<Member>, m: Member)
    ensures UnclaimedIn(fields, front + [m]) ==
      UnclaimedIn(fields, front) + if FieldIndex(fields, m.tag) < 0 then [Unknown(m.tag, m.wire, m.body)] else []
  {
    var all := front + [m];
    assert all[..|all| - 1] == front && all[|all| - 1] == m;
    var k := FieldIndex(fields, m.tag);
    assert k >= 0 ==> fields[k].id == m.tag;
  }

  lemma {:induction false} UnclaimedOneMore(schema: Schema, at: Message, front: seq<Member>, m: Member, n: nat)
    requires WellFormed(schema) && Fits(schema, at) && GoodMember(m) && |m.body| < n
    requires at.unknown == UnclaimedIn(schema[at.desc].fields, front) && Apply(schema, at, m, n).Unpacked?
    ensures Apply(schema, at, m, n).message.unknown == UnclaimedIn(schema[at.desc].fields, front + [m])
  {
    UnclaimedMore(schema[at.desc].fields, front, m);
    assert at.unknown + [] == at.unknown;
  }

  lemma {:induction false} FieldsOneMore(schema: Schema, at: Message, front: seq<Member>, m: Member, n: nat)
    requires WellFormed(schema) && Fits(schema, at) && GoodMembers(front) && GoodMember(m) && |m.body| < n
    requires forall k | 0 <= k < |at.slots| :: FieldIs(schema, schema[at.desc].fields[k], front, at.slots[k])
    requires Apply(schema, at, m, n).Unpacked?
    ensures GoodMembers(front + [m])
    ensures forall k | 0 <= k < |at.slots| ::
      FieldIs(schema, schema[at.desc].fields[k], front + [m], Apply(schema, at, m, n).message.slots[k])
  {
    assert GoodMembers(front + [m]);
    forall k | 0 <= k < |at.slots|
      ensures FieldIs(schema, schema[at.desc].fields[k], front + [m], Apply(schema, at, m, n).message.slots[k])
    {
      FieldOneMore(schema, at, front, m, n, k);
    }
  }

  lemma {:induction false} LastTaken(schema: Schema, d: nat, front: seq<Member>, m: Member, n: nat)
    requires WellFormed(schema) && d < |schema| && Below(front, n) && GoodMember(m) && |m.body| < n
    ensures Below(front + [m], n)
    ensures ApplyAll(schema, Init(schema, d), front + [m], n) ==
      match ApplyAll(schema, Init(schema, d), front, n)
      case Failed => Failed
      case Unpacked(at) => Apply(schema, at, m, n)
  {
    assert Below([m], n);
    ApplyJoin(schema, Init(schema, d), front, [m], n);
    var r := ApplyAll(schema, Init(schema, d), front, n);
    if r.Unpacked? {
      ApplyOne(schema, r.message, m, n);
    }
  }

  /** After all members every field is what they say. */
  lemma {:induction false} FieldsAre(schema: Schema, d: nat, ms: seq<Member>, n: nat)
    requires WellFormed(schema) && d < |schema| && Below(ms, n) && ApplyAll(schema, Init(schema, d), ms, n).Unpacked?
    ensures var r := ApplyAll(schema, Init(schema, d), ms, n).message;
      && (forall k | 0 <= k < |r.slots| :: FieldIs(schema, schema[d].fields[k], ms, r.slots[k]))
      && r.unknown == UnclaimedIn(schema[d].fields, ms)
    decreases |ms|
  {
    var fields := schema[d].fields;
    if |ms| == 0 {
      forall k | 0 <= k < |fields| ensures FieldIs(schema, fields[k], ms, Init(schema, d).slots[k]) {
        assert WellFormedField(schema, fields[k]);
      }
    } else {
      var front, m := ms[..|ms| - 1], ms[|ms| - 1];
      assert ms == front + [m];
      LastTaken(schema, d, front, m, n);
      var at := ApplyAll(schema, Init(schema, d), front, n).message;
      FieldsAre(schema, d, front, n);
      UnclaimedOneMore(schema, at, front, m, n);
      FieldsOneMore(schema, at, front, m, n);
    }
  }
  // ---------------------------------------------------------------------------
  // And nothing else does
  // ---------------------------------------------------------------------------

  lemma {:induction false} GivesOnce(schema: Schema, f: Field, m: Member, n: nat, vs: seq<Value>, ws: seq<Value>)
    requires WellFormed(schema) && WellFormedField(schema, f) && GoodMember(m) && |m.body| < n
    requires Gives(schema, f, m, vs) && Gives(schema, f, m, ws)
    ensures vs == ws
  {
    if f.packed && m.wire == 2 {
      PackedExactly(f.kind, Inside(m), vs);
      PackedExactly(f.kind, Inside(m), ws);
    } else {
      ParsedExactly(schema, f, m, n, vs[0]);
      ParsedExactly(schema, f, m, n, ws[0]);
      assert vs == [vs[0]] && ws == [ws[0]];
    }
  }

  lemma SameParts(vs: seq<Value>, i: nat, ws: seq<Value>, j: nat)
    requires i <= |vs| && j <= |ws| && vs[..i] == ws[..j] && vs[i..] == ws[j..]
    ensures vs == ws
  {
    assert vs == vs[..i] + vs[i..] && ws == ws[..j] + ws[j..];
  }

  lemma {:induction false} ArrayOnce(schema: Schema, f: Field, ms: seq<Member>, n: nat, vs: seq<Value>, ws: seq<Value>)
    requires WellFormed(schema) && WellFormedField(schema, f) && Below(ms, n)
    requires ArrayIs(schema, f, ms, vs) && ArrayIs(schema, f, ms, ws)
    ensures vs == ws
    decreases |ms|
  {
    if |ms| > 0 {
      var front, m := ms[..|ms| - 1], ms[|ms| - 1];
      if m.tag != f.id {
        ArrayOnce(schema, f, front, n, vs, ws);
      } else {
        var i :| 0 <= i <= |vs| && ArrayIs(schema, f, front, vs[..i]) && Gives(schema, f, m, vs[i..]);
        var j :| 0 <= j <= |ws| && ArrayIs(schema, f, front, ws[..j]) && Gives(schema, f, m, ws[j..]);
        assert vs[..i] == ws[..j] by {
          ArrayOnce(schema, f, front, n, vs[..i], ws[..j]);
        }
        assert vs[i..] == ws[j..] by {
          GivesOnce(schema, f, m, n, vs[i..], ws[j..]);
        }
        SameParts(vs, i, ws, j);
      }
    }
  }

  lemma {:induction false} LastOfSome(ms: seq<Member>, id: nat) returns (j: nat)
    requires !Missing(ms, id)
    ensures IsLast(ms, id, j)
  {
    var front, m := ms[..|ms| - 1], ms[|ms| - 1];
    assert ms == front + [m];
    LastOneMore(front, m, id);
    if m.tag == id {
      j := |front|;
    } else {
      j := LastOfSome(front, id);
    }
  }

  lemma {:induction false} FieldOnce(schema: Schema, f: Field, ms: seq<Member>, n: nat, s: Slot, t: Slot)
    requires WellFormed(schema) && WellFormedField(schema, f) && Below(ms, n)
    requires FieldIs(schema, f, ms, s) && FieldIs(schema, f, ms, t)
    ensures s == t
  {
    if f.rule == Repeated {
      ArrayOnce(schema, f, ms, n, s.values, t.values);
    } else if !Missing(ms, f.id) {
      var j := LastOfSome(ms, f.id);
      ParsedExactly(schema, f, ms[j], n, s.value);
      ParsedExactly(schema, f, ms[j], n, t.value);
    }
  }

  /** What parses can be counted. */
  lemma {:induction false} ParsedIsCountable(kind: FieldType, s: seq<byte>)
    requires IsScalar(kind) && ParsePacked(kind, s).ParsedAll?
    ensures Countable(kind, s)
    decreases |s|
  {
    if |s| > 0 {
      var rest := s[NextWord(kind, s)..];
      assert Countable(kind, rest) by {
        ParsedIsCountable(kind, rest);
      }
      CountableMore(kind, s);
    }
  }

  lemma CountableMore(kind: FieldType, s: seq<byte>)
    requires IsScalar(kind) && |s| > 0 && NextWord(kind, s) > 0 && Countable(kind, s[NextWord(kind, s)..])
    ensures Countable(kind, s)
  {}

  lemma {:induction false} AcceptableIsCountable(schema: Schema, d: nat, m: Member, n: nat)
    requires WellFormed(schema) && d < |schema| && GoodMember(m) && |m.body| < n
    requires Acceptable(schema, schema[d].fields, m)
    ensures CountableMember(schema[d].fields, m)
  {
    var k := FieldIndex(schema[d].fields, m.tag);
    if k >= 0 && IsPacked(schema[d].fields[k], m) {
      var f := schema[d].fields[k];
      assert WellFormedField(schema, f);
      GivesIfAny(schema, f, m, n);
      ParsedIsCountable(f.kind, Inside(m));
    }
  }

  lemma NoneMissing(fields: seq<Field>, ms: seq<Member>)
    ensures AllPresent(fields, ms) <==>
      forall k | 0 <= k < |fields| && fields[k].rule == Required && fields[k].default == NoDefault ::
        !Missing(ms, fields[k].id)
  {
    forall k | 0 <= k < |fields| ensures Present(ms, fields[k].id) <==> !Missing(ms, fields[k].id) {}
  }

  /** Bytes are accepted if and only if they are members, not too many, with every mandatory field among
      them, and all acceptable. */
  lemma {:induction false} AcceptedExactly(schema: Schema, d: nat, data: seq<byte>)
    requires WellFormed(schema) && d < |schema|
    ensures Unpack(schema, d, data).Unpacked? <==>
      && ScanAll(data).Found?
      && var fields, ms := schema[d].fields, ScanAll(data).members;
      && |ms| <= 0x7F_FFFF_FFFF_FFFF0
      && (forall k | 0 <= k < |fields| && fields[k].rule == Required && fields[k].default == NoDefault ::
            !Missing(ms, fields[k].id))
      && forall j | 0 <= j < |ms| :: Acceptable(schema, fields, ms[j])
  {
    if ScanAll(data).Found? {
      var fields, ms := schema[d].fields, ScanAll(data).members;
      NoneMissing(fields, ms);
      AllTaken(schema, Init(schema, d), ms, |data|);
      forall j | 0 <= j < |ms| && Acceptable(schema, fields, ms[j]) ensures CountableMember(fields, ms[j]) {
        AcceptableIsCountable(schema, d, ms[j], |data|);
      }
    }
  }

  /** Unpacking gives a message if and only if it is, field by field, what the bytes say. */
  lemma {:induction false} UnpackedExactly(schema: Schema, d: nat, data: seq<byte>, r: Message)
    requires WellFormed(schema) && d < |schema|
    ensures Unpack(schema, d, data) == Unpacked(r) <==> IsUnpacked(schema, d, data, r)
  {
    AcceptedExactly(schema, d, data);
    if Unpack(schema, d, data).Unpacked? {
      var fields, ms, q := schema[d].fields, ScanAll(data).members, Unpack(schema, d, data).message;
      FieldsAre(schema, d, ms, |data|);
      if IsUnpacked(schema, d, data, r) {
        forall k | 0 <= k < |fields| ensures r.slots[k] == q.slots[k] {
          assert WellFormedField(schema, fields[k]);
          FieldOnce(schema, fields[k], ms, |data|, r.slots[k], q.slots[k]);
        }
        assert r.slots == q.slots;
      }
    }
  }
  lemma {:induction false} AlwaysUnpacked(schema: Schema, d: nat, data: seq<byte>)
    requires WellFormed(schema) && d < |schema|
    ensures forall r :: Unpack(schema, d, data) == Unpacked(r) <==> IsUnpacked(schema, d, data, r)
  {
    forall r ensures Unpack(schema, d, data) == Unpacked(r) <==> IsUnpacked(schema, d, data, r) {
      UnpackedExactly(schema, d, data, r);
    }
  }
}
