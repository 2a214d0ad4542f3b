/** What unpacking makes of bytes: the scan, the checks on its members, and the members taken in turn. */
module Decoding {
  import opened Bytes
  import opened Wire
  import opened Members
  import opened Schema

  /** The scan keeps its members in 55 slabs of 16, 32, 64, ... places. */
  const MAX_MEMBERS: nat := 16 * 0x7F_FFFF_FFFF_FFFF

  datatype Parsed = Parsed(value: Value) | Refused

  datatype ParsedAll = ParsedAll(values: seq<Value>) | RefusedAll

  datatype Unpacked = Unpacked(message: Message) | Failed

  // ---------------------------------------------------------------------------
  // Packed arrays
  // ---------------------------------------------------------------------------

  /** How many bytes the next element takes, or 0 if there is none that is sound. */
  function NextWord(kind: FieldType, s: seq<byte>): (n: nat)
    requires IsScalar(kind) && |s| > 0
    ensures n <= |s| && (n > 0 ==> LongEnough(kind, s[..n]))
  {
    if WireOf(kind) == THIRTYTWO then if |s| < 4 then 0 else 4
    else if WireOf(kind) == SIXTYFOUR then if |s| < 8 then 0 else 8
    else if kind == Bool then if s[0] <= 1 then 1 else 0
    else VarintEnd(s, 10)
  }

  function ParsePacked(kind: FieldType, s: seq<byte>): ParsedAll
    requires IsScalar(kind)
    decreases |s|
  {
    if |s| == 0 then ParsedAll([])
    else
      var n := NextWord(kind, s);
      if n == 0 then RefusedAll
      else match ParsePacked(kind, s[n..])
        case RefusedAll => RefusedAll
        case ParsedAll(values) => ParsedAll([Num(DecodeWord(kind, s[..n]))] + values)
  }

  /** The bytes that end a varint. */
  function Ends(s: seq<byte>): (n: nat)
    ensures n <= |s|
  {
    if |s| == 0 then 0 else (if s[0] < 128 then 1 else 0) + Ends(s[1..])
  }

  /** Only whole words can be counted. */
  predicate Countable(kind: FieldType, s: seq<byte>) {
    && IsScalar(kind)
    && (WireOf(kind) == THIRTYTWO ==> |s| % 4 == 0)
    && (WireOf(kind) == SIXTYFOUR ==> |s| % 8 == 0)
  }

  /** The number of elements found without parsing them. */
  function PackedCount(kind: FieldType, s: seq<byte>): nat {
    if WireOf(kind) == THIRTYTWO then |s| / 4
    else if WireOf(kind) == SIXTYFOUR then |s| / 8
    else if kind == Bool then |s|
    else Ends(s)
  }

  lemma {:induction false} EndsOfFront(s: seq<byte>, n: nat)
    requires n <= |s|
    ensures Ends(s) == Ends(s[..n]) + Ends(s[n..])
  {
    if n == 0 {
      assert s[..0] == [] && s[0..] == s;
    } else {
      EndsOfFront(s[1..], n - 1);
      assert s[..n][1..] == s[1..][..n - 1] && s[n..] == s[1..][n - 1..];
    }
  }

  lemma {:induction false} OneEnd(s: seq<byte>)
    requires IsVarint(s)
    ensures Ends(s) == 1
  {
    if |s| == 1 {
      assert s[1..] == [];
    } else {
      assert IsVarint(s[1..]);
      OneEnd(s[1..]);
    }
  }

  /** Each element parsed takes one off the count. */
  lemma CountOfNext(kind: FieldType, s: seq<byte>)
    requires Countable(kind, s) && |s| > 0 && NextWord(kind, s) > 0
    ensures var n := NextWord(kind, s);
      Countable(kind, s[n..]) && PackedCount(kind, s) == 1 + PackedCount(kind, s[n..])
  {
    var n := NextWord(kind, s);
    if WireOf(kind) == VARINT && kind != Bool {
      var front := s[..n];
      assert forall i | 0 <= i < n :: front[i] == s[i];
      LeadingIs(front, n - 1);
      OneEnd(front);
      EndsOfFront(s, n);
    }
  }

  /** Parsing gives as many elements as the count said. */
  lemma {:induction false} ParsedAsCounted(kind: FieldType, s: seq<byte>)
    requires Countable(kind, s) && ParsePacked(kind, s).ParsedAll?
    ensures |ParsePacked(kind, s).values| == PackedCount(kind, s)
    decreases |s|
  {
    if |s| > 0 {
      CountOfNext(kind, s);
      ParsedAsCounted(kind, s[NextWord(kind, s)..]);
    }
  }

  // ---------------------------------------------------------------------------
  // Members
  // ---------------------------------------------------------------------------

  predicate Mandatory(f: Field) {
    f.rule == Required && f.default.NoDefault?
  }

  predicate IsPacked(f: Field, m: Member) {
    f.rule == Repeated && f.packed && m.wire == PREFIXED
  }

  /** What follows the length in the body of a member. */
  function Inside(m: Member): seq<byte>
    requires GoodMember(m)
  {
    m.body[m.prefix..]
  }

  /** The arrays whose elements the scan cannot count. */
  predicate AllCountable(fields: seq<Field>, ms: seq<Member>)
    requires GoodMembers(ms)
  {
    forall i | 0 <= i < |ms| :: CountableMember(fields, ms[i])
  }

  predicate CountableMember(fields: seq<Field>, m: Member)
    requires GoodMember(m)
  {
    var k := FieldIndex(fields, m.tag);
    k >= 0 && IsPacked(fields[k], m) ==> Countable(fields[k].kind, Inside(m))
  }

  predicate Present(ms: seq<Member>, id: nat) {
    exists i :: 0 <= i < |ms| && ms[i].tag == id
  }

  predicate AllPresent(fields: seq<Field>, ms: seq<Member>) {
    forall i | 0 <= i < |fields| :: Mandatory(fields[i]) ==> Present(ms, fields[i].id)
  }

  /** A message of a descriptor, as far as the kinds of its slots go. */
  predicate Fits(schema: Schema, m: Message) {
    && m.desc < |schema|
    && |m.slots| == |schema[m.desc].fields|
    && forall i | 0 <= i < |m.slots| :: m.slots[i].Many? <==> schema[m.desc].fields[i].rule == Repeated
  }

  predicate Below(ms: seq<Member>, n: nat) {
    GoodMembers(ms) && forall i | 0 <= i < |ms| :: |ms[i].body| < n
  }

  /** One value from a member. Only a boolean is taken from a body of any wire type. */
  function ParseValue(schema: Schema, f: Field, m: Member, n: nat): Parsed
    requires WellFormed(schema) && WellFormedField(schema, f) && GoodMember(m) && |m.body| < n
    decreases n, 0, 0
  {
    if f.kind != Bool && m.wire != WireOf(f.kind) then Refused
    else if IsScalar(f.kind) then Parsed(Num(DecodeWord(f.kind, m.body)))
    else if f.kind == String then Parsed(Text(Own(Inside(m))))
    else if f.kind == Binary then Parsed(Data(Inside(m)))
    else match Unpack(schema, f.sub, Inside(m))
      case Failed => Refused
      case Unpacked(sub) => Parsed(Sub(sub))
  }

  /** The message with one member more. A single value given again replaces the one before. */
  function Apply(schema: Schema, msg: Message, m: Member, n: nat): (r: Unpacked)
    requires WellFormed(schema) && Fits(schema, msg) && GoodMember(m) && |m.body| < n
    ensures r.Unpacked? ==> Fits(schema, r.message) && r.message.desc == msg.desc
    decreases n, 1, 0
  {
    var fields := schema[msg.desc].fields;
    var k := FieldIndex(fields, m.tag);
    if k < 0 then Unpacked(msg.(unknown := msg.unknown + [Unknown(m.tag, m.wire, m.body)]))
    else if IsPacked(fields[k], m) then
      match ParsePacked(fields[k].kind, Inside(m))
      case RefusedAll => Failed
      case ParsedAll(values) => Unpacked(msg.(slots := msg.slots[k := Many(msg.slots[k].values + values)]))
    else
      match ParseValue(schema, fields[k], m, n)
      case Refused => Failed
      case Parsed(v) =>
        var slot := if fields[k].rule == Repeated then Many(msg.slots[k].values + [v])
          else Single(msg.slots[k].has || (fields[k].rule == Optional && HasFlag(fields[k].kind)), v);
        Unpacked(msg.(slots := msg.slots[k := slot]))
  }

  function ApplyAll(schema: Schema, msg: Message, ms: seq<Member>, n: nat): (r: Unpacked)
    requires WellFormed(schema) && Fits(schema, msg) && Below(ms, n)
    ensures r.Unpacked? ==> Fits(schema, r.message) && r.message.desc == msg.desc
    decreases n, 2, |ms|
  {
    if |ms| == 0 then Unpacked(msg)
    else match Apply(schema, msg, ms[0], n)
      case Failed => Failed
      case Unpacked(next) => ApplyAll(schema, next, ms[1..], n)
  }

  /** protobuf_c_message_unpack. */
  function Unpack(schema: Schema, d: nat, data: seq<byte>): (r: Unpacked)
    requires WellFormed(schema) && d < |schema|
    ensures r.Unpacked? ==> Fits(schema, r.message) && r.message.desc == d
    decreases |data|, 3, 0
  {
    match ScanAll(data)
    case Bad => Failed
    case Found(ms) =>
      if |ms| > MAX_MEMBERS || !AllCountable(schema[d].fields, ms) || !AllPresent(schema[d].fields, ms) then Failed
      else ApplyAll(schema, Init(schema, d), ms, |data|)
  }

  lemma {:induction false} ApplyJoin(schema: Schema, msg: Message, ms: seq<Member>, ns: seq<Member>, n: nat)
    requires WellFormed(schema) && Fits(schema, msg) && Below(ms, n) && Below(ns, n)
    ensures Below(ms + ns, n)
    ensures ApplyAll(schema, msg, ms + ns, n) ==
      match ApplyAll(schema, msg, ms, n)
      case Failed => Failed
      case Unpacked(next) => ApplyAll(schema, next, ns, n)
    decreases |ms|
  {
    var all := ms + ns;
    assert Below(all, n);
    if |ms| == 0 {
      assert all == ns;
    } else {
      assert all[1..] == ms[1..] + ns;
      var step := Apply(schema, msg, ms[0], n);
      if step.Unpacked? {
        assert Below(ms[1..], n);
        ApplyJoin(schema, step.message, ms[1..], ns, n);
      }
    }
  }
}
