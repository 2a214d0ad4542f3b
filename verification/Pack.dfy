/** The serializer into an array: members are written one after the other, and a length that turned
    out longer than the room left for it has its payload moved. */
module Pack {
  import opened Bytes
  import opened Wire
  import opened Members
  import opened Schema
  import opened Encoding
  import opened PackWords
  import opened Sizes

  /** The first `n` bytes of `all` have been written, and `rest` is left. */
  ghost predicate Placed(out: array<byte>, at: nat, all: seq<byte>, n: nat, rest: seq<byte>)
    reads out
  {
    n <= |all| && Holds(out, at, all[..n]) && all[n..] == rest
  }

  lemma NonePlaced(out: array<byte>, at: nat, all: seq<byte>)
    requires at <= out.Length
    ensures Placed(out, at, all, 0, all)
  {
    assert all[..0] == [] && all[0..] == all;
  }

  /** One more piece has been written. */
  lemma MorePlaced(out: array<byte>, at: nat, all: seq<byte>, n: nat, s: seq<byte>, rest: seq<byte>)
    requires Placed(out, at, all, n, s + rest) && Holds(out, at + n, s)
    ensures Placed(out, at, all, n + |s|, rest)
  {
    HoldsJoin(out, at, at + n, all[..n], s);
    assert all[n..][..|s|] == s && all[n..][|s|..] == rest;
    assert all[..n + |s|] == all[..n] + s;
  }

  lemma AllPlaced(out: array<byte>, at: nat, all: seq<byte>, n: nat)
    requires Placed(out, at, all, n, [])
    ensures Holds(out, at, all) && n == |all|
  {
    assert all[..n] == all;
  }

  /** A length and the bytes: string_pack and binary_data_pack. */
  method PrefixedPack(s: seq<byte>, out: array<byte>, at: nat) returns (rv: nat)
    requires |s| < UINT32 && at + |Prefixed(s)| <= out.Length
    modifies out
    ensures rv == |Prefixed(s)| && Holds(out, at, Prefixed(s)) && OnlyThere(out, at, rv)
  {
    var n := Uint32Pack(|s|, out, at);
    CopyIn(s, out, at + n);
    assert Holds(out, at, Varint(|s|));
    HoldsJoin(out, at, at + n, Varint(|s|), s);
    rv := n + |s|;
  }

  method StringPack(f: Field, c: Chars, out: array<byte>, at: nat) returns (rv: nat)
    requires |CharsOf(f, c)| < UINT32 && at + |Prefixed(CharsOf(f, c))| <= out.Length
    modifies out
    ensures rv == |Prefixed(CharsOf(f, c))| && Holds(out, at, Prefixed(CharsOf(f, c))) && OnlyThere(out, at, rv)
  {
    if c.Null? {
      out[at] := 0;
      rv := 1;
    } else {
      rv := PrefixedPack(CharsOf(f, c), out, at);
    }
  }

  /** prefixed_message_pack: the message behind one byte, moved if its length needs more. */
  method PrefixedMessagePack(schema: Schema, m: Message, out: array<byte>, at: nat) returns (rv: nat)
    requires WellFormed(schema) && Conforms(schema, m) && |Encode(schema, m)| < UINT32
    requires at + |Prefixed(Encode(schema, m))| <= out.Length
    modifies out
    ensures rv == |Prefixed(Encode(schema, m))|
    ensures Holds(out, at, Prefixed(Encode(schema, m))) && OnlyThere(out, at, rv)
    decreases m, 1
  {
    ghost var s := Encode(schema, m);
    var n := MessagePack(schema, m, out, at + 1);
    var size := Uint32Size(n);
    if size != 1 {
      MoveUp(out, at + 1, at + size, n, s);
    }
    var head := Uint32Pack(n, out, at);
    HoldsJoin(out, at, at + size, Varint(n), s);
    rv := head + n;
  }

  method BodyPack(schema: Schema, f: Field, v: Value, out: array<byte>, at: nat) returns (rv: nat)
    requires WellFormed(schema) && ConformsValue(schema, f, v)
    requires at + |ValueMember(schema, f, v).body| <= out.Length
    modifies out
    ensures rv == |ValueMember(schema, f, v).body|
    ensures Holds(out, at, ValueMember(schema, f, v).body) && OnlyThere(out, at, rv)
    decreases v, 0
  {
    match v {
      case Num(word) => rv := WordPack(f.kind, word, out, at);
      case Text(c) => rv := StringPack(f, c, out, at);
      case Data(bytes) => rv := PrefixedPack(bytes, out, at);
      case Sub(m) => rv := PrefixedMessagePack(schema, m, out, at);
      case NoMessage =>
        out[at] := 0;
        rv := 1;
    }
  }

  /** required_field_pack. */
  method RequiredFieldPack(schema: Schema, f: Field, v: Value, out: array<byte>, at: nat) returns (rv: nat)
    requires WellFormed(schema) && ConformsValue(schema, f, v)
    requires at + |MemberBytes(ValueMember(schema, f, v))| <= out.Length
    modifies out
    ensures rv == |MemberBytes(ValueMember(schema, f, v))|
    ensures Holds(out, at, MemberBytes(ValueMember(schema, f, v))) && OnlyThere(out, at, rv)
    decreases v, 1
  {
    ghost var tag, body := Tag(f.id, WireOf(f.kind)), ValueMember(schema, f, v).body;
    rv := TagPack(f.id, WireOf(f.kind), out, at);
    var start := at + rv;
    var n := BodyPack(schema, f, v, out, start);
    assert Holds(out, at, tag);
    HoldsJoin(out, at, start, tag, body);
    rv := rv + n;
  }

  // ---------------------------------------------------------------------------
  // Packed arrays
  // ---------------------------------------------------------------------------

  function MinSize(kind: FieldType): nat {
    if WireOf(kind) == THIRTYTWO then 4 else if WireOf(kind) == SIXTYFOUR then 8 else 1
  }

  /** A payload has between one and ten bytes for each element, or exactly so many. */
  lemma {:induction false} PayloadBounds(kind: FieldType, vs: seq<Value>)
    requires AllWords(kind, vs)
    ensures MinSize(kind) * |vs| <= |Payload(kind, vs)| <= 10 * |vs|
    ensures WireOf(kind) != VARINT ==> |Payload(kind, vs)| == MinSize(kind) * |vs|
    decreases |vs|
  {
    if |vs| > 0 {
      WordStandsAlone(kind, vs[0].word);
      PayloadBounds(kind, vs[1..]);
      var m, n := MinSize(kind), |vs| - 1;
      assert m * |vs| == m * n + m;
    }
  }

  /** So the length of the payload takes as many bytes as first guessed, or one more. */
  lemma {:induction false} GuessIsClose(kind: FieldType, vs: seq<Value>, payload: seq<byte>)
    requires AllWords(kind, vs) && |vs| > 0 && payload == Payload(kind, vs) && |payload| < UINT32
    ensures MinSize(kind) * |vs| < UINT32
    ensures var guess, actual := Uint32Size(MinSize(kind) * |vs|), Uint32Size(|payload|);
      actual == guess || actual == guess + 1
  {
    PayloadBounds(kind, vs);
  }

  /** The loops of repeated_field_pack over the elements. */
  method PayloadPack(kind: FieldType, vs: seq<Value>, out: array<byte>, at: nat, ghost all: seq<byte>) returns (rv: nat)
    requires AllWords(kind, vs) && all == Payload(kind, vs) && at + |all| <= out.Length
    modifies out
    ensures rv == |all| && Holds(out, at, all) && OnlyThere(out, at, rv)
  {
    rv := 0;
    var i := 0;
    ghost var todo := all;
    assert vs[0..] == vs;
    NonePlaced(out, at, all);
    while i < |vs|
      invariant 0 <= i <= |vs| && todo == Payload(kind, vs[i..])
      invariant Placed(out, at, all, rv, todo) && OnlyThere(out, at, rv)
    {
      ghost var s, rest := EncodeWord(kind, vs[i].word), Payload(kind, vs[i + 1..]);
      assert todo == s + rest by {
        assert vs[i..][1..] == vs[i + 1..];
      }
      var n := WordPackMore(kind, vs[i].word, out, at, rv, all, s, rest);
      todo, rv, i := rest, rv + n, i + 1;
    }
    assert todo == [] by {
      assert vs[i..] == [];
    }
    AllPlaced(out, at, all, rv);
  }

  /** One more element of a payload. */
  method WordPackMore(kind: FieldType, u: nat, out: array<byte>, at: nat, done: nat,
      ghost all: seq<byte>, ghost s: seq<byte>, ghost rest: seq<byte>)
    returns (n: nat)
    requires IsScalar(kind) && u < Range(kind) && at + |all| <= out.Length
    requires s == EncodeWord(kind, u) && Placed(out, at, all, done, s + rest)
    modifies out
    ensures Placed(out, at, all, done + n, rest) && OnlyThere(out, at + done, n)
  {
    n := WordPack(kind, u, out, at + done);
    MorePlaced(out, at, all, done, s, rest);
  }

  /** The length goes in front of a payload, which moves if the place left for it is too short. */
  method PutLength(out: array<byte>, at: nat, guess: nat, payloadLen: nat, ghost payload: seq<byte>) returns (rv: nat)
    requires |payload| == payloadLen < UINT32 && at + |Prefixed(payload)| <= out.Length
    requires Uint32Size(payloadLen) == guess || Uint32Size(payloadLen) == guess + 1
    requires Holds(out, at + guess, payload)
    modifies out
    ensures rv == |Prefixed(payload)| && Holds(out, at, Prefixed(payload)) && OnlyThere(out, at, rv)
  {
    var actualLengthSize := Uint32Size(payloadLen);
    if guess != actualLengthSize {
      assert actualLengthSize == guess + 1;
      MoveUp(out, at + guess, at + guess + 1, payloadLen, payload);
    }
    var n := Uint32Pack(payloadLen, out, at);
    HoldsJoin(out, at, at + actualLengthSize, Varint(payloadLen), payload);
    rv := actualLengthSize + payloadLen;
  }

  /** The length and payload of a packed array: the payload goes behind the shortest length there
      could be. */
  method PackedBody(kind: FieldType, vs: seq<Value>, out: array<byte>, at: nat, ghost body: seq<byte>) returns (rv: nat)
    requires AllWords(kind, vs) && |vs| > 0 && |Payload(kind, vs)| < UINT32
    requires body == Prefixed(Payload(kind, vs)) && at + |body| <= out.Length
    modifies out
    ensures rv == |body| && Holds(out, at, body) && OnlyThere(out, at, rv)
  {
    ghost var payload := Payload(kind, vs);
    GuessIsClose(kind, vs, payload);
    var lengthSizeMin := Uint32Size(MinSize(kind) * |vs|);
    var payloadLen := PayloadPack(kind, vs, out, at + lengthSizeMin, payload);
    rv := PutLength(out, at, lengthSizeMin, payloadLen, payload);
  }

  /** repeated_field_pack for a packed array. */
  method PackedPack(f: Field, vs: seq<Value>, out: array<byte>, at: nat, ghost body: seq<byte>) returns (rv: nat)
    requires AllWords(f.kind, vs) && |vs| > 0 && |Payload(f.kind, vs)| < UINT32
    requires body == Prefixed(Payload(f.kind, vs)) && at + |Tag(f.id, PREFIXED) + body| <= out.Length
    modifies out
    ensures rv == |Tag(f.id, PREFIXED) + body|
    ensures Holds(out, at, Tag(f.id, PREFIXED) + body) && OnlyThere(out, at, rv)
  {
    ghost var tag := Tag(f.id, PREFIXED);
    var headerLen := TagPack(f.id, PREFIXED, out, at);
    var start := at + headerLen;
    var n := PackedBody(f.kind, vs, out, start, body);
    assert Holds(out, at, tag);
    assert Holds(out, start, body);
    HoldsJoin(out, at, start, tag, body);
    rv := headerLen + n;
  }

  // ---------------------------------------------------------------------------
  // Whole messages
  // ---------------------------------------------------------------------------

  method ValuesPack(schema: Schema, f: Field, vs: seq<Value>, out: array<byte>, at: nat) returns (rv: nat)
    requires WellFormed(schema) && ConformsValues(schema, f, vs)
    requires at + |Concat(ValueMembers(schema, f, vs))| <= out.Length
    modifies out
    ensures rv == |Concat(ValueMembers(schema, f, vs))|
    ensures Holds(out, at, Concat(ValueMembers(schema, f, vs))) && OnlyThere(out, at, rv)
    decreases vs, 0
  {
    rv := 0;
    var i := 0;
    ghost var all := Concat(ValueMembers(schema, f, vs));
    ghost var todo := all;
    AllValuesLeft(schema, f, vs, all);
    NonePlaced(out, at, all);
    while i < |vs|
      invariant ValuesLeft(schema, f, vs, i, todo)
      invariant Placed(out, at, all, rv, todo) && OnlyThere(out, at, rv)
    {
      ghost var s, rest := NextValue(schema, f, vs, i, todo);
      var n := ValuePackMore(schema, f, vs[i], out, at, rv, all, s, rest);
      todo, rv, i := rest, rv + n, i + 1;
    }
    NoValuesLeft(schema, f, vs, todo);
    AllPlaced(out, at, all, rv);
  }

  /** One more element of an array. */
  method ValuePackMore(schema: Schema, f: Field, v: Value, out: array<byte>, at: nat, done: nat,
      ghost all: seq<byte>, ghost s: seq<byte>, ghost rest: seq<byte>)
    returns (n: nat)
    requires WellFormed(schema) && ConformsValue(schema, f, v) && at + |all| <= out.Length
    requires s == MemberBytes(ValueMember(schema, f, v)) && Placed(out, at, all, done, s + rest)
    modifies out
    ensures Placed(out, at, all, done + n, rest) && OnlyThere(out, at + done, n)
    decreases v, 2
  {
    n := RequiredFieldPack(schema, f, v, out, at + done);
    MorePlaced(out, at, all, done, s, rest);
  }

  /** One field: required_field_pack, optional_field_pack or repeated_field_pack. */
  method SlotPack(schema: Schema, f: Field, s: Slot, out: array<byte>, at: nat) returns (rv: nat)
    requires WellFormed(schema) && ConformsSlot(schema, f, s)
    requires at + |Concat(SlotMembers(schema, f, s))| <= out.Length
    modifies out
    ensures rv == |Concat(SlotMembers(schema, f, s))|
    ensures Holds(out, at, Concat(SlotMembers(schema, f, s))) && OnlyThere(out, at, rv)
    decreases s, 0
  {
    if f.rule == Repeated {
      if !f.packed {
        rv := ValuesPack(schema, f, s.values, out, at);
      } else if |s.values| == 0 {
        rv := 0;
      } else {
        ghost var m := PackedMember(f, Payload(f.kind, s.values));
        ConcatOne(m);
        rv := PackedPack(f, s.values, out, at, m.body);
      }
    } else if f.rule == Optional && Absent(f, s) {
      rv := 0;
    } else {
      ConcatOne(ValueMember(schema, f, s.value));
      rv := RequiredFieldPack(schema, f, s.value, out, at);
    }
  }

  method SlotsPack(schema: Schema, fields: seq<Field>, slots: seq<Slot>, out: array<byte>, at: nat) returns (rv: nat)
    requires WellFormed(schema) && ConformsSlots(schema, fields, slots)
    requires at + |Concat(SlotsMembers(schema, fields, slots))| <= out.Length
    modifies out
    ensures rv == |Concat(SlotsMembers(schema, fields, slots))|
    ensures Holds(out, at, Concat(SlotsMembers(schema, fields, slots))) && OnlyThere(out, at, rv)
    decreases slots, 0
  {
    rv := 0;
    var i := 0;
    ghost var all := Concat(SlotsMembers(schema, fields, slots));
    ghost var todo := all;
    AllSlotsLeft(schema, fields, slots, all);
    NonePlaced(out, at, all);
    while i < |fields|
      invariant SlotsLeft(schema, fields, slots, i, todo)
      invariant Placed(out, at, all, rv, todo) && OnlyThere(out, at, rv)
    {
      ghost var s, rest := NextSlot(schema, fields, slots, i, todo);
      var n := SlotPackMore(schema, fields[i], slots[i], out, at, rv, all, s, rest);
      todo, rv, i := rest, rv + n, i + 1;
    }
    NoSlotsLeft(schema, fields, slots, todo);
    AllPlaced(out, at, all, rv);
  }

  /** One more field of a message. */
  method SlotPackMore(schema: Schema, f: Field, slot: Slot, out: array<byte>, at: nat, done: nat,
      ghost all: seq<byte>, ghost s: seq<byte>, ghost rest: seq<byte>)
    returns (n: nat)
    requires WellFormed(schema) && ConformsSlot(schema, f, slot) && at + |all| <= out.Length
    requires s == Concat(SlotMembers(schema, f, slot)) && Placed(out, at, all, done, s + rest)
    modifies out
    ensures Placed(out, at, all, done + n, rest) && OnlyThere(out, at + done, n)
    decreases slot, 1
  {
    n := SlotPack(schema, f, slot, out, at + done);
    MorePlaced(out, at, all, done, s, rest);
  }

  /** unknown_field_pack. */
  method UnknownPack(u: Unknown, out: array<byte>, at: nat) returns (rv: nat)
    requires u.wire < 8 && at + |MemberBytes(UnknownMember(u))| <= out.Length
    modifies out
    ensures rv == |MemberBytes(UnknownMember(u))|
    ensures Holds(out, at, MemberBytes(UnknownMember(u))) && OnlyThere(out, at, rv)
  {
    var tag := TagPack(u.tag, u.wire, out, at);
    CopyIn(u.data, out, at + tag);
    assert Holds(out, at, Tag(u.tag, u.wire));
    HoldsJoin(out, at, at + tag, Tag(u.tag, u.wire), u.data);
    rv := tag + |u.data|;
  }

  method UnknownsPack(us: seq<Unknown>, out: array<byte>, at: nat) returns (rv: nat)
    requires (forall k | 0 <= k < |us| :: us[k].wire < 8) && at + |Concat(UnknownMembers(us))| <= out.Length
    modifies out
    ensures rv == |Concat(UnknownMembers(us))|
    ensures Holds(out, at, Concat(UnknownMembers(us))) && OnlyThere(out, at, rv)
  {
    rv := 0;
    var i := 0;
    ghost var all := Concat(UnknownMembers(us));
    ghost var todo := all;
    assert us[0..] == us;
    NonePlaced(out, at, all);
    while i < |us|
      invariant 0 <= i <= |us| && todo == Concat(UnknownMembers(us[i..]))
      invariant Placed(out, at, all, rv, todo) && OnlyThere(out, at, rv)
    {
      UnknownSuffix(us, i);
      ghost var s, rest := MemberBytes(UnknownMember(us[i])), Concat(UnknownMembers(us[i + 1..]));
      assert todo == s + rest;
      var n := UnknownPackMore(us[i], out, at, rv, all, s, rest);
      todo, rv, i := rest, rv + n, i + 1;
    }
    assert todo == [] by {
      assert us[i..] == [];
    }
    AllPlaced(out, at, all, rv);
  }

  /** One more unknown field. */
  method UnknownPackMore(u: Unknown, out: array<byte>, at: nat, done: nat,
      ghost all: seq<byte>, ghost s: seq<byte>, ghost rest: seq<byte>)
    returns (n: nat)
    requires u.wire < 8 && at + |all| <= out.Length
    requires s == MemberBytes(UnknownMember(u)) && Placed(out, at, all, done, s + rest)
    modifies out
    ensures Placed(out, at, all, done + n, rest) && OnlyThere(out, at + done, n)
  {
    n := UnknownPack(u, out, at + done);
    MorePlaced(out, at, all, done, s, rest);
  }

  /** protobuf_c_message_pack writes the encoding, all of it and nothing else. */
  method MessagePack(schema: Schema, m: Message, out: array<byte>, at: nat) returns (rv: nat)
    requires WellFormed(schema) && Conforms(schema, m) && at + |Encode(schema, m)| <= out.Length
    modifies out
    ensures rv == |Encode(schema, m)| && Holds(out, at, Encode(schema, m)) && OnlyThere(out, at, rv)
    decreases m, 0
  {
    ghost var known := Concat(SlotsMembers(schema, schema[m.desc].fields, m.slots));
    ghost var unknown := Concat(UnknownMembers(m.unknown));
    ConcatJoin(SlotsMembers(schema, schema[m.desc].fields, m.slots), UnknownMembers(m.unknown));
    var a := SlotsPack(schema, schema[m.desc].fields, m.slots, out, at);
    var b := UnknownsPack(m.unknown, out, at + a);
    assert Holds(out, at, known);
    HoldsJoin(out, at, at + a, known, unknown);
    rv := a + b;
  }
}
