/** The serializer into a growing buffer. */
module PackBuffer {
  import opened Bytes
  import opened Wire
  import opened Members
  import opened Schema
  import opened Encoding
  import opened PackWords
  import opened Sizes

  /** ProtobufCBufferSimple. */
  class BufferSimple {
    var alloced: nat
    var len: nat
    var data: array<byte>
    var mustFreeData: bool
    /** The bytes appended so far. */
    ghost var content: seq<byte>

    ghost predicate Valid()
      reads this, data
    {
      && 0 < alloced == data.Length && len <= alloced
      && |content| == len && forall i {:trigger data[i]} | 0 <= i < len :: data[i] == content[i]
    }

    /** PROTOBUF_C_BUFFER_SIMPLE_INIT on the caller's scratch memory. */
    constructor (scratch: array<byte>)
      requires scratch.Length > 0
      ensures Valid() && content == [] && data == scratch
    {
      alloced, len, data, mustFreeData, content := scratch.Length, 0, scratch, false, [];
    }

    /** protobuf_c_buffer_simple_append. */
    method Append(s: seq<byte>)
      requires Valid()
      modifies this, data
      ensures Valid() && content == old(content) + s
      ensures data == old(data) || fresh(data)
    {
      var newLen := len + |s|;
      if newLen > alloced {
        Grow(newLen);
      }
      forall i | 0 <= i < |s| {
        data[len + i] := s[i];
      }
      content := content + s;
      len := newLen;
    }

    /** The memory is doubled until it is enough. */
    method Grow(newLen: nat)
      requires Valid() && newLen > alloced
      modifies this
      ensures Valid() && content == old(content) && len == old(len) && newLen <= alloced && fresh(data)
    {
      var newAlloced := alloced * 2;
      while newAlloced < newLen
        invariant newAlloced > 0
        decreases newLen - newAlloced
      {
        newAlloced := newAlloced + newAlloced;
      }
      assert newAlloced > len;
      var newData := new byte[newAlloced];
      forall i | 0 <= i < len {
        newData[i] := data[i];
      }
      mustFreeData := true;
      data := newData;
      alloced := newAlloced;
    }
  }

  /** A buffer has got `s` behind what it held. */
  twostate predicate Got(b: BufferSimple, s: seq<byte>)
    reads b, b.data
  {
    b.Valid() && b.content == old(b.content) + s && (b.data == old(b.data) || fresh(b.data))
  }

  lemma NothingGot(s: seq<byte>)
    ensures s + [] == s
  {}

  /** Tag and length, or tag and scalar, are packed into scratch memory of twenty bytes first. */
  method HeaderToBuffer(id: uint32, length: uint32, b: BufferSimple) returns (rv: nat)
    requires b.Valid()
    modifies b, b.data
    ensures Got(b, Tag(id, PREFIXED) + Varint(length)) && rv == |Tag(id, PREFIXED) + Varint(length)|
  {
    TagSizeCounts(id, PREFIXED);
    var scratch := new byte[20];
    var tag := TagPack(id, PREFIXED, scratch, 0);
    assert |Varint(length)| == Uint32Size(length);
    rv := Uint32Pack(length, scratch, tag);
    rv := tag + rv;
    HoldsJoin(scratch, 0, tag, Tag(id, PREFIXED), Varint(length));
    HeldAtStart(scratch, Tag(id, PREFIXED) + Varint(length));
    b.Append(scratch[..rv]);
  }

  method WordToBuffer(id: uint32, t: FieldType, u: nat, b: BufferSimple) returns (rv: nat)
    requires b.Valid() && IsScalar(t) && u < Range(t)
    modifies b, b.data
    ensures Got(b, Tag(id, WireOf(t)) + EncodeWord(t, u)) && rv == |Tag(id, WireOf(t)) + EncodeWord(t, u)|
  {
    TagSizeCounts(id, WireOf(t));
    WordStandsAlone(t, u);
    var scratch := new byte[20];
    var tag := TagPack(id, WireOf(t), scratch, 0);
    rv := WordPack(t, u, scratch, tag);
    rv := tag + rv;
    HoldsJoin(scratch, 0, tag, Tag(id, WireOf(t)), EncodeWord(t, u));
    HeldAtStart(scratch, Tag(id, WireOf(t)) + EncodeWord(t, u));
    b.Append(scratch[..rv]);
  }

  /** Header and content are appended one after the other. */
  method PrefixedToBuffer(id: uint32, s: seq<byte>, b: BufferSimple) returns (rv: nat)
    requires b.Valid() && |s| < UINT32
    modifies b, b.data
    ensures Got(b, Tag(id, PREFIXED) + Prefixed(s)) && rv == |Tag(id, PREFIXED) + Prefixed(s)|
  {
    rv := HeaderToBuffer(id, |s|, b);
    b.Append(s);
    rv := rv + |s|;
    ghost var was, tag, n := old(b.content), Tag(id, PREFIXED), Varint(|s|);
    Associates(was, tag + n, s);
    Associates(tag, n, s);
  }

  /** required_field_pack_to_buffer. A nested message is packed into a buffer of its own first. */
  method RequiredToBuffer(schema: Schema, f: Field, v: Value, b: BufferSimple) returns (rv: nat)
    requires b.Valid() && WellFormed(schema) && ConformsValue(schema, f, v)
    modifies b, b.data
    ensures Got(b, MemberBytes(ValueMember(schema, f, v))) && rv == |MemberBytes(ValueMember(schema, f, v))|
    decreases v, 0
  {
    match v {
      case Num(word) => rv := WordToBuffer(f.id, f.kind, word, b);
      case Text(c) => rv := PrefixedToBuffer(f.id, CharsOf(f, c), b);
      case Data(bytes) => rv := PrefixedToBuffer(f.id, bytes, b);
      case Sub(m) =>
        var scratch := new byte[256];
        var simple := new BufferSimple(scratch);
        var sublen := MessageToBuffer(schema, m, simple);
        assert simple.content == Encode(schema, m);
        assert simple.data[..sublen] == simple.content;
        rv := PrefixedToBuffer(f.id, simple.data[..sublen], b);
      case NoMessage => rv := PrefixedToBuffer(f.id, [], b);
    }
  }

  /** One element of a packed array, through scratch memory of sixteen bytes. */
  method ElementToBuffer(t: FieldType, u: nat, b: BufferSimple) returns (len: nat)
    requires b.Valid() && IsScalar(t) && u < Range(t)
    modifies b, b.data
    ensures Got(b, EncodeWord(t, u)) && len == |EncodeWord(t, u)|
  {
    WordStandsAlone(t, u);
    var scratch := new byte[16];
    len := WordPack(t, u, scratch, 0);
    HeldAtStart(scratch, EncodeWord(t, u));
    b.Append(scratch[..len]);
  }

  /** pack_buffer_packed_payload. */
  method PayloadToBuffer(kind: FieldType, vs: seq<Value>, b: BufferSimple) returns (rv: nat)
    requires b.Valid() && AllWords(kind, vs)
    modifies b, b.data
    ensures Got(b, Payload(kind, vs)) && rv == |Payload(kind, vs)|
  {
    rv := 0;
    var i := 0;
    ghost var was, all := b.content, Payload(kind, vs);
    assert vs[0..] == vs;
    NonePassed(was, all);
    while i < |vs|
      invariant 0 <= i <= |vs| && Passed(b.content, was, all, rv, Payload(kind, vs[i..]))
      invariant b.Valid() && (b.data == old(b.data) || fresh(b.data))
    {
      ghost var s, rest := EncodeWord(kind, vs[i].word), Payload(kind, vs[i + 1..]);
      assert Passed(b.content, was, all, rv, s + rest) by {
        assert vs[i..][1..] == vs[i + 1..];
      }
      ghost var now := b.content;
      var len := ElementToBuffer(kind, vs[i].word, b);
      MorePassed(now, was, all, rv, s, rest);
      rv, i := rv + len, i + 1;
    }
    assert vs[i..] == [];
    AllPassed(b.content, was, all, rv);
  }

  /** Of `all`, the first `n` bytes lie behind what the buffer held. */
  ghost predicate Passed(now: seq<byte>, was: seq<byte>, all: seq<byte>, n: nat, rest: seq<byte>) {
    n <= |all| && now == was + all[..n] && all[n..] == rest
  }

  lemma NonePassed(was: seq<byte>, all: seq<byte>)
    ensures Passed(was, was, all, 0, all)
  {
    assert all[..0] == [] && was + [] == was && all[0..] == all;
  }

  lemma MorePassed(now: seq<byte>, was: seq<byte>, all: seq<byte>, n: nat, s: seq<byte>, rest: seq<byte>)
    requires Passed(now, was, all, n, s + rest)
    ensures Passed(now + s, was, all, n + |s|, rest)
  {
    assert all[n..][..|s|] == s && all[n..][|s|..] == rest;
    assert all[..n] + s == all[..n + |s|];
  }

  lemma AllPassed(now: seq<byte>, was: seq<byte>, all: seq<byte>, n: nat)
    requires Passed(now, was, all, n, [])
    ensures now == was + all && n == |all|
  {
    assert n == |all| && all[..n] == all;
  }

  method PackedToBuffer(f: Field, vs: seq<Value>, b: BufferSimple) returns (rv: nat)
    requires b.Valid() && AllWords(f.kind, vs) && |Payload(f.kind, vs)| < UINT32
    modifies b, b.data
    ensures Got(b, MemberBytes(PackedMember(f, Payload(f.kind, vs))))
    ensures rv == |MemberBytes(PackedMember(f, Payload(f.kind, vs)))|
  {
    var payloadLen := PayloadSize(f.kind, vs);
    rv := HeaderToBuffer(f.id, payloadLen, b);
    var tmp := PayloadToBuffer(f.kind, vs, b);
    assert tmp == payloadLen;
    rv := rv + payloadLen;
    ghost var was, tag, n, s := old(b.content), Tag(f.id, PREFIXED), Varint(payloadLen), Payload(f.kind, vs);
    Associates(was, tag + n, s);
    Associates(tag, n, s);
  }

  method ValuesToBuffer(schema: Schema, f: Field, vs: seq<Value>, b: BufferSimple) returns (rv: nat)
    requires b.Valid() && WellFormed(schema) && ConformsValues(schema, f, vs)
    modifies b, b.data
    ensures Got(b, Concat(ValueMembers(schema, f, vs))) && rv == |Concat(ValueMembers(schema, f, vs))|
    decreases vs, 0
  {
    rv := 0;
    var i := 0;
    ghost var was, all := b.content, Concat(ValueMembers(schema, f, vs));
    ghost var todo := all;
    AllValuesLeft(schema, f, vs, all);
    NonePassed(was, all);
    while i < |vs|
      invariant ValuesLeft(schema, f, vs, i, todo) && Passed(b.content, was, all, rv, todo)
      invariant b.Valid() && (b.data == old(b.data) || fresh(b.data))
    {
      ghost var s, rest := NextValue(schema, f, vs, i, todo);
      var n := ValueToBufferMore(schema, f, vs[i], b, rv, was, all, s, rest);
      todo, rv, i := rest, rv + n, i + 1;
    }
    NoValuesLeft(schema, f, vs, todo);
    AllPassed(b.content, was, all, rv);
  }

  /** One more element of an array. */
  method ValueToBufferMore(schema: Schema, f: Field, v: Value, b: BufferSimple, done: nat,
      ghost was: seq<byte>, ghost all: seq<byte>, ghost s: seq<byte>, ghost rest: seq<byte>)
    returns (n: nat)
    requires b.Valid() && WellFormed(schema) && ConformsValue(schema, f, v)
    requires s == MemberBytes(ValueMember(schema, f, v)) && Passed(b.content, was, all, done, s + rest)
    modifies b, b.data
    ensures b.Valid() && Passed(b.content, was, all, done + n, rest)
    ensures b.data == old(b.data) || fresh(b.data)
    decreases v, 1
  {
    ghost var now := b.content;
    n := RequiredToBuffer(schema, f, v, b);
    MorePassed(now, was, all, done, s, rest);
  }

  /** One field: required, optional or repeated_field_pack_to_buffer. */
  method SlotToBuffer(schema: Schema, f: Field, s: Slot, b: BufferSimple) returns (rv: nat)
    requires b.Valid() && WellFormed(schema) && ConformsSlot(schema, f, s)
    modifies b, b.data
    ensures Got(b, Concat(SlotMembers(schema, f, s))) && rv == |Concat(SlotMembers(schema, f, s))|
    decreases s, 0
  {
    rv := 0;
    if f.rule == Repeated {
      if |s.values| == 0 {
        NothingGot(b.content);
      } else if f.packed {
        ConcatOne(PackedMember(f, Payload(f.kind, s.values)));
        rv := PackedToBuffer(f, s.values, b);
      } else {
        rv := ValuesToBuffer(schema, f, s.values, b);
      }
    } else if f.rule == Optional && Absent(f, s) {
      NothingGot(b.content);
    } else {
      ConcatOne(ValueMember(schema, f, s.value));
      rv := RequiredToBuffer(schema, f, s.value, b);
    }
  }

  method SlotsToBuffer(schema: Schema, fields: seq<Field>, slots: seq<Slot>, b: BufferSimple) returns (rv: nat)
    requires b.Valid() && WellFormed(schema) && ConformsSlots(schema, fields, slots)
    modifies b, b.data
    ensures Got(b, Concat(SlotsMembers(schema, fields, slots))) && rv == |Concat(SlotsMembers(schema, fields, slots))|
    decreases slots, 0
  {
    rv := 0;
    var i := 0;
    ghost var was, all := b.content, Concat(SlotsMembers(schema, fields, slots));
    ghost var todo := all;
    AllSlotsLeft(schema, fields, slots, all);
    NonePassed(was, all);
    while i < |fields|
      invariant SlotsLeft(schema, fields, slots, i, todo) && Passed(b.content, was, all, rv, todo)
      invariant b.Valid() && (b.data == old(b.data) || fresh(b.data))
    {
      ghost var s, rest := NextSlot(schema, fields, slots, i, todo);
      var n := SlotToBufferMore(schema, fields[i], slots[i], b, rv, was, all, s, rest);
      todo, rv, i := rest, rv + n, i + 1;
    }
    NoSlotsLeft(schema, fields, slots, todo);
    AllPassed(b.content, was, all, rv);
  }

  /** One more field of a message. */
  method SlotToBufferMore(schema: Schema, f: Field, slot: Slot, b: BufferSimple, done: nat,
      ghost was: seq<byte>, ghost all: seq<byte>, ghost s: seq<byte>, ghost rest: seq<byte>)
    returns (n: nat)
    requires b.Valid() && WellFormed(schema) && ConformsSlot(schema, f, slot)
    requires s == Concat(SlotMembers(schema, f, slot)) && Passed(b.content, was, all, done, s + rest)
    modifies b, b.data
    ensures b.Valid() && Passed(b.content, was, all, done + n, rest)
    ensures b.data == old(b.data) || fresh(b.data)
    decreases slot, 1
  {
    ghost var now := b.content;
    n := SlotToBuffer(schema, f, slot, b);
    MorePassed(now, was, all, done, s, rest);
  }

  /** unknown_field_pack_to_buffer. */
  method UnknownToBuffer(u: Unknown, b: BufferSimple) returns (rv: nat)
    requires b.Valid() && u.wire < 8
    modifies b, b.data
    ensures Got(b, MemberBytes(UnknownMember(u))) && rv == |MemberBytes(UnknownMember(u))|
  {
    TagSizeCounts(u.tag, u.wire);
    var header := new byte[10];
    rv := TagPack(u.tag, u.wire, header, 0);
    ghost var was, tag := b.content, Tag(u.tag, u.wire);
    HeldAtStart(header, tag);
    b.Append(header[..rv]);
    b.Append(u.data);
    Associates(was, tag, u.data);
    rv := rv + |u.data|;
  }

  method UnknownsToBuffer(us: seq<Unknown>, b: BufferSimple) returns (rv: nat)
    requires b.Valid() && forall k | 0 <= k < |us| :: us[k].wire < 8
    modifies b, b.data
    ensures Got(b, Concat(UnknownMembers(us))) && rv == |Concat(UnknownMembers(us))|
  {
    rv := 0;
    var i := 0;
    ghost var was, all := b.content, Concat(UnknownMembers(us));
    assert us[0..] == us;
    NonePassed(was, all);
    while i < |us|
      invariant 0 <= i <= |us| && Passed(b.content, was, all, rv, Concat(UnknownMembers(us[i..])))
      invariant b.Valid() && (b.data == old(b.data) || fresh(b.data))
    {
      UnknownSuffix(us, i);
      ghost var s, rest := MemberBytes(UnknownMember(us[i])), Concat(UnknownMembers(us[i + 1..]));
      ghost var now := b.content;
      var n := UnknownToBuffer(us[i], b);
      MorePassed(now, was, all, rv, s, rest);
      rv, i := rv + n, i + 1;
    }
    assert us[i..] == [];
    AllPassed(b.content, was, all, rv);
  }

  /** protobuf_c_message_pack_to_buffer appends the same bytes as protobuf_c_message_pack writes. */
  method MessageToBuffer(schema: Schema, m: Message, b: BufferSimple) returns (rv: nat)
    requires b.Valid() && WellFormed(schema) && Conforms(schema, m)
    modifies b, b.data
    ensures Got(b, Encode(schema, m)) && rv == |Encode(schema, m)|
    decreases m, 0
  {
    ghost var was := b.content;
    ghost var known := Concat(SlotsMembers(schema, schema[m.desc].fields, m.slots));
    ghost var unknown := Concat(UnknownMembers(m.unknown));
    ConcatJoin(SlotsMembers(schema, schema[m.desc].fields, m.slots), UnknownMembers(m.unknown));
    var x := SlotsToBuffer(schema, schema[m.desc].fields, m.slots, b);
    var y := UnknownsToBuffer(m.unknown, b);
    Associates(was, known, unknown);
    rv := x + y;
  }
}
