/** Writing numbers into an output array, byte by byte. */
module PackWords {
  import opened Bytes
  import opened Wire

  /** `s` lies in the array from `at` on. */
  ghost predicate Holds(out: array<byte>, at: nat, s: seq<byte>)
    reads out
  {
    at + |s| <= out.Length && forall i | at <= i < at + |s| :: out[i] == s[i - at]
  }

  lemma HoldsJoin(out: array<byte>, at: nat, mid: nat, s: seq<byte>, t: seq<byte>)
    requires Holds(out, at, s) && mid == at + |s| && Holds(out, mid, t)
    ensures Holds(out, at, s + t)
  {}

  /** What an array holds at its start is its first bytes. */
  lemma HeldAtStart(out: array<byte>, s: seq<byte>)
    requires Holds(out, 0, s)
    ensures out[..|s|] == s
  {}

  /** Only the `n` bytes from `at` on have changed. */
  twostate predicate OnlyThere(out: array<byte>, at: nat, n: nat)
    reads out
  {
    forall i | 0 <= i < out.Length && !(at <= i < at + n) :: out[i] == old(out[i])
  }

  /** Setting the top bit of the low byte. */
  function More(v: nat): byte {
    v % 128 + 128
  }

  lemma {:induction false} VarintStep(v: nat)
    requires v >= 128
    ensures Varint(v) == [More(v)] + Varint(v / 128)
  {}

  /** uint32_pack. */
  method Uint32Pack(value: uint32, out: array<byte>, at: nat) returns (rv: nat)
    requires at + |Varint(value)| <= out.Length
    modifies out
    ensures rv == |Varint(value)| && Holds(out, at, Varint(value)) && OnlyThere(out, at, rv)
  {
    var v: nat := value;
    rv := 0;
    ghost var done: seq<byte> := [];
    if v >= 0x80 {
      VarintStep(v);
      out[at + rv] := More(v);
      done := done + [More(v)];
      rv, v := rv + 1, v / 128;
      if v >= 0x80 {
        VarintStep(v);
        out[at + rv] := More(v);
        done := done + [More(v)];
        rv, v := rv + 1, v / 128;
      }
    }
    ghost var rest := Varint(v);
    assert v < 0x4_0000 && Varint(value) == done + rest && Holds(out, at, done) && rv == |done|;
    var n := UpperPack(v, out, at + rv, rest);
    assert Holds(out, at, done);
    HoldsJoin(out, at, at + rv, done, rest);
    rv := rv + n;
  }

  /** The inner ifs of uint32_pack: what is left after two bytes is less than 2^18. */
  method UpperPack(value: nat, out: array<byte>, at: nat, ghost all: seq<byte>) returns (rv: nat)
    requires value < 0x4_0000 && all == Varint(value) && at + |all| <= out.Length
    modifies out
    ensures rv == |all| && Holds(out, at, all) && OnlyThere(out, at, rv)
  {
    var v := value;
    rv := 0;
    ghost var done: seq<byte> := [];
    if v >= 0x80 {
      VarintStep(v);
      out[at + rv] := More(v);
      done := done + [More(v)];
      rv, v := rv + 1, v / 128;
      if v >= 0x80 {
        VarintStep(v);
        out[at + rv] := More(v);
        done := done + [More(v)];
        rv, v := rv + 1, v / 128;
      }
    }
    assert v < 128 && all == done + [v];
    out[at + rv] := v;
    rv := rv + 1;
  }

  /** The low 28 bits of a value give the first four bytes, from either half of it. */
  lemma LowBytes(v: uint64)
    ensures var lo := v % UINT32;
      && More(lo) == More(v) && More(lo / 0x80) == More(v / 0x80)
      && More(lo / 0x4000) == More(v / 0x80 / 0x80) && More(lo / 0x20_0000) == More(v / 0x80 / 0x80 / 0x80)
  {
    var lo, hi := v % UINT32, v / UINT32;
    SameMore(v, lo, hi * 0x200_0000);
    var a := v / 0x80;
    SameMore(a, lo / 0x80, hi * 0x4_0000);
    var b := a / 0x80;
    SameMore(b, lo / 0x4000, hi * 0x800);
    var c := b / 0x80;
    SameMore(c, lo / 0x20_0000, hi * 0x10);
  }

  lemma SameMore(x: nat, y: nat, k: nat)
    requires x == y + 0x80 * k
    ensures More(x) == More(y)
  {}

  /** The fifth byte holds the last four bits of the low half and the first three of the high one. */
  lemma MiddleBits(v: uint64)
    ensures var lo, hi, d := v % UINT32, v / UINT32, v / 0x80 / 0x80 / 0x80 / 0x80;
      d == hi * 16 + lo / 0x1000_0000 && d % 128 == hi % 8 * 16 + lo / 0x1000_0000 && d / 128 == hi / 8
  {
    var lo, hi, d := v % UINT32, v / UINT32, v / 0x80 / 0x80 / 0x80 / 0x80;
    assert d == v / 0x1000_0000;
    assert d == 128 * (hi / 8) + (hi % 8 * 16 + lo / 0x1000_0000);
  }

  lemma {:induction false} LongVarint(v: uint64)
    requires v >= UINT32
    ensures var a, b, c, d := v / 0x80, v / 0x80 / 0x80, v / 0x80 / 0x80 / 0x80, v / 0x80 / 0x80 / 0x80 / 0x80;
      Varint(v) == [More(v), More(a), More(b), More(c)] + Varint(d)
  {
    var a := v / 0x80;
    var b := a / 0x80;
    var c := b / 0x80;
    VarintStep(v);
    VarintStep(a);
    VarintStep(b);
    VarintStep(c);
  }

  /** uint64_pack, from the two halves of the value. */
  method Uint64Pack(value: uint64, out: array<byte>, at: nat) returns (rv: nat)
    requires at + |Varint(value)| <= out.Length
    modifies out
    ensures rv == |Varint(value)| && Holds(out, at, Varint(value)) && OnlyThere(out, at, rv)
  {
    var hi: nat := value / UINT32;
    var lo: nat := value % UINT32;
    if hi == 0 {
      rv := Uint32Pack(lo, out, at);
      return;
    }
    LongVarint(value);
    LowBytes(value);
    MiddleBits(value);
    ghost var d := value / 0x80 / 0x80 / 0x80 / 0x80;
    ghost var head := [More(lo), More(lo / 0x80), More(lo / 0x4000), More(lo / 0x20_0000)];
    assert Varint(value) == head + Varint(d);
    if hi < 8 {
      FourBytes(lo, out, at);
      out[at + 4] := hi * 16 + lo / 0x1000_0000;
      return 5;
    }
    VarintStep(d);
    FourBytes(lo, out, at);
    out[at + 4] := hi % 8 * 16 + lo / 0x1000_0000 + 128;
    assert head + Varint(d) == head + [out[at + 4]] + Varint(hi / 8);
    rv := PackRest(hi / 8, out, at, head + [out[at + 4]]);
  }

  method FourBytes(lo: nat, out: array<byte>, at: nat)
    requires at + 4 <= out.Length
    modifies out
    ensures Holds(out, at, [More(lo), More(lo / 0x80), More(lo / 0x4000), More(lo / 0x20_0000)])
    ensures OnlyThere(out, at, 4)
  {
    out[at] := More(lo);
    out[at + 1] := More(lo / 0x80);
    out[at + 2] := More(lo / 0x4000);
    out[at + 3] := More(lo / 0x20_0000);
  }

  /** The closing loop of uint64_pack: seven bits at a time. */
  method PackRest(value: nat, out: array<byte>, at: nat, ghost head: seq<byte>) returns (rv: nat)
    requires |head| == 5 && Holds(out, at, head) && at + 5 + |Varint(value)| <= out.Length
    modifies out
    ensures rv == |head + Varint(value)| && Holds(out, at, head + Varint(value)) && OnlyThere(out, at, rv)
  {
    var hi := value;
    rv := 5;
    ghost var done := head;
    while hi >= 128
      invariant 0 <= hi && rv == |done| >= 5 && done + Varint(hi) == head + Varint(value)
      invariant Holds(out, at, done) && OnlyThere(out, at, rv)
    {
      VarintStep(hi);
      assert done + [More(hi)] + Varint(hi / 128) == done + Varint(hi);
      out[at + rv] := More(hi);
      done := done + [More(hi)];
      rv, hi := rv + 1, hi / 128;
    }
    out[at + rv] := hi;
    rv := rv + 1;
  }

  /** A negative 32-bit word is sent sign-extended, in ten bytes. */
  lemma {:induction false} NegativeVarint(u: uint32)
    requires u >= HALF32
    ensures Varint(u + (UINT64 - UINT32)) ==
      [More(u), More(u / 0x80), More(u / 0x4000), More(u / 0x20_0000)]
      + [240 + u / 0x1000_0000, 255, 255, 255, 255, 1]
  {
    var v: uint64 := u + (UINT64 - UINT32);
    var d := v / 0x80 / 0x80 / 0x80 / 0x80;
    NegativeHalves(u);
    assert Varint(v) == [More(u), More(u / 0x80), More(u / 0x4000), More(u / 0x20_0000)] + Varint(d) by {
      LongVarint(v);
      LowBytes(v);
    }
    assert Varint(d) == [240 + u / 0x1000_0000, 255, 255, 255, 255, 1] by {
      VarintStep(d);
      OnesTail();
    }
  }

  lemma NegativeHalves(u: uint32)
    requires u >= HALF32
    ensures var v := u + (UINT64 - UINT32);
      var d := v / 0x80 / 0x80 / 0x80 / 0x80;
      && v < UINT64 && v % UINT32 == u && v >= UINT32
      && d >= 128 && More(d) == 240 + u / 0x1000_0000 && d / 128 == 0x1FFF_FFFF
  {
    var v: uint64 := u + (UINT64 - UINT32);
    assert v % UINT32 == u && v / UINT32 == 0xFFFF_FFFF;
    MiddleBits(v);
  }

  lemma OnesTail()
    ensures Varint(0x1FFF_FFFF) == [255, 255, 255, 255, 1]
  {
    VarintStep(0x1FFF_FFFF);
    VarintStep(0x3F_FFFF);
    VarintStep(0x7FFF);
    VarintStep(0xFF);
  }

  /** int32_pack. */
  method Int32Pack(u: uint32, out: array<byte>, at: nat) returns (rv: nat)
    requires at + |EncodeWord(Int32, u)| <= out.Length
    modifies out
    ensures rv == |EncodeWord(Int32, u)| && Holds(out, at, EncodeWord(Int32, u)) && OnlyThere(out, at, rv)
  {
    if u < HALF32 {
      rv := Uint32Pack(u, out, at);
      return;
    }
    NegativeVarint(u);
    ghost var head := [More(u), More(u / 0x80), More(u / 0x4000), More(u / 0x20_0000)];
    ghost var tail := [240 + u / 0x1000_0000, 255, 255, 255, 255, 1];
    assert EncodeWord(Int32, u) == head + tail;
    FourBytes(u, out, at);
    SixBytes(u, out, at + 4);
    assert Holds(out, at, head);
    HoldsJoin(out, at, at + 4, head, tail);
    rv := 10;
  }

  method SixBytes(u: uint32, out: array<byte>, at: nat)
    requires u >= HALF32 && at + 6 <= out.Length
    modifies out
    ensures Holds(out, at, [240 + u / 0x1000_0000, 255, 255, 255, 255, 1]) && OnlyThere(out, at, 6)
  {
    out[at] := 240 + u / 0x1000_0000;
    out[at + 1], out[at + 2], out[at + 3], out[at + 4] := 255, 255, 255, 255;
    out[at + 5] := 1;
  }

  /** fixed32_pack. */
  method Fixed32Pack(value: nat, out: array<byte>, at: nat) returns (rv: nat)
    requires at + 4 <= out.Length
    modifies out
    ensures rv == 4 && Holds(out, at, Little4(value)) && OnlyThere(out, at, rv)
  {
    out[at] := value % 256;
    out[at + 1] := value / 0x100 % 256;
    out[at + 2] := value / 0x1_0000 % 256;
    out[at + 3] := value / 0x100_0000 % 256;
    rv := 4;
  }

  /** fixed64_pack. */
  method Fixed64Pack(value: nat, out: array<byte>, at: nat) returns (rv: nat)
    requires at + 8 <= out.Length
    modifies out
    ensures rv == 8 && Holds(out, at, Little8(value)) && OnlyThere(out, at, rv)
  {
    rv := Fixed32Pack(value, out, at);
    rv := Fixed32Pack(value / UINT32, out, at + 4);
    rv := 8;
  }

  /** The tag of a field with its wire type, which is added to the first byte afterwards. */
  lemma {:induction false} TagFirst(number: uint32, wire: nat)
    requires wire < 8
    ensures var plain := Varint(8 * number);
      plain[0] % 8 == 0 && plain[0] + wire < 256 && Tag(number, wire) == plain[0 := plain[0] + wire]
  {
    var plain := 8 * number;
    assert (plain + wire) / 128 == plain / 128 && plain % 128 % 8 == 0;
    assert plain < 128 <==> plain + wire < 128;
  }

  /** tag_pack, and the wire type put into the first byte. */
  method TagPack(id: uint32, wire: nat, out: array<byte>, at: nat) returns (rv: nat)
    requires wire < 8 && at + |Tag(id, wire)| <= out.Length
    modifies out
    ensures rv == |Tag(id, wire)| && Holds(out, at, Tag(id, wire)) && OnlyThere(out, at, rv)
  {
    TagFirst(id, wire);
    if id < 0x2000_0000 {
      rv := Uint32Pack(8 * id, out, at);
    } else {
      rv := Uint64Pack(8 * id, out, at);
    }
    assert out[at] == Varint(8 * id)[0];
    out[at] := out[at] + wire;
  }

  /** The scalar cases of required_field_pack and of the packed loops. */
  method WordPack(t: FieldType, u: nat, out: array<byte>, at: nat) returns (rv: nat)
    requires IsScalar(t) && u < Range(t) && at + |EncodeWord(t, u)| <= out.Length
    modifies out
    ensures rv == |EncodeWord(t, u)| && Holds(out, at, EncodeWord(t, u)) && OnlyThere(out, at, rv)
  {
    match t {
      case Sint32 => rv := Uint32Pack(Zigzag(u, HALF32), out, at);
      case Int32 => rv := Int32Pack(u, out, at);
      case Uint32 | Enum => rv := Uint32Pack(u, out, at);
      case Sint64 => rv := Uint64Pack(Zigzag(u, HALF64), out, at);
      case Int64 | Uint64 => rv := Uint64Pack(u, out, at);
      case Sfixed32 | Fixed32 | Float => rv := Fixed32Pack(u, out, at);
      case Sfixed64 | Fixed64 | Double => rv := Fixed64Pack(u, out, at);
      case Bool =>
        out[at] := if u != 0 then 1 else 0;
        rv := 1;
    }
  }

  /** memcpy into the output. */
  method CopyIn(s: seq<byte>, out: array<byte>, at: nat)
    requires at + |s| <= out.Length
    modifies out
    ensures Holds(out, at, s) && OnlyThere(out, at, |s|)
  {
    forall i | at <= i < at + |s| {
      out[i] := s[i - at];
    }
  }

  /** memmove within the output, towards the back. */
  method MoveUp(out: array<byte>, from: nat, to: nat, n: nat, ghost s: seq<byte>)
    requires from <= to && to + n <= out.Length && |s| == n && Holds(out, from, s)
    modifies out
    ensures Holds(out, to, s) && OnlyThere(out, to, n)
  {
    var i := n;
    while i > 0
      invariant 0 <= i <= n
      invariant forall j | from <= j < from + i :: out[j] == s[j - from]
      invariant forall j | to + i <= j < to + n :: out[j] == s[j - to]
      invariant OnlyThere(out, to, n)
    {
      i := i - 1;
      out[to + i] := out[from + i];
    }
  }
}
