/** Numbers on the protobuf wire (src/google/protobuf-c/protobuf-c.c): base-128 varints, zigzag,
    fixed-width words, and what the scalar types make of them. */
module Wire {
  import opened Bytes

  // ---------------------------------------------------------------------------
  // Varints
  // ---------------------------------------------------------------------------

  /** Seven bits a byte, low bits first, the top bit set on all but the last. */
  function Varint(v: nat): (s: seq<byte>)
    ensures |s| >= 1
  {
    if v < 128 then [v] else [v % 128 + 128] + Varint(v / 128)
  }

  /** The number a byte string stands for as a varint. */
  function VarintValue(s: seq<byte>): nat {
    if |s| == 0 then 0 else s[0] % 128 + 128 * VarintValue(s[1..])
  }

  /** How many bytes with their top bit set come first. */
  function Leading(s: seq<byte>): (n: nat)
    ensures n <= |s|
    ensures forall i | 0 <= i < n :: s[i] >= 128
    ensures n < |s| ==> s[n] < 128
  {
    if |s| == 0 || s[0] < 128 then 0 else 1 + Leading(s[1..])
  }

  /** The length of the varint at the front, if it ends within `max` bytes; otherwise 0. */
  function VarintEnd(s: seq<byte>, max: nat): (n: nat)
    ensures n <= |s| && n <= max
  {
    var n := Leading(s);
    if n < |s| && n < max then n + 1 else 0
  }

  /** A varint and nothing else. */
  predicate IsVarint(s: seq<byte>) {
    |s| >= 1 && Leading(s) == |s| - 1
  }

  lemma {:induction false} LeadingIs(s: seq<byte>, n: nat)
    requires n < |s| && s[n] < 128 && forall i | 0 <= i < n :: s[i] >= 128
    ensures Leading(s) == n
  {}

  lemma VarintEndsThere(s: seq<byte>, rest: seq<byte>, max: nat)
    requires IsVarint(s) && |s| <= max
    ensures VarintEnd(s + rest, max) == |s|
  {
    var all := s + rest;
    assert forall i | 0 <= i < |s| :: all[i] == s[i];
    LeadingIs(all, |s| - 1);
  }

  lemma {:induction false} VarintRoundTrip(v: nat)
    ensures VarintValue(Varint(v)) == v && IsVarint(Varint(v))
  {
    if v >= 128 {
      VarintRoundTrip(v / 128);
      assert Varint(v)[1..] == Varint(v / 128);
    }
  }

  /** The sizes at which one more byte is needed. */
  lemma {:induction false} VarintLength32(v: nat)
    ensures |Varint(v)| == 1 <==> v < 0x80
    ensures v >= 0x80 ==> (|Varint(v)| == 2 <==> v < 0x4000)
    ensures v >= 0x4000 ==> (|Varint(v)| == 3 <==> v < 0x20_0000)
    ensures v >= 0x20_0000 ==> (|Varint(v)| == 4 <==> v < 0x1000_0000)
    ensures v >= 0x1000_0000 ==> (|Varint(v)| == 5 <==> v < 0x8_0000_0000)
  {
    var a := v / 128;
    var b := a / 128;
    var c := b / 128;
    var d := c / 128;
    assert v >= 0x80 ==> |Varint(v)| == 1 + |Varint(a)|;
    assert v >= 0x4000 ==> |Varint(a)| == 1 + |Varint(b)|;
    assert v >= 0x20_0000 ==> |Varint(b)| == 1 + |Varint(c)|;
    assert v >= 0x1000_0000 ==> |Varint(c)| == 1 + |Varint(d)|;
    assert v >= 0x8_0000_0000 ==> |Varint(d)| == 1 + |Varint(d / 128)|;
  }

  lemma {:induction false} VarintLength64(v: nat)
    requires v >= 0x8_0000_0000
    ensures |Varint(v)| == 5 + |Varint(v / 0x8_0000_0000)|
  {
    var a := v / 128;
    var b := a / 128;
    var c := b / 128;
    var d := c / 128;
    assert |Varint(v)| == 1 + |Varint(a)| && |Varint(a)| == 1 + |Varint(b)| && |Varint(b)| == 1 + |Varint(c)|;
    assert |Varint(c)| == 1 + |Varint(d)| && |Varint(d)| == 1 + |Varint(d / 128)|;
    assert d / 128 == v / 0x8_0000_0000;
  }

  /** The bytes uint32_size counts. */
  function Uint32Size(v: uint32): (n: nat)
    ensures n == |Varint(v)| && 1 <= n <= 5
  {
    VarintLength32(v);
    if v < 0x80 then 1 else if v < 0x4000 then 2 else if v < 0x20_0000 then 3 else if v < 0x1000_0000 then 4 else 5
  }

  /** The bytes uint64_size counts, from the upper half of the value. */
  function Uint64Size(v: uint64): (n: nat)
    ensures n == |Varint(v)| && 1 <= n <= 10
  {
    var upper := v / UINT32;
    VarintLength32(v);
    if upper == 0 then Uint32Size(v)
    else if upper < 0x8 then 5
    else
      VarintLength64(v);
      VarintLength32(v / 0x8_0000_0000);
      if upper < 0x400 then 6
      else if upper < 0x2_0000 then 7
      else if upper < 0x100_0000 then 8
      else if upper < 0x8000_0000 then 9
      else 10
  }

  // ---------------------------------------------------------------------------
  // Tags
  // ---------------------------------------------------------------------------

  /** The kinds of body a tag announces. */
  const VARINT: nat := 0
  const SIXTYFOUR: nat := 1
  const PREFIXED: nat := 2
  const THIRTYTWO: nat := 5

  /** A field number and a wire type. */
  function Tag(number: uint32, wire: nat): seq<byte>
    requires wire < 8
  {
    Varint(8 * number + wire)
  }

  function TagSize(number: uint32): (n: nat) {
    if number < 0x10 then 1
    else if number < 0x800 then 2
    else if number < 0x4_0000 then 3
    else if number < 0x200_0000 then 4
    else 5
  }

  /** get_tag_size counts the bytes of the tag. */
  lemma TagSizeCounts(number: uint32, wire: nat)
    requires wire < 8
    ensures TagSize(number) == |Tag(number, wire)|
  {
    VarintLength32(8 * number + wire);
  }

  // ---------------------------------------------------------------------------
  // Words: numbers as they lie in memory, in 32 or 64 bits
  // ---------------------------------------------------------------------------

  const HALF32: nat := 0x8000_0000
  const HALF64: nat := 0x8000_0000_0000_0000

  /** The zigzag code of a two's complement word of 2 * half values. */
  function Zigzag(u: nat, half: nat): (z: nat)
    requires u < 2 * half
    ensures z < 2 * half
  {
    if u >= half then (2 * half - u) * 2 - 1 else u * 2
  }

  function Unzigzag(z: nat, half: nat): (u: nat)
    requires z < 2 * half
    ensures u < 2 * half
  {
    if z % 2 == 1 then 2 * half - 1 - z / 2 else z / 2
  }

  /** The code and its inverse are one, and small numbers of either sign have small codes. */
  lemma ZigzagInverts(u: nat, half: nat)
    requires u < 2 * half
    ensures Unzigzag(Zigzag(u, half), half) == u && Zigzag(Unzigzag(u, half), half) == u
    ensures var signed := if u < half then u else u - 2 * half;
      Zigzag(u, half) == if signed < 0 then -2 * signed - 1 else 2 * signed
  {}

  lemma ZigzagFits(u: nat, half: nat)
    requires u < 2 * half
    ensures Unzigzag(Zigzag(u, half) % (2 * half), half) == u
  {
    SmallRemainder(Zigzag(u, half), 2 * half);
    ZigzagInverts(u, half);
  }

  lemma SmallRemainder(v: nat, range: nat)
    requires v < range
    ensures v % range == v
  {}

  /** Four bytes, low byte first. */
  function Little4(v: nat): (s: seq<byte>)
    ensures |s| == 4
  {
    [v % 256, v / 0x100 % 256, v / 0x1_0000 % 256, v / 0x100_0000 % 256]
  }

  function FromLittle4(s: seq<byte>): uint32
    requires |s| >= 4
  {
    (((s[3] as nat) * 256 + s[2]) * 256 + s[1]) * 256 + s[0]
  }

  function Little8(v: nat): (s: seq<byte>)
    ensures |s| == 8
  {
    Little4(v) + Little4(v / UINT32)
  }

  function FromLittle8(s: seq<byte>): uint64
    requires |s| >= 8
  {
    FromLittle4(s) + UINT32 * FromLittle4(s[4..])
  }

  lemma Little4RoundTrip(v: nat)
    ensures FromLittle4(Little4(v)) == v % UINT32
  {
    var a := v / 256;
    var b := a / 256;
    var c := b / 256;
    assert v / 0x1_0000 == b && v / 0x100_0000 == c;
    var low := ((c % 256 * 256 + b % 256) * 256 + a % 256) * 256 + v % 256;
    assert v == low + 0x1_0000_0000 * (c / 256);
  }

  lemma Little4Whole(v: uint32)
    ensures FromLittle4(Little4(v)) == v
  {
    Little4RoundTrip(v);
    SmallRemainder(v, UINT32);
  }

  lemma Little8RoundTrip(v: uint64)
    ensures FromLittle8(Little8(v)) == v
  {
    var low, high, all := Little4(v), Little4(v / UINT32), Little8(v);
    assert FromLittle4(all) == v % UINT32 by {
      assert forall i | 0 <= i < 4 :: all[i] == low[i];
      Little4RoundTrip(v);
    }
    assert FromLittle4(all[4..]) == v / UINT32 by {
      assert all[4..] == high;
      Little4RoundTrip(v / UINT32);
    }
  }

  // ---------------------------------------------------------------------------
  // Scalar types
  // ---------------------------------------------------------------------------

  datatype FieldType =
    | Int32 | Sint32 | Sfixed32 | Int64 | Sint64 | Sfixed64 | Uint32 | Fixed32 | Uint64 | Fixed64
    | Float | Double | Bool | Enum | String | Binary | Nested

  predicate IsScalar(t: FieldType) {
    t != String && t != Binary && t != Nested
  }

  /** The number of words a scalar of this type has. */
  function Range(t: FieldType): nat
    requires IsScalar(t)
  {
    match t
    case Int64 | Uint64 | Sint64 | Sfixed64 | Fixed64 | Double => UINT64
    case _ => UINT32
  }

  function WireOf(t: FieldType): (wire: nat)
    ensures wire < 8
  {
    match t
    case Sfixed32 | Fixed32 | Float => THIRTYTWO
    case Sfixed64 | Fixed64 | Double => SIXTYFOUR
    case String | Binary | Nested => PREFIXED
    case _ => VARINT
  }

  /** The number sent as a varint for a word: 32-bit signed words are sign-extended to 64 bits, and
      a boolean may be any word in memory. */
  function Sent(t: FieldType, u: nat): (v: nat)
    requires WireOf(t) == VARINT && u < Range(t)
    ensures v < UINT64
  {
    if t == Int32 then if u < HALF32 then u else u + (UINT64 - UINT32)
    else if t == Sint32 then Zigzag(u, HALF32)
    else if t == Sint64 then Zigzag(u, HALF64)
    else if t == Bool then if u != 0 then 1 else 0
    else u
  }

  /** The word made of a number received as a varint. */
  function Received(t: FieldType, v: nat): (u: nat)
    requires WireOf(t) == VARINT
    ensures u < Range(t)
  {
    if t == Sint32 then Unzigzag(v % UINT32, HALF32)
    else if t == Sint64 then Unzigzag(v % UINT64, HALF64)
    else if t == Bool then if v != 0 then 1 else 0
    else v % Range(t)
  }

  /** A word, except that a boolean is 0 or 1. */
  function NormalWord(t: FieldType, u: nat): nat {
    if t == Bool && u != 0 then 1 else u
  }

  /** Sign extension to 64 bits leaves the low 32 bits. */
  lemma Extended(u: uint32)
    ensures (u + (UINT64 - UINT32)) % UINT32 == u
  {
    assert u + (UINT64 - UINT32) == u + UINT32 * 0xFFFF_FFFF;
  }

  lemma ReceivedSent(t: FieldType, u: nat)
    requires WireOf(t) == VARINT && u < Range(t)
    ensures Received(t, Sent(t, u)) == NormalWord(t, u)
  {
    if t == Int32 {
      Extended(u);
    } else if t == Sint32 {
      ZigzagFits(u, HALF32);
    } else if t == Sint64 {
      ZigzagFits(u, HALF64);
    }
  }

  function EncodeWord(t: FieldType, u: nat): (s: seq<byte>)
    requires IsScalar(t) && u < Range(t)
  {
    if WireOf(t) == VARINT then Varint(Sent(t, u))
    else if WireOf(t) == THIRTYTWO then Little4(u)
    else Little8(u)
  }

  /** Enough bytes for the type, as the scan guarantees. */
  predicate LongEnough(t: FieldType, s: seq<byte>)
    requires IsScalar(t)
  {
    |s| >= if WireOf(t) == VARINT then 1 else if WireOf(t) == THIRTYTWO then 4 else 8
  }

  function DecodeWord(t: FieldType, s: seq<byte>): (u: nat)
    requires IsScalar(t) && LongEnough(t, s)
    ensures u < Range(t)
  {
    if WireOf(t) == VARINT then Received(t, VarintValue(s))
    else if WireOf(t) == THIRTYTWO then FromLittle4(s)
    else FromLittle8(s)
  }

  /** Decoding gives back the word. */
  lemma WordRoundTrip(t: FieldType, u: nat)
    requires IsScalar(t) && u < Range(t)
    ensures LongEnough(t, EncodeWord(t, u)) && DecodeWord(t, EncodeWord(t, u)) == NormalWord(t, u)
  {
    if WireOf(t) == VARINT {
      var v := Sent(t, u);
      assert VarintValue(Varint(v)) == v by {
        VarintRoundTrip(v);
      }
      ReceivedSent(t, u);
    } else if WireOf(t) == THIRTYTWO {
      Little4Whole(u);
    } else {
      Little8RoundTrip(u);
    }
  }

  /** The encoding is a whole body of its wire type. */
  lemma WordStandsAlone(t: FieldType, u: nat)
    requires IsScalar(t) && u < Range(t)
    ensures var s := EncodeWord(t, u);
      && (WireOf(t) == VARINT ==> IsVarint(s) && |s| <= 10)
      && (WireOf(t) == SIXTYFOUR ==> |s| == 8)
      && (WireOf(t) == THIRTYTWO ==> |s| == 4)
  {
    if WireOf(t) == VARINT {
      var v: uint64 := Sent(t, u);
      VarintRoundTrip(v);
      assert |Varint(v)| == Uint64Size(v);
    }
  }
}
