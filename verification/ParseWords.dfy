/** Reading numbers from the wire, byte by byte. */
module ParseWords {
  import opened Bytes
  import opened Wire
  import opened Members
  import opened Decoding

  // ---------------------------------------------------------------------------
  // A varint seen from its end
  // ---------------------------------------------------------------------------

  function Pow128(n: nat): (p: nat)
    ensures p > 0
  {
    if n == 0 then 1 else 128 * Pow128(n - 1)
  }

  /** The bits of a byte below its top one, and its low four. */
  function Low7(b: byte): nat {
    b % 128
  }

  function Low4(b: byte): nat {
    b % 16
  }

  lemma {:induction false} VarintValueMore(s: seq<byte>, b: byte)
    ensures VarintValue(s + [b]) == VarintValue(s) + Low7(b) * Pow128(|s|)
  {
    if |s| == 0 {
      assert [] + [b] == [b] && [b][1..] == [];
    } else {
      assert (s + [b])[1..] == s[1..] + [b];
      VarintValueMore(s[1..], b);
      Scales(Low7(b), Pow128(|s| - 1));
    }
  }

  lemma Scales(x: nat, p: nat)
    ensures 128 * (x * p) == x * (128 * p)
  {}

  lemma VarintValuePrefix(s: seq<byte>, n: nat)
    requires n < |s|
    ensures VarintValue(s[..n + 1]) == VarintValue(s[..n]) + Low7(s[n]) * Pow128(n)
  {
    assert s[..n + 1] == s[..n] + [s[n]];
    VarintValueMore(s[..n], s[n]);
  }

  // ---------------------------------------------------------------------------
  // The scan
  // ---------------------------------------------------------------------------

  /** scan_varint: where the varint at the front ends, if within `max` bytes. */
  method ScanVarint(s: seq<byte>, max: nat) returns (n: nat)
    ensures n == VarintEnd(s, max)
  {
    var len := if |s| > max then max else |s|;
    var i := 0;
    while i < len
      invariant 0 <= i <= len && forall j | 0 <= j < i :: s[j] >= 128
    {
      if s[i] < 128 {
        LeadingIs(s, i);
        return i + 1;
      }
      i := i + 1;
    }
    n := 0;
  }

  /** parse_tag_and_wiretype: the low three bits are the wire type, the rest the number. */
  method ParseTag(s: seq<byte>) returns (used: nat, tag: uint32, wire: nat)
    requires |s| > 0
    ensures used == VarintEnd(s, 5)
    ensures used > 0 ==> tag == VarintValue(s[..used]) / 8 % UINT32 && wire == VarintValue(s[..used]) % 8
  {
    var max := if |s| > 5 then 5 else |s|;
    var value: nat := s[0] % 128 / 8;
    wire := s[0] % 8;
    tag := value;
    FirstByteOfTag(s);
    if s[0] < 128 {
      LeadingIs(s, 0);
      return 1, tag, wire;
    }
    var shift: nat := 16;
    used := 1;
    while used < max
      invariant 1 <= used <= max && shift == 16 * Pow128(used - 1)
      invariant forall j | 0 <= j < used :: s[j] >= 128
      invariant value == VarintValue(s[..used]) / 8 && wire == VarintValue(s[..used]) % 8
    {
      AddsAboveTag(s, used);
      value := value + Low7(s[used]) * shift;
      if s[used] < 128 {
        LeadingIs(s, used);
        tag := value % UINT32;
        return used + 1, tag, wire;
      }
      shift := shift * 128;
      used := used + 1;
    }
    used := 0;
  }

  lemma FirstByteOfTag(s: seq<byte>)
    requires |s| > 0
    ensures VarintValue(s[..1]) == s[0] % 128
    ensures VarintValue(s[..1]) / 8 == s[0] % 128 / 8 && VarintValue(s[..1]) % 8 == s[0] % 8
  {
    assert s[..1][1..] == [];
  }

  /** A byte more adds to the number, which stands above the three bits of the wire type. */
  lemma AddsAboveTag(s: seq<byte>, used: nat)
    requires 0 < used < |s|
    ensures var v, w := VarintValue(s[..used]), VarintValue(s[..used + 1]);
      w / 8 == v / 8 + Low7(s[used]) * (16 * Pow128(used - 1)) && w % 8 == v % 8
  {
    VarintValuePrefix(s, used);
    AddsEight(VarintValue(s[..used]), Low7(s[used]), Pow128(used - 1));
  }

  lemma AddsEight(v: nat, x: nat, p: nat)
    ensures (v + x * (128 * p)) / 8 == v / 8 + x * (16 * p) && (v + x * (128 * p)) % 8 == v % 8
  {
    assert x * (128 * p) == 8 * (x * (16 * p));
  }

  /** scan_length_prefixed_data: the length in front, and how far the 32-bit sum says the body
      reaches; 0 is an error. */
  method ScanLengthPrefixed(s: seq<byte>) returns (len: nat, prefix: nat)
    ensures match Extent32(s)
      case NoExtent => len == 0
      case Extent(n, p) => len == n && prefix == p
  {
    var hdrMax := if |s| < 5 then |s| else 5;
    var val: nat, shift: nat := 0, 1;
    var i := 0;
    len, prefix := 0, 0;
    while i < hdrMax
      invariant 0 <= i <= hdrMax && shift == Pow128(i) && val == VarintValue(s[..i])
      invariant forall j | 0 <= j < i :: s[j] >= 128
    {
      VarintValuePrefix(s, i);
      val := val + Low7(s[i]) * shift;
      if s[i] < 128 {
        break;
      }
      shift := 128 * shift;
      i := i + 1;
    }
    if i == hdrMax {
      return;
    }
    LeadingIs(s, i);
    var hdrLen := i + 1;
    prefix := hdrLen;
    var sum := (hdrLen + val % UINT32) % UINT32;
    if sum > |s| {
      return;
    }
    len := sum;
  }

  /** The sum wraps only behind a length of five bytes, and then to at most four. */
  lemma SumWraps(s: seq<byte>)
    ensures PrefixSum(s) % UINT32 == if PrefixSum(s) < UINT32 then PrefixSum(s) else PrefixSum(s) - UINT32
    ensures PrefixSum(s) >= UINT32 ==> VarintEnd(s, 5) == 5 && PrefixSum(s) - UINT32 <= 4
  {
    var n := VarintEnd(s, 5);
    VarintValueBelow(s[..n]);
    if n < 5 {
      Pow128Small(n);
      SmallRemainder(VarintValue(s[..n]), UINT32);
    }
  }

  /** The 32-bit extent is the true one exactly when the sum fits; when it does not, it is what is over,
      and lies inside the five bytes of the length. */
  lemma {:induction false} Extent32IsTrue(s: seq<byte>)
    ensures Extent32(s) == BodyExtent(PREFIXED, s) <==> PrefixFits(s)
    ensures !PrefixFits(s) && PrefixSum(s) > UINT32 ==> Extent32(s) == Extent(PrefixSum(s) - UINT32, 5)
  {
    SumWraps(s);
  }

  /** Five bytes that say a length. */
  lemma FiveByteLength(head: seq<byte>, rest: seq<byte>)
    requires |head| == 5 && head[4] < 128 && forall i | 0 <= i < 4 :: head[i] >= 128
    ensures var s := head + rest;
      VarintEnd(s, 5) == 5 && s[..5] == head
  {
    var s := head + rest;
    assert forall i | 0 <= i < 5 :: s[i] == head[i];
    LeadingIs(s, 4);
  }

  /** A length that wraps: 2^32 - 1 and the five bytes that say it make 4. A body of four bytes is found,
      all of them bytes of the length, where there should be an error. */
  lemma LengthThatWraps(rest: seq<byte>)
    ensures var s := [0xFF, 0xFF, 0xFF, 0xFF, 0x0F] + rest;
      !PrefixFits(s) && Extent32(s) == Extent(4, 5) && (|s| < UINT32 ==> BodyExtent(PREFIXED, s) == NoExtent)
  {
    var head := [0xFF, 0xFF, 0xFF, 0xFF, 0x0F];
    FiveByteLength(head, rest);
    FiveBytes(head);
    assert head[5..] == [];
    assert PrefixSum(head + rest) == UINT32 + 4;
    Extent32IsTrue(head + rest);
  }

  /** The least length that wraps, 2^32 - 5, makes 0, which is refused as it should be. */
  lemma LengthThatWrapsToNothing(rest: seq<byte>)
    requires 5 + |rest| < UINT32
    ensures var s := [0xFB, 0xFF, 0xFF, 0xFF, 0x0F] + rest;
      PrefixSum(s) == UINT32 && Extent32(s) == NoExtent == BodyExtent(PREFIXED, s)
  {
    var head := [0xFB, 0xFF, 0xFF, 0xFF, 0x0F];
    FiveByteLength(head, rest);
    FiveBytes(head);
    assert head[5..] == [];
    Extent32IsTrue(head + rest);
  }

  lemma {:induction false} VarintValueBelow(s: seq<byte>)
    ensures VarintValue(s) < Pow128(|s|)
  {
    if |s| > 0 {
      VarintValueBelow(s[1..]);
    }
  }

  lemma {:induction false} Pow128Small(n: nat)
    requires n < 5
    ensures Pow128(n) <= 0x1000_0000
  {
    var a, b, c, d := Pow128(0), Pow128(1), Pow128(2), Pow128(3);
    assert b == 128 * a && c == 128 * b && d == 128 * c && Pow128(4) == 128 * d;
  }

  /** max_b128_numbers. */
  method MaxB128Numbers(s: seq<byte>) returns (rv: nat)
    ensures rv == Ends(s)
  {
    rv := 0;
    var i := 0;
    assert s[0..] == s;
    while i < |s|
      invariant 0 <= i <= |s| && rv + Ends(s[i..]) == Ends(s)
    {
      assert s[i..][1..] == s[i + 1..];
      if s[i] < 128 {
        rv := rv + 1;
      }
      i := i + 1;
    }
  }

  // ---------------------------------------------------------------------------
  // Values
  // ---------------------------------------------------------------------------

  lemma {:induction false} FiveBytes(s: seq<byte>)
    requires |s| >= 5
    ensures VarintValue(s) == Low7(s[0]) + 0x80 * Low7(s[1]) + 0x4000 * Low7(s[2])
      + 0x20_0000 * Low7(s[3]) + 0x1000_0000 * Low7(s[4]) + 0x8_0000_0000 * VarintValue(s[5..])
  {
    assert s[1..][1..] == s[2..] && s[2..][1..] == s[3..] && s[3..][1..] == s[4..] && s[4..][1..] == s[5..];
    assert VarintValue(s[4..]) == s[4] % 128 + 128 * VarintValue(s[5..]);
    assert VarintValue(s[3..]) == s[3] % 128 + 128 * VarintValue(s[4..]);
    assert VarintValue(s[2..]) == s[2] % 128 + 128 * VarintValue(s[3..]);
    assert VarintValue(s[1..]) == s[1] % 128 + 128 * VarintValue(s[2..]);
  }

  lemma {:induction false} UpToFourBytes(s: seq<byte>)
    requires 1 <= |s| <= 4
    ensures VarintValue(s) == Low7(s[0])
      + (if |s| > 1 then 0x80 * Low7(s[1]) else 0)
      + (if |s| > 2 then 0x4000 * Low7(s[2]) else 0)
      + (if |s| > 3 then 0x20_0000 * Low7(s[3]) else 0)
  {
    VarintFront(s);
    if |s| > 1 {
      VarintFront(s[1..]);
      assert s[1..][1..] == s[2..];
    }
    if |s| > 2 {
      VarintFront(s[2..]);
      assert s[2..][1..] == s[3..];
    }
    if |s| > 3 {
      VarintFront(s[3..]);
      assert s[3..][1..] == s[4..];
    }
  }

  lemma {:induction false} VarintFront(s: seq<byte>)
    requires |s| > 0
    ensures VarintValue(s) == Low7(s[0]) + if |s| > 1 then 128 * VarintValue(s[1..]) else 0
  {}

  /** The fifth byte is shifted by 28 without its top bit being cleared; what does not fit is lost. */
  lemma FifthByte(low: nat, b: byte, rest: nat)
    requires low < 0x1000_0000
    ensures (low + 0x1000_0000 * Low7(b) + 0x8_0000_0000 * rest) % UINT32 == low + 0x1000_0000 * Low4(b)
  {
    var q := Low7(b) / 16;
    assert Low7(b) == 16 * q + Low4(b);
    UniqueRemainder(low + 0x1000_0000 * Low7(b) + 0x8_0000_0000 * rest, UINT32,
      q + 8 * rest, low + 0x1000_0000 * Low4(b));
  }

  /** parse_uint32. */
  method ParseUint32(s: seq<byte>) returns (rv: uint32)
    requires |s| >= 1
    ensures rv == VarintValue(s) % UINT32
  {
    var v: nat := s[0] % 128;
    if |s| > 1 {
      v := v + Low7(s[1]) * 0x80;
      if |s| > 2 {
        v := v + Low7(s[2]) * 0x4000;
        if |s| > 3 {
          v := v + Low7(s[3]) * 0x20_0000;
          if |s| > 4 {
            FiveBytes(s);
            FifthByte(v, s[4], VarintValue(s[5..]));
            v := v + 0x1000_0000 * Low4(s[4]);
          }
        }
      }
    }
    if |s| <= 4 {
      UpToFourBytes(s);
      assert v == VarintValue(s);
      SmallRemainder(v, UINT32);
    }
    rv := v;
  }

  /** parse_uint64, of at most ten bytes. */
  method ParseUint64(s: seq<byte>) returns (rv: uint64)
    requires 1 <= |s| <= 10
    ensures rv == VarintValue(s) % UINT64
  {
    if |s| < 5 {
      rv := ParseUint32(s);
      ShortOf64(s);
      return;
    }
    var v: nat := Low7(s[0]) + Low7(s[1]) * 0x80 + Low7(s[2]) * 0x4000 + Low7(s[3]) * 0x20_0000;
    StartOf64(s, v);
    rv := ParseRest64(s, v);
  }

  /** The loop of parse_uint64, from the fifth byte on. */
  method ParseRest64(s: seq<byte>, start: nat) returns (v: nat)
    requires 4 <= |s| && start == VarintValue(s[..4]) % UINT64
    ensures v == VarintValue(s) % UINT64
  {
    v := start;
    var shift: nat := 0x1000_0000;
    var i: nat := 4;
    assert shift == Pow128(i);
    while i < |s|
      invariant 4 <= i <= |s| && shift == Pow128(i) && v == VarintValue(s[..i]) % UINT64
    {
      StepOf64(s, i, v, shift);
      v := (v + Low7(s[i]) * shift) % UINT64;
      shift := 128 * shift;
      i := i + 1;
    }
    assert s[..i] == s;
  }

  lemma {:induction false} ShortOf64(s: seq<byte>)
    requires 1 <= |s| <= 4
    ensures VarintValue(s) % UINT64 == VarintValue(s) % UINT32
  {
    UpToFourBytes(s);
    SmallRemainder(VarintValue(s), UINT64);
    SmallRemainder(VarintValue(s), UINT32);
  }

  lemma StartOf64(s: seq<byte>, v: nat)
    requires |s| >= 5 && v == Low7(s[0]) + Low7(s[1]) * 0x80 + Low7(s[2]) * 0x4000 + Low7(s[3]) * 0x20_0000
    ensures v == VarintValue(s[..4]) % UINT64
  {
    UpToFourBytes(s[..4]);
    SmallRemainder(v, UINT64);
  }

  lemma StepOf64(s: seq<byte>, i: nat, v: nat, shift: nat)
    requires i < |s| && shift == Pow128(i) && v == VarintValue(s[..i]) % UINT64
    ensures (v + Low7(s[i]) * shift) % UINT64 == VarintValue(s[..i + 1]) % UINT64
  {
    VarintValuePrefix(s, i);
    AddRemainder(VarintValue(s[..i]), Low7(s[i]) * shift, UINT64);
  }

  /** parse_boolean. */
  method ParseBoolean(s: seq<byte>) returns (rv: bool)
    ensures rv == (VarintValue(s) != 0)
  {
    var i := 0;
    assert s[0..] == s;
    while i < |s|
      invariant 0 <= i <= |s| && (VarintValue(s[i..]) != 0 <==> VarintValue(s) != 0)
    {
      assert s[i..][1..] == s[i + 1..];
      if s[i] % 128 != 0 {
        return true;
      }
      i := i + 1;
    }
    rv := false;
  }

  /** The scalar cases of parse_required_member and of the packed loops. */
  method ParseWord(t: FieldType, s: seq<byte>) returns (u: nat)
    requires IsScalar(t) && LongEnough(t, s) && (WireOf(t) == VARINT && t != Bool ==> |s| <= 10)
    ensures u == DecodeWord(t, s)
  {
    match t {
      case Int32 | Uint32 | Enum => u := ParseUint32(s);
      case Sint32 =>
        var v := ParseUint32(s);
        u := Unzigzag(v, HALF32);
      case Sfixed32 | Fixed32 | Float => u := FromLittle4(s);
      case Int64 | Uint64 => u := ParseUint64(s);
      case Sint64 =>
        var v := ParseUint64(s);
        u := Unzigzag(v, HALF64);
      case Sfixed64 | Fixed64 | Double => u := FromLittle8(s);
      case Bool =>
        var b := ParseBoolean(s);
        u := if b then 1 else 0;
    }
  }
}
