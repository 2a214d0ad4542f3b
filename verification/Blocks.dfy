/** 128-bit cipher blocks: bytewise XOR, and the doubling and tripling steps that
    src/crypt.c performs in place on blocks stored as machine words. */
module Blocks {

  const BLOCK_SIZE := 16

  /** A block as it lies in memory: sixteen bytes, most significant first. */
  type Block = b: seq<bv8> | |b| == BLOCK_SIZE witness seq(BLOCK_SIZE, _ => 0)

  function Zero(): Block { seq(BLOCK_SIZE, _ => 0) }

  function Xor(a: seq<bv8>, b: seq<bv8>): (r: seq<bv8>)
    requires |a| == |b|
    ensures |r| == |a|
  {
    seq(|a|, i requires 0 <= i < |a| => a[i] ^ b[i])
  }

  lemma XorCancels(a: seq<bv8>, b: seq<bv8>)
    requires |a| == |b|
    ensures Xor(a, Xor(a, b)) == b
    ensures Xor(Xor(a, b), a) == b
    ensures Xor(Xor(a, b), b) == a
  {
    forall i | 0 <= i < |a|
      ensures Xor(a, Xor(a, b))[i] == b[i] && Xor(Xor(a, b), a)[i] == b[i] && Xor(Xor(a, b), b)[i] == a[i]
    {
      assert a[i] ^ (a[i] ^ b[i]) == b[i] && (a[i] ^ b[i]) ^ a[i] == b[i] && (a[i] ^ b[i]) ^ b[i] == a[i];
    }
  }

  // ---------------------------------------------------------------------------
  // Doubling in GF(2^128), stated on memory bytes
  // ---------------------------------------------------------------------------

  /** Doubling, one byte at a time: every byte takes the top bit of its right neighbour
      and the last byte absorbs the reduction constant. */
  function Doubled(b: Block): (r: Block) {
    seq(BLOCK_SIZE, i requires 0 <= i < BLOCK_SIZE => DoubledByte(b, i))
  }

  function DoubledByte(b: Block, i: nat): bv8
    requires i < BLOCK_SIZE
  {
    if i < BLOCK_SIZE - 1 then Carried(b[i], b[i + 1]) else Reduced(b[i], b[0])
  }

  /** A byte shifted left, taking in the top bit of the byte to its right. */
  function Carried(x: bv8, right: bv8): bv8 { (x << 1) | (right >> 7) }

  /** The last byte shifted left and, when the first byte loses a bit, reduced. */
  function Reduced(x: bv8, first: bv8): bv8 { (x << 1) ^ ((first >> 7) * 0x87) }

  function Tripled(b: Block): (r: Block) {
    Xor(b, Doubled(b))
  }

  /** The whole block as one 128-bit big-endian number. */
  function Number(b: Block): bv128 {
    Join128(b[0], b[1], b[2], b[3], b[4], b[5], b[6], b[7], b[8], b[9], b[10], b[11], b[12], b[13], b[14], b[15])
  }

  function Join128(a: bv8, b: bv8, c: bv8, d: bv8, e: bv8, f: bv8, g: bv8, h: bv8,
                   i: bv8, j: bv8, k: bv8, l: bv8, m: bv8, n: bv8, o: bv8, p: bv8): bv128
  {
    (a as bv128 << 120) | (b as bv128 << 112) | (c as bv128 << 104) | (d as bv128 << 96) |
    (e as bv128 << 88) | (f as bv128 << 80) | (g as bv128 << 72) | (h as bv128 << 64) |
    (i as bv128 << 56) | (j as bv128 << 48) | (k as bv128 << 40) | (l as bv128 << 32) |
    (m as bv128 << 24) | (n as bv128 << 16) | (o as bv128 << 8) | (p as bv128)
  }

  /** Doubling of a 128-bit number, clause 6 of ISO/IEC 19772:2009. */
  function DoubledNumber(x: bv128): bv128 {
    (x << 1) ^ (if x >> 127 == 1 then 0x87 else 0)
  }

  /** Tripling adds the number itself. */
  lemma NumberTripled(b: Block)
    ensures Number(Tripled(b)) == Number(b) ^ Number(Doubled(b))
  {
    NumberXor(b, Doubled(b));
  }

  /** The byte rule is the doubling of the block's number. */
  lemma NumberDoubled(b: Block)
    ensures Number(Doubled(b)) == DoubledNumber(Number(b))
  {
    var d := Doubled(b);
    assert d[0] == DoubledByte(b, 0) && d[1] == DoubledByte(b, 1)
        && d[2] == DoubledByte(b, 2) && d[3] == DoubledByte(b, 3);
    assert d[4] == DoubledByte(b, 4) && d[5] == DoubledByte(b, 5)
        && d[6] == DoubledByte(b, 6) && d[7] == DoubledByte(b, 7);
    assert d[8] == DoubledByte(b, 8) && d[9] == DoubledByte(b, 9)
        && d[10] == DoubledByte(b, 10) && d[11] == DoubledByte(b, 11);
    assert d[12] == DoubledByte(b, 12) && d[13] == DoubledByte(b, 13)
        && d[14] == DoubledByte(b, 14) && d[15] == DoubledByte(b, 15);
    JoinDoubled(b[0], b[1], b[2], b[3], b[4], b[5], b[6], b[7], b[8], b[9], b[10], b[11], b[12], b[13], b[14], b[15]);
  }

  lemma NumberXor(x: Block, y: Block)
    ensures Number(Xor(x, y)) == Number(x) ^ Number(y)
  {
    XorBytes(x, y, Xor(x, y));
    SumNumber(x, y, Xor(x, y));
  }

  lemma XorBytes(x: Block, y: Block, z: Block)
    requires z == Xor(x, y)
    ensures z[0] == x[0] ^ y[0] && z[1] == x[1] ^ y[1] && z[2] == x[2] ^ y[2] && z[3] == x[3] ^ y[3]
    ensures z[4] == x[4] ^ y[4] && z[5] == x[5] ^ y[5] && z[6] == x[6] ^ y[6] && z[7] == x[7] ^ y[7]
    ensures z[8] == x[8] ^ y[8] && z[9] == x[9] ^ y[9] && z[10] == x[10] ^ y[10] && z[11] == x[11] ^ y[11]
    ensures z[12] == x[12] ^ y[12] && z[13] == x[13] ^ y[13] && z[14] == x[14] ^ y[14] && z[15] == x[15] ^ y[15]
  {}

  lemma SumNumber(x: Block, y: Block, z: Block)
    requires z[0] == x[0] ^ y[0] && z[1] == x[1] ^ y[1] && z[2] == x[2] ^ y[2] && z[3] == x[3] ^ y[3]
    requires z[4] == x[4] ^ y[4] && z[5] == x[5] ^ y[5] && z[6] == x[6] ^ y[6] && z[7] == x[7] ^ y[7]
    requires z[8] == x[8] ^ y[8] && z[9] == x[9] ^ y[9] && z[10] == x[10] ^ y[10] && z[11] == x[11] ^ y[11]
    requires z[12] == x[12] ^ y[12] && z[13] == x[13] ^ y[13] && z[14] == x[14] ^ y[14] && z[15] == x[15] ^ y[15]
    ensures Number(z) == Number(x) ^ Number(y)
  {}

  /** Two blocks with the same number are the same block. */
  lemma NumberInjective(x: Block, y: Block)
    requires Number(x) == Number(y)
    ensures x == y
  {
    JoinInjective(x[0], x[1], x[2], x[3], x[4], x[5], x[6], x[7], x[8], x[9], x[10], x[11], x[12], x[13], x[14], x[15],
                  y[0], y[1], y[2], y[3], y[4], y[5], y[6], y[7], y[8], y[9], y[10], y[11], y[12], y[13], y[14], y[15]);
  }

  lemma JoinDoubled(a: bv8, b: bv8, c: bv8, d: bv8, e: bv8, f: bv8, g: bv8, h: bv8,
                    i: bv8, j: bv8, k: bv8, l: bv8, m: bv8, n: bv8, o: bv8, p: bv8)
    ensures Join128(Carried(a, b), Carried(b, c), Carried(c, d), Carried(d, e), Carried(e, f), Carried(f, g),
                    Carried(g, h), Carried(h, i), Carried(i, j), Carried(j, k), Carried(k, l), Carried(l, m),
                    Carried(m, n), Carried(n, o), Carried(o, p), Reduced(p, a))
         == DoubledNumber(Join128(a, b, c, d, e, f, g, h, i, j, k, l, m, n, o, p))
  {
    assert a >> 7 == 0 || a >> 7 == 1;
  }

  lemma JoinInjective(a: bv8, b: bv8, c: bv8, d: bv8, e: bv8, f: bv8, g: bv8, h: bv8,
                      i: bv8, j: bv8, k: bv8, l: bv8, m: bv8, n: bv8, o: bv8, p: bv8,
                      a': bv8, b': bv8, c': bv8, d': bv8, e': bv8, f': bv8, g': bv8, h': bv8,
                      i': bv8, j': bv8, k': bv8, l': bv8, m': bv8, n': bv8, o': bv8, p': bv8)
    requires Join128(a, b, c, d, e, f, g, h, i, j, k, l, m, n, o, p)
          == Join128(a', b', c', d', e', f', g', h', i', j', k', l', m', n', o', p')
    ensures a == a' && b == b' && c == c' && d == d' && e == e' && f == f' && g == g' && h == h'
    ensures i == i' && j == j' && k == k' && l == l' && m == m' && n == n' && o == o' && p == p'
  {}

  // ---------------------------------------------------------------------------
  // Machine words and the bytes they occupy
  // ---------------------------------------------------------------------------

  /** The memory bytes of SWAPPED(w) for a 64-bit word. */
  function Octets64(w: bv64): (s: seq<bv8>)
    ensures |s| == 8
  {
    [(w >> 56) as bv8, ((w >> 48) & 0xFF) as bv8, ((w >> 40) & 0xFF) as bv8, ((w >> 32) & 0xFF) as bv8,
     ((w >> 24) & 0xFF) as bv8, ((w >> 16) & 0xFF) as bv8, ((w >> 8) & 0xFF) as bv8, (w & 0xFF) as bv8]
  }

  /** The memory bytes of SWAPPED(w) for a 32-bit word. */
  function Octets32(w: bv32): (s: seq<bv8>)
    ensures |s| == 4
  {
    [(w >> 24) as bv8, ((w >> 16) & 0xFF) as bv8, ((w >> 8) & 0xFF) as bv8, (w & 0xFF) as bv8]
  }

  /** SWAPPED(block[i]) on the layout of two 64-bit words. */
  method LoadWide(block: array<bv8>, i: nat) returns (w: bv64)
    requires block.Length == BLOCK_SIZE && i < 2
    ensures Octets64(w) == block[8 * i..8 * i + 8]
  {
    var o := 8 * i;
    w := (block[o] as bv64 << 56) | (block[o + 1] as bv64 << 48) | (block[o + 2] as bv64 << 40)
       | (block[o + 3] as bv64 << 32) | (block[o + 4] as bv64 << 24) | (block[o + 5] as bv64 << 16)
       | (block[o + 6] as bv64 << 8) | (block[o + 7] as bv64);
  }

  /** SWAPPED(block[i]) on the layout of four 32-bit words. */
  method LoadNarrow(block: array<bv8>, i: nat) returns (w: bv32)
    requires block.Length == BLOCK_SIZE && i < 4
    ensures Octets32(w) == block[4 * i..4 * i + 4]
  {
    var o := 4 * i;
    w := (block[o] as bv32 << 24) | (block[o + 1] as bv32 << 16) | (block[o + 2] as bv32 << 8) | (block[o + 3] as bv32);
  }

  /** block[i] = SWAPPED(w) on 64-bit words. */
  method StoreWide(block: array<bv8>, i: nat, w: bv64)
    requires block.Length == BLOCK_SIZE && i < 2
    modifies block
    ensures block[..] == old(block[..8 * i]) + Octets64(w) + old(block[8 * i + 8..])
  {
    var s := Octets64(w);
    for k := 0 to 8
      invariant forall j :: 0 <= j < 16 ==>
        block[j] == if 8 * i <= j < 8 * i + k then s[j - 8 * i] else old(block[j])
    {
      block[8 * i + k] := s[k];
    }
  }

  /** block[i] = SWAPPED(w) on 32-bit words. */
  method StoreNarrow(block: array<bv8>, i: nat, w: bv32)
    requires block.Length == BLOCK_SIZE && i < 4
    modifies block
    ensures block[..] == old(block[..4 * i]) + Octets32(w) + old(block[4 * i + 4..])
  {
    var s := Octets32(w);
    for k := 0 to 4
      invariant forall j :: 0 <= j < 16 ==>
        block[j] == if 4 * i <= j < 4 * i + k then s[j - 4 * i] else old(block[j])
    {
      block[4 * i + k] := s[k];
    }
  }

  lemma Octets64Doubled(h: bv64, l: bv64)
    ensures var H, L := Octets64(h), Octets64(l);
      Octets64((h << 1) | (l >> 63))
        == [Carried(H[0], H[1]), Carried(H[1], H[2]), Carried(H[2], H[3]), Carried(H[3], H[4]),
            Carried(H[4], H[5]), Carried(H[5], H[6]), Carried(H[6], H[7]), Carried(H[7], L[0])]
  {}

  lemma Octets64LastDoubled(h: bv64, l: bv64)
    ensures var H, L := Octets64(h), Octets64(l);
      Octets64((l << 1) ^ ((h >> 63) * 0x87))
        == [Carried(L[0], L[1]), Carried(L[1], L[2]), Carried(L[2], L[3]), Carried(L[3], L[4]),
            Carried(L[4], L[5]), Carried(L[5], L[6]), Carried(L[6], L[7]), Reduced(L[7], H[0])]
  {
    assert h >> 63 == 0 || h >> 63 == 1;
  }

  lemma Octets32Doubled(h: bv32, l: bv32)
    ensures var H, L := Octets32(h), Octets32(l);
      Octets32((h << 1) | (l >> 31))
        == [Carried(H[0], H[1]), Carried(H[1], H[2]), Carried(H[2], H[3]), Carried(H[3], L[0])]
  {}

  lemma Octets32LastDoubled(h: bv32, l: bv32)
    ensures var H, L := Octets32(h), Octets32(l);
      Octets32((l << 1) ^ ((h >> 31) * 0x87))
        == [Carried(L[0], L[1]), Carried(L[1], L[2]), Carried(L[2], L[3]), Reduced(L[3], H[0])]
  {
    assert h >> 31 == 0 || h >> 31 == 1;
  }

  lemma Bytes64Xor(v: bv64, w: bv64)
    ensures ((v ^ w) >> 56) as bv8 == ((v >> 56) as bv8) ^ ((w >> 56) as bv8)
    ensures (((v ^ w) >> 48) & 0xFF) as bv8 == (((v >> 48) & 0xFF) as bv8) ^ (((w >> 48) & 0xFF) as bv8)
    ensures (((v ^ w) >> 40) & 0xFF) as bv8 == (((v >> 40) & 0xFF) as bv8) ^ (((w >> 40) & 0xFF) as bv8)
    ensures (((v ^ w) >> 32) & 0xFF) as bv8 == (((v >> 32) & 0xFF) as bv8) ^ (((w >> 32) & 0xFF) as bv8)
    ensures (((v ^ w) >> 24) & 0xFF) as bv8 == (((v >> 24) & 0xFF) as bv8) ^ (((w >> 24) & 0xFF) as bv8)
    ensures (((v ^ w) >> 16) & 0xFF) as bv8 == (((v >> 16) & 0xFF) as bv8) ^ (((w >> 16) & 0xFF) as bv8)
    ensures (((v ^ w) >> 8) & 0xFF) as bv8 == (((v >> 8) & 0xFF) as bv8) ^ (((w >> 8) & 0xFF) as bv8)
    ensures ((v ^ w) & 0xFF) as bv8 == ((v & 0xFF) as bv8) ^ ((w & 0xFF) as bv8)
  {}

  lemma Bytes32Xor(v: bv32, w: bv32)
    ensures ((v ^ w) >> 24) as bv8 == ((v >> 24) as bv8) ^ ((w >> 24) as bv8)
    ensures (((v ^ w) >> 16) & 0xFF) as bv8 == (((v >> 16) & 0xFF) as bv8) ^ (((w >> 16) & 0xFF) as bv8)
    ensures (((v ^ w) >> 8) & 0xFF) as bv8 == (((v >> 8) & 0xFF) as bv8) ^ (((w >> 8) & 0xFF) as bv8)
    ensures ((v ^ w) & 0xFF) as bv8 == ((v & 0xFF) as bv8) ^ ((w & 0xFF) as bv8)
  {}

  // ---------------------------------------------------------------------------
  // The same facts read against the block in memory
  // ---------------------------------------------------------------------------

  /** The doubled bytes of a run `x` whose right neighbour is `right`. */
  function CarriedRun(x: seq<bv8>, right: bv8): (r: seq<bv8>)
    ensures |r| == |x|
  {
    seq(|x|, i requires 0 <= i < |x| => Carried(x[i], if i + 1 < |x| then x[i + 1] else right))
  }

  /** The doubled bytes of the last run of a block whose first byte is `first`. */
  function ReducedRun(x: seq<bv8>, first: bv8): (r: seq<bv8>)
    ensures |r| == |x|
  {
    seq(|x|, i requires 0 <= i < |x| => if i + 1 < |x| then Carried(x[i], x[i + 1]) else Reduced(x[i], first))
  }

  lemma Octets64Runs(h: bv64, l: bv64)
    ensures Octets64((h << 1) | (l >> 63)) == CarriedRun(Octets64(h), Octets64(l)[0])
    ensures Octets64((l << 1) ^ ((h >> 63) * 0x87)) == ReducedRun(Octets64(l), Octets64(h)[0])
  {
    Octets64Doubled(h, l);
    Octets64LastDoubled(h, l);
    DisplayRun8(Octets64(h), Octets64(l)[0]);
    DisplayRun8(Octets64(l), Octets64(h)[0]);
  }

  lemma DisplayRun8(x: seq<bv8>, other: bv8)
    requires |x| == 8
    ensures CarriedRun(x, other)
      == [Carried(x[0], x[1]), Carried(x[1], x[2]), Carried(x[2], x[3]), Carried(x[3], x[4]),
          Carried(x[4], x[5]), Carried(x[5], x[6]), Carried(x[6], x[7]), Carried(x[7], other)]
    ensures ReducedRun(x, other)
      == [Carried(x[0], x[1]), Carried(x[1], x[2]), Carried(x[2], x[3]), Carried(x[3], x[4]),
          Carried(x[4], x[5]), Carried(x[5], x[6]), Carried(x[6], x[7]), Reduced(x[7], other)]
  {}

  lemma Octets32Runs(h: bv32, l: bv32)
    ensures Octets32((h << 1) | (l >> 31)) == CarriedRun(Octets32(h), Octets32(l)[0])
    ensures Octets32((l << 1) ^ ((h >> 31) * 0x87)) == ReducedRun(Octets32(l), Octets32(h)[0])
  {
    Octets32Doubled(h, l);
    Octets32LastDoubled(h, l);
  }

  lemma Octets64At(w: bv64)
    ensures Octets64(w)[0] == (w >> 56) as bv8
    ensures Octets64(w)[1] == ((w >> 48) & 0xFF) as bv8
    ensures Octets64(w)[2] == ((w >> 40) & 0xFF) as bv8
    ensures Octets64(w)[3] == ((w >> 32) & 0xFF) as bv8
    ensures Octets64(w)[4] == ((w >> 24) & 0xFF) as bv8
    ensures Octets64(w)[5] == ((w >> 16) & 0xFF) as bv8
    ensures Octets64(w)[6] == ((w >> 8) & 0xFF) as bv8
    ensures Octets64(w)[7] == (w & 0xFF) as bv8
  {}

  lemma Octets32At(w: bv32)
    ensures Octets32(w)[0] == (w >> 24) as bv8
    ensures Octets32(w)[1] == ((w >> 16) & 0xFF) as bv8
    ensures Octets32(w)[2] == ((w >> 8) & 0xFF) as bv8
    ensures Octets32(w)[3] == (w & 0xFF) as bv8
  {}

  lemma Octets64XorRun(v: bv64, w: bv64)
    ensures Octets64(v ^ w) == Xor(Octets64(v), Octets64(w))
  {
    Bytes64Xor(v, w);
    Octets64At(v);
    Octets64At(w);
    Octets64At(v ^ w);
    SameRun8(Octets64(v ^ w), Octets64(v), Octets64(w));
  }

  lemma SameRun8(r: seq<bv8>, x: seq<bv8>, y: seq<bv8>)
    requires |r| == |x| == |y| == 8
    requires r[0] == x[0] ^ y[0] && r[1] == x[1] ^ y[1] && r[2] == x[2] ^ y[2] && r[3] == x[3] ^ y[3]
    requires r[4] == x[4] ^ y[4] && r[5] == x[5] ^ y[5] && r[6] == x[6] ^ y[6] && r[7] == x[7] ^ y[7]
    ensures r == Xor(x, y)
  {
    DisplayXor8(x, y);
    assert r == [r[0], r[1], r[2], r[3], r[4], r[5], r[6], r[7]];
  }

  lemma DisplayXor8(x: seq<bv8>, y: seq<bv8>)
    requires |x| == |y| == 8
    ensures Xor(x, y)
      == [x[0] ^ y[0], x[1] ^ y[1], x[2] ^ y[2], x[3] ^ y[3], x[4] ^ y[4], x[5] ^ y[5], x[6] ^ y[6], x[7] ^ y[7]]
  {
    var r := Xor(x, y);
    assert r[0] == x[0] ^ y[0] && r[1] == x[1] ^ y[1] && r[2] == x[2] ^ y[2] && r[3] == x[3] ^ y[3];
    assert r[4] == x[4] ^ y[4] && r[5] == x[5] ^ y[5] && r[6] == x[6] ^ y[6] && r[7] == x[7] ^ y[7];
    assert r == [r[0], r[1], r[2], r[3], r[4], r[5], r[6], r[7]];
  }

  lemma Octets32XorRun(v: bv32, w: bv32)
    ensures Octets32(v ^ w) == Xor(Octets32(v), Octets32(w))
  {
    Bytes32Xor(v, w);
    Octets32At(v);
    Octets32At(w);
    Octets32At(v ^ w);
    SameRun4(Octets32(v ^ w), Octets32(v), Octets32(w));
  }

  lemma SameRun4(r: seq<bv8>, x: seq<bv8>, y: seq<bv8>)
    requires |r| == |x| == |y| == 4
    requires r[0] == x[0] ^ y[0] && r[1] == x[1] ^ y[1] && r[2] == x[2] ^ y[2] && r[3] == x[3] ^ y[3]
    ensures r == Xor(x, y)
  {
    DisplayXor4(x, y);
    assert r == [r[0], r[1], r[2], r[3]];
  }

  lemma DisplayXor4(x: seq<bv8>, y: seq<bv8>)
    requires |x| == |y| == 4
    ensures Xor(x, y) == [x[0] ^ y[0], x[1] ^ y[1], x[2] ^ y[2], x[3] ^ y[3]]
  {
    var r := Xor(x, y);
    assert r[0] == x[0] ^ y[0] && r[1] == x[1] ^ y[1] && r[2] == x[2] ^ y[2] && r[3] == x[3] ^ y[3];
    assert r == [r[0], r[1], r[2], r[3]];
  }

  lemma RunOfDoubled(b: Block, o: nat, n: nat)
    requires o < o + n <= BLOCK_SIZE
    ensures o + n < BLOCK_SIZE ==> CarriedRun(b[o..o + n], b[o + n]) == Doubled(b)[o..o + n]
    ensures o + n == BLOCK_SIZE ==> ReducedRun(b[o..o + n], b[0]) == Doubled(b)[o..o + n]
  {
    var run, want := b[o..o + n], Doubled(b)[o..o + n];
    forall k | 0 <= k < n
      ensures want[k] == DoubledByte(b, o + k)
      ensures o + n < BLOCK_SIZE ==> CarriedRun(run, b[o + n])[k] == want[k]
      ensures o + n == BLOCK_SIZE ==> ReducedRun(run, b[0])[k] == want[k]
    {
      assert run[k] == b[o + k] && (k + 1 < n ==> run[k + 1] == b[o + k + 1]);
    }
  }

  lemma RunOfTripled(b: Block, o: nat, n: nat)
    requires o + n <= BLOCK_SIZE
    ensures Xor(b[o..o + n], Doubled(b)[o..o + n]) == Tripled(b)[o..o + n]
  {
    var sum, want := Xor(b[o..o + n], Doubled(b)[o..o + n]), Tripled(b)[o..o + n];
    forall k | 0 <= k < n
      ensures sum[k] == want[k]
    {
      assert want[k] == Tripled(b)[o + k] && Tripled(b)[o + k] == b[o + k] ^ Doubled(b)[o + k];
      assert sum[k] == b[o..o + n][k] ^ Doubled(b)[o..o + n][k];
    }
  }

  /** A stored word that holds a doubled run: as S2 leaves it, and as S3 leaves it. */
  lemma RunStored(b: Block, o: nat, run: seq<bv8>, doubled: seq<bv8>, tripled: seq<bv8>)
    requires o < o + |run| <= BLOCK_SIZE && run == b[o..o + |run|]
    requires |doubled| == |run| && tripled == Xor(run, doubled)
    requires doubled == if o + |run| < BLOCK_SIZE then CarriedRun(run, b[o + |run|]) else ReducedRun(run, b[0])
    ensures doubled == Doubled(b)[o..o + |run|]
    ensures tripled == Tripled(b)[o..o + |run|]
  {
    RunOfDoubled(b, o, |run|);
    RunOfTripled(b, o, |run|);
  }

  /** The first wide word S2 and S3 store, as a slice of the wanted block. */
  lemma WideSlice(b: Block, h: bv64, l: bv64)
    requires Octets64(h) == b[0..8] && Octets64(l) == b[8..16]
    ensures Octets64((h << 1) | (l >> 63)) == Doubled(b)[0..8]
    ensures Octets64(h ^ ((h << 1) | (l >> 63))) == Tripled(b)[0..8]
  {
    var x, y := Octets64(h), Octets64((h << 1) | (l >> 63));
    assert y == CarriedRun(x, b[8]) by { Octets64Runs(h, l); assert Octets64(l)[0] == b[8]; }
    Octets64XorRun(h, (h << 1) | (l >> 63));
    RunStored(b, 0, x, y, Octets64(h ^ ((h << 1) | (l >> 63))));
  }

  /** The last wide word S2 and S3 store. */
  lemma WideLastSlice(b: Block, h: bv64, l: bv64)
    requires Octets64(h) == b[0..8] && Octets64(l) == b[8..16]
    ensures Octets64((l << 1) ^ ((h >> 63) * 0x87)) == Doubled(b)[8..16]
    ensures Octets64(l ^ ((l << 1) ^ ((h >> 63) * 0x87))) == Tripled(b)[8..16]
  {
    WideLastRun(b, h, l);
    var d := (l << 1) ^ ((h >> 63) * 0x87);
    Octets64XorRun(l, d);
    RunStored(b, 8, Octets64(l), Octets64(d), Octets64(l ^ d));
  }

  lemma WideLastRun(b: Block, h: bv64, l: bv64)
    requires Octets64(h) == b[0..8]
    ensures Octets64((l << 1) ^ ((h >> 63) * 0x87)) == ReducedRun(Octets64(l), b[0])
  {
    Octets64Runs(h, l);
    assert Octets64(h)[0] == b[0];
  }

  /** The first three narrow words S2 and S3 store. */
  lemma NarrowSlice(b: Block, i: nat, w: bv32, next: bv32)
    requires i < 3 && Octets32(w) == b[4 * i..4 * i + 4] && Octets32(next) == b[4 * i + 4..4 * i + 8]
    ensures Octets32((w << 1) | (next >> 31)) == Doubled(b)[4 * i..4 * i + 4]
    ensures Octets32(w ^ ((w << 1) | (next >> 31))) == Tripled(b)[4 * i..4 * i + 4]
  {
    var x, y := Octets32(w), Octets32((w << 1) | (next >> 31));
    assert y == CarriedRun(x, b[4 * i + 4]) by { Octets32Runs(w, next); assert Octets32(next)[0] == b[4 * i + 4]; }
    Octets32XorRun(w, (w << 1) | (next >> 31));
    RunStored(b, 4 * i, x, y, Octets32(w ^ ((w << 1) | (next >> 31))));
  }

  /** The last narrow word S2 and S3 store. */
  lemma NarrowLastSlice(b: Block, first: bv32, w: bv32)
    requires Octets32(first) == b[0..4] && Octets32(w) == b[12..16]
    ensures Octets32((w << 1) ^ ((first >> 31) * 0x87)) == Doubled(b)[12..16]
    ensures Octets32(w ^ ((w << 1) ^ ((first >> 31) * 0x87))) == Tripled(b)[12..16]
  {
    var x, y := Octets32(w), Octets32((w << 1) ^ ((first >> 31) * 0x87));
    assert y == ReducedRun(x, b[0]) by { Octets32Runs(first, w); assert Octets32(first)[0] == b[0]; }
    Octets32XorRun(w, (w << 1) ^ ((first >> 31) * 0x87));
    RunStored(b, 12, x, y, Octets32(w ^ ((w << 1) ^ ((first >> 31) * 0x87))));
  }

  // ---------------------------------------------------------------------------
  // The in-place steps
  // ---------------------------------------------------------------------------

  /** A block whose first `n` bytes are already those of `want`. */
  ghost predicate Upto(now: seq<bv8>, was: Block, want: Block, n: nat)
    requires n <= BLOCK_SIZE
  {
    now == want[..n] + was[n..]
  }

  lemma UptoTail(now: seq<bv8>, was: Block, want: Block, n: nat, from: nat, to: nat)
    requires n <= from <= to <= BLOCK_SIZE && Upto(now, was, want, n)
    ensures |now| == BLOCK_SIZE && now[from..to] == was[from..to]
  {
    forall k | from <= k < to
      ensures now[k] == was[k]
    {}
  }

  lemma UptoStep(now: Block, was: Block, want: Block, n: nat, slice: seq<bv8>, next: seq<bv8>)
    requires n + |slice| <= BLOCK_SIZE && Upto(now, was, want, n)
    requires slice == want[n..n + |slice|] && next == now[..n] + slice + now[n + |slice|..]
    ensures Upto(next, was, want, n + |slice|)
  {
    forall k | 0 <= k < BLOCK_SIZE
      ensures next[k] == if k < n + |slice| then want[k] else was[k]
    {}
  }

  /** A word that has not been overwritten yet. */
  method TakeWide(block: array<bv8>, i: nat, ghost was: Block, ghost want: Block, ghost n: nat) returns (w: bv64)
    requires block.Length == BLOCK_SIZE && n <= 8 * i && 8 * i + 8 <= BLOCK_SIZE
    requires Upto(block[..], was, want, n)
    ensures Octets64(w) == was[8 * i..8 * i + 8]
  {
    UptoTail(block[..], was, want, n, 8 * i, 8 * i + 8);
    w := LoadWide(block, i);
    assert block[..][8 * i..8 * i + 8] == block[8 * i..8 * i + 8];
  }

  /** The next word of the wanted block. */
  method PutWide(block: array<bv8>, i: nat, w: bv64, ghost was: Block, ghost want: Block)
    requires block.Length == BLOCK_SIZE && 8 * i + 8 <= BLOCK_SIZE
    requires Upto(block[..], was, want, 8 * i) && Octets64(w) == want[8 * i..8 * i + 8]
    modifies block
    ensures Upto(block[..], was, want, 8 * i + 8)
  {
    ghost var before := block[..];
    StoreWide(block, i, w);
    UptoStep(before, was, want, 8 * i, Octets64(w), block[..]);
  }

  /** A word that has not been overwritten yet. */
  method TakeNarrow(block: array<bv8>, i: nat, ghost was: Block, ghost want: Block, ghost n: nat) returns (w: bv32)
    requires block.Length == BLOCK_SIZE && n <= 4 * i && 4 * i + 4 <= BLOCK_SIZE
    requires Upto(block[..], was, want, n)
    ensures Octets32(w) == was[4 * i..4 * i + 4]
  {
    UptoTail(block[..], was, want, n, 4 * i, 4 * i + 4);
    w := LoadNarrow(block, i);
    assert block[..][4 * i..4 * i + 4] == block[4 * i..4 * i + 4];
  }

  /** The next word of the wanted block. */
  method PutNarrow(block: array<bv8>, i: nat, w: bv32, ghost was: Block, ghost want: Block)
    requires block.Length == BLOCK_SIZE && 4 * i + 4 <= BLOCK_SIZE
    requires Upto(block[..], was, want, 4 * i) && Octets32(w) == want[4 * i..4 * i + 4]
    modifies block
    ensures Upto(block[..], was, want, 4 * i + 4)
  {
    ghost var before := block[..];
    StoreNarrow(block, i, w);
    UptoStep(before, was, want, 4 * i, Octets32(w), block[..]);
  }

  /** S2 on the layout of two 64-bit words. */
  method S2Wide(block: array<bv8>)
    requires block.Length == BLOCK_SIZE
    modifies block
    ensures block[..] == Doubled(old(block[..]))
  {
    ghost var was, want := block[..], Doubled(block[..]);
    var first := TakeWide(block, 0, was, want, 0);
    var carry := first >> 63;
    for i := 0 to 1
      invariant Upto(block[..], was, want, 8 * i)
    {
      var w := TakeWide(block, i, was, want, 8 * i);
      var next := TakeWide(block, i + 1, was, want, 8 * i);
      WideSlice(was, w, next);
      PutWide(block, i, (w << 1) | (next >> 63), was, want);
    }
    var w := TakeWide(block, 1, was, want, 8);
    WideLastSlice(was, first, w);
    PutWide(block, 1, (w << 1) ^ (carry * 0x87), was, want);
  }

  /** S2 on the layout of four 32-bit words. */
  method S2Narrow(block: array<bv8>)
    requires block.Length == BLOCK_SIZE
    modifies block
    ensures block[..] == Doubled(old(block[..]))
  {
    ghost var was, want := block[..], Doubled(block[..]);
    var first := TakeNarrow(block, 0, was, want, 0);
    var carry := first >> 31;
    for i := 0 to 3
      invariant Upto(block[..], was, want, 4 * i)
    {
      var w := TakeNarrow(block, i, was, want, 4 * i);
      var next := TakeNarrow(block, i + 1, was, want, 4 * i);
      NarrowSlice(was, i, w, next);
      PutNarrow(block, i, (w << 1) | (next >> 31), was, want);
    }
    var w := TakeNarrow(block, 3, was, want, 12);
    NarrowLastSlice(was, first, w);
    PutNarrow(block, 3, (w << 1) ^ (carry * 0x87), was, want);
  }

  /** S3 on the layout of two 64-bit words: each word is XORed with what S2 would put there. */
  method S3Wide(block: array<bv8>)
    requires block.Length == BLOCK_SIZE
    modifies block
    ensures block[..] == Tripled(old(block[..]))
  {
    ghost var was, want := block[..], Tripled(block[..]);
    var first := TakeWide(block, 0, was, want, 0);
    var carry := first >> 63;
    for i := 0 to 1
      invariant Upto(block[..], was, want, 8 * i)
    {
      var w := TakeWide(block, i, was, want, 8 * i);
      var next := TakeWide(block, i + 1, was, want, 8 * i);
      WideSlice(was, w, next);
      PutWide(block, i, w ^ ((w << 1) | (next >> 63)), was, want);
    }
    var w := TakeWide(block, 1, was, want, 8);
    WideLastSlice(was, first, w);
    PutWide(block, 1, w ^ ((w << 1) ^ (carry * 0x87)), was, want);
  }

  /** S3 on the layout of four 32-bit words. */
  method S3Narrow(block: array<bv8>)
    requires block.Length == BLOCK_SIZE
    modifies block
    ensures block[..] == Tripled(old(block[..]))
  {
    ghost var was, want := block[..], Tripled(block[..]);
    var first := TakeNarrow(block, 0, was, want, 0);
    var carry := first >> 31;
    for i := 0 to 3
      invariant Upto(block[..], was, want, 4 * i)
    {
      var w := TakeNarrow(block, i, was, want, 4 * i);
      var next := TakeNarrow(block, i + 1, was, want, 4 * i);
      NarrowSlice(was, i, w, next);
      PutNarrow(block, i, w ^ ((w << 1) | (next >> 31)), was, want);
    }
    var w := TakeNarrow(block, 3, was, want, 12);
    NarrowLastSlice(was, first, w);
    PutNarrow(block, 3, w ^ ((w << 1) ^ (carry * 0x87)), was, want);
  }
}
