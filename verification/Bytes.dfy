/** Machine integers, and numbers written out as bytes. */
module Bytes {

  type byte = b: int | 0 <= b < 256

  const UINT32: nat := 0x1_0000_0000
  const UINT64: nat := 0x1_0000_0000_0000_0000

  type uint32 = n: nat | n < UINT32
  type uint64 = n: nat | n < UINT64

  lemma NextOctet(v: bv8)
    requires v < 255
    ensures (v + 1) as int == v as int + 1
  {}

  /** Every byte is the number of some octet. */
  lemma {:induction false} SomeOctet(b: byte) returns (v: bv8)
    ensures v as int == b
  {
    if b == 0 {
      v := 0;
    } else {
      var w := SomeOctet(b - 1);
      NextOctet(w);
      v := w + 1;
    }
  }

  lemma SameOctet(v: bv8, w: bv8)
    requires v as int == w as int
    ensures v == w
  {}

  lemma OctetRoundTrip(v: bv8)
    ensures (v as int) as bv8 == v
  {}

  lemma ByteRoundTrip(b: byte)
    ensures (b as bv8) as int == b
  {
    var v := SomeOctet(b);
    OctetRoundTrip(v);
  }

  /** The two's complement reading of 32 bits. */
  function ToInt32(v: int): int {
    var u := v % UINT32;
    if u < 0x8000_0000 then u else u - UINT32
  }

  function Min(m: int, n: int): int {
    if m <= n then m else n
  }

  function Repeat(b: byte, n: nat): (s: seq<byte>)
    ensures |s| == n && forall i | 0 <= i < n :: s[i] == b
  {
    seq(n, _ => b)
  }

  function Zeros(n: nat): (s: seq<byte>)
    ensures |s| == n
  {
    Repeat(0, n)
  }

  /** Byte strings one after the other. */
  function Flatten(parts: seq<seq<byte>>): seq<byte> {
    if |parts| == 0 then [] else parts[0] + Flatten(parts[1..])
  }

  lemma {:induction false} FlattenJoin(a: seq<seq<byte>>, b: seq<seq<byte>>)
    ensures Flatten(a + b) == Flatten(a) + Flatten(b)
  {
    if |a| == 0 {
      assert a + b == b;
    } else {
      assert (a + b)[1..] == a[1..] + b;
      FlattenJoin(a[1..], b);
    }
  }

  lemma FlattenOne(s: seq<byte>)
    ensures Flatten([s]) == s
  {
    assert [s][1..] == [];
  }

  /** Taking `k` more bytes, or dropping them. */
  lemma SliceTwice(s: seq<byte>, n: nat, k: nat)
    requires n + k <= |s|
    ensures s[..n] + s[n..][..k] == s[..n + k] && s[n..][k..] == s[n + k..]
  {}

  lemma Associates(a: seq<byte>, b: seq<byte>, c: seq<byte>)
    ensures (a + b) + c == a + (b + c)
  {}

  lemma UniqueRemainder(v: int, m: int, k: int, r: int)
    requires v == k * m + r && 0 <= r < m
    ensures v % m == r
  {
    var q, t := v / m, v % m;
    SameMultiple(q - k, m, r - t);
  }

  lemma SameMultiple(a: int, m: int, d: int)
    requires a * m == d && -m < d < m
    ensures d == 0
  {
    if a >= 1 {
      AtLeastOnce(a, m);
    } else if a <= -1 {
      AtLeastOnce(-a, m);
    }
  }

  lemma AtLeastOnce(a: int, m: int)
    requires a >= 1 && m > 0
    ensures a * m >= m
  {}

  /** A remainder may be taken before or after adding. */
  lemma AddRemainder(a: nat, b: nat, m: nat)
    requires m > 0
    ensures (a % m + b) % m == (a + b) % m
  {
    var r, k := (a % m + b) % m, (a % m + b) / m;
    assert a + b == m * (a / m) + (a % m + b) == m * (a / m) + (m * k + r);
    assert (a / m + k) * m == m * (a / m) + m * k;
    UniqueRemainder(a + b, m, a / m + k, r);
  }
}
