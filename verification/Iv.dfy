/** The 128-bit little-endian packet counter of src/crypt.c and its byte-and-carry updates. */
module Iv {
  import opened Bytes
  import opened Blocks

  const IV_SIZE := BLOCK_SIZE

  /** The low `n` bytes of a number, least significant first. The numbers run through all the
      integers, so that a counter can be followed past its own wrap in either direction. */
  function Digits(v: int, n: nat): (s: seq<byte>)
    ensures |s| == n
    decreases n
  {
    if n == 0 then [] else [v % 256] + Digits(v / 256, n - 1)
  }

  /** The i-th little-endian byte of a number. */
  function Digit(v: int, i: nat): byte
    decreases i
  {
    if i == 0 then v % 256 else Digit(v / 256, i - 1)
  }

  /** The IV of a counter value. */
  function IvOf(v: int): (s: seq<byte>)
    ensures |s| == IV_SIZE
  {
    seq(IV_SIZE, i requires 0 <= i < IV_SIZE => Digit(v, i))
  }

  lemma {:induction false} BytesAt(v: int, n: nat, i: nat)
    requires i < n
    ensures Digits(v, n)[i] == Digit(v, i)
    decreases n
  {
    if i > 0 {
      BytesAt(v / 256, n - 1, i - 1);
    }
  }

  /** The bytes of an IV, whatever the size is called. */
  lemma {:induction false} IvIsDigits(v: int, n: nat)
    requires n == IV_SIZE
    ensures IvOf(v) == Digits(v, n)
  {
    forall i | 0 <= i < n
      ensures IvOf(v)[i] == Digits(v, n)[i]
    {
      BytesAt(v, n, i);
    }
  }

  /** How many values `n` bytes can hold. */
  function Range(n: nat): nat
    ensures Range(n) > 0
  {
    if n == 0 then 1 else 256 * Range(n - 1)
  }

  lemma RangeOfIv()
    ensures Range(IV_SIZE) == 0x1_0000_0000_0000_0000_0000_0000_0000_0000
  {
    assert Range(4) == 0x1_0000_0000;
    assert Range(8) == 0x1_0000_0000 * Range(4);
    assert Range(12) == 0x1_0000_0000 * Range(8);
    assert Range(16) == 0x1_0000_0000 * Range(12);
  }

  /** Two numbers have the same bytes exactly when they are the same number modulo the range. */
  lemma {:induction false} SameDigits(v: int, w: int, n: nat)
    ensures Digits(v, n) == Digits(w, n) <==> (v - w) % Range(n) == 0
    decreases n
  {
    if n > 0 {
      SameDigits(v / 256, w / 256, n - 1);
      SplitDifference(v, w, Range(n - 1));
      assert Digits(v, n)[0] == v % 256 && Digits(v, n)[1..] == Digits(v / 256, n - 1);
      assert Digits(w, n)[0] == w % 256 && Digits(w, n)[1..] == Digits(w / 256, n - 1);
    }
  }

  /** A difference is a multiple of 256 * m when the low bytes agree and the rest differs by a multiple of m. */
  lemma SplitDifference(v: int, w: int, m: int)
    requires m > 0
    ensures (v - w) % (256 * m) == 0 <==> v % 256 == w % 256 && (v / 256 - w / 256) % m == 0
  {
    LowOfDifference(v, w);
    if v % 256 == w % 256 {
      ScaledRemainder(v / 256 - w / 256, m);
    } else if (v - w) % (256 * m) == 0 {
      MultipleOf256(v - w, m);
    }
  }

  lemma LowOfDifference(v: int, w: int)
    ensures v % 256 == w % 256 ==> v - w == 256 * (v / 256 - w / 256)
    ensures (v - w) % 256 == 0 ==> v % 256 == w % 256
  {}

  lemma MultipleOf256(x: int, m: int)
    requires m > 0 && x % (256 * m) == 0
    ensures x % 256 == 0
  {
    var q := x / (256 * m);
    assert x == q * (256 * m);
    assert q * (256 * m) == 256 * (q * m);
  }

  lemma ScaledRemainder(x: int, m: int)
    requires m > 0
    ensures (256 * x) % (256 * m) == 256 * (x % m)
  {
    var q, r := x / m, x % m;
    assert x == q * m + r;
    assert 256 * x == q * (256 * m) + 256 * r;
    UniqueRemainder(256 * x, 256 * m, q, 256 * r);
  }

  /** Two counter values have the same IV exactly when they are a multiple of 2^128 apart. */
  lemma SameIv(v: int, w: int)
    ensures IvOf(v) == IvOf(w) <==> (v - w) % 0x1_0000_0000_0000_0000_0000_0000_0000_0000 == 0
  {
    IvOfRange(v, w, IV_SIZE);
    RangeOfIv();
  }

  lemma {:induction false} IvOfRange(v: int, w: int, n: nat)
    requires n == IV_SIZE
    ensures IvOf(v) == IvOf(w) <==> (v - w) % Range(n) == 0
  {
    IvIsDigits(v, n);
    IvIsDigits(w, n);
    SameDigits(v, w, n);
  }

  /** The number a little-endian byte string stands for. */
  function Value(s: seq<byte>): nat {
    if |s| == 0 then 0 else s[0] + 256 * Value(s[1..])
  }

  lemma {:induction false} BytesOfValue(s: seq<byte>)
    ensures Digits(Value(s), |s|) == s
  {
    if |s| > 0 {
      BytesOfValue(s[1..]);
      FrontDigit(s[0], Value(s[1..]));
    }
  }

  lemma FrontDigit(b: byte, v: nat)
    ensures (b + 256 * v) % 256 == b && (b + 256 * v) / 256 == v
  {}

  // ---------------------------------------------------------------------------
  // Carry and borrow
  // ---------------------------------------------------------------------------

  /** What `if (++iv[i]) break;` leaves behind, from its first byte on. */
  function Incremented(s: seq<byte>): (r: seq<byte>)
    ensures |r| == |s|
  {
    if |s| == 0 then []
    else if s[0] != 0xFF then [s[0] + 1] + s[1..]
    else [0] + Incremented(s[1..])
  }

  /** What `if (iv[i]--) break;` leaves behind, from its first byte on. */
  function Decremented(s: seq<byte>): (r: seq<byte>)
    ensures |r| == |s|
  {
    if |s| == 0 then []
    else if s[0] != 0 then [s[0] - 1] + s[1..]
    else [0xFF] + Decremented(s[1..])
  }

  /** The carry loop counts up. */
  lemma {:induction false} IncrementedDigits(v: int, n: nat)
    ensures Incremented(Digits(v, n)) == Digits(v + 1, n)
    decreases n
  {
    if n > 0 {
      assert Digits(v, n)[1..] == Digits(v / 256, n - 1);
      IncrementedDigits(v / 256, n - 1);
    }
  }

  /** The borrow loop counts down. */
  lemma {:induction false} DecrementedDigits(v: int, n: nat)
    ensures Decremented(Digits(v, n)) == Digits(v - 1, n)
    decreases n
  {
    if n > 0 {
      assert Digits(v, n)[1..] == Digits(v / 256, n - 1);
      DecrementedDigits(v / 256, n - 1);
    }
  }

  /** Incremented on a string whose first `k` bytes all pass the carry on. */
  lemma {:induction false} IncrementedPast(s: seq<byte>, k: nat)
    requires k <= |s| && forall j :: 0 <= j < k ==> s[j] == 0xFF
    ensures forall j :: 0 <= j < k ==> Incremented(s)[j] == 0
    ensures k < |s| && s[k] != 0xFF ==> Incremented(s)[k] == s[k] + 1
    ensures k < |s| && s[k] != 0xFF ==> forall j :: k < j < |s| ==> Incremented(s)[j] == s[j]
  {
    if k > 0 {
      IncrementedPast(s[1..], k - 1);
      assert Incremented(s) == [0] + Incremented(s[1..]);
    }
  }

  /** Decremented on a string whose first `k` bytes all pass the borrow on. */
  lemma {:induction false} DecrementedPast(s: seq<byte>, k: nat)
    requires k <= |s| && forall j :: 0 <= j < k ==> s[j] == 0
    ensures forall j :: 0 <= j < k ==> Decremented(s)[j] == 0xFF
    ensures k < |s| && s[k] != 0 ==> Decremented(s)[k] == s[k] - 1
    ensures k < |s| && s[k] != 0 ==> forall j :: k < j < |s| ==> Decremented(s)[j] == s[j]
  {
    if k > 0 {
      DecrementedPast(s[1..], k - 1);
      assert Decremented(s) == [0xFF] + Decremented(s[1..]);
    }
  }

  /** The carry loop, starting at byte `from`. */
  method Carry(iv: array<byte>, from: nat)
    requires from <= iv.Length
    modifies iv
    ensures iv[..] == old(iv[..from]) + Incremented(old(iv[from..]))
  {
    ghost var s := iv[from..];
    var i := from;
    while i < iv.Length
      invariant from <= i <= iv.Length
      invariant forall j :: 0 <= j < i - from ==> s[j] == 0xFF
      invariant forall j :: from <= j < i ==> iv[j] == 0
      invariant forall j :: 0 <= j < iv.Length && !(from <= j < i) ==> iv[j] == old(iv[j])
    {
      var was: int := iv[i];
      assert was == s[i - from];
      iv[i] := (was + 1) % 256;
      if iv[i] != 0 {
        IncrementedPast(s, i - from);
        return;
      }
      i := i + 1;
    }
    IncrementedPast(s, iv.Length - from);
  }

  /** The borrow loop, starting at byte `from`. */
  method Borrow(iv: array<byte>, from: nat)
    requires from <= iv.Length
    modifies iv
    ensures iv[..] == old(iv[..from]) + Decremented(old(iv[from..]))
  {
    ghost var s := iv[from..];
    var i := from;
    while i < iv.Length
      invariant from <= i <= iv.Length
      invariant forall j :: 0 <= j < i - from ==> s[j] == 0
      invariant forall j :: from <= j < i ==> iv[j] == 0xFF
      invariant forall j :: 0 <= j < iv.Length && !(from <= j < i) ==> iv[j] == old(iv[j])
    {
      var was: int := iv[i];
      assert was == s[i - from];
      iv[i] := (was - 1) % 256;
      if was != 0 {
        DecrementedPast(s, i - from);
        return;
      }
      i := i + 1;
    }
    DecrementedPast(s, iv.Length - from);
  }

  // ---------------------------------------------------------------------------
  // The three ways a packet moves the whole counter
  // ---------------------------------------------------------------------------

  lemma {:induction false} SplitLow(v: int, n: nat)
    requires n + 1 == IV_SIZE
    ensures IvOf(v)[0] == v % 256
    ensures IvOf(v)[1] == (v / 256) % 256
    ensures IvOf(v)[1..] == Digits(v / 256, n)
  {
    IvIsDigits(v, n + 1);
    BytesAt(v, n + 1, 1);
    assert Digits(v, n + 1)[1..] == Digits(v / 256, n);
  }

  /** The whole counter counts up by one. */
  lemma IvCountsUp(v: int, n: nat)
    requires n == IV_SIZE
    ensures Incremented(IvOf(v)) == IvOf(v + 1)
  {
    IvIsDigits(v, n);
    IncrementedDigits(v, n);
    IvIsDigits(v + 1, n);
  }

  /** Replacing the low byte alone moves the counter by the difference of the low bytes. */
  lemma LowByteMoves(v: int, low: byte, n: nat)
    requires n + 1 == IV_SIZE
    ensures IvOf(v)[0 := low] == IvOf(v + (low - v % 256))
  {
    SplitLow(v, n);
    SplitLow(v + (low - v % 256), n);
    assert (v + (low - v % 256)) / 256 == v / 256;
  }

  /** Replacing the low byte and carrying moves it by 256 more. */
  lemma LowByteCarries(v: int, low: byte, n: nat)
    requires n + 1 == IV_SIZE
    ensures [low] + Incremented(IvOf(v)[1..]) == IvOf(v + (256 + low - v % 256))
  {
    var w := v + (256 + low - v % 256);
    SplitLow(v, n);
    SplitLow(w, n);
    assert w % 256 == low && w / 256 == v / 256 + 1;
    IncrementedDigits(v / 256, n);
    assert IvOf(w) == [IvOf(w)[0]] + IvOf(w)[1..];
  }

  /** Replacing the low byte and borrowing moves it by 256 less. */
  lemma LowByteBorrows(v: int, low: byte, n: nat)
    requires n + 1 == IV_SIZE
    ensures [low] + Decremented(IvOf(v)[1..]) == IvOf(v + (low - 256 - v % 256))
  {
    var w := v + (low - 256 - v % 256);
    SplitLow(v, n);
    SplitLow(w, n);
    assert w % 256 == low && w / 256 == v / 256 - 1;
    DecrementedDigits(v / 256, n);
    assert IvOf(w) == [IvOf(w)[0]] + IvOf(w)[1..];
  }
}
