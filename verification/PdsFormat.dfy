/** The prefix-coded integers of the Mumble packet data stream (src/pds.c), as values. */
module PdsFormat {
  import opened Bytes

  /** Values from here on are the complements of 32-bit ones, written as negatives. */
  const NEGATIVE: nat := UINT64 - UINT32

  function Complement(v: uint64): uint64 {
    UINT64 - 1 - v
  }

  /** The low 32 bits, high byte first. */
  function Big4(i: nat): (r: seq<byte>)
    ensures |r| == 4
  {
    [i / 0x100_0000 % 256, i / 0x1_0000 % 256, i / 0x100 % 256, i % 256]
  }

  // ---------------------------------------------------------------------------
  // Writing
  // ---------------------------------------------------------------------------

  function EncodeDirect(i: uint64): (r: seq<byte>)
    ensures 1 <= |r| <= 9
  {
    if i < 0x80 then [i]
    else if i < 0x4000 then [0x80 + i / 0x100, i % 256]
    else if i < 0x20_0000 then [0xC0 + i / 0x1_0000, i / 0x100 % 256, i % 256]
    else if i < 0x1000_0000 then [0xE0 + i / 0x100_0000, i / 0x1_0000 % 256, i / 0x100 % 256, i % 256]
    else if i < UINT32 then [0xF0] + Big4(i)
    else [0xF4] + Big4(i / UINT32) + Big4(i % UINT32)
  }

  function Encode(v: uint64): (r: seq<byte>)
    ensures 1 <= |r| <= 9
  {
    if v < NEGATIVE then EncodeDirect(v)
    else
      var i := Complement(v);
      if i <= 3 then [0xFC + i] else [0xF8] + EncodeDirect(i)
  }

  // ---------------------------------------------------------------------------
  // Reading: a stream is read as if zeros followed it
  // ---------------------------------------------------------------------------

  function Peek(s: seq<byte>, i: nat): byte {
    if i < |s| then s[i] else 0
  }

  function Join4(s: seq<byte>, at: nat): uint32 {
    ((Peek(s, at) * 256 + Peek(s, at + 1)) * 256 + Peek(s, at + 2)) * 256 + Peek(s, at + 3)
  }

  /** How many bytes the value at `at` takes. */
  function Need(s: seq<byte>, at: nat): (n: nat)
    ensures n >= 1
    decreases |s| - at
  {
    var v := Peek(s, at);
    if v < 0x80 then 1
    else if v < 0xC0 then 2
    else if v < 0xE0 then 3
    else if v < 0xF0 then 4
    else if v < 0xF4 then 5
    else if v < 0xF8 then 9
    else if v < 0xFC then 1 + Need(s, at + 1)
    else 1
  }

  /** The value at `at`. */
  function Meaning(s: seq<byte>, at: nat): uint64
    decreases |s| - at
  {
    var v := Peek(s, at);
    if v < 0x80 then v
    else if v < 0xC0 then (v - 0x80) * 256 + Peek(s, at + 1)
    else if v < 0xE0 then ((v - 0xC0) * 256 + Peek(s, at + 1)) * 256 + Peek(s, at + 2)
    else if v < 0xF0 then
      (((v - 0xE0) * 256 + Peek(s, at + 1)) * 256 + Peek(s, at + 2)) * 256 + Peek(s, at + 3)
    else if v < 0xF4 then Join4(s, at + 1)
    else if v < 0xF8 then Join4(s, at + 1) * UINT32 + Join4(s, at + 5)
    else if v < 0xFC then Complement(Meaning(s, at + 1))
    else Complement(v - 0xFC)
  }

  // ---------------------------------------------------------------------------
  // The code is a prefix code, and reading undoes writing
  // ---------------------------------------------------------------------------

  /** `t` stands in `s` at `at`. */
  predicate Stands(s: seq<byte>, at: nat, t: seq<byte>) {
    at + |t| <= |s| && forall i {:trigger t[i]} | 0 <= i < |t| :: s[at + i] == t[i]
  }

  /** A number's bytes, put together again. */
  lemma Shifts(i: nat)
    ensures i / 0x100 * 256 + i % 256 == i
    ensures i / 0x1_0000 * 256 + i / 0x100 % 256 == i / 0x100
    ensures i / 0x100_0000 * 256 + i / 0x1_0000 % 256 == i / 0x1_0000
  {
    var j := i / 0x100;
    assert i / 0x1_0000 == j / 0x100;
    var k := j / 0x100;
    assert i / 0x100_0000 == k / 0x100;
  }

  lemma Big4Joins(s: seq<byte>, at: nat, i: uint32)
    requires Stands(s, at, Big4(i))
    ensures Join4(s, at) == i
  {
    var t := Big4(i);
    assert s[at + 0] == t[0] && s[at + 1] == t[1] && s[at + 2] == t[2] && s[at + 3] == t[3];
    Shifts(i);
    assert i / 0x100_0000 % 256 == i / 0x100_0000;
  }

  lemma {:induction false} ReadsShort(s: seq<byte>, at: nat, i: uint64)
    requires i < 0x1000_0000 && Stands(s, at, EncodeDirect(i))
    ensures Meaning(s, at) == i && Need(s, at) == |EncodeDirect(i)|
  {
    var t := EncodeDirect(i);
    assert s[at + 0] == t[0];
    assert |t| > 1 ==> s[at + 1] == t[1];
    assert |t| > 2 ==> s[at + 2] == t[2];
    assert |t| > 3 ==> s[at + 3] == t[3];
    Shifts(i);
  }

  lemma {:induction false} ReadsLong(s: seq<byte>, at: nat, i: uint64)
    requires UINT32 <= i && Stands(s, at, EncodeDirect(i))
    ensures Meaning(s, at) == i && Need(s, at) == |EncodeDirect(i)|
  {
    var t, high, low := EncodeDirect(i), i / UINT32, i % UINT32;
    assert s[at + 0] == t[0];
    assert Join4(s, at + 1) == high by {
      assert forall k | 0 <= k < 4 :: Big4(high)[k] == t[k + 1] == s[at + (k + 1)];
      Big4Joins(s, at + 1, high);
    }
    assert Join4(s, at + 5) == low by {
      assert forall k | 0 <= k < 4 :: Big4(low)[k] == t[k + 5] == s[at + (k + 5)];
      Big4Joins(s, at + 5, low);
    }
  }

  lemma {:induction false} ReadsDirect(s: seq<byte>, at: nat, i: uint64)
    requires Stands(s, at, EncodeDirect(i))
    ensures Meaning(s, at) == i && Need(s, at) == |EncodeDirect(i)|
  {
    if i < 0x1000_0000 {
      ReadsShort(s, at, i);
    } else if i < UINT32 {
      var t := EncodeDirect(i);
      assert s[at + 0] == t[0];
      assert forall k | 0 <= k < 4 :: Big4(i)[k] == t[k + 1] == s[at + (k + 1)];
      Big4Joins(s, at + 1, i);
    } else {
      ReadsLong(s, at, i);
    }
  }

  /** Wherever an encoding stands in a stream, reading there gives back the value and takes exactly
      the encoding, whatever follows. */
  lemma {:induction false} ReadsBack(s: seq<byte>, at: nat, v: uint64)
    requires Stands(s, at, Encode(v))
    ensures Meaning(s, at) == v && Need(s, at) == |Encode(v)|
  {
    if v < NEGATIVE {
      ReadsDirect(s, at, v);
    } else {
      var t, i := Encode(v), Complement(v);
      assert s[at + 0] == t[0];
      if i > 3 {
        var u := EncodeDirect(i);
        assert forall k | 0 <= k < |u| :: u[k] == t[k + 1] == s[at + (k + 1)];
        ReadsDirect(s, at + 1, i);
      }
    }
  }

  /** No encoding is the start of another: a stream splits in one way only. */
  lemma PrefixCode(v: uint64, w: uint64, s: seq<byte>, t: seq<byte>)
    requires Encode(v) + s == Encode(w) + t
    ensures v == w && s == t
  {
    var whole := Encode(v) + s;
    ReadsBack(whole, 0, v);
    ReadsBack(whole, 0, w);
    assert s == whole[|Encode(v)|..] && t == whole[|Encode(w)|..];
  }

  // ---------------------------------------------------------------------------
  // The code is the shortest there is, and the only one
  // ---------------------------------------------------------------------------

  /** A complement byte in front is never shorter by more than itself. */
  lemma ComplementCosts(v: uint64)
    ensures |Encode(v)| <= 1 + |Encode(Complement(v))|
  {}

  /** Nothing a reader takes for a value is shorter than its encoding. */
  lemma {:induction false} Shortest(s: seq<byte>, at: nat)
    requires at + Need(s, at) <= |s|
    ensures |Encode(Meaning(s, at))| <= Need(s, at)
    decreases |s| - at
  {
    if 0xF8 <= s[at] < 0xFC {
      Shortest(s, at + 1);
      ComplementCosts(Meaning(s, at));
    } else if 0xF0 <= s[at] < 0xF4 {
      assert Meaning(s, at) < UINT32;
    }
  }

  /** The low two bits of the bytes 0xF0 to 0xFB mean nothing, and are not set. */
  predicate Plain(s: seq<byte>) {
    |s| > 0 && (0xF0 <= s[0] < 0xFC ==> s[0] % 4 == 0)
  }

  lemma DirectIsPlain(i: uint64)
    ensures Plain(EncodeDirect(i)) && EncodeDirect(i)[0] != 0xF8
  {}

  lemma EncodingIsPlain(v: uint64)
    ensures Plain(Encode(v)) && (|Encode(v)| > 1 && Encode(v)[0] == 0xF8 ==> Plain(Encode(v)[1..]))
  {
    if v < NEGATIVE {
      DirectIsPlain(v);
    } else {
      DirectIsPlain(Complement(v));
      assert Complement(v) > 3 ==> Encode(v)[1..] == EncodeDirect(Complement(v));
    }
  }

  lemma Big4OfJoin(s: seq<byte>, at: nat)
    requires at + 4 <= |s|
    ensures Big4(Join4(s, at)) == s[at..at + 4]
  {
    var a: nat, b: nat, c: nat, d: nat := s[at], s[at + 1], s[at + 2], s[at + 3];
    Shifts(Join4(s, at));
    assert Join4(s, at) == d + 256 * (c + 256 * (b + 256 * a));
    assert Join4(s, at) / 0x100 == c + 256 * (b + 256 * a);
    assert Join4(s, at) / 0x1_0000 == b + 256 * a;
    assert Join4(s, at) / 0x100_0000 == a;
  }

  lemma {:induction false} OnlyThree(s: seq<byte>, i: uint64)
    requires |s| == Need(s, 0) == |EncodeDirect(i)| == 3 && Meaning(s, 0) == i && s[0] < 0xF0
    ensures s == EncodeDirect(i)
  {
    var a: nat, b: nat, c: nat := s[0] - 0xC0, s[1], s[2];
    assert i == c + 256 * (b + 256 * a);
    Shifts(i);
    assert i / 0x1_0000 == a;
  }

  lemma {:induction false} OnlyFour(s: seq<byte>, i: uint64)
    requires |s| == Need(s, 0) == |EncodeDirect(i)| == 4 && Meaning(s, 0) == i && s[0] < 0xF0
    ensures s == EncodeDirect(i)
  {
    var a: nat, b: nat, c: nat, d: nat := s[0] - 0xE0, s[1], s[2], s[3];
    assert i == d + 256 * (c + 256 * (b + 256 * a));
    Shifts(i);
    assert i / 0x1_0000 == b + 256 * a && i / 0x100_0000 == a;
  }

  lemma {:induction false} OnlyShort(s: seq<byte>, i: uint64)
    requires |s| == Need(s, 0) == |EncodeDirect(i)| && Meaning(s, 0) == i && s[0] < 0xF0
    ensures s == EncodeDirect(i)
  {
    if |s| == 3 {
      OnlyThree(s, i);
    } else if |s| == 4 {
      OnlyFour(s, i);
    }
  }

  lemma {:induction false} OnlyNine(s: seq<byte>, i: uint64)
    requires |s| == Need(s, 0) == |EncodeDirect(i)| && Meaning(s, 0) == i && s[0] == 0xF4
    ensures s == EncodeDirect(i)
  {
    Big4OfJoin(s, 1);
    Big4OfJoin(s, 5);
    assert i / UINT32 == Join4(s, 1) && i % UINT32 == Join4(s, 5);
    assert s == [s[0]] + s[1..5] + s[5..9];
  }

  lemma {:induction false} OnlyDirect(s: seq<byte>, i: uint64)
    requires |s| == Need(s, 0) == |EncodeDirect(i)| && Meaning(s, 0) == i && s[0] < 0xF8 && Plain(s)
    ensures s == EncodeDirect(i)
  {
    if s[0] < 0xF0 {
      OnlyShort(s, i);
    } else if s[0] < 0xF4 {
      Big4OfJoin(s, 1);
      assert s == [s[0]] + s[1..5];
    } else {
      OnlyNine(s, i);
    }
  }

  lemma {:induction false} MeansBehind(s: seq<byte>, at: nat)
    requires 0 < at <= |s|
    ensures Meaning(s, at) == Meaning(s[1..], at - 1) && Need(s, at) == Need(s[1..], at - 1)
    decreases |s| - at
  {
    if at < |s| && 0xF8 <= s[at] < 0xFC {
      MeansBehind(s, at + 1);
    }
  }

  /** A complement byte and one of the direct forms. */
  lemma {:induction false} OnlyComplement(s: seq<byte>, v: uint64)
    requires |s| == Need(s, 0) == |Encode(v)| && Meaning(s, 0) == v && |s| > 1 && s[0] == 0xF8
    requires s[1] < 0xF8 && Plain(s[1..])
    ensures s == Encode(v)
  {
    var u, i := s[1..], Complement(v);
    assert Need(u, 0) == |u| && Meaning(u, 0) == i by {
      MeansBehind(s, 1);
    }
    assert v >= NEGATIVE && i > 3 && |u| == |EncodeDirect(i)| by {
      if v < NEGATIVE {
        DirectIsLong(u, i);
      }
    }
    OnlyDirect(u, i);
    assert s == [s[0]] + u;
  }

  lemma {:induction false} DirectIsLong(u: seq<byte>, i: uint64)
    requires |u| == Need(u, 0) && Meaning(u, 0) == i && u[0] < 0xF8 && i >= UINT32
    ensures |u| == 9
  {}

  /** Behind a complement byte of the shortest form stands one of the direct forms. */
  lemma {:induction false} ComplementOfDirect(s: seq<byte>)
    requires |s| == Need(s, 0) == |Encode(Meaning(s, 0))| && 0xF8 <= s[0] < 0xFC
    ensures s[1] < 0xF8
  {
    if 0xF8 <= s[1] < 0xFC {
      Shortest(s, 2);
    }
  }

  lemma {:induction false} ShortestIsDirect(s: seq<byte>, v: uint64)
    requires |s| == Need(s, 0) == |Encode(v)| && Meaning(s, 0) == v && s[0] < 0xF8
    ensures v < NEGATIVE
  {}

  lemma {:induction false} OnlySmallest(s: seq<byte>, v: uint64)
    requires |s| == Need(s, 0) && Meaning(s, 0) == v && s[0] >= 0xFC
    ensures s == Encode(v)
  {}

  /** Of the bytes a reader takes for a value, none too many and no bit set that means nothing, the
      shortest are the encoding. */
  lemma {:induction false} OnlyEncoding(s: seq<byte>, v: uint64)
    requires |s| == Need(s, 0) == |Encode(v)| && Meaning(s, 0) == v
    requires Plain(s) && (|s| > 1 && s[0] == 0xF8 ==> Plain(s[1..]))
    ensures s == Encode(v)
  {
    if s[0] < 0xF8 {
      ShortestIsDirect(s, v);
      OnlyDirect(s, v);
    } else if s[0] < 0xFC {
      ComplementOfDirect(s);
      OnlyComplement(s, v);
    } else {
      OnlySmallest(s, v);
    }
  }

  /** The first `k` bytes at `at` are all among 0xF8..0xFB. */
  predicate Complements(s: seq<byte>, at: nat, k: nat) {
    at + k <= |s| && forall i | at <= i < at + k :: 0xF8 <= s[i] < 0xFC
  }

  /** A run of complement bytes inverts the value behind it once for each byte. */
  lemma {:induction false} ComplementRun(s: seq<byte>, at: nat, k: nat)
    requires Complements(s, at, k)
    ensures Need(s, at) == k + Need(s, at + k)
    ensures Meaning(s, at) == if k % 2 == 0 then Meaning(s, at + k) else Complement(Meaning(s, at + k))
    decreases k
  {
    if k > 0 {
      ComplementRun(s, at + 1, k - 1);
    }
  }

  /** What is read depends on the bytes taken alone: past a complete value the rest is free. */
  lemma {:induction false} ReadsNoFurther(s: seq<byte>, t: seq<byte>, at: nat)
    requires at + Need(s, at) <= |s| && at + Need(s, at) <= |t|
    requires forall i | at <= i < at + Need(s, at) :: s[i] == t[i]
    ensures Need(t, at) == Need(s, at) && Meaning(t, at) == Meaning(s, at)
    decreases |s| - at
  {
    if 0xF8 <= s[at] < 0xFC {
      ReadsNoFurther(s, t, at + 1);
    }
  }
}
