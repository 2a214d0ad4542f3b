/** The buffer of linked fragments (src/google/protobuf-c/protobuf-c-data-buffer.c), updated in place,
    against the plain byte sequence it stands for. */
module DataBuffers {
  import opened Bytes

  const FRAGMENT_SIZE: nat := 4096

  class Fragment {
    const data: array<byte>
    var next: Fragment?
    var bufStart: nat
    var bufLength: nat
    /** The live bytes. */
    ghost var content: seq<byte>

    ghost predicate Valid()
      reads `bufStart, `bufLength, `content, data
    {
      && data.Length == FRAGMENT_SIZE && bufStart + bufLength <= FRAGMENT_SIZE
      && |content| == bufLength
      && forall i | 0 <= i < bufLength :: data[bufStart + i] == content[i]
    }

    constructor ()
      ensures Valid() && content == [] && bufStart == 0 && next == null && fresh(data) && data.Length == 4096
    {
      data := new byte[FRAGMENT_SIZE];
      next, bufStart, bufLength, content := null, 0, 0, [];
    }

    function Avail(): nat
      requires Valid()
      reads `bufStart, `bufLength, `content, data
    {
      FRAGMENT_SIZE - bufStart - bufLength
    }

    method Fill(s: seq<byte>)
      requires Valid() && |s| <= Avail()
      modifies this`bufLength, this`content, data
      ensures Valid() && content == old(content) + s
    {
      forall i | 0 <= i < |s| {
        data[bufStart + bufLength + i] := s[i];
      }
      bufLength, content := bufLength + |s|, content + s;
    }

    method DropFront(n: nat)
      requires Valid() && n <= bufLength
      modifies this`bufStart, this`bufLength, this`content
      ensures Valid() && content == old(content)[n..]
    {
      bufLength, bufStart, content := bufLength - n, bufStart + n, content[n..];
    }

    /** Copies the first bytes out. */
    method CopyTo(n: nat, dst: array<byte>, at: nat)
      requires Valid() && n <= bufLength && at + n <= dst.Length && dst != data
      modifies dst
      ensures forall i | at <= i < at + n :: dst[i] == content[i - at]
      ensures forall i | 0 <= i < dst.Length && !(at <= i < at + n) :: dst[i] == old(dst[i])
    {
      forall i | at <= i < at + n {
        dst[i] := data[bufStart + (i - at)];
      }
    }

    /** Where the byte first stands, or -1 (memchr). */
    method Find(c: byte) returns (k: int)
      requires Valid()
      ensures k == FirstIndex(content, c)
    {
      k := 0;
      while k < bufLength
        invariant 0 <= k <= bufLength
        invariant forall i | 0 <= i < k :: content[i] != c
      {
        if data[bufStart + k] == c {
          assert content[k] == c;
          return;
        }
        k := k + 1;
      }
      k := -1;
    }
  }

  // ---------------------------------------------------------------------------
  // Counters of type int
  // ---------------------------------------------------------------------------

  const INT32: nat := 0x8000_0000

  /** What the caller gets as a size when an int has counted n bytes. */
  function Returned(n: nat): nat {
    ToInt32(n) % UINT64
  }

  lemma SameInt32(a: int, b: int, q: int)
    requires a == b + q * UINT32
    ensures ToInt32(a) == ToInt32(b)
  {
    UniqueRemainder(a, UINT32, b / UINT32 + q, b % UINT32);
  }

  lemma CountOn(n: nat, k: nat)
    ensures ToInt32(ToInt32(n) + k) == ToInt32(n + k)
  {
    var q := if n % UINT32 < 0x8000_0000 then n / UINT32 else n / UINT32 + 1;
    SameInt32(n + k, ToInt32(n) + k, q);
  }

  /** An int that has counted n bytes goes on by k. */
  method Counted(count: int, k: nat, ghost n: nat) returns (r: int)
    requires count == ToInt32(n)
    ensures r == ToInt32(n + k)
  {
    CountOn(n, k);
    r := ToInt32(count + k);
  }

  /** The count is right exactly below 2^31 (no buffer has as many as 2^63 bytes). */
  lemma CountExactly(n: nat)
    ensures n < 0x8000_0000 ==> ToInt32(n) == n && Returned(n) == n
    ensures 0x8000_0000 <= n ==> ToInt32(n) != n
    ensures 0x8000_0000 <= n < 0x8000_0000_0000_0000 ==> Returned(n) != n
  {}

  /** An int never counts further than there is to count. */
  lemma SmallerIndex(n: int)
    requires n >= -1
    ensures ToInt32(n) <= n && (ToInt32(n) == n <==> n < INT32)
  {
    if n >= 0 {
      CountExactly(n);
    }
  }

  // ---------------------------------------------------------------------------
  // The first position of a byte
  // ---------------------------------------------------------------------------

  /** The first position of a byte, or -1. */
  function FirstIndex(s: seq<byte>, c: byte): (k: int)
    ensures k == -1 ==> forall i | 0 <= i < |s| :: s[i] != c
    ensures k != -1 ==> 0 <= k < |s| && s[k] == c && forall i | 0 <= i < k :: s[i] != c
  {
    if |s| == 0 then -1
    else if s[0] == c then 0
    else
      var k := FirstIndex(s[1..], c);
      assert forall i | 1 <= i < |s| :: s[i] == s[1..][i - 1];
      if k == -1 then -1 else k + 1
  }

  lemma {:induction false} FirstIndexJoin(s: seq<byte>, t: seq<byte>, c: byte)
    ensures FirstIndex(s + t, c) ==
      if FirstIndex(s, c) != -1 then FirstIndex(s, c)
      else if FirstIndex(t, c) != -1 then |s| + FirstIndex(t, c) else -1
  {
    var all, j, k := s + t, FirstIndex(s, c), FirstIndex(t, c);
    assert forall i | 0 <= i < |s| :: all[i] == s[i];
    assert forall i | 0 <= i < |t| :: all[|s| + i] == t[i];
  }

  /** `k` more bytes have moved from `was` behind `mine`. */
  lemma MovedMore(mine: seq<byte>, was: seq<byte>, n: nat, k: nat)
    requires n + k <= |was|
    ensures mine + was[..n] + was[n..][..k] == mine + was[..n + k] && was[n..][k..] == was[n + k..]
  {
    SliceTwice(was, n, k);
    Associates(mine, was[..n], was[n..][..k]);
  }

  predicate Differ(f: Fragment, g: Fragment) {
    f != g && f.data != g.data
  }

  ghost predicate Distinct(frags: seq<Fragment>) {
    forall i, j {:trigger Differ(frags[i], frags[j])} | 0 <= i < j < |frags| :: Differ(frags[i], frags[j])
  }

  lemma DistinctJoin(a: seq<Fragment>, b: seq<Fragment>)
    requires Distinct(a) && Distinct(b)
    requires forall i, j | 0 <= i < |a| && 0 <= j < |b| :: Differ(a[i], b[j])
    ensures Distinct(a + b)
  {
    var all := a + b;
    forall i, j | 0 <= i < j < |all| ensures Differ(all[i], all[j]) {
      if j < |a| {
        assert Differ(a[i], a[j]);
      } else if i < |a| {
        assert Differ(a[i], b[j - |a|]);
      } else {
        assert Differ(b[i - |a|], b[j - |a|]);
      }
    }
  }

  lemma DistinctRest(a: seq<Fragment>)
    requires Distinct(a) && |a| > 0
    ensures Distinct(a[1..]) && forall i | 1 <= i < |a| :: Differ(a[0], a[i])
  {
    var rest := a[1..];
    forall i, j | 0 <= i < j < |rest| ensures Differ(rest[i], rest[j]) {
      assert Differ(a[i + 1], a[j + 1]);
    }
  }

  class DataBuffer {
    var size: nat
    var firstFrag: Fragment?
    var lastFrag: Fragment?
    /** The chain, the live bytes of its fragments, and every object it is made of. */
    ghost var frags: seq<Fragment>
    ghost var parts: seq<seq<byte>>
    ghost var repr: set<object>

    /** The fragments are distinct and linked from first to last. */
    ghost predicate Linked()
      reads `firstFrag, `lastFrag, `frags, `parts, `repr, repr
    {
      && this !in repr
      && |parts| == |frags|
      && firstFrag == (if |frags| == 0 then null else frags[0])
      && lastFrag == (if |frags| == 0 then null else frags[|frags| - 1])
      && (forall i | 0 <= i < |frags| :: Owned(i))
      && Distinct(frags)
    }

    ghost predicate Owned(i: nat)
      requires i < |frags| && |parts| == |frags|
      reads `frags, `parts, `repr, repr
    {
      OwnedBefore(i, null)
    }

    /** The same in a chain whose last fragment points on to `after`. */
    ghost predicate OwnedBefore(i: nat, after: Fragment?)
      requires i < |frags| && |parts| == |frags|
      reads `frags, `parts, `repr, repr
    {
      && frags[i] in repr && frags[i].data in repr
      && frags[i].Valid() && frags[i].content == parts[i]
      && frags[i].next == (if i + 1 < |frags| then frags[i + 1] else after)
    }

    /** A chain whose last fragment points on to `after`. */
    ghost predicate OpenTo(after: Fragment?)
      reads `firstFrag, `frags, `parts, `repr, repr
    {
      && this !in repr && |parts| == |frags| > 0 && firstFrag == frags[0]
      && (forall i | 0 <= i < |frags| :: OwnedBefore(i, after))
      && (forall i | 0 <= i < |parts| :: parts[i] != [])
      && Distinct(frags)
    }

    ghost predicate Valid()
      reads this, repr
    {
      && Linked()
      && (forall i | 0 <= i < |parts| :: parts[i] != [])
      && size == |Contents()|
    }

    ghost function Contents(): seq<byte>
      reads `parts
    {
      Flatten(parts)
    }

    constructor ()
      ensures Valid() && fresh(repr) && Contents() == []
    {
      firstFrag, lastFrag, size := null, null, 0;
      frags, parts, repr := [], [], {};
    }

    // -------------------------------------------------------------------------
    // Appending
    // -------------------------------------------------------------------------

    /** Only the last fragment may be empty. */
    ghost predicate Growing()
      reads `firstFrag, `lastFrag, `frags, `parts, `repr, repr
    {
      && Linked()
      && forall i | 0 <= i < |parts| - 1 :: parts[i] != []
    }

    ghost predicate LastFull()
      requires Linked()
      reads `firstFrag, `lastFrag, `frags, `parts, `repr, repr
    {
      lastFrag != null && Owned(|frags| - 1) && lastFrag.Avail() == 0
    }

    ghost predicate LastEmpty()
      reads `parts
    {
      |parts| > 0 && parts[|parts| - 1] == []
    }

    /** The start of an iteration: the room found, which is none when the last fragment was full, even
        though an empty one follows it by then. */
    method Room() returns (avail: nat)
      requires Growing() && (LastEmpty() ==> !LastFull())
      modifies this, repr
      ensures Growing() && fresh(repr - old(repr)) && size == old(size)
      ensures lastFrag != null && Contents() == old(Contents())
      ensures Owned(|frags| - 1) && avail <= lastFrag.Avail()
      ensures if old(LastFull()) then avail == 0 && !LastFull() else avail > 0 && avail == lastFrag.Avail()
    {
      if lastFrag == null {
        var f := new Fragment();
        lastFrag, firstFrag := f, f;
        frags, parts, repr := [f], [[]], repr + {f, f.data};
        avail := f.Avail();
        FlattenOne([]);
      } else {
        assert Owned(|frags| - 1);
        avail := lastFrag.Avail();
        if avail <= 0 {
          LinkNew();
        }
      }
    }

    method LinkNew()
      requires Growing() && |frags| > 0 && LastFull() && !LastEmpty()
      modifies this, repr
      ensures Growing() && fresh(repr - old(repr)) && size == old(size)
      ensures lastFrag != null && Contents() == old(Contents()) && !LastFull()
    {
      var f := new Fragment();
      ghost var n := |frags|;
      assert Owned(n - 1);
      assert Flatten(parts + [[]]) == Flatten(parts) by {
        FlattenJoin(parts, [[]]);
        FlattenOne([]);
      }
      lastFrag.next := f;
      lastFrag := f;
      frags, parts, repr := frags + [f], parts + [[]], repr + {f, f.data};
      assert Owned(n - 1) && Owned(n);
      forall i | 0 <= i < n - 1 ensures Owned(i) {
        assert old(Owned(i)) && Differ(old(frags)[i], old(frags)[n - 1]);
      }
    }

    /** Bytes at the end of the last fragment. */
    method FillLast(s: seq<byte>)
      requires Growing() && |frags| > 0 && Owned(|frags| - 1) && |s| <= lastFrag.Avail()
      modifies this, repr
      ensures Growing() && repr == old(repr) && frags == old(frags) && size == old(size)
      ensures Contents() == old(Contents()) + s
      ensures Owned(|frags| - 1) && lastFrag.Avail() == old(lastFrag.Avail()) - |s|
      ensures LastEmpty() ==> s == []
    {
      ghost var n, init := |frags| - 1, parts[..|frags| - 1];
      ghost var last := parts[n];
      lastFrag.Fill(s);
      parts := parts[n := last + s];
      assert Owned(n);
      forall i | 0 <= i < n ensures Owned(i) {
        assert old(Owned(i)) && Differ(frags[i], frags[n]);
      }
      assert old(parts) == init + [last] && parts == init + [last + s];
      FlattenJoin(init, [last]);
      FlattenJoin(init, [last + s]);
      FlattenOne(last);
      FlattenOne(last + s);
    }

    /** One iteration of the appending loops: some of the bytes, or none when that only linked a new
        fragment. */
    method AppendSome(s: seq<byte>) returns (n: nat)
      requires s != [] && Growing() && (LastEmpty() ==> !LastFull())
      modifies this, repr
      ensures Growing() && fresh(repr - old(repr)) && size == old(size)
      ensures n <= |s| && Contents() == old(Contents()) + s[..n]
      ensures LastEmpty() ==> n == 0 && !LastFull()
      ensures n == 0 ==> old(LastFull()) && !LastFull()
    {
      n := Room();
      n := Min(n, |s|);
      FillLast(s[..n]);
    }

    /** protobuf_c_data_buffer_append. */
    method Append(data: seq<byte>)
      requires Valid()
      modifies this, repr
      ensures Valid() && fresh(repr - old(repr))
      ensures Contents() == old(Contents()) + data
    {
      size := size + |data|;
      var at := 0;
      while at < |data|
        invariant Growing() && fresh(repr - old(repr)) && at <= |data|
        invariant Contents() == old(Contents()) + data[..at] && size == old(size) + |data|
        invariant LastEmpty() ==> at < |data| && !LastFull()
        decreases |data| - at, LastFull()
      {
        var n := AppendSome(data[at..]);
        assert data[..at] + data[at..][..n] == data[..at + n];
        at := at + n;
      }
      assert data[..at] == data;
    }

    /** protobuf_c_data_buffer_append_repeated_char. */
    method AppendRepeatedChar(c: byte, count: nat)
      requires Valid()
      modifies this, repr
      ensures Valid() && fresh(repr - old(repr))
      ensures Contents() == old(Contents()) + Repeat(c, count)
    {
      size := size + count;
      var left := count;
      while left > 0
        invariant Growing() && fresh(repr - old(repr)) && 0 <= left <= count
        invariant Contents() == old(Contents()) + Repeat(c, count - left) && size == old(size) + count
        invariant LastEmpty() ==> 0 < left && !LastFull()
        decreases left, LastFull()
      {
        var n := AppendSome(Repeat(c, left));
        assert Repeat(c, count - left) + Repeat(c, left)[..n] == Repeat(c, count - (left - n));
        left := left - n;
      }
    }

    // -------------------------------------------------------------------------
    // Removing from the front
    // -------------------------------------------------------------------------

    ghost predicate Filled()
      reads `firstFrag, `lastFrag, `frags, `parts, `repr, repr
    {
      Linked() && forall i | 0 <= i < |parts| :: parts[i] != []
    }

    /** The first fragment goes. */
    method PopFirst()
      requires Filled() && |frags| > 0
      modifies `firstFrag, `lastFrag, `frags, `parts, `repr
      ensures Filled() && frags == old(frags)[1..] && parts == old(parts)[1..]
      ensures repr == old(repr) - {old(frags[0]), old(frags[0].data)}
    {
      assert Owned(0);
      firstFrag := firstFrag.next;
      if firstFrag == null {
        lastFrag := null;
      }
      ghost var f := frags[0];
      DistinctRest(frags);
      assert |frags| > 1 ==> frags[1] == firstFrag;
      frags, parts, repr := frags[1..], parts[1..], repr - {f, f.data};
      forall i | 0 <= i < |frags| ensures Owned(i) {
        assert old(Owned(i + 1)) && Differ(f, frags[i]);
      }
    }

    /** The first fragment loses some of its bytes, but not all. */
    method ShrinkFirst(n: nat)
      requires Filled() && |frags| > 0 && n < |parts[0]|
      modifies `parts, frags[0]
      ensures Filled() && parts == [old(parts[0])[n..]] + old(parts)[1..]
    {
      assert Owned(0);
      firstFrag.DropFront(n);
      parts := [parts[0][n..]] + parts[1..];
      assert Owned(0);
      forall i | 1 <= i < |frags| ensures Owned(i) {
        assert old(Owned(i)) && Differ(frags[0], frags[i]);
      }
    }

    /** Up to `n` bytes of the first fragment go: one iteration of the reading loops. */
    method Advance(n: nat) returns (k: nat)
      requires Filled() && |frags| > 0 && n > 0
      modifies `firstFrag, `lastFrag, `frags, `parts, `repr, frags[0]
      ensures Filled() && repr <= old(repr)
      ensures 0 < k == Min(n, |old(parts[0])|) <= |old(Contents())|
      ensures Contents() == old(Contents())[k..]
    {
      assert Owned(0);
      ghost var head, tail := parts[0], Flatten(parts[1..]);
      assert Contents() == head + tail;
      if firstFrag.bufLength <= n {
        k := firstFrag.bufLength;
        PopFirst();
        assert (head + tail)[k..] == tail;
      } else {
        k := n;
        ShrinkFirst(n);
        assert parts[1..] == old(parts)[1..];
        assert (head + tail)[k..] == head[k..] + tail;
      }
    }

    /** Bytes of the first fragment are copied out and go. */
    method TakeSome(dst: array<byte>, at: nat, n: nat) returns (k: nat)
      requires Filled() && |frags| > 0 && n > 0 && dst !in repr && at + n <= dst.Length
      modifies `firstFrag, `lastFrag, `frags, `parts, `repr, frags[0], dst
      ensures Filled() && repr <= old(repr)
      ensures 0 < k <= n && k <= |old(Contents())| && (k < n ==> k == |old(parts[0])|)
      ensures Contents() == old(Contents())[k..]
      ensures forall i | at <= i < at + k :: dst[i] == old(Contents())[i - at]
      ensures forall i | 0 <= i < at :: dst[i] == old(dst[i])
    {
      assert Owned(0);
      ghost var head, was := parts[0], Contents();
      assert was == head + Flatten(parts[1..]);
      k := Min(firstFrag.bufLength, n);
      firstFrag.CopyTo(k, dst, at);
      assert forall i | 0 <= i < k :: was[i] == head[i];
      assert Filled() && Owned(0);
      k := Advance(n);
    }

    /** protobuf_c_data_buffer_read. */
    method Read(dst: array<byte>, maxLength: nat) returns (rv: nat)
      requires Valid() && dst !in repr && maxLength <= dst.Length
      modifies this, repr, dst
      ensures Valid() && repr <= old(repr)
      ensures rv == Min(maxLength, |old(Contents())|)
      ensures dst[..rv] == old(Contents())[..rv] && Contents() == old(Contents())[rv..]
    {
      rv := ReadLoop(dst, maxLength, Contents());
      size := size - rv;
      assert rv == maxLength || size == 0;
    }

    method ReadLoop(dst: array<byte>, maxLength: nat, ghost was: seq<byte>) returns (rv: nat)
      requires Filled() && dst !in repr && maxLength <= dst.Length && Contents() == was
      modifies this, repr, dst
      ensures Filled() && repr <= old(repr) && size == old(size)
      ensures rv == Min(maxLength, |was|) && Contents() == was[rv..]
      ensures forall i | 0 <= i < rv :: dst[i] == was[i]
    {
      rv := 0;
      var left := maxLength;
      while left > 0 && firstFrag != null
        invariant Filled() && repr <= old(repr) && size == old(size)
        invariant 0 <= left == maxLength - rv && rv <= |was|
        invariant Contents() == was[rv..]
        invariant forall i | 0 <= i < rv :: dst[i] == was[i]
        decreases left
      {
        assert Owned(0);
        var k := TakeSome(dst, rv, left);
        SliceTwice(was, rv, k);
        left, rv := left - k, rv + k;
      }
    }

    /** protobuf_c_data_buffer_discard: the bytes go whatever their number, but an int counts them, so
        the size is right exactly when they are less than 2^31. */
    method Discard(maxDiscard: nat) returns (rv: nat)
      requires Valid()
      modifies this, repr
      ensures Filled() && repr <= old(repr)
      ensures var n: nat := Min(maxDiscard, |old(Contents())|);
        && Contents() == old(Contents())[n..] && rv == Returned(n) && size == old(size) - ToInt32(n)
        && (Valid() <==> n < INT32)
    {
      var count: int := 0;
      var left := maxDiscard;
      ghost var gone: nat := 0;
      while left > 0 && firstFrag != null
        invariant Filled() && repr <= old(repr) && size == old(size)
        invariant 0 <= left == maxDiscard - gone && gone <= |old(Contents())| && count == ToInt32(gone)
        invariant Contents() == old(Contents())[gone..]
        decreases left
      {
        assert Owned(0);
        var k := Advance(left);
        count := Counted(count, k, gone);
        left, gone := left - k, gone + k;
      }
      CountExactly(gone);
      size := size - count;
      rv := count % UINT64;
    }

    /** protobuf_c_data_buffer_reset. */
    method Reset()
      requires Valid()
      modifies this
      ensures Valid() && Contents() == [] && repr == {}
    {
      var at := firstFrag;
      ghost var i := 0;
      while at != null
        invariant 0 <= i <= |frags| && at == (if i < |frags| then frags[i] else null)
        decreases |frags| - i
      {
        assert Owned(i);
        at, i := at.next, i + 1;
      }
      firstFrag, lastFrag, size := null, null, 0;
      frags, parts, repr := [], [], {};
    }

    // -------------------------------------------------------------------------
    // Looking without removing
    // -------------------------------------------------------------------------

    /** What lies from the fragment `i` on. */
    ghost function Rest(i: nat): seq<byte>
      requires i <= |parts|
      reads `parts
    {
      Flatten(parts[i..])
    }

    lemma RestStep(i: nat)
      requires i < |parts|
      ensures Rest(i) == parts[i] + Rest(i + 1)
    {
      assert parts[i..][1..] == parts[i + 1..];
    }

    /** One fragment of peeking: bytes of it are copied out behind those that are. */
    method PeekIn(frag: Fragment, dst: array<byte>, at: nat, left: nat, ghost i: nat) returns (k: nat)
      requires Valid() && i < |frags| && frag == frags[i] && dst !in repr
      requires left > 0 && at + left <= dst.Length && at <= |Contents()| && Contents()[at..] == Rest(i)
      requires forall j | 0 <= j < at :: dst[j] == Contents()[j]
      modifies dst
      ensures Valid() && 0 < k == Min(|parts[i]|, left) && at + k <= |Contents()|
      ensures k == |parts[i]| ==> Contents()[at + k..] == Rest(i + 1)
      ensures forall j | 0 <= j < at + k :: dst[j] == Contents()[j]
    {
      assert Owned(i);
      RestStep(i);
      k := Min(frag.bufLength, left);
      frag.CopyTo(k, dst, at);
      ghost var part, was := parts[i], Contents();
      assert forall j | at <= j < at + k :: dst[j] == part[j - at] == was[at..][j - at];
      assert k == |part| ==> was[at..][k..] == was[at + k..] == Rest(i + 1);
    }

    /** protobuf_c_data_buffer_peek: the bytes are right whatever their number; an int counts them. */
    method Peek(dst: array<byte>, maxLength: nat) returns (rv: nat)
      requires Valid() && dst !in repr && maxLength <= dst.Length
      modifies dst
      ensures Valid()
      ensures var n: nat := Min(maxLength, |Contents()|); rv == Returned(n) && dst[..n] == Contents()[..n]
    {
      var count: int, at: nat := 0, 0;
      var left, frag := maxLength, firstFrag;
      ghost var i: nat := 0;
      assert parts[0..] == parts;
      while left > 0 && frag != null
        invariant Valid() && i <= |frags| && 0 <= left == maxLength - at && at <= |Contents()|
        invariant left > 0 ==> frag == (if i < |frags| then frags[i] else null) && Contents()[at..] == Rest(i)
        invariant count == ToInt32(at) && forall j | 0 <= j < at :: dst[j] == Contents()[j]
        decreases left
      {
        assert Owned(i);
        var k := PeekIn(frag, dst, at, left, i);
        count := Counted(count, k, at);
        if frag.bufLength <= left {
          assert Owned(i);
          frag, i := frag.next, i + 1;
        }
        left, at := left - k, at + k;
      }
      rv := count % UINT64;
    }

    /** Behind `at` bytes without it, a byte is first found where it is first in what lies from the
        fragment `i` on. */
    ghost predicate NotBefore(c: byte, i: nat, at: nat)
      requires i <= |parts|
      reads `parts
    {
      FirstIndex(Flatten(parts), c) == if FirstIndex(Rest(i), c) == -1 then -1 else at + FirstIndex(Rest(i), c)
    }

    lemma {:induction false} NotInNext(c: byte, i: nat, at: nat)
      requires i < |parts| && NotBefore(c, i, at)
      ensures if FirstIndex(parts[i], c) == -1 then NotBefore(c, i + 1, at + |parts[i]|)
              else FirstIndex(Flatten(parts), c) == at + FirstIndex(parts[i], c)
    {
      RestStep(i);
      FirstIndexJoin(parts[i], Rest(i + 1), c);
    }

    lemma NotBeforeStart(c: byte)
      ensures NotBefore(c, 0, 0)
    {
      assert parts[0..] == parts;
    }

    lemma {:induction false} NotAtAll(c: byte, at: nat)
      requires NotBefore(c, |parts|, at)
      ensures FirstIndex(Flatten(parts), c) == -1
    {}

    /** One fragment of a search, an int counting. */
    method SearchIn(at: Fragment, c: byte, count: int, ghost i: nat, ghost passed: nat)
      returns (found: bool, now: int)
      requires Valid() && i < |frags| && at == frags[i]
      requires count == ToInt32(passed) && NotBefore(c, i, passed)
      ensures found ==> FirstIndex(Contents(), c) != -1 && now == ToInt32(FirstIndex(Contents(), c))
      ensures !found ==> NotBefore(c, i + 1, passed + |parts[i]|) && now == ToInt32(passed + |parts[i]|)
    {
      assert Owned(i);
      NotInNext(c, i, passed);
      var got := at.Find(c);
      found := got != -1;
      now := Counted(count, if found then got else at.bufLength, passed);
    }

    /** The loop of searching and of reading a line: fragment after fragment. */
    method Search(c: byte) returns (found: bool, count: int)
      requires Valid()
      ensures found <==> FirstIndex(Contents(), c) != -1
      ensures found ==> count == ToInt32(FirstIndex(Contents(), c))
    {
      found, count := false, 0;
      var at := firstFrag;
      ghost var i: nat, passed: nat := 0, 0;
      NotBeforeStart(c);
      while at != null
        invariant !found && i <= |frags| && at == (if i < |frags| then frags[i] else null)
        invariant count == ToInt32(passed) && NotBefore(c, i, passed)
        decreases |frags| - i
      {
        assert Owned(i);
        found, count := SearchIn(at, c, count, i, passed);
        if found {
          return;
        }
        at, i, passed := at.next, i + 1, passed + |parts[i]|;
      }
      NotAtAll(c, passed);
    }

    /** protobuf_c_data_buffer_index_of: the first position in the whole contents, counted by an int. */
    method IndexOf(c: byte) returns (rv: int)
      requires Valid()
      ensures rv == ToInt32(FirstIndex(Contents(), c))
    {
      var found, count := Search(c);
      rv := if found then count else -1;
    }

    /** protobuf_c_data_buffer_peek_char. */
    method PeekChar() returns (c: int)
      requires Valid()
      ensures c == if Contents() == [] then -1 else Contents()[0]
    {
      if size == 0 {
        return -1;
      }
      assert Owned(0);
      assert Contents()[0] == parts[0][0] by {
        assert Contents() == parts[0] + Flatten(parts[1..]);
      }
      c := firstFrag.data[firstFrag.bufStart];
    }

    /** protobuf_c_data_buffer_read_char. */
    method ReadChar() returns (c: int)
      requires Valid()
      modifies this, repr
      ensures Valid() && repr <= old(repr)
      ensures if old(Contents()) == [] then c == -1 && Contents() == []
        else c == old(Contents())[0] && Contents() == old(Contents())[1..]
    {
      var one := new byte[1];
      var n := Read(one, 1);
      if n == 0 {
        return -1;
      }
      assert one[..1][0] == one[0];
      c := one[0];
    }

    // -------------------------------------------------------------------------
    // Reading up to a terminator
    // -------------------------------------------------------------------------

    const NEWLINE: byte := 10

    /** What reading up to a terminator promises: without one the contents stay; otherwise they lose
        everything up to it, and the bytes before it come back with a NUL behind them. */
    ghost predicate Cut(was: seq<byte>, c: byte, now: seq<byte>, text: array?<byte>)
      reads text
    {
      var k := FirstIndex(was, c);
      if k == -1 then text == null && now == was
      else text != null && text[..] == was[..k] + [0] && now == was[k + 1..]
    }

    /** protobuf_c_data_buffer_read_line. An int counts to the newline; it must not come out negative, nor
        as the last of its numbers, for the code then writes outside the line. The line is cut at that
        count, which is at the newline exactly when that lies below 2^31. */
    method ReadLine() returns (line: array?<byte>)
      requires Valid()
      requires FirstIndex(Contents(), 10) != -1 ==> 0 <= ToInt32(FirstIndex(Contents(), 10)) < INT32 - 1
      modifies this, repr
      ensures Valid() && repr <= old(repr) && (line == null || fresh(line))
      ensures var p := FirstIndex(old(Contents()), 10);
        && (p == -1 ==> line == null && Contents() == old(Contents()))
        && (p != -1 ==>
              && line != null && line[..] == old(Contents())[..ToInt32(p)] + [0]
              && Contents() == old(Contents())[ToInt32(p) + 1..])
        && (Cut(old(Contents()), 10, Contents(), line) <==> p < INT32)
    {
      var found, len := Search(NEWLINE);
      if !found {
        return null;
      }
      ghost var was := Contents();
      SmallerIndex(FirstIndex(was, NEWLINE));
      line := new byte[len + 1];
      var n := Read(line, len + 1);
      assert line[..len] == line[..n][..len] == was[..len];
      line[len] := 0;
      assert line[..] == was[..len] + [0];
    }

    /** protobuf_c_data_buffer_parse_string0: a position that comes out negative is taken for none. The
        text ends where the int says, which is at the NUL exactly when that lies below 2^31. */
    method ParseString0() returns (text: array?<byte>)
      requires Valid() && ToInt32(FirstIndex(Contents(), 0)) != INT32 - 1
      modifies this, repr
      ensures Valid() && repr <= old(repr) && (text == null || fresh(text))
      ensures var k := ToInt32(FirstIndex(old(Contents()), 0));
        && (k < 0 ==> text == null && Contents() == old(Contents()))
        && (k >= 0 ==>
              && k < |old(Contents())| && text != null && text[..] == old(Contents())[..k + 1]
              && Contents() == old(Contents())[k + 1..])
        && (Cut(old(Contents()), 0, Contents(), text) <==> FirstIndex(old(Contents()), 0) < INT32)
    {
      ghost var was := Contents();
      SmallerIndex(FirstIndex(was, 0));
      var k := IndexOf(0);
      if k < 0 {
        return null;
      }
      text := new byte[k + 1];
      var n := Read(text, k + 1);
      assert text[..] == text[..n] == was[..k + 1] == was[..k] + [was[k]];
    }

    // -------------------------------------------------------------------------
    // Between two buffers
    // -------------------------------------------------------------------------

    ghost predicate Apart(other: DataBuffer)
      reads `repr, other`repr
    {
      this != other && repr !! other.repr && this !in other.repr && other !in repr
    }

    /** A fragment of another chain becomes the last of this one. */
    method Adopt(f: Fragment)
      requires Filled() && f !in repr && f.data !in repr && f.data as object != this
      requires f.Valid() && f.content != [] && f.next == null
      modifies `firstFrag, `lastFrag, `frags, `parts, `repr, repr
      ensures Filled() && parts == old(parts) + [f.content] && repr == old(repr) + {f, f.data}
      ensures f.Valid() && f.content == old(f.content) && f.bufLength == old(f.bufLength)
    {
      ghost var n := |frags|;
      if lastFrag != null {
        assert Owned(n - 1);
        lastFrag.next := f;
      } else {
        firstFrag := f;
      }
      lastFrag := f;
      frags, parts, repr := frags + [f], parts + [f.content], repr + {f, f.data};
      assert Owned(n);
      forall i | 0 <= i < n ensures Owned(i) && Differ(frags[i], f) {
        assert old(Owned(i));
      }
    }

    /** protobuf_c_data_buffer_drain: everything, without copying. */
    method Drain(src: DataBuffer) returns (rv: nat)
      requires Valid() && src.Valid() && Apart(src)
      modifies this, repr, src
      ensures Valid() && src.Valid() && Apart(src) && repr <= old(repr) + old(src.repr)
      ensures rv == |old(src.Contents())|
      ensures Contents() == old(Contents()) + old(src.Contents()) && src.Contents() == []
    {
      rv := src.size;
      if src.firstFrag == null {
        assert Contents() + [] == Contents();
        return;
      }
      size := size + src.size;
      TakeChain(src);
      src.size := 0;
    }

    method TakeChain(src: DataBuffer)
      requires Filled() && src.Filled() && Apart(src) && |src.frags| > 0
      modifies this, repr, src
      ensures Filled() && src.Filled() && Apart(src) && repr == old(repr) + old(src.repr)
      ensures Contents() == old(Contents()) + old(src.Contents()) && src.Contents() == []
      ensures size == old(size) && src.size == old(src.size)
    {
      if lastFrag != null {
        FlattenJoin(parts, src.parts);
        assert Owned(|frags| - 1);
        LinkBehind(src);
      } else {
        TakeOver(src);
      }
    }

    method TakeOver(src: DataBuffer)
      requires Filled() && src.Filled() && Apart(src) && |frags| == 0
      modifies this, src
      ensures Filled() && src.Filled() && Apart(src) && repr == old(repr) + old(src.repr)
      ensures Contents() == old(Contents()) + old(src.Contents()) && src.Contents() == []
      ensures size == old(size) && src.size == old(src.size)
    {
      firstFrag := src.firstFrag;
      lastFrag := src.lastFrag;
      src.firstFrag, src.lastFrag := null, null;
      frags, parts, repr := src.frags, src.parts, repr + src.repr;
      src.frags, src.parts, src.repr := [], [], {};
      forall j | 0 <= j < |frags| ensures Owned(j) {
        assert old(src.Owned(j));
      }
    }

    method LinkBehind(src: DataBuffer)
      requires Filled() && src.Filled() && Apart(src) && |src.frags| > 0 && |frags| > 0
      requires Owned(|frags| - 1)
      modifies this, frags[|frags| - 1], src
      ensures Filled() && src.Filled() && Apart(src) && repr == old(repr) + old(src.repr)
      ensures parts == old(parts) + old(src.parts) && src.parts == []
      ensures size == old(size) && src.size == old(src.size)
    {
      PointTo(src);
      Absorb(src);
    }

    /** The last fragment points to the first one of another chain. */
    method PointTo(src: DataBuffer)
      requires Filled() && src.Filled() && Apart(src) && |src.frags| > 0 && |frags| > 0
      requires Owned(|frags| - 1)
      modifies frags[|frags| - 1]
      ensures OpenTo(src.frags[0]) && src.Filled()
    {
      ghost var n := |frags|;
      lastFrag.next := src.firstFrag;
      forall i | 0 <= i < n ensures OwnedBefore(i, src.frags[0]) {
        assert old(Owned(i)) && (i + 1 < n ==> Differ(frags[i], frags[n - 1]));
      }
      forall j | 0 <= j < |src.frags| ensures src.Owned(j) {
        assert old(src.Owned(j));
      }
    }

    /** The chain behind this one becomes part of it. */
    method Absorb(src: DataBuffer)
      requires src.Filled() && |src.frags| > 0 && OpenTo(src.frags[0]) && Apart(src)
      modifies this, src
      ensures Filled() && src.Filled() && Apart(src) && repr == old(repr) + old(src.repr)
      ensures parts == old(parts) + old(src.parts) && src.parts == []
      ensures size == old(size) && src.size == old(src.size)
    {
      ghost var n, a, b, p := |frags|, frags, src.frags, src.parts;
      forall i, j | 0 <= i < n && 0 <= j < |b| ensures Differ(a[i], b[j]) {
        assert OwnedBefore(i, b[0]) && src.Owned(j);
      }
      DistinctJoin(a, b);
      lastFrag := src.lastFrag;
      src.firstFrag, src.lastFrag := null, null;
      frags, parts, repr := a + b, parts + p, repr + src.repr;
      src.frags, src.parts, src.repr := [], [], {};
      forall k | 0 <= k < |frags| ensures Owned(k) {
        if k < n {
          assert old(OwnedBefore(k, b[0])) && frags[k] == a[k];
        } else {
          assert old(src.Owned(k - n)) && frags[k] == b[k - n] && parts[k] == p[k - n];
        }
      }
    }

    /** protobuf_c_data_buffer_transfer: whole fragments move, the rest is copied. */
    method Transfer(src: DataBuffer, maxTransfer: nat) returns (rv: nat)
      requires Valid() && src.Valid() && Apart(src)
      modifies this, repr, src, src.repr
      ensures Valid() && src.Valid() && Apart(src)
      ensures src.repr <= old(src.repr) && fresh(repr - old(repr) - old(src.repr))
      ensures rv == Min(maxTransfer, |old(src.Contents())|)
      ensures Contents() == old(Contents()) + old(src.Contents())[..rv]
      ensures src.Contents() == old(src.Contents())[rv..]
    {
      ghost var mine, was := Contents(), src.Contents();
      rv := MoveWhole(src, maxTransfer);
      var left := maxTransfer - rv;
      if src.firstFrag != null && left > 0 {
        CopyFirst(src, left);
        MovedMore(mine, was, rv, left);
        rv := rv + left;
      }
      src.size := src.size - rv;
    }

    /** The loop of the transfer: fragment after fragment, while they go over whole. */
    method MoveWhole(src: DataBuffer, maxTransfer: nat) returns (rv: nat)
      requires Valid() && src.Filled() && Apart(src)
      modifies this, repr, src, src.repr
      ensures Valid() && src.Filled() && Apart(src) && src.size == old(src.size)
      ensures src.repr <= old(src.repr) && repr <= old(repr) + old(src.repr)
      ensures rv <= maxTransfer && rv <= |old(src.Contents())|
      ensures Contents() == old(Contents()) + old(src.Contents())[..rv]
      ensures src.Contents() == old(src.Contents())[rv..]
      ensures src.firstFrag != null ==> maxTransfer - rv < src.firstFrag.bufLength
    {
      rv := 0;
      var left := maxTransfer;
      ghost var mine, was := Contents(), src.Contents();
      while src.firstFrag != null && left >= src.firstFrag.bufLength
        invariant Filled() && src.Filled() && Apart(src) && size == old(size) && src.size == old(src.size)
        invariant src.repr <= old(src.repr) && repr <= old(repr) + old(src.repr)
        invariant 0 <= left == maxTransfer - rv && rv <= |was|
        invariant Contents() == mine + was[..rv] && src.Contents() == was[rv..]
        decreases left
      {
        assert src.Owned(0);
        var k := MoveFirst(src);
        MovedMore(mine, was, rv, k);
        left, rv := left - k, rv + k;
      }
      size := size + rv;
    }

    /** The first fragment of `src` moves over. */
    method MoveFirst(src: DataBuffer) returns (k: nat)
      requires Filled() && src.Filled() && Apart(src) && |src.frags| > 0
      modifies this, repr, src, src.repr
      ensures Filled() && src.Filled() && Apart(src) && size == old(size) && src.size == old(src.size)
      ensures src.repr <= old(src.repr) && repr <= old(repr) + old(src.repr)
      ensures 0 < k == |old(src.parts[0])| <= |old(src.Contents())|
      ensures Contents() == old(Contents()) + old(src.Contents())[..k]
      ensures src.Contents() == old(src.Contents())[k..]
    {
      assert src.Owned(0);
      var frag := src.firstFrag;
      ghost var part, was, mine := frag.content, src.Contents(), parts;
      assert was == part + Flatten(src.parts[1..]);
      src.PopFirst();
      frag.next := null;
      Adopt(frag);
      assert Flatten(mine + [part]) == Flatten(mine) + part by {
        FlattenJoin(mine, [part]);
        FlattenOne(part);
      }
      k := frag.bufLength;
    }

    /** Some bytes of the first fragment of `src` are copied, and dropped there. */
    method CopyFirst(src: DataBuffer, n: nat)
      requires Valid() && src.Filled() && Apart(src) && |src.frags| > 0 && 0 < n < src.firstFrag.bufLength
      modifies this, repr, src, src.repr
      ensures Valid() && src.Filled() && Apart(src) && src.size == old(src.size)
      ensures src.repr == old(src.repr) && fresh(repr - old(repr))
      ensures n <= |old(src.Contents())|
      ensures Contents() == old(Contents()) + old(src.Contents())[..n]
      ensures src.Contents() == old(src.Contents())[n..]
    {
      assert src.Owned(0);
      var frag := src.firstFrag;
      ghost var was := src.parts[0] + Flatten(src.parts[1..]);
      assert was == src.Contents();
      var start := frag.data[frag.bufStart..frag.bufStart + n];
      assert start == frag.content[..n] == was[..n];
      Append(start);
      src.ShrinkFirst(n);
      assert src.parts[1..] == old(src.parts)[1..];
      assert was[n..] == old(src.parts[0])[n..] + Flatten(src.parts[1..]);
    }
  }
}
