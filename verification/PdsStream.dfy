/** Whole runs over a packet data stream: a bounded writer, and reading back what it wrote. */
module PdsStream {
  import opened Bytes
  import opened PdsFormat

  // ---------------------------------------------------------------------------
  // The bounded writer
  // ---------------------------------------------------------------------------

  /** What has been written, the room there is in all, and the number of bytes that found no room. */
  datatype Writer = Writer(out: seq<byte>, max: nat, over: nat, ok: bool)

  ghost predicate ValidWriter(w: Writer) {
    |w.out| <= w.max
  }

  function Start(max: nat): (w: Writer)
    ensures ValidWriter(w)
  {
    Writer([], max, 0, true)
  }

  /** Bytes go out one at a time while there is room. */
  function PutBytes(w: Writer, s: seq<byte>): (r: Writer)
    requires ValidWriter(w)
    ensures ValidWriter(r)
  {
    var room := w.max - |w.out|;
    if |s| <= room then w.(out := w.out + s)
    else w.(out := w.out + s[..room], over := w.over + |s| - room, ok := false)
  }

  /** A block goes out whole, or zeros fill what room there is. */
  function PutBlock(w: Writer, s: seq<byte>): (r: Writer)
    requires ValidWriter(w)
    ensures ValidWriter(r)
  {
    var room := w.max - |w.out|;
    if |s| <= room then w.(out := w.out + s)
    else w.(out := w.out + Zeros(room), over := w.over + |s| - room, ok := false)
  }

  /** A block that does not fit leaves what is there, zeros behind it up to the end, and its length as
      overshoot; one that fits stands behind what is there. */
  lemma BlockOrZeros(w: Writer, s: seq<byte>)
    requires ValidWriter(w) && |s| < UINT32
    ensures var r := Write(w, Raw(s)).out;
      && |r| == Min(|w.out| + |s|, w.max) && r[..|w.out|] == w.out
      && (forall i | 0 <= i < |s| && |w.out| + |s| <= w.max :: r[|w.out| + i] == s[i])
      && (forall i | |w.out| <= i < w.max < |w.out| + |s| :: r[i] == 0)
  {}

  /** Writing bytes in two goes is writing them in one. */
  lemma PutBytesTwice(w: Writer, s: seq<byte>, t: seq<byte>)
    requires ValidWriter(w)
    ensures PutBytes(PutBytes(w, s), t) == PutBytes(w, s + t)
  {
    var room, r := w.max - |w.out|, PutBytes(w, s);
    if |s| > room {
      assert t[..0] == [] && r.out + [] == r.out && (s + t)[..room] == s[..room];
    } else if |s| + |t| <= room {
      assert w.out + s + t == w.out + (s + t);
    } else {
      assert w.out + s + t[..room - |s|] == w.out + (s + t)[..room];
    }
  }

  /** One call on the writer: a number, a block with its length in front, or a block alone. */
  datatype Item = Number(value: uint64) | Block(bytes: seq<byte>) | Raw(bytes: seq<byte>)

  predicate ValidItem(i: Item) {
    i.Number? || |i.bytes| < UINT32
  }

  predicate ValidItems(items: seq<Item>) {
    forall i | 0 <= i < |items| :: ValidItem(items[i])
  }

  function ItemBytes(i: Item): seq<byte>
    requires ValidItem(i)
  {
    match i
    case Number(v) => Encode(v)
    case Block(s) => Encode(|s|) + s
    case Raw(s) => s
  }

  function Write(w: Writer, i: Item): (r: Writer)
    requires ValidWriter(w) && ValidItem(i)
    ensures ValidWriter(r)
  {
    match i
    case Number(v) => PutBytes(w, Encode(v))
    case Block(s) => PutBlock(PutBytes(w, Encode(|s|)), s)
    case Raw(s) => PutBlock(w, s)
  }

  function Run(w: Writer, items: seq<Item>): (r: Writer)
    requires ValidWriter(w) && ValidItems(items)
    ensures ValidWriter(r)
    decreases |items|
  {
    if |items| == 0 then w else Run(Write(w, items[0]), items[1..])
  }

  function Concat(items: seq<Item>): seq<byte>
    requires ValidItems(items)
  {
    if |items| == 0 then [] else ItemBytes(items[0]) + Concat(items[1..])
  }

  /** Every byte asked for is either in the buffer or counted as overshoot; nothing is written after
      an overshoot, and without one the buffer holds the encodings in order. */
  ghost predicate Conserves(w: Writer, s: seq<byte>, r: Writer) {
    && r.max == w.max
    && |r.out| + r.over == |w.out| + w.over + |s|
    && w.out <= r.out && w.over <= r.over
    && (r.ok <==> w.ok && r.over == w.over)
    && (r.over > w.over ==> |r.out| == r.max)
    && (r.over == w.over ==> r.out == w.out + s)
  }

  lemma WriteConserves(w: Writer, i: Item)
    requires ValidWriter(w) && ValidItem(i)
    ensures Conserves(w, ItemBytes(i), Write(w, i))
  {
    if i.Block? {
      var v, s := PutBytes(w, Encode(|i.bytes|)), i.bytes;
      assert Conserves(w, Encode(|s|), v) && Conserves(v, s, PutBlock(v, s));
      ConservesTwice(w, Encode(|s|), v, s, PutBlock(v, s));
    }
  }

  lemma ConservesTwice(w: Writer, s: seq<byte>, v: Writer, t: seq<byte>, r: Writer)
    requires ValidWriter(v) && ValidWriter(r)
    requires Conserves(w, s, v) && Conserves(v, t, r)
    ensures Conserves(w, s + t, r)
  {
    assert w.out + s + t == w.out + (s + t);
  }

  lemma {:induction false} RunConserves(w: Writer, items: seq<Item>)
    requires ValidWriter(w) && ValidItems(items)
    ensures Conserves(w, Concat(items), Run(w, items))
    decreases |items|
  {
    if |items| > 0 {
      var v := Write(w, items[0]);
      WriteConserves(w, items[0]);
      RunConserves(v, items[1..]);
      ConservesTwice(w, ItemBytes(items[0]), v, Concat(items[1..]), Run(v, items[1..]));
    }
  }

  /** A run from a fresh writer: offset and overshoot add up to the length asked for, the flag says
      whether everything fitted, and then the buffer holds exactly the encodings. */
  lemma {:induction false} FreshRun(max: nat, items: seq<Item>)
    requires ValidItems(items)
    ensures var r, all := Run(Start(max), items), Concat(items);
      && |r.out| + r.over == |all|
      && |r.out| == (if |all| <= max then |all| else max)
      && (r.ok <==> |all| <= max) && (r.ok <==> r.over == 0)
      && (r.ok ==> r.out == all)
  {
    RunConserves(Start(max), items);
  }

  /** After an overshoot no later call changes the bytes written or sets the flag again. */
  lemma {:induction false} OvershootIsFinal(max: nat, items: seq<Item>, more: seq<Item>)
    requires ValidItems(items) && ValidItems(more)
    requires Run(Start(max), items).over > 0
    ensures var r, later := Run(Start(max), items), Run(Run(Start(max), items), more);
      later.out == r.out && !later.ok && later.over == r.over + |Concat(more)|
  {
    RunConserves(Start(max), items);
    RunConserves(Run(Start(max), items), more);
  }

  // ---------------------------------------------------------------------------
  // Reading back
  // ---------------------------------------------------------------------------

  /** What a reader asks for: a number, or a block shorter than `maxlen`. */
  datatype Slot = ANumber | ABlock(maxlen: int)

  /** What it gets for a block, and where the stream then stands. */
  datatype Got = Data(bytes: seq<byte>, at: nat) | TooMuch(at: nat)

  /** Where the stream stands after a number: never past its end. */
  function After(s: seq<byte>, at: nat): (r: nat)
    requires at <= |s|
    ensures at <= r <= |s|
  {
    Min(at + Need(s, at), |s|)
  }

  /** The length in front of a block at `at`, in 32 bits. */
  function BlockLength(s: seq<byte>, at: nat): int {
    ToInt32(Meaning(s, at))
  }

  /** The block is refused, or lies within the stream. */
  predicate BlockFits(s: seq<byte>, at: nat, maxlen: int)
    requires at <= |s|
  {
    BlockLength(s, at) < maxlen ==> 0 <= BlockLength(s, at) <= |s| - After(s, at)
  }

  /** Whatever length a stream announces is read from it, so one that does not fit can be announced:
      one that counts as negative in 32 bits, or one with fewer bytes behind it. */
  lemma AnyLengthIsAnnounced(v: uint64, rest: seq<byte>, maxlen: int)
    ensures var s := Encode(v) + rest;
      && BlockLength(s, 0) == ToInt32(v)
      && (BlockFits(s, 0, maxlen) <==> ToInt32(v) >= maxlen || 0 <= ToInt32(v) <= |rest|)
  {
    ReadsBack(Encode(v) + rest, 0, v);
  }

  /** Two streams of one byte that a reader with any room at all should refuse, and does not: a
      length of -1, and one of 1 with nothing behind it. */
  lemma UnfitLengths(maxlen: int)
    requires maxlen > 1
    ensures BlockLength([0xFC], 0) == -1 && !BlockFits([0xFC], 0, maxlen)
    ensures BlockLength([1], 0) == 1 && !BlockFits([1], 0, maxlen)
  {
    AnyLengthIsAnnounced(UINT64 - 1, [], maxlen);
    AnyLengthIsAnnounced(1, [], maxlen);
    assert [0xFC] + [] == [0xFC] == Encode(UINT64 - 1) && [1] + [] == [1] == Encode(1);
  }

  function ReadBlock(s: seq<byte>, at: nat, maxlen: int): (g: Got)
    requires at <= |s| && BlockFits(s, at, maxlen)
    ensures at <= g.at <= |s|
  {
    var n, from := BlockLength(s, at), After(s, at);
    if n < maxlen then Data(s[from..from + n], from + n) else TooMuch(from)
  }

  datatype One = One(item: Item, at: nat) | Nothing

  datatype All = All(items: seq<Item>, at: nat) | NotAll

  /** The item a slot gets and where the stream then stands, if every byte of it is there. */
  function ReadOne(s: seq<byte>, at: nat, slot: Slot): One {
    if at + Need(s, at) > |s| then Nothing
    else match slot
      case ANumber => One(Number(Meaning(s, at)), After(s, at))
      case ABlock(maxlen) =>
        if !BlockFits(s, at, maxlen) then Nothing
        else match ReadBlock(s, at, maxlen)
          case Data(bytes, end) => One(Block(bytes), end)
          case _ => Nothing
  }

  /** The items slot after slot gets. */
  function ReadAll(s: seq<byte>, at: nat, slots: seq<Slot>): All
    decreases |slots|
  {
    if |slots| == 0 then All([], at)
    else match ReadOne(s, at, slots[0])
      case Nothing => NotAll
      case One(item, mid) =>
        match ReadAll(s, mid, slots[1..])
        case NotAll => NotAll
        case All(items, end) => All([item] + items, end)
  }

  /** The slot asks for what the item is, with room for it. */
  predicate Asks(slot: Slot, item: Item) {
    match item
    case Number(_) => slot.ANumber?
    case Block(s) => slot.ABlock? && |s| < 0x8000_0000 && |s| < slot.maxlen
    case Raw(_) => false
  }

  predicate AllAsk(slots: seq<Slot>, items: seq<Item>)
    decreases |items|
  {
    |slots| == |items| && (|items| > 0 ==> Asks(slots[0], items[0]) && AllAsk(slots[1..], items[1..]))
  }

  /** Where a number or a block stands, a reader gets it exactly when it asks for it: a block when its
      length is below 2^31 and below maxlen. */
  lemma ReadsItem(s: seq<byte>, at: nat, slot: Slot, item: Item)
    requires ValidItem(item) && !item.Raw? && Stands(s, at, ItemBytes(item))
    ensures Asks(slot, item) <==> ReadOne(s, at, slot) == One(item, at + |ItemBytes(item)|)
  {
    if item.Block? {
      StandsInParts(s, at, Encode(|item.bytes|), item.bytes);
      ReadsBack(s, at, |item.bytes|);
      if Asks(slot, item) {
        BlockReads(s, at, item.bytes, slot.maxlen);
      }
    } else {
      ReadsBack(s, at, item.value);
    }
  }

  lemma StandsInParts(s: seq<byte>, at: nat, t: seq<byte>, u: seq<byte>)
    requires Stands(s, at, t + u)
    ensures Stands(s, at, t) && Stands(s, at + |t|, u)
  {
    var all := t + u;
    assert forall i | 0 <= i < |t| :: t[i] == all[i];
    assert forall i | 0 <= i < |u| :: u[i] == all[|t| + i] == s[at + (|t| + i)];
  }

  lemma ReadsStep(s: seq<byte>, at: nat, slots: seq<Slot>, items: seq<Item>, head: seq<byte>, end: nat)
    requires |slots| > 0 && |items| > 0 && ValidItem(items[0]) && Asks(slots[0], items[0])
    requires head == ItemBytes(items[0]) && Stands(s, at, head)
    requires ReadAll(s, at + |head|, slots[1..]) == All(items[1..], end)
    ensures ReadAll(s, at, slots) == All(items, end)
  {
    assert ReadOne(s, at, slots[0]) == One(items[0], at + |head|) by {
      ReadsItem(s, at, slots[0], items[0]);
    }
    assert items == [items[0]] + items[1..];
  }

  /** The items' bytes stand one after the other from `at` to `end`. */
  predicate Laid(s: seq<byte>, at: nat, items: seq<Item>, end: nat)
    requires ValidItems(items)
    decreases |items|
  {
    if |items| == 0 then at == end
    else Stands(s, at, ItemBytes(items[0])) && Laid(s, at + |ItemBytes(items[0])|, items[1..], end)
  }

  lemma {:induction false} ConcatLaid(s: seq<byte>, at: nat, items: seq<Item>)
    requires ValidItems(items) && Stands(s, at, Concat(items))
    ensures Laid(s, at, items, at + |Concat(items)|)
    decreases |items|
  {
    if |items| > 0 {
      var head := ItemBytes(items[0]);
      StandsInParts(s, at, head, Concat(items[1..]));
      ConcatLaid(s, at + |head|, items[1..]);
    }
  }

  lemma {:induction false} ReadsRun(s: seq<byte>, at: nat, slots: seq<Slot>, items: seq<Item>, end: nat)
    requires ValidItems(items) && AllAsk(slots, items) && Laid(s, at, items, end)
    ensures ReadAll(s, at, slots) == All(items, end)
    decreases |items|
  {
    if |items| > 0 {
      var head := ItemBytes(items[0]);
      var mid: nat := at + |head|;
      assert ReadAll(s, mid, slots[1..]) == All(items[1..], end) by {
        ReadsRun(s, mid, slots[1..], items[1..], end);
      }
      ReadsStep(s, at, slots, items, head, end);
    }
  }

  lemma {:induction false} BlockReads(s: seq<byte>, at: nat, bytes: seq<byte>, maxlen: int)
    requires |bytes| < 0x8000_0000 && |bytes| < maxlen && Stands(s, at, Encode(|bytes|) + bytes)
    ensures at + Need(s, at) <= |s| && BlockFits(s, at, maxlen)
    ensures ReadBlock(s, at, maxlen) == Data(bytes, at + |Encode(|bytes|)| + |bytes|)
  {
    var size := Encode(|bytes|);
    StandsInParts(s, at, size, bytes);
    ReadsBack(s, at, |bytes|);
    var from := at + |size|;
    assert s[from..from + |bytes|] == bytes;
  }

  /** Everything written into a buffer where it fits is read back in the same order, ending where the
      writer stands, whatever the rest of the buffer holds. */
  lemma {:induction false} StreamRoundTrip(max: nat, items: seq<Item>, slots: seq<Slot>, rest: seq<byte>)
    requires ValidItems(items) && AllAsk(slots, items) && Run(Start(max), items).ok
    ensures var w := Run(Start(max), items); ReadAll(w.out + rest, 0, slots) == All(items, |w.out|)
  {
    FreshRun(max, items);
    ConcatLaid(Concat(items) + rest, 0, items);
    ReadsRun(Concat(items) + rest, 0, slots, items, |Concat(items)|);
  }
}
