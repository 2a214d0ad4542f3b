/** Whole runs over one data buffer, against a plain first-in first-out byte queue. */
module DataBufferRuns {
  import opened Bytes
  import opened DataBuffers

  datatype Op =
    | Append(bytes: seq<byte>)
    | AppendRepeated(filler: byte, count: nat)
    | Read(max: nat)
    | Peek(max: nat)
    | Discard(max: nat)
    | Reset

  /** What an operation puts in at the back, takes off the front, and hands to the caller. */
  function PutIn(op: Op): seq<byte> {
    match op
    case Append(bytes) => bytes
    case AppendRepeated(c, n) => Repeat(c, n)
    case _ => []
  }

  function Taken(was: seq<byte>, op: Op): (r: seq<byte>)
    ensures r <= was
  {
    match op
    case Read(n) => was[..Min(n, |was|)]
    case Discard(n) => was[..Min(n, |was|)]
    case Reset => was
    case _ => []
  }

  function Output(was: seq<byte>, op: Op): seq<byte> {
    match op
    case Read(n) => was[..Min(n, |was|)]
    case Peek(n) => was[..Min(n, |was|)]
    case _ => []
  }

  /** The queue after an operation. */
  function After(was: seq<byte>, op: Op): seq<byte> {
    was[|Taken(was, op)|..] + PutIn(op)
  }

  function AfterAll(was: seq<byte>, ops: seq<Op>): seq<byte>
    decreases |ops|
  {
    if |ops| == 0 then was else AfterAll(After(was, ops[0]), ops[1..])
  }

  function Outputs(was: seq<byte>, ops: seq<Op>): seq<seq<byte>>
    decreases |ops|
  {
    if |ops| == 0 then [] else [Output(was, ops[0])] + Outputs(After(was, ops[0]), ops[1..])
  }

  function AllPutIn(ops: seq<Op>): seq<byte> {
    if |ops| == 0 then [] else PutIn(ops[0]) + AllPutIn(ops[1..])
  }

  function AllTaken(was: seq<byte>, ops: seq<Op>): seq<byte>
    decreases |ops|
  {
    if |ops| == 0 then [] else Taken(was, ops[0]) + AllTaken(After(was, ops[0]), ops[1..])
  }

  /** Nothing is lost, invented or reordered: what was there and what was put in, in order, is what
      was taken, in order, and what is left. */
  lemma {:induction false} FirstInFirstOut(was: seq<byte>, ops: seq<Op>)
    ensures was + AllPutIn(ops) == AllTaken(was, ops) + AfterAll(was, ops)
    decreases |ops|
  {
    if |ops| == 0 {
      assert was + [] == [] + was;
    } else {
      var taken, now := Taken(was, ops[0]), After(was, ops[0]);
      var put, later := PutIn(ops[0]), AllPutIn(ops[1..]);
      var rest, left := AllTaken(now, ops[1..]), AfterAll(now, ops[1..]);
      assert now + later == rest + left by {
        FirstInFirstOut(now, ops[1..]);
      }
      Regroup(was, taken, put, later, rest, left);
    }
  }

  lemma Regroup(was: seq<byte>, taken: seq<byte>, put: seq<byte>, later: seq<byte>, rest: seq<byte>, left: seq<byte>)
    requires taken <= was && was[|taken|..] + put + later == rest + left
    ensures was + (put + later) == (taken + rest) + left
  {
    assert was == taken + was[|taken|..];
    assert was + (put + later) == taken + (was[|taken|..] + put + later);
    assert taken + (rest + left) == (taken + rest) + left;
  }

  /** What is peeked at or discarded can be counted by an int. */
  predicate SmallOp(was: seq<byte>, op: Op) {
    match op
    case Peek(n) => Min(n, |was|) < INT32
    case Discard(n) => Min(n, |was|) < INT32
    case _ => true
  }

  predicate SmallRun(was: seq<byte>, ops: seq<Op>)
    decreases |ops|
  {
    |ops| == 0 || (SmallOp(was, ops[0]) && SmallRun(After(was, ops[0]), ops[1..]))
  }

  /** So it is over every run that puts in less than 2^31 bytes. */
  lemma {:induction false} FewBytesSmallRun(was: seq<byte>, ops: seq<Op>)
    requires |was| + |AllPutIn(ops)| < INT32
    ensures SmallRun(was, ops)
    decreases |ops|
  {
    if |ops| > 0 {
      FewBytesSmallRun(After(was, ops[0]), ops[1..]);
    }
  }

  method Perform(b: DataBuffer, op: Op) returns (out: seq<byte>)
    requires b.Valid() && SmallOp(b.Contents(), op)
    modifies b, b.repr
    ensures b.Valid() && fresh(b.repr - old(b.repr))
    ensures b.Contents() == After(old(b.Contents()), op) && out == Output(old(b.Contents()), op)
  {
    out := [];
    ghost var was := b.Contents();
    match op {
      case Append(bytes) =>
        b.Append(bytes);
        assert was[0..] == was;
      case AppendRepeated(c, n) =>
        b.AppendRepeatedChar(c, n);
        assert was[0..] == was;
      case Read(n) =>
        var dst := new byte[n];
        var k := b.Read(dst, n);
        out := dst[..k];
        assert b.Contents() == was[k..] + [];
      case Peek(n) =>
        var dst := new byte[n];
        var k := b.Peek(dst, n);
        CountExactly(Min(n, |was|));
        out := dst[..k];
        assert b.Contents() == was[0..] + [];
      case Discard(n) =>
        var k := b.Discard(n);
        CountExactly(Min(n, |was|));
        assert b.Contents() == was[k..] + [];
      case Reset =>
        b.Reset();
        assert was[|was|..] == [];
    }
  }

  /** What is left of a run comes down to the whole of it. */
  ghost predicate OnTheWay(ops: seq<Op>, now: seq<byte>, outs: seq<seq<byte>>, todo: seq<Op>) {
    && AfterAll([], ops) == AfterAll(now, todo) && Outputs([], ops) == outs + Outputs(now, todo)
    && SmallRun(now, todo)
  }

  lemma {:induction false} Starting(ops: seq<Op>)
    requires SmallRun([], ops)
    ensures OnTheWay(ops, [], [], ops)
  {
    assert [] + Outputs([], ops) == Outputs([], ops);
  }

  lemma {:induction false} Onward(ops: seq<Op>, now: seq<byte>, outs: seq<seq<byte>>, todo: seq<Op>)
    requires |todo| > 0 && OnTheWay(ops, now, outs, todo)
    ensures SmallOp(now, todo[0])
    ensures OnTheWay(ops, After(now, todo[0]), outs + [Output(now, todo[0])], todo[1..])
  {
    var later := Outputs(After(now, todo[0]), todo[1..]);
    assert outs + ([Output(now, todo[0])] + later) == (outs + [Output(now, todo[0])]) + later;
  }

  lemma {:induction false} Arrived(ops: seq<Op>, now: seq<byte>, outs: seq<seq<byte>>)
    requires OnTheWay(ops, now, outs, [])
    ensures AfterAll([], ops) == now && Outputs([], ops) == outs
  {
    assert outs + [] == outs;
  }

  method PerformNext(b: DataBuffer, op: Op, was: seq<seq<byte>>, ghost ops: seq<Op>, ghost todo: seq<Op>)
    returns (outs: seq<seq<byte>>)
    requires b.Valid() && |todo| > 0 && op == todo[0] && OnTheWay(ops, b.Contents(), was, todo)
    modifies b, b.repr
    ensures b.Valid() && fresh(b.repr - old(b.repr)) && OnTheWay(ops, b.Contents(), outs, todo[1..])
  {
    Onward(ops, b.Contents(), was, todo);
    var out := Perform(b, op);
    outs := was + [out];
  }

  /** On every run the chain of fragments gives out what the queue would, and holds what it would. */
  method Replay(ops: seq<Op>) returns (b: DataBuffer, outs: seq<seq<byte>>)
    requires SmallRun([], ops)
    ensures fresh(b) && b.Valid() && fresh(b.repr)
    ensures b.Contents() == AfterAll([], ops) && b.size == |AfterAll([], ops)|
    ensures outs == Outputs([], ops)
  {
    b := new DataBuffer();
    outs := [];
    ghost var todo := ops;
    Starting(ops);
    for i := 0 to |ops|
      invariant b.Valid() && fresh(b) && fresh(b.repr)
      invariant todo == ops[i..] && OnTheWay(ops, b.Contents(), outs, todo)
    {
      outs := PerformNext(b, ops[i], outs, ops, todo);
      todo := todo[1..];
    }
    assert todo == [];
    Arrived(ops, b.Contents(), outs);
  }
}
