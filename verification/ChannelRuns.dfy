/** Whole runs of the receiver: no IV is accepted twice, the loss statistics add up,
    and lossless in-order delivery never fails. */
module ChannelRuns {
  import opened Ocb
  import opened Iv
  import opened Channel

  /** A run so far: the state it has reached, the counter values it accepted, in order, and what
      it made of each packet. */
  datatype Trace = Trace(state: Receiver, accepted: seq<int>, outputs: seq<Option<seq<bv8>>>)

  function Start(r: Receiver): Trace { Trace(r, [], []) }

  function Extend(m: Mode, t: Trace, packet: Packet): Trace
    requires |t.state.history| == 256
  {
    var (state, output) := Step(m, t.state, packet);
    match Admitted(m, t.state, packet)
    case None => Trace(state, t.accepted, t.outputs + [output])
    case Some(d) => Trace(state, t.accepted + [t.state.place + d], t.outputs + [output])
  }

  function Run(m: Mode, r: Receiver, packets: seq<Packet>): (t: Trace)
    requires |r.history| == 256
    ensures |t.state.history| == 256
  {
    if |packets| == 0 then Start(r)
    else Extend(m, Run(m, r, packets[..|packets| - 1]), packets[|packets| - 1])
  }

  // ---------------------------------------------------------------------------
  // The invariant of every run
  // ---------------------------------------------------------------------------

  /** An accepted place still owns its history slot. */
  ghost predicate Owns(history: seq<int>, v: int)
    requires |history| == 256
  {
    history[Low(v)] == High(v)
  }

  ghost predicate Distinct(s: seq<int>) {
    forall i, j :: 0 <= i < j < |s| ==> s[i] != s[j]
  }

  ghost predicate Safe(t: Trace) {
    && ValidReceiver(t.state)
    && Distinct(t.accepted)
    && (forall v :: v in t.accepted ==> v <= t.state.place)
    && (forall v :: v in t.accepted && v > t.state.place - 256 ==> Owns(t.state.history, v))
  }

  /** How far `n` packets can have moved the receiver from its first place. */
  ghost predicate Bounded(t: Trace, first: int, n: nat) {
    && first <= t.state.place <= first + 128 * n
    && (forall v :: v in t.accepted ==> first - 29 <= v)
  }

  /** The highest of the counter values `s`, from `first` up. */
  function Top(first: int, s: seq<int>): int {
    if |s| == 0 then first
    else
      var top := Top(first, s[..|s| - 1]);
      if s[|s| - 1] > top then s[|s| - 1] else top
  }

  /** How many of the counter values `s` came after a higher one. */
  function Behind(first: int, s: seq<int>): nat {
    if |s| == 0 then 0
    else
      var front := s[..|s| - 1];
      Behind(first, front) + if s[|s| - 1] < Top(first, front) then 1 else 0
  }

  /** The counters against the counter values accepted: good counts them, late those that came
      after a higher one, and lost the ground covered without being accepted. */
  ghost predicate Counted(t: Trace, r: Receiver) {
    && t.state.place == Top(r.place, t.accepted)
    && t.state.late == r.late + Behind(r.place, t.accepted)
    && t.state.good == r.good + |t.accepted|
    && t.state.lost == r.lost + (t.state.place - r.place) - |t.accepted|
  }

  /** The place a packet is let in at has not been accepted before. */
  lemma FreshPlace(m: Mode, t: Trace, packet: Packet, d: int)
    requires Safe(t) && Admitted(m, t.state, packet) == Some(d)
    ensures -29 <= d <= 128 && d != 0
    ensures t.state.place + d !in t.accepted
  {
    assert t.state.place + d in t.accepted ==> Owns(t.state.history, t.state.place + d);
  }

  /** Two places less than 256 apart do not share a history slot. */
  lemma SlotsApart(v: int, w: int)
    requires v != w && -256 < v - w < 256
    ensures Low(v) != Low(w)
  {}

  lemma ExtendSafe(m: Mode, t: Trace, packet: Packet)
    requires Safe(t)
    ensures Safe(Extend(m, t, packet))
  {
    match Admitted(m, t.state, packet)
    case None =>
    case Some(d) =>
      FreshPlace(m, t, packet, d);
      var v := t.state.place + d;
      var u := Extend(m, t, packet);
      assert u.state.history == t.state.history[Low(v) := High(v)];
      assert Owns(u.state.history, v);
      forall w | w in u.accepted && w > u.state.place - 256
        ensures Owns(u.state.history, w)
      {
        if w != v {
          assert w in t.accepted;
          SlotsApart(v, w);
        }
      }
      forall w | w in u.accepted
        ensures w <= u.state.place
      {
        assert w in t.accepted || w == v;
      }
  }

  lemma {:induction false} RunSafe(m: Mode, r: Receiver, packets: seq<Packet>)
    requires ValidReceiver(r)
    ensures Safe(Run(m, r, packets))
    ensures Bounded(Run(m, r, packets), r.place, |packets|)
  {
    if |packets| > 0 {
      var front := packets[..|packets| - 1];
      var packet := packets[|packets| - 1];
      RunSafe(m, r, front);
      var t := Run(m, r, front);
      ExtendSafe(m, t, packet);
      match Admitted(m, t.state, packet)
      case None =>
      case Some(d) => FreshPlace(m, t, packet, d);
    }
  }

  // ---------------------------------------------------------------------------
  // Replay safety
  // ---------------------------------------------------------------------------

  const MODULUS: nat := 0x1_0000_0000_0000_0000_0000_0000_0000_0000

  /** While a run covers less ground than it takes to go once around, no two accepted packets
      were recovered under the same IV, however many packets were refused on the way. */
  lemma {:induction false} NoReplay(m: Mode, r: Receiver, packets: seq<Packet>, i: nat, j: nat)
    requires ValidReceiver(r) && Run(m, r, packets).state.place - r.place + 29 < MODULUS
    requires i < j < |Run(m, r, packets).accepted|
    ensures IvOf(Run(m, r, packets).accepted[i]) != IvOf(Run(m, r, packets).accepted[j])
  {
    RunSafe(m, r, packets);
    var t := Run(m, r, packets);
    var v, w := t.accepted[i], t.accepted[j];
    assert v in t.accepted && w in t.accepted && v != w;
    SameIv(v, w);
  }

  /** Each packet moves the counter by at most 128, so few packets cannot go around at all. */
  lemma {:induction false} NoReplayInShortRun(m: Mode, r: Receiver, packets: seq<Packet>, i: nat, j: nat)
    requires ValidReceiver(r) && 128 * |packets| + 29 < MODULUS
    requires i < j < |Run(m, r, packets).accepted|
    ensures IvOf(Run(m, r, packets).accepted[i]) != IvOf(Run(m, r, packets).accepted[j])
  {
    RunSafe(m, r, packets);
    NoReplay(m, r, packets, i, j);
  }

  // ---------------------------------------------------------------------------
  // Loss accounting
  // ---------------------------------------------------------------------------

  lemma {:induction false} TopMore(first: int, s: seq<int>, v: int)
    ensures Top(first, s + [v]) == if v > Top(first, s) then v else Top(first, s)
    ensures Behind(first, s + [v]) == Behind(first, s) + if v < Top(first, s) then 1 else 0
  {
    assert (s + [v])[..|s|] == s;
  }

  /** One packet keeps the counters in step with the places. */
  lemma ExtendCounted(m: Mode, t: Trace, r: Receiver, packet: Packet)
    requires Safe(t) && Counted(t, r)
    ensures Counted(Extend(m, t, packet), r)
  {
    match Admitted(m, t.state, packet)
    case None =>
    case Some(d) =>
      TopMore(r.place, t.accepted, t.state.place + d);
  }

  lemma {:induction false} RunCounted(m: Mode, r: Receiver, packets: seq<Packet>)
    requires ValidReceiver(r)
    ensures Counted(Run(m, r, packets), r)
  {
    if |packets| > 0 {
      var front := packets[..|packets| - 1];
      RunCounted(m, r, front);
      RunSafe(m, r, front);
      ExtendCounted(m, Run(m, r, front), r, packets[|packets| - 1]);
    }
  }

  /** The places above `first`, up to `pos`. */
  ghost function Sent(first: int, pos: int): (s: set<int>)
    requires first <= pos
    ensures forall v :: v in s <==> first < v <= pos
    ensures |s| == pos - first
    decreases pos - first
  {
    if first == pos then {} else Sent(first, pos - 1) + {pos}
  }

  ghost function Elements(s: seq<int>): set<int> { set v | v in s }

  /** The places the receiver passed without accepting them, and those it accepted at or
      below the place it started from. */
  ghost function Missed(t: Trace, first: int): set<int>
    requires first <= t.state.place
  {
    Sent(first, t.state.place) - Elements(t.accepted)
  }

  ghost function Early(t: Trace, first: int): set<int> { set v | v in t.accepted && v <= first }

  lemma {:induction false} DistinctSize(s: seq<int>)
    requires Distinct(s)
    ensures |Elements(s)| == |s|
  {
    if |s| > 0 {
      var front := s[..|s| - 1];
      DistinctSize(front);
      assert s == front + [s[|s| - 1]];
      assert Elements(s) == Elements(front) + {s[|s| - 1]};
    }
  }

  /** The ground covered, less the acceptances, is what was missed less what came early. */
  lemma PlacesAddUp(t: Trace, first: int)
    requires Safe(t) && first <= t.state.place
    ensures (t.state.place - first) - |t.accepted| == |Missed(t, first)| - |Early(t, first)|
  {
    var sent, got, early := Sent(first, t.state.place), Elements(t.accepted), Early(t, first);
    DistinctSize(t.accepted);
    assert got == (got * sent) + early && (got * sent) !! early;
    assert |got| == |got * sent| + |early|;
    assert sent == Missed(t, first) + (got * sent) && Missed(t, first) !! (got * sent);
    assert |sent| == |Missed(t, first)| + |got * sent|;
  }

  /** From fresh statistics: the good count is the number of accepted packets, the two counts add up
      to the ground covered, and the lost count is the number of counter values passed and not
      accepted, less those accepted from before the start. */
  lemma {:induction false} LossAccounting(m: Mode, r: Receiver, packets: seq<Packet>)
    requires ValidReceiver(r) && r.good == 0 && r.lost == 0
    ensures var t := Run(m, r, packets);
      && r.place <= t.state.place
      && t.state.good == |t.accepted|
      && t.state.good + t.state.lost == t.state.place - r.place
      && t.state.lost == |Missed(t, r.place)| - |Early(t, r.place)|
  {
    RunSafe(m, r, packets);
    RunCounted(m, r, packets);
    PlacesAddUp(Run(m, r, packets), r.place);
  }

  /** The packet is right for the counter value `v`. */
  ghost predicate Fits(m: Mode, v: int, packet: Packet) {
    packet.Packet? && Low(v) == packet.ivByte && Authentic(m, v, packet)
  }

  /** What the late branch lets in: a packet for a counter value the receiver has passed, still
      reaches, and does not find in its history. */
  ghost predicate LetInLate(m: Mode, r: Receiver, packet: Packet, v: int)
    requires |r.history| == 256
  {
    r.place - 29 <= v < r.place && r.history[Low(v)] != High(v) && Fits(m, v, packet)
  }

  /** The receiver would let the packet in as one from `first` or before it. */
  ghost predicate FromBefore(m: Mode, r: Receiver, packet: Packet, first: int)
    requires |r.history| == 256
  {
    exists v :: v <= first && LetInLate(m, r, packet, v)
  }

  lemma LowMoves(place: int, d: int)
    ensures (Low(place) as int + d) % 256 == Low(place + d)
  {}

  lemma LateIsAdmitted(m: Mode, r: Receiver, packet: Packet, v: int)
    requires ValidReceiver(r) && v < r.place
    ensures LetInLate(m, r, packet, v) <==> Admitted(m, r, packet) == Some(v - r.place)
  {
    if packet.Packet? {
      var d := v - r.place;
      assert Shift(Low(r.place), packet.ivByte) == Some(d) <==> -29 <= d && packet.ivByte == Low(v) by {
        LowMoves(r.place, d);
        ShiftIsTheWindowMember(Low(r.place), packet.ivByte, d);
      }
    }
  }

  lemma EarlyStep(m: Mode, t: Trace, packet: Packet, first: int)
    requires Safe(t) && first <= t.state.place
    ensures Early(Extend(m, t, packet), first) == {}
      <==> Early(t, first) == {} && !FromBefore(m, t.state, packet, first)
  {
    var u := Extend(m, t, packet);
    match Admitted(m, t.state, packet)
    case None =>
      forall v | v <= first
        ensures !LetInLate(m, t.state, packet, v)
      {
        if v < t.state.place { LateIsAdmitted(m, t.state, packet, v); }
      }
      assert u.accepted == t.accepted;
    case Some(d) =>
      var w := t.state.place + d;
      assert d != 0 by { FreshPlace(m, t, packet, d); }
      assert u.accepted == t.accepted + [w];
      assert Early(u, first) == Early(t, first) + if w <= first then {w} else {};
      forall v | v <= first
        ensures LetInLate(m, t.state, packet, v) <==> v == w
      {
        if v < t.state.place { LateIsAdmitted(m, t.state, packet, v); }
      }
      if w <= first {
        assert w in Early(u, first) && LetInLate(m, t.state, packet, w);
      }
  }

  /** The i-th packet is let in as one from before the start. */
  ghost predicate LetsInEarly(m: Mode, r: Receiver, packets: seq<Packet>, i: nat)
    requires |r.history| == 256 && i < |packets|
  {
    FromBefore(m, Run(m, r, packets[..i]).state, packets[i], r.place)
  }

  ghost predicate NeverFromBefore(m: Mode, r: Receiver, packets: seq<Packet>)
    requires |r.history| == 256
  {
    forall i | 0 <= i < |packets| :: !LetsInEarly(m, r, packets, i)
  }

  lemma SameEarlier(m: Mode, r: Receiver, front: seq<Packet>, packet: Packet, i: nat)
    requires |r.history| == 256 && i < |front|
    ensures LetsInEarly(m, r, front + [packet], i) == LetsInEarly(m, r, front, i)
  {
    assert (front + [packet])[..i] == front[..i];
  }

  lemma {:induction false} NeverMore(m: Mode, r: Receiver, front: seq<Packet>, packet: Packet)
    requires |r.history| == 256
    ensures NeverFromBefore(m, r, front + [packet])
      <==> NeverFromBefore(m, r, front) && !FromBefore(m, Run(m, r, front).state, packet, r.place)
  {
    var all := front + [packet];
    assert all[..|front|] == front;
    forall i | 0 <= i < |front| ensures LetsInEarly(m, r, all, i) == LetsInEarly(m, r, front, i) {
      SameEarlier(m, r, front, packet, i);
    }
    assert LetsInEarly(m, r, all, |front|) == FromBefore(m, Run(m, r, front).state, packet, r.place);
  }

  lemma {:induction false} EarlyExactly(m: Mode, r: Receiver, packets: seq<Packet>)
    requires ValidReceiver(r)
    ensures Early(Run(m, r, packets), r.place) == {} <==> NeverFromBefore(m, r, packets)
  {
    if |packets| > 0 {
      var front, packet := packets[..|packets| - 1], packets[|packets| - 1];
      assert packets == front + [packet];
      EarlyExactly(m, r, front);
      RunSafe(m, r, front);
      EarlyStep(m, Run(m, r, front), packet, r.place);
      NeverMore(m, r, front, packet);
    }
  }

  /** The lost count is the number of missing packets if and only if the receiver never lets in a
      packet from before the start, which can be told before each packet. */
  lemma {:induction false} LossExactly(m: Mode, r: Receiver, packets: seq<Packet>)
    requires ValidReceiver(r) && r.good == 0 && r.lost == 0
    ensures var t := Run(m, r, packets);
      && r.place <= t.state.place
      && (t.state.lost == |Missed(t, r.place)| <==> NeverFromBefore(m, r, packets))
  {
    LossAccounting(m, r, packets);
    EarlyExactly(m, r, packets);
  }

  /** None of the packets is genuine for one of the 30 counter values up to `first`. */
  ghost predicate NoneFromBefore(m: Mode, first: int, packets: seq<Packet>) {
    forall p, v :: p in packets && first - 29 <= v <= first ==> !Fits(m, v, p)
  }

  /** When only packets from after the start are sent, the lost count is the number of missing
      packets, whatever is dropped, repeated or reordered. */
  lemma {:induction false} LossOfAChannel(m: Mode, r: Receiver, packets: seq<Packet>)
    requires ValidReceiver(r) && r.good == 0 && r.lost == 0 && NoneFromBefore(m, r.place, packets)
    ensures var t := Run(m, r, packets);
      && r.place <= t.state.place
      && t.state.lost == |Missed(t, r.place)| && t.state.lost >= 0
  {
    forall i | 0 <= i < |packets|
      ensures !LetsInEarly(m, r, packets, i)
    {
      RunSafe(m, r, packets[..i]);
      assert packets[i] in packets;
    }
    LossExactly(m, r, packets);
  }

  /** Without that it fails: any genuine packet from up to 29 before the start that the history does
      not know leaves the lost count at -1, which the 32-bit field shows as 2^32 - 1. */
  lemma LossUnderflows(m: Mode, r: Receiver, d: int, plain: seq<bv8>)
    requires Reopens(m) && ValidReceiver(r) && r.good == 0 && r.lost == 0
    requires -29 <= d < 0 && Unseen(r, d)
    ensures var t := Run(m, r, [Seal(m, r.place + d, plain)]);
      && t.outputs == [Some(plain)]
      && t.state.lost == -1 && t.state.lost % 0x1_0000_0000 == 0xFFFF_FFFF
      && t.state.place == r.place && Missed(t, r.place) == {}
  {
    var packet := Seal(m, r.place + d, plain);
    GenuinePacket(m, r, d, plain);
    assert [packet][..0] == [];
    assert Run(m, r, []) == Start(r);
  }

  // ---------------------------------------------------------------------------
  // In-order delivery
  // ---------------------------------------------------------------------------

  /** The packets a sender at `v` produces: it counts up before each one. */
  function SealAll(m: Mode, v: int, plains: seq<seq<bv8>>): (packets: seq<Packet>)
    ensures |packets| == |plains|
  {
    seq(|plains|, i requires 0 <= i < |plains| => Seal(m, v + 1 + i, plains[i]))
  }

  /** The next packet in order is always let in, whatever the history holds. */
  lemma DeliverNext(m: Mode, t: Trace, plain: seq<bv8>)
    requires Reopens(m) && Safe(t)
    ensures var packet := Seal(m, t.state.place + 1, plain);
      && var u := Extend(m, t, packet);
         && u.outputs == t.outputs + [Some(plain)]
         && u.state.place == t.state.place + 1 && u.accepted == t.accepted + [t.state.place + 1]
         && u.state.good == t.state.good + 1
         && u.state.lost == t.state.lost && u.state.late == t.state.late
  {
    GenuinePacket(m, t.state, 1, plain);
  }

  /** The trace after the packets of `plains`, each of them the next in order. */
  ghost predicate InStep(t: Trace, r: Receiver, plains: seq<seq<bv8>>) {
    && t.state.place == r.place + |plains|
    && |t.outputs| == |plains| && (forall i :: 0 <= i < |plains| ==> t.outputs[i] == Some(plains[i]))
    && |t.accepted| == |plains| && (forall i :: 0 <= i < |plains| ==> t.accepted[i] == r.place + 1 + i)
    && t.state.good == r.good + |plains|
    && t.state.lost == r.lost && t.state.late == r.late
  }

  lemma NextStaysInStep(m: Mode, t: Trace, r: Receiver, plains: seq<seq<bv8>>, plain: seq<bv8>)
    requires Reopens(m) && Safe(t) && InStep(t, r, plains)
    ensures InStep(Extend(m, t, Seal(m, t.state.place + 1, plain)), r, plains + [plain])
  {
    DeliverNext(m, t, plain);
  }

  lemma {:induction false} RunMore(m: Mode, r: Receiver, packets: seq<Packet>, packet: Packet)
    requires |r.history| == 256
    ensures Run(m, r, packets + [packet]) == Extend(m, Run(m, r, packets), packet)
  {
    assert (packets + [packet])[..|packets|] == packets;
  }

  lemma SealMore(m: Mode, v: int, plains: seq<seq<bv8>>, plain: seq<bv8>)
    ensures SealAll(m, v, plains + [plain]) == SealAll(m, v, plains) + [Seal(m, v + |plains| + 1, plain)]
  {}

  lemma {:induction false} RunsInStep(m: Mode, r: Receiver, packets: seq<Packet>, t: Trace,
      plains: seq<seq<bv8>>, plain: seq<bv8>)
    requires Reopens(m) && ValidReceiver(r) && t == Run(m, r, packets) && InStep(t, r, plains)
    ensures InStep(Run(m, r, packets + [Seal(m, r.place + |plains| + 1, plain)]), r, plains + [plain])
  {
    RunSafe(m, r, packets);
    NextStaysInStep(m, t, r, plains, plain);
    RunMore(m, r, packets, Seal(m, r.place + |plains| + 1, plain));
  }

  /** However many packets are sent, a receiver that starts at the sender's counter and gets them
      all in order accepts each one and returns its plaintext, across every carry and wrap;
      it counts no loss and no late packet. */
  lemma {:induction false} InOrderDelivery(m: Mode, r: Receiver, plains: seq<seq<bv8>>, packets: seq<Packet>)
    requires Reopens(m) && ValidReceiver(r) && packets == SealAll(m, r.place, plains)
    ensures InStep(Run(m, r, packets), r, plains)
    decreases |plains|
  {
    if |plains| > 0 {
      var front, plain := plains[..|plains| - 1], plains[|plains| - 1];
      var sent, last := SealAll(m, r.place, front), Seal(m, r.place + |front| + 1, plain);
      assert plains == front + [plain];
      assert packets == sent + [last] by {
        SealMore(m, r.place, front, plain);
      }
      assert InStep(Run(m, r, sent), r, front) by {
        InOrderDelivery(m, r, front, sent);
      }
      RunsInStep(m, r, sent, Run(m, r, sent), front, plain);
    }
  }

  /** So it is with the voice channel's own mode, over any block cipher that can be inverted. */
  lemma {:induction false} VoiceDelivery(c: Cipher, r: Receiver, plains: seq<seq<bv8>>)
    requires IsPermutation(c) && ValidReceiver(r)
    ensures InStep(Run(OcbMode(c), r, SealAll(OcbMode(c), r.place, plains)), r, plains)
  {
    OcbReopens(c);
    InOrderDelivery(OcbMode(c), r, plains, SealAll(OcbMode(c), r.place, plains));
  }

  /** The bound on NoReplay is about the wrap and nothing else: in-order delivery of more than
      2^128 packets accepts the same IV again. */
  lemma {:induction false} WrapReuses(m: Mode, r: Receiver, plains: seq<seq<bv8>>, packets: seq<Packet>, t: Trace)
    requires Reopens(m) && ValidReceiver(r) && |plains| > MODULUS
    requires packets == SealAll(m, r.place, plains) && t == Run(m, r, packets)
    ensures |t.accepted| > MODULUS && IvOf(t.accepted[0]) == IvOf(t.accepted[MODULUS])
  {
    InOrderDelivery(m, r, plains, packets);
    InStepAt(t, r, plains, MODULUS);
    SameIv(r.place + 1, r.place + 1 + MODULUS);
  }

  lemma InStepAt(t: Trace, r: Receiver, plains: seq<seq<bv8>>, i: nat)
    requires InStep(t, r, plains) && i < |plains|
    ensures |t.accepted| == |plains| && t.accepted[0] == r.place + 1 && t.accepted[i] == r.place + 1 + i
  {
  }
}
