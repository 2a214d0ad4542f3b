/** Splitting a voice packet into audio and positional data, and relaying it (src/client.c). */
module Voice {
  import opened Bytes
  import opened PdsFormat
  import opened PdsStream
  import opened PdsObjects

  const UDP_PACKET_SIZE: nat := 1024

  // ---------------------------------------------------------------------------
  // The frame walk
  // ---------------------------------------------------------------------------

  /** Where the walk over the frames from `at` on stops. A header holds the length of its frame and,
      in its top bit, whether another frame follows. */
  function WalkEnd(s: seq<byte>, at: nat): (r: nat)
    requires at <= |s|
    ensures at <= r <= |s|
    decreases |s| - at
  {
    var c, from := Peek(s, at), Min(at + 1, |s|);
    if from + c % 128 > |s| then from
    else if c >= 128 && c % 128 > 0 then WalkEnd(s, from + c % 128)
    else from + c % 128
  }

  /** The walk stops behind a header that says it is the last, or says that its frame is empty, and behind
      one whose frame is longer than what is left; otherwise it goes on behind the frame. */
  lemma {:induction false} WalkStops(s: seq<byte>, at: nat)
    requires at < |s|
    ensures var len := s[at] % 128;
      && (at + 1 + len > |s| ==> WalkEnd(s, at) == at + 1)
      && (at + 1 + len <= |s| && (s[at] < 128 || len == 0) ==> WalkEnd(s, at) == at + 1 + len)
      && (at + 1 + len <= |s| && s[at] >= 128 && len > 0 ==> WalkEnd(s, at) == WalkEnd(s, at + 1 + len))
  {}

  /** Where the audio ends in a packet without its type byte: behind a number and the frames. */
  function AudioEnd(payload: seq<byte>): (r: nat)
    ensures r <= |payload|
  {
    WalkEnd(payload, After(payload, 0))
  }

  /** The frames of a packet as they are sent: all but the last are marked as having a successor. */
  function FrameBytes(frames: seq<seq<byte>>, last: seq<byte>): seq<byte>
    requires |last| < 128 && forall i | 0 <= i < |frames| :: 0 < |frames[i]| < 128
  {
    if |frames| == 0 then [|last| as byte] + last
    else [128 + |frames[0]|] + frames[0] + FrameBytes(frames[1..], last)
  }

  lemma {:induction false} WalkOverFrames(s: seq<byte>, at: nat, frames: seq<seq<byte>>, last: seq<byte>)
    requires |last| < 128 && forall i | 0 <= i < |frames| :: 0 < |frames[i]| < 128
    requires Stands(s, at, FrameBytes(frames, last))
    ensures WalkEnd(s, at) == at + |FrameBytes(frames, last)|
    decreases |frames|
  {
    var all := FrameBytes(frames, last);
    assert s[at + 0] == all[0];
    if |frames| > 0 {
      var head, tail := [128 + |frames[0]|] + frames[0], FrameBytes(frames[1..], last);
      StandsInParts(s, at, head, tail);
      WalkOverFrames(s, at + |head|, frames[1..], last);
    }
  }

  /** Audio and position are told apart: of a number, frames and anything behind them, the walk takes
      the number and the frames. */
  lemma {:induction false} AudioIsFound(number: uint64, frames: seq<seq<byte>>, last: seq<byte>, position: seq<byte>)
    requires |last| < 128 && forall i | 0 <= i < |frames| :: 0 < |frames[i]| < 128
    ensures var audio := Encode(number) + FrameBytes(frames, last);
      AudioEnd(audio + position) == |audio|
  {
    var body := FrameBytes(frames, last);
    var audio := Encode(number) + body;
    var s := audio + position;
    assert Stands(s, 0, audio);
    StandsInParts(s, 0, Encode(number), body);
    ReadsBack(s, 0, number);
    WalkOverFrames(s, |Encode(number)|, frames, last);
  }

  /** Cutting the rest off does not move the end of the audio. */
  lemma {:induction false} WalkOfCut(s: seq<byte>, at: nat)
    requires at <= |s|
    ensures WalkEnd(s[..WalkEnd(s, at)], at) == WalkEnd(s, at)
    decreases |s| - at
  {
    var c, from := Peek(s, at), Min(at + 1, |s|);
    if from + c % 128 <= |s| && c >= 128 && c % 128 > 0 {
      WalkOfCut(s, from + c % 128);
    }
  }

  lemma AudioOfCut(payload: seq<byte>)
    ensures AudioEnd(payload[..AudioEnd(payload)]) == AudioEnd(payload)
  {
    var cut := payload[..AudioEnd(payload)];
    if Need(payload, 0) <= |payload| {
      ReadsNoFurther(payload, cut, 0);
      WalkOfCut(payload, After(payload, 0));
    } else {
      assert cut == payload;
    }
  }

  // ---------------------------------------------------------------------------
  // The relayed packet
  // ---------------------------------------------------------------------------

  /** What the bounded writer makes of the session id and the payload. */
  function Relayed(session: uint64, payload: seq<byte>): (w: Writer)
    requires |payload| < UINT32
    ensures ValidWriter(w)
  {
    Run(Start(UDP_PACKET_SIZE - 1), [Number(session), Raw(payload)])
  }

  lemma RelayedInTwo(session: uint64, payload: seq<byte>)
    requires |payload| < UINT32
    ensures Relayed(session, payload)
      == Write(Write(Start(UDP_PACKET_SIZE - 1), Number(session)), Raw(payload))
  {
    var items := [Number(session), Raw(payload)];
    var v := Write(Start(UDP_PACKET_SIZE - 1), Number(session));
    assert items[1..] == [Raw(payload)] && items[1..][1..] == [];
    assert Run(v, items[1..]) == Write(v, Raw(payload));
  }

  /** The packet meant for the receivers: type, session, and the payload up to `end`. */
  function Intended(mark: byte, session: uint64, payload: seq<byte>, end: nat): seq<byte>
    requires end <= |payload|
  {
    [mark] + Encode(session) + payload[..end]
  }

  lemma RelayedBytes(session: uint64, payload: seq<byte>)
    requires |payload| < UINT32
    ensures var w := Relayed(session, payload);
      && (w.ok <==> |Encode(session)| + |payload| < UDP_PACKET_SIZE)
      && (w.ok ==> w.out == Encode(session) + payload)
      && (!w.ok ==> |w.out| == UDP_PACKET_SIZE - 1)
  {
    var items := [Number(session), Raw(payload)];
    assert items[1..] == [Raw(payload)] && items[1..][1..] == [];
    assert Concat(items[1..]) == payload;
    FreshRun(UDP_PACKET_SIZE - 1, items);
  }

  /** Dropping the last `poslen` bytes of the relayed packet leaves type, session and exactly the
      audio, and keeping them leaves the whole payload, if and only if the packet fits. */
  lemma DropsThePosition(mark: byte, session: uint64, payload: seq<byte>, end: nat)
    requires |payload| < UINT32 && end <= |payload|
    ensures var packet, poslen := [mark] + Relayed(session, payload).out, |payload| - end;
      && (|Encode(session)| + |payload| <= 1023
          <==> poslen <= |packet| && packet[..|packet| - poslen] == Intended(mark, session, payload, end))
      && (|Encode(session)| + |payload| <= 1023
          <==> packet == Intended(mark, session, payload, |payload|))
  {
    RelayedBytes(session, payload);
    var packet, poslen := [mark] + Relayed(session, payload).out, |payload| - end;
    if |Encode(session)| + |payload| < UDP_PACKET_SIZE {
      var whole := [mark] + Encode(session) + payload;
      assert packet == whole && payload[..|payload|] == payload;
      assert whole[..|whole| - poslen] == Intended(mark, session, payload, end);
    }
  }

  /** Whoever receives the packet, with or without its last bytes, reads the session and finds the
      same audio. */
  lemma ReceiverAgrees(mark: byte, session: uint64, payload: seq<byte>, position: bool)
    ensures var end := AudioEnd(payload);
      var packet := Intended(mark, session, payload, if position then |payload| else end);
      && Meaning(packet, 1) == session
      && 1 + Need(packet, 1) <= |packet|
      && AudioEnd(packet[1 + Need(packet, 1)..]) == end
      && packet[1 + Need(packet, 1)..][..end] == payload[..end]
  {
    var end := AudioEnd(payload);
    var rest := payload[..if position then |payload| else end];
    var packet := [mark] + Encode(session) + rest;
    assert Stands(packet, 1, Encode(session)) by {
      assert Stands(packet, 0, [mark] + Encode(session));
      StandsInParts(packet, 0, [mark], Encode(session));
    }
    ReadsBack(packet, 1, session);
    assert packet[1 + |Encode(session)|..] == rest;
    assert rest[..end] == payload[..end];
    assert AudioEnd(rest) == end by {
      assert position ==> rest == payload;
      AudioOfCut(payload);
    }
  }

  // ---------------------------------------------------------------------------
  // The code
  // ---------------------------------------------------------------------------

  /** The walk stops, inside the packet. */
  method WalkFrames(pdi: Pds)
    requires pdi.Valid()
    modifies pdi`offset, pdi`passed, pdi`ok
    ensures pdi.Valid() && pdi.offset == WalkEnd(pdi.Contents(), old(pdi.offset))
  {
    var more := true;
    while more
      invariant pdi.Valid() && old(pdi.offset) <= pdi.offset
      invariant more ==> WalkEnd(pdi.Contents(), pdi.offset) == WalkEnd(pdi.Contents(), old(pdi.offset))
      invariant !more ==> pdi.offset == WalkEnd(pdi.Contents(), old(pdi.offset))
      decreases more, pdi.maxsize - pdi.offset
    {
      var counter: nat := pdi.Next8();
      var skipped := pdi.Skip(counter % 128);
      more := counter >= 128 && skipped > 0;
    }
  }

  /** The packet to be relayed: the type byte in front, the session and the payload behind it. */
  method Compose(session: uint64, mark: byte, payload: seq<byte>, buffer: array<byte>) returns (total: nat)
    requires |payload| < UINT32 && buffer.Length == UDP_PACKET_SIZE
    modifies buffer
    ensures total <= UDP_PACKET_SIZE && buffer[..total] == [mark] + Relayed(session, payload).out
  {
    var pds := new Pds(buffer, 1, UDP_PACKET_SIZE - 1);
    pds.AddNumval(session);
    pds.AppendDataNosize(payload);
    RelayedInTwo(session, payload);
    ghost var out := pds.passed;
    assert buffer[1..1 + pds.offset] == out;
    buffer[0] := mark;
    total := pds.offset + 1;
    assert buffer[1..total] == out;
  }

  /** The part of Client_voiceMsg that splits the packet and writes the one to be relayed. */
  method Relay(data: array<byte>, len: nat, session: uint64, mark: byte, buffer: array<byte>)
    returns (total: nat, poslen: nat)
    requires 1 <= len <= data.Length && len < 0x8000_0000
    requires buffer != data && buffer.Length == 1024
    modifies buffer
    ensures total <= 1024 && poslen == len - 1 - AudioEnd(data[1..len])
    ensures buffer[..total] == [mark] + Relayed(session, data[1..len]).out
    ensures |Encode(session)| + (len - 1) <= 1023 ==> buffer[..total] == [mark] + Encode(session) + old(data[1..len])
  {
    var payload := data[1..len];
    var pdi := new Pds(data, 1, len - 1);
    assert pdi.Contents() == payload;
    var counter := pdi.GetNumval();
    WalkFrames(pdi);
    poslen := pdi.maxsize - pdi.offset;
    total := Compose(session, mark, payload, buffer);
    RelayedBytes(session, payload);
    assert [mark] + (Encode(session) + payload) == [mark] + Encode(session) + payload;
  }
}
