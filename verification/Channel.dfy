/** The receiving side of the voice channel as a state machine over its packets:
    which IV a packet is taken to carry, whether it is let in, and what it does to the counters. */
module Channel {
  import opened Bytes
  import opened Blocks
  import opened Ocb
  import opened Iv

  datatype Option<T> = None | Some(value: T)

  /** The receiver, with its numbers followed past their wraps: `place` is the counter value
      behind decrypt_iv (whose 16 bytes are its low 128 bits), and the three statistics are what
      the 32-bit fields hold modulo 2^32. */
  datatype Receiver = Receiver(place: int, history: seq<byte>, good: int, late: int, lost: int)

  /** A packet as it is taken apart: its first byte, its three tag bytes and its text.
      Anything shorter than that header is a runt. */
  datatype Packet = Runt | Packet(ivByte: byte, tag: seq<bv8>, text: seq<bv8>)

  ghost predicate ValidReceiver(r: Receiver) { |r.history| == 256 }

  // ---------------------------------------------------------------------------
  // What the packet layer needs of the cipher mode
  // ---------------------------------------------------------------------------

  /** A way to seal a text under a counter value, and to open it again; both also compute a tag. */
  datatype Mode = Mode(seal: (int, seq<bv8>) -> Tagged, open: (int, seq<bv8>) -> Tagged)

  /** Opening what was sealed gives back the text and the same tag. */
  ghost predicate Reopens(m: Mode) {
    forall v: int, plain: seq<bv8> ::
      m.open(v, m.seal(v, plain).text) == Tagged(plain, m.seal(v, plain).tag)
  }

  /** An IV as the cipher sees it. */
  function Nonce(iv: seq<byte>): Block {
    seq(BLOCK_SIZE, i requires 0 <= i < BLOCK_SIZE => if i < |iv| then iv[i] as bv8 else 0)
  }

  /** The cipher is handed the bytes of the IV as they are, first byte first. */
  lemma NonceBytes(v: int, b: Block)
    ensures b == Nonce(IvOf(v)) <==> forall i | 0 <= i < 16 :: b[i] as int == IvOf(v)[i]
  {
    forall i | 0 <= i < 16 ensures Nonce(IvOf(v))[i] as int == IvOf(v)[i] {
      ByteRoundTrip(IvOf(v)[i]);
    }
    if forall i | 0 <= i < 16 :: b[i] as int == IvOf(v)[i] {
      forall i | 0 <= i < 16 ensures b[i] == Nonce(IvOf(v))[i] {
        SameOctet(b[i], Nonce(IvOf(v))[i]);
      }
    }
  }

  /** Two counter values share a nonce exactly when they are a multiple of 2^128 apart. */
  lemma NonceRepeats(v: int, w: int)
    ensures Nonce(IvOf(v)) == Nonce(IvOf(w)) <==> (v - w) % 0x1_0000_0000_0000_0000_0000_0000_0000_0000 == 0
  {
    SameIv(v, w);
    NonceBytes(v, Nonce(IvOf(v)));
    NonceBytes(w, Nonce(IvOf(w)));
    if Nonce(IvOf(v)) == Nonce(IvOf(w)) {
      assert forall i | 0 <= i < 16 :: IvOf(v)[i] == Nonce(IvOf(v))[i] as int == IvOf(w)[i];
      assert IvOf(v) == IvOf(w);
    }
  }

  /** OCB, with the counter's low 128 bits as its nonce. */
  function OcbMode(c: Cipher): Mode {
    Mode((v: int, plain: seq<bv8>) => Encrypt(c, Nonce(IvOf(v)), plain),
         (v: int, text: seq<bv8>) => Decrypt(c, Nonce(IvOf(v)), text))
  }

  lemma OcbReopens(c: Cipher)
    requires IsPermutation(c)
    ensures Reopens(OcbMode(c))
  {
    forall v: int, plain: seq<bv8>
      ensures Decrypt(c, Nonce(IvOf(v)), Encrypt(c, Nonce(IvOf(v)), plain).text)
           == Tagged(plain, Encrypt(c, Nonce(IvOf(v)), plain).tag)
    {
      DecryptEncrypt(c, Nonce(IvOf(v)), plain);
    }
  }

  // ---------------------------------------------------------------------------
  // Specification of one packet
  // ---------------------------------------------------------------------------

  /** How far from the current IV a packet with first byte `b` is taken to be. */
  function Shift(low: int, b: int): Option<int>
    requires 0 <= low < 256 && 0 <= b < 256
  {
    var ahead := (b - low) % 256;
    if ahead == 0 then None
    else if ahead < 128 || (ahead == 128 && low < 128) then Some(ahead)
    else if ahead > 226 then Some(ahead - 256)
    else None
  }

  function Low(v: int): byte { v % 256 }

  /** The byte of an IV that its history slot remembers. */
  function High(v: int): byte { (v / 256) % 256 }

  /** The packet that carries `plain` under the counter value `v`. */
  function Seal(m: Mode, v: int, plain: seq<bv8>): Packet {
    var r := m.seal(v, plain);
    Packet(Low(v), r.tag[..3], r.text)
  }

  /** Whether the packet's three tag bytes are right for the counter value `v`. */
  predicate Authentic(m: Mode, v: int, packet: Packet)
    requires packet.Packet?
  {
    m.open(v, packet.text).tag[..3] == packet.tag
  }

  /** Whether the history lets in the packet `d` away; the next expected one is not looked up. */
  predicate Unseen(r: Receiver, d: int)
    requires |r.history| == 256
  {
    d == 1 || r.history[Low(r.place + d)] != High(r.place + d)
  }

  /** The move a packet is let in with, if it is. */
  function Admitted(m: Mode, r: Receiver, packet: Packet): Option<int>
    requires |r.history| == 256
  {
    if packet.Runt? then None
    else
      match Shift(Low(r.place), packet.ivByte)
      case None => None
      case Some(d) => if Unseen(r, d) && Authentic(m, r.place + d, packet) then Some(d) else None
  }

  /** The state after letting in a packet `d` away: only a packet from ahead moves the IV. */
  function Advance(r: Receiver, d: int): Receiver
    requires |r.history| == 256
  {
    var v := r.place + d;
    Receiver(
      if d > 0 then v else r.place,
      r.history[Low(v) := High(v)],
      r.good + 1,
      r.late + if d > 0 then 0 else 1,
      r.lost + if d > 0 then d - 1 else -1)
  }

  /** One call of CryptState_decrypt: the state it leaves and the plaintext it accepts. */
  function Step(m: Mode, r: Receiver, packet: Packet): (Receiver, Option<seq<bv8>>)
    requires |r.history| == 256
  {
    match Admitted(m, r, packet)
    case None => (r, None)
    case Some(d) => (Advance(r, d), Some(m.open(r.place + d, packet.text).text))
  }

  // ---------------------------------------------------------------------------
  // IV recovery
  // ---------------------------------------------------------------------------

  /** The moves the receiver can tell from one byte: 29 back to 127 ahead, and 128 ahead
      only when that does not carry out of the low byte. */
  predicate InWindow(low: int, d: int) {
    d != 0 && (-29 <= d <= 127 || (d == 128 && low < 128))
  }

  /** The recovered move is the one window member that explains the byte, and there is one
      exactly when some member explains it. */
  lemma ShiftIsTheWindowMember(low: int, b: int, d: int)
    requires 0 <= low < 256 && 0 <= b < 256
    ensures Shift(low, b) == Some(d) <==> InWindow(low, d) && (low + d) % 256 == b
  {}

  /** A genuine packet sealed `d` away is recovered with exactly that IV; it is let in exactly
      when its history slot does not hold its byte (or it is the next one), and then it
      yields its plaintext. */
  lemma GenuinePacket(m: Mode, r: Receiver, d: int, plain: seq<bv8>)
    requires Reopens(m) && ValidReceiver(r) && InWindow(Low(r.place), d)
    ensures var packet := Seal(m, r.place + d, plain);
      && Admitted(m, r, packet) == (if Unseen(r, d) then Some(d) else None)
      && Step(m, r, packet) == if Unseen(r, d) then (Advance(r, d), Some(plain)) else (r, None)
  {
    var packet := Seal(m, r.place + d, plain);
    assert Shift(Low(r.place), packet.ivByte) == Some(d) by {
      ShiftIsTheWindowMember(Low(r.place), Low(r.place + d), d);
    }
    assert m.open(r.place + d, packet.text) == Tagged(plain, m.seal(r.place + d, plain).tag);
  }
}
