/** The crypt state of one client (src/crypt.c), updated in place, against the machine of Channel. */
module CryptStates {
  import opened Bytes
  import opened Blocks
  import opened Ocb
  import opened OcbLoops
  import opened Iv
  import opened Channel

  /** A received datagram taken apart. */
  function Parse(source: seq<bv8>): Packet {
    if |source| < 4 then Runt else Packet(source[0] as int, source[1..4], source[4..])
  }

  /** Different datagrams of at least a header's length are taken apart differently. */
  lemma ParseInjective(s: seq<bv8>, t: seq<bv8>)
    requires |s| >= 4 && Parse(s) == Parse(t)
    ensures s == t
  {
    SameOctet(s[0], t[0]);
    assert s == [s[0]] + s[1..4] + s[4..] && t == [t[0]] + t[1..4] + t[4..];
  }

  // ---------------------------------------------------------------------------
  // Datagrams, byte by byte
  // ---------------------------------------------------------------------------

  /** The block with the bytes of the IV of a counter value. */
  ghost predicate HasIv(b: Block, v: int) {
    forall i | 0 <= i < 16 :: b[i] as int == IvOf(v)[i]
  }

  /** The datagram for a text: the first byte of the IV, the first three bytes of the tag, and the text
      sealed by OCB under the bytes of the IV. */
  ghost predicate SealedUnder(c: Cipher, v: int, source: seq<bv8>, plain: seq<bv8>) {
    && |source| == 4 + |plain| && source[0] as int == v % 256
    && forall b: Block | HasIv(b, v) ::
         var r := Encrypt(c, b, plain);
         source[1] == r.tag[0] && source[2] == r.tag[1] && source[3] == r.tag[2] && source[4..] == r.text
  }

  /** The counter values a datagram is let in under: within the window, with the byte in front and the
      three tag bytes right; except for the next one, the history must not hold the value. */
  ghost predicate OpensUnder(c: Cipher, r: Receiver, source: seq<bv8>, v: int)
    requires |r.history| == 256
  {
    && |source| >= 4 && source[0] as int == v % 256
    && (r.place - 29 <= v < r.place || r.place < v <= r.place + 127 || (v == r.place + 128 && r.place % 256 < 128))
    && (v == r.place + 1 || r.history[v % 256] != v / 256 % 256)
    && forall b: Block | HasIv(b, v) ::
         var tag := Ocb.Decrypt(c, b, source[4..]).tag;
         source[1] == tag[0] && source[2] == tag[1] && source[3] == tag[2]
  }

  lemma TheIv(v: int)
    ensures HasIv(Nonce(IvOf(v)), v) && forall b: Block | HasIv(b, v) :: b == Nonce(IvOf(v))
  {
    NonceBytes(v, Nonce(IvOf(v)));
    forall b: Block | HasIv(b, v) ensures b == Nonce(IvOf(v)) {
      NonceBytes(v, b);
    }
  }

  lemma SealIsSealed(c: Cipher, v: int, source: seq<bv8>, plain: seq<bv8>)
    requires |source| >= 4
    ensures Parse(source) == Seal(OcbMode(c), v, plain) <==> SealedUnder(c, v, source, plain)
  {
    TheIv(v);
    var r := Encrypt(c, Nonce(IvOf(v)), plain);
    assert source[1..4] == r.tag[..3] <==> source[1] == r.tag[0] && source[2] == r.tag[1] && source[3] == r.tag[2];
  }

  lemma MovesTo(place: int, b: byte, v: int)
    ensures Shift(Low(place), b) == Some(v - place) <==>
      && b == v % 256
      && (place - 29 <= v < place || place < v <= place + 127 || (v == place + 128 && place % 256 < 128))
  {
    ShiftIsTheWindowMember(Low(place), b, v - place);
    LowPlus(place, v - place);
  }

  lemma LowPlus(v: int, d: int)
    ensures (v % 256 + d) % 256 == (v + d) % 256
  {}

  lemma AuthenticBytes(c: Cipher, v: int, source: seq<bv8>)
    requires |source| >= 4
    ensures Authentic(OcbMode(c), v, Parse(source)) <==>
      forall b: Block | HasIv(b, v) ::
        var tag := Ocb.Decrypt(c, b, source[4..]).tag;
        source[1] == tag[0] && source[2] == tag[1] && source[3] == tag[2]
  {
    TheIv(v);
    var tag := Ocb.Decrypt(c, Nonce(IvOf(v)), source[4..]).tag;
    assert tag[..3] == source[1..4] <==> source[1] == tag[0] && source[2] == tag[1] && source[3] == tag[2];
  }

  lemma OpensIfAdmitted(c: Cipher, r: Receiver, source: seq<bv8>, v: int)
    requires ValidReceiver(r)
    ensures OpensUnder(c, r, source, v) <==> Admitted(OcbMode(c), r, Parse(source)) == Some(v - r.place)
  {
    if |source| >= 4 {
      MovesTo(r.place, source[0] as int, v);
      AuthenticBytes(c, v, source);
    }
  }

  /** Letting a datagram in under v gives what OCB opens under the bytes of that value's IV; the IV follows
      a packet from ahead, the history remembers it, and the counters count it. */
  ghost predicate StepsTo(c: Cipher, r: Receiver, source: seq<bv8>, v: int)
    requires |r.history| == 256 && |source| >= 4
  {
    var (s, plain) := Step(OcbMode(c), r, Parse(source));
    && s.place == (if v > r.place then v else r.place)
    && s.history == r.history[v % 256 := v / 256 % 256] && s.good == r.good + 1
    && s.late == r.late + (if v < r.place then 1 else 0)
    && s.lost == r.lost + (if v < r.place then -1 else v - r.place - 1)
    && forall b: Block | HasIv(b, v) :: plain == Some(Ocb.Decrypt(c, b, source[4..]).text)
  }

  lemma StepUnder(c: Cipher, r: Receiver, source: seq<bv8>, v: int)
    requires ValidReceiver(r) && OpensUnder(c, r, source, v)
    ensures StepsTo(c, r, source, v)
  {
    OpensIfAdmitted(c, r, source, v);
    TheIv(v);
  }

  /** A step of the receiver, told from the datagram: it is let in if and only if it opens under some
      counter value, and then the step is the one to that value. */
  lemma StepOnDatagram(c: Cipher, r: Receiver, source: seq<bv8>)
    requires ValidReceiver(r)
    ensures var (s, plain) := Step(OcbMode(c), r, Parse(source));
      && (plain.Some? <==> exists v :: OpensUnder(c, r, source, v))
      && (plain.None? ==> s == r)
      && forall v | OpensUnder(c, r, source, v) :: StepsTo(c, r, source, v)
  {
    var admitted := Admitted(OcbMode(c), r, Parse(source));
    if admitted.Some? {
      OpensIfAdmitted(c, r, source, r.place + admitted.value);
    }
    forall v | OpensUnder(c, r, source, v) ensures StepsTo(c, r, source, v) {
      StepUnder(c, r, source, v);
    }
  }

  /** The step a recovered move leads to. */
  lemma StepOf(m: Mode, r: Receiver, source: seq<bv8>, d: int)
    requires ValidReceiver(r) && |source| >= 4 && Shift(Low(r.place), source[0] as int) == Some(d)
    ensures Step(m, r, Parse(source)) ==
      if Unseen(r, d) && Authentic(m, r.place + d, Parse(source))
      then (Advance(r, d), Some(m.open(r.place + d, source[4..]).text)) else (r, None)
  {}

  /** Counting goes on past a wrap. */
  lemma CountsOn(c: int, k: int)
    ensures (c % UINT32 + k) % UINT32 == (c + k) % UINT32
  {}

  method Copy(dst: array<byte>, s: seq<byte>)
    requires dst.Length == |s|
    modifies dst
    ensures dst[..] == s
  {
    for i := 0 to |s|
      invariant forall j :: 0 <= j < i ==> dst[j] == s[j]
    {
      dst[i] := s[i];
    }
  }

  class CryptState {
    const cipher: Cipher
    const encryptIv: array<byte>
    const decryptIv: array<byte>
    const decryptHistory: array<byte>
    var good: nat
    var late: nat
    var lost: nat
    /** The counter values behind the two IVs, and the statistics, followed past their wraps. */
    ghost var sent: int
    ghost var place: int
    ghost var counts: (int, int, int)

    ghost predicate Valid()
      reads this, encryptIv, decryptIv, decryptHistory
    {
      && encryptIv != decryptIv && encryptIv != decryptHistory && decryptIv != decryptHistory
      && encryptIv.Length == IV_SIZE && encryptIv[..] == IvOf(sent)
      && decryptIv.Length == IV_SIZE && decryptIv[..] == IvOf(place)
      && decryptHistory.Length == 256
      && CountersFit()
    }

    /** The 32-bit statistics are the true ones modulo 2^32. */
    ghost predicate CountersFit()
      reads this
    {
      good == counts.0 % UINT32 && late == counts.1 % UINT32 && lost == counts.2 % UINT32
    }

    /** A buffer of the caller's is none of the arrays of the state. */
    ghost predicate Apart(dst: array<bv8>)
      reads this
    {
      dst as object != encryptIv && dst as object != decryptIv && dst as object != decryptHistory
    }

    ghost function View(): (r: Receiver)
      requires Valid()
      reads this, encryptIv, decryptIv, decryptHistory
      ensures ValidReceiver(r)
    {
      Receiver(place, decryptHistory[..], counts.0, counts.1, counts.2)
    }

    /** CryptState_init and CryptState_genKey, with the random bytes as parameters. The history is
        cleared except for its last slot, which keeps whatever the memory held. */
    constructor (c: Cipher, encryptStart: seq<byte>, decryptStart: seq<byte>, stale: byte)
      requires |encryptStart| == IV_SIZE && |decryptStart| == IV_SIZE
      ensures Valid() && cipher == c
      ensures fresh(encryptIv) && fresh(decryptIv) && fresh(decryptHistory)
      ensures IvOf(sent) == encryptStart && IvOf(place) == decryptStart
      ensures View() == Receiver(place, seq(255, _ => 0) + [stale], 0, 0, 0)
    {
      cipher := c;
      encryptIv := new byte[IV_SIZE];
      decryptIv := new byte[IV_SIZE];
      decryptHistory := new byte[256](i => if i < 255 then 0 else stale);
      good, late, lost, counts := 0, 0, 0, (0, 0, 0);
      sent, place := Value(encryptStart), Value(decryptStart);
      new;
      Copy(encryptIv, encryptStart);
      Copy(decryptIv, decryptStart);
      BytesOfValue(encryptStart);
      BytesOfValue(decryptStart);
      IvIsDigits(sent, |encryptStart|);
      IvIsDigits(place, |decryptStart|);
    }

    /** CryptState_encrypt: counts up and writes the packet for the new counter value, sealed under the
        bytes of the IV as they then are. */
    method Encrypt(source: seq<bv8>, dst: array<bv8>)
      requires Valid() && Apart(dst) && 4 + |source| <= dst.Length
      modifies this`sent, encryptIv, dst
      ensures Valid() && View() == old(View())
      ensures sent == old(sent) + 1
      ensures Parse(dst[..4 + |source|]) == Seal(OcbMode(cipher), sent, source)
      ensures SealedUnder(cipher, sent, dst[..4 + |source|], source) && encryptIv[..] == IvOf(sent)
    {
      IvCountsUp(sent, IV_SIZE);
      Carry(encryptIv, 0);
      sent := sent + 1;
      assert encryptIv[..] == IvOf(sent);
      LowOfIv(sent, IV_SIZE - 1);
      Emit(source, dst);
      SealIsSealed(cipher, sent, dst[..4 + |source|], source);
    }

    /** The packet for the current counter value. */
    method Emit(source: seq<bv8>, dst: array<bv8>)
      requires Valid() && Apart(dst) && 4 + |source| <= dst.Length && encryptIv[0] == Low(sent)
      modifies dst
      ensures Parse(dst[..4 + |source|]) == Seal(OcbMode(cipher), sent, source)
    {
      ghost var before := dst[..];
      ghost var r := OcbMode(cipher).seal(sent, source);
      var tag := OcbEncrypt(cipher, source, dst, 4, Nonce(encryptIv[..]));
      WrittenIsThere(dst[..], before, 4, r.text);
      ghost var text := dst[4..4 + |source|];
      dst[0] := encryptIv[0] as bv8;
      dst[1] := tag[0];
      dst[2] := tag[1];
      dst[3] := tag[2];
      ByteRoundTrip(encryptIv[0]);
      assert dst[4..4 + |source|] == text;
      assert dst[..4 + |source|][4..] == dst[4..4 + |source|];
      assert dst[..4 + |source|][1..4] == tag[..3];
    }

    /** A new low byte, the higher bytes as they are. */
    method PutLow(b: byte)
      requires Valid()
      modifies decryptIv
      ensures decryptIv[..] == IvOf(place + (b - Low(place)))
    {
      LowByteMoves(place, b, IV_SIZE - 1);
      ghost var was := decryptIv[..];
      decryptIv[0] := b;
      assert decryptIv[..] == was[0 := b];
    }

    /** A new low byte, and a carry into the higher ones. */
    method PutLowCarry(b: byte)
      requires Valid()
      modifies decryptIv
      ensures decryptIv[..] == IvOf(place + (256 + b - Low(place)))
    {
      LowByteCarries(place, b, IV_SIZE - 1);
      ghost var was := decryptIv[..];
      decryptIv[0] := b;
      assert decryptIv[1..] == was[1..] && decryptIv[..1] == [b];
      Carry(decryptIv, 1);
    }

    /** A new low byte, and a borrow from the higher ones. */
    method PutLowBorrow(b: byte)
      requires Valid()
      modifies decryptIv
      ensures decryptIv[..] == IvOf(place + (b - 256 - Low(place)))
    {
      LowByteBorrows(place, b, IV_SIZE - 1);
      ghost var was := decryptIv[..];
      decryptIv[0] := b;
      assert decryptIv[1..] == was[1..] && decryptIv[..1] == [b];
      Borrow(decryptIv, 1);
    }

    /** The in-order branch of CryptState_decrypt. */
    method MoveNext(ivByte: byte) returns (known: bool)
      requires Valid() && ivByte == (Low(place) as int + 1) % 256
      modifies decryptIv
      ensures known && decryptIv[..] == IvOf(place + 1)
    {
      LowOfIv(place, IV_SIZE - 1);
      var low: int := decryptIv[0];
      if ivByte > low {
        PutLow(ivByte);
      } else if ivByte < low {
        PutLowCarry(ivByte);
      } else {
        assert false;
      }
      return true;
    }

    /** The other branch: out of order, or a repeat. */
    method MoveFar(ivByte: byte) returns (known: bool, missed: int, behind: int, restore: bool)
      requires Valid()
      modifies decryptIv
      ensures var diff := ivByte as int - Low(place);
        var shift := ByDifference(diff);
        && (known <==> shift.Some?)
        && (!known ==> decryptIv[..] == old(decryptIv[..]))
        && (known ==>
             && decryptIv[..] == IvOf(place + shift.value)
             && missed == (if shift.value > 0 then shift.value - 1 else -1)
             && behind == (if shift.value > 0 then 0 else 1) && restore == (shift.value <= 0))
    {
      known, missed, behind, restore := true, 0, 0, false;
      LowOfIv(place, IV_SIZE - 1);
      var low: int := decryptIv[0];
      var diff := ivByte - low;
      if diff > 128 {
        diff := diff - 256;
      } else if diff < -128 {
        diff := diff + 256;
      }
      if ivByte < low && diff > -30 && diff < 0 {
        behind, missed, restore := 1, -1, true;
        PutLow(ivByte);
      } else if ivByte > low && diff > -30 && diff < 0 {
        behind, missed, restore := 1, -1, true;
        PutLowBorrow(ivByte);
      } else if ivByte > low && diff > 0 {
        missed := ivByte - low - 1;
        PutLow(ivByte);
      } else if ivByte < low && diff > 0 {
        missed := 256 - low + ivByte - 1;
        PutLowCarry(ivByte);
      } else {
        known := false;
      }
    }

    /** The byte-and-carry part of CryptState_decrypt: moves decrypt_iv to the counter value the
        packet is taken to carry. */
    method MoveIv(ivByte: byte) returns (known: bool, next: bool, missed: int, behind: int, restore: bool, ghost d: int)
      requires Valid()
      modifies decryptIv
      ensures Shift(Low(place), ivByte) == if known then Some(d) else None
      ensures !known ==> decryptIv[..] == old(decryptIv[..])
      ensures known ==>
        && decryptIv[..] == IvOf(place + d) && d != 0
        && next == (d == 1) && missed == (if d > 0 then d - 1 else -1)
        && behind == (if d > 0 then 0 else 1) && restore == (d <= 0)
    {
      LowOfIv(place, IV_SIZE - 1);
      var low: int := decryptIv[0];
      ShiftByDifference(Low(place), ivByte);
      next, missed, behind, restore, d := (low + 1) % 256 == ivByte, 0, 0, false, 0;
      if next {
        d := 1;
        known := MoveNext(ivByte);
      } else {
        known, missed, behind, restore := MoveFar(ivByte);
        if known {
          d := ByDifference(ivByte - low).value;
        }
      }
    }

    /** The end of CryptState_decrypt, for a packet that is let in. */
    method Accept(saved: seq<byte>, missed: int, behind: int, restore: bool, ghost d: int)
      requires encryptIv != decryptIv && encryptIv != decryptHistory && decryptIv != decryptHistory
      requires encryptIv.Length == IV_SIZE && encryptIv[..] == IvOf(sent)
      requires decryptIv.Length == IV_SIZE && decryptIv[..] == IvOf(place + d)
      requires |saved| == IV_SIZE && saved == IvOf(place) && decryptHistory.Length == 256
      requires CountersFit()
      requires missed == (if d > 0 then d - 1 else -1) && behind == (if d > 0 then 0 else 1) && restore == (d <= 0)
      modifies this`good, this`late, this`lost, this`place, this`counts, decryptIv, decryptHistory
      ensures Valid()
      ensures View() ==
        Advance(Receiver(old(place), old(decryptHistory[..]), old(counts.0), old(counts.1), old(counts.2)), d)
    {
      LowOfIv(place + d, IV_SIZE - 1);
      decryptHistory[decryptIv[0]] := decryptIv[1];
      if restore {
        Copy(decryptIv, saved);
      } else {
        place := place + d;
      }
      Count(behind, missed);
    }

    /** The statistics of a packet that is let in. */
    method Count(behind: int, missed: int)
      requires CountersFit()
      modifies this`good, this`late, this`lost, this`counts
      ensures CountersFit()
      ensures counts == (old(counts.0) + 1, old(counts.1) + behind, old(counts.2) + missed)
    {
      CountsOn(counts.0, 1);
      CountsOn(counts.1, behind);
      CountsOn(counts.2, missed);
      good := (good + 1) % UINT32;
      late := (late + behind) % UINT32;
      lost := (lost + missed) % UINT32;
      counts := (counts.0 + 1, counts.1 + behind, counts.2 + missed);
    }

    /** CryptState_decrypt once the IV is recovered: the history, the tag, and the verdict. */
    method Judge(source: seq<bv8>, dst: array<bv8>, saved: seq<byte>, next: bool, missed: int, behind: int,
                 restore: bool, ghost d: int, ghost r: Receiver) returns (ok: bool)
      requires r == Receiver(place, decryptHistory[..], counts.0, counts.1, counts.2)
      requires Apart(dst) && 4 <= |source| <= dst.Length + 4
      requires encryptIv != decryptIv && encryptIv != decryptHistory && decryptIv != decryptHistory
      requires encryptIv.Length == IV_SIZE && encryptIv[..] == IvOf(sent)
      requires decryptIv.Length == IV_SIZE && decryptIv[..] == IvOf(place + d)
      requires |saved| == IV_SIZE && saved == IvOf(place) && decryptHistory.Length == 256
      requires CountersFit()
      requires d != 0 && next == (d == 1)
      requires missed == (if d > 0 then d - 1 else -1) && behind == (if d > 0 then 0 else 1) && restore == (d <= 0)
      modifies this`good, this`late, this`lost, this`place, this`counts, decryptIv, decryptHistory, dst
      ensures Valid()
      ensures ok <==> Unseen(r, d) && Authentic(OcbMode(cipher), r.place + d, Parse(source))
      ensures View() == (if ok then Advance(r, d) else r)
      ensures ok ==> dst[..|source| - 4] == OcbMode(cipher).open(r.place + d, source[4..]).text
    {
      LowOfIv(place + d, IV_SIZE - 1);
      if !next && decryptHistory[decryptIv[0]] == decryptIv[1] {
        Copy(decryptIv, saved);
        return false;
      }
      var tag := Open(source[4..], dst, place + d);
      if tag[..3] != source[1..4] {
        Copy(decryptIv, saved);
        return false;
      }
      Accept(saved, missed, behind, restore, d);
      return true;
    }

    /** CryptState_decrypt: exactly one step of the receiver; a packet that is not let in
        leaves the state as it was. */
    method Decrypt(source: seq<bv8>, dst: array<bv8>) returns (ok: bool)
      requires Valid() && Apart(dst) && |source| <= dst.Length + 4
      modifies this`good, this`late, this`lost, this`place, this`counts, decryptIv, decryptHistory, dst
      ensures Valid()
      ensures var (r, plain) := Step(OcbMode(cipher), old(View()), Parse(source));
        && View() == r
        && (ok <==> plain.Some?)
        && (ok ==> dst[..|source| - 4] == plain.value)
      ensures !ok ==> View() == old(View())
      ensures ok <==> exists v :: OpensUnder(cipher, old(View()), source, v)
      ensures forall v, b: Block | OpensUnder(cipher, old(View()), source, v) && HasIv(b, v) ::
        dst[..|source| - 4] == Ocb.Decrypt(cipher, b, source[4..]).text
    {
      StepOnDatagram(cipher, View(), source);
      if |source| < 4 {
        return false;
      }
      var saved := decryptIv[..];
      ghost var r := View();
      var known, next, missed, behind, restore, d := MoveIv(source[0] as int);
      if !known {
        return false;
      }
      StepOf(OcbMode(cipher), r, source, d);
      assert r == Receiver(place, decryptHistory[..], counts.0, counts.1, counts.2);
      ok := Judge(source, dst, saved, next, missed, behind, restore, d, r);
    }

    /** Opens a text under the IV that has just been recovered. */
    method Open(text: seq<bv8>, dst: array<bv8>, ghost v: int) returns (tag: Block)
      requires decryptIv.Length == IV_SIZE && decryptIv[..] == IvOf(v) && |text| <= dst.Length
      modifies dst
      ensures var r := OcbMode(cipher).open(v, text);
        tag == r.tag && |r.text| == |text| && dst[..|text|] == r.text
    {
      ghost var before := dst[..];
      tag := OcbDecrypt(cipher, text, dst, 0, Nonce(decryptIv[..]));
      WrittenIsThere(dst[..], before, 0, OcbMode(cipher).open(v, text).text);
    }
  }

  lemma LowOfIv(v: int, n: nat)
    requires n + 1 == IV_SIZE
    ensures IvOf(v)[0] == Low(v) && IvOf(v)[1] == High(v)
  {
    SplitLow(v, n);
  }

  /** The recovered move by the plain difference of the two bytes. */
  function ByDifference(diff: int): Option<int> {
    if diff == 0 || -128 <= diff <= -30 || 129 <= diff <= 226 then None
    else if -29 <= diff <= 128 then Some(diff)
    else if diff > 128 then Some(diff - 256)
    else Some(diff + 256)
  }

  lemma ShiftByDifference(low: byte, b: byte)
    ensures Shift(low, b) == ByDifference(b as int - low)
    ensures (low as int + 1) % 256 == b <==> ByDifference(b as int - low) == Some(1)
  {}
}
