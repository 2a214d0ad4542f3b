/** OCB mode with doubling and tripling: CryptState_ocb_encrypt and CryptState_ocb_decrypt. */
module Ocb {
  import opened Bytes
  import opened Blocks

  /** The keyed block cipher: any function with an inverse. */
  datatype Cipher = Cipher(encrypt: Block -> Block, decrypt: Block -> Block)

  ghost predicate IsPermutation(c: Cipher) {
    && (forall x: Block :: c.decrypt(c.encrypt(x)) == x)
    && (forall x: Block :: c.encrypt(c.decrypt(x)) == x)
  }

  /** A text (cipher or plain) with the full 16-byte tag computed beside it. */
  datatype Tagged = Tagged(text: seq<bv8>, tag: Block)

  /** The block that carries the bit length of the last, possibly partial, block. */
  function LengthBlock(n: nat): Block
    requires n <= BLOCK_SIZE
  {
    Zero()[BLOCK_SIZE - 1 := (n * 8) as bv8]
  }

  function Pad(c: Cipher, delta: Block, n: nat): Block
    requires n <= BLOCK_SIZE
  {
    c.encrypt(Xor(LengthBlock(n), delta))
  }

  // ---------------------------------------------------------------------------
  // Specification
  // ---------------------------------------------------------------------------

  function Encrypt(c: Cipher, nonce: Block, plain: seq<bv8>): (r: Tagged)
    ensures |r.text| == |plain|
  {
    EncryptFrom(c, plain, c.encrypt(nonce), Zero())
  }

  function EncryptFrom(c: Cipher, plain: seq<bv8>, delta: Block, checksum: Block): (r: Tagged)
    ensures |r.text| == |plain|
    decreases |plain|
  {
    var d := Doubled(delta);
    if |plain| > BLOCK_SIZE then
      var block := plain[..BLOCK_SIZE];
      var rest := EncryptFrom(c, plain[BLOCK_SIZE..], d, Xor(checksum, block));
      Tagged(Xor(d, c.encrypt(Xor(d, block))) + rest.text, rest.tag)
    else
      var pad := Pad(c, d, |plain|);
      var last := plain + pad[|plain|..];
      Tagged(Xor(pad, last)[..|plain|], c.encrypt(Xor(Tripled(d), Xor(checksum, last))))
  }

  function Decrypt(c: Cipher, nonce: Block, text: seq<bv8>): (r: Tagged)
    ensures |r.text| == |text|
  {
    DecryptFrom(c, text, c.encrypt(nonce), Zero())
  }

  function DecryptFrom(c: Cipher, text: seq<bv8>, delta: Block, checksum: Block): (r: Tagged)
    ensures |r.text| == |text|
    decreases |text|
  {
    var d := Doubled(delta);
    if |text| > BLOCK_SIZE then
      var block := Xor(d, c.decrypt(Xor(d, text[..BLOCK_SIZE])));
      var rest := DecryptFrom(c, text[BLOCK_SIZE..], d, Xor(checksum, block));
      Tagged(block + rest.text, rest.tag)
    else
      var pad := Pad(c, d, |text|);
      var last := Xor(text + Zero()[|text|..], pad);
      Tagged(last[..|text|], c.encrypt(Xor(Tripled(d), Xor(checksum, last))))
  }

  // ---------------------------------------------------------------------------
  // Decryption and encryption are inverse, with the same tag
  // ---------------------------------------------------------------------------

  lemma DecryptEncrypt(c: Cipher, nonce: Block, plain: seq<bv8>)
    requires IsPermutation(c)
    ensures Decrypt(c, nonce, Encrypt(c, nonce, plain).text) == Tagged(plain, Encrypt(c, nonce, plain).tag)
  {
    DecryptEncryptFrom(c, plain, c.encrypt(nonce), Zero());
  }

  lemma {:induction false} DecryptEncryptFrom(c: Cipher, plain: seq<bv8>, delta: Block, checksum: Block)
    requires IsPermutation(c)
    ensures var sealed := EncryptFrom(c, plain, delta, checksum);
      DecryptFrom(c, sealed.text, delta, checksum) == Tagged(plain, sealed.tag)
    decreases |plain|
  {
    var d := Doubled(delta);
    var sealed := EncryptFrom(c, plain, delta, checksum);
    if |plain| > BLOCK_SIZE {
      var block := plain[..BLOCK_SIZE];
      var rest := EncryptFrom(c, plain[BLOCK_SIZE..], d, Xor(checksum, block));
      var sent := Xor(d, c.encrypt(Xor(d, block)));
      assert sealed.text[..BLOCK_SIZE] == sent && sealed.text[BLOCK_SIZE..] == rest.text;
      XorCancels(d, c.encrypt(Xor(d, block)));
      XorCancels(d, block);
      assert Xor(d, c.decrypt(Xor(d, sent))) == block;
      DecryptEncryptFrom(c, plain[BLOCK_SIZE..], d, Xor(checksum, block));
      assert block + plain[BLOCK_SIZE..] == plain;
    } else {
      LastBlock(Pad(c, d, |plain|), plain);
    }
  }

  /** The last block: what the decryptor rebuilds is what the encryptor summed. */
  lemma LastBlock(pad: Block, plain: seq<bv8>)
    requires |plain| <= BLOCK_SIZE
    ensures var last := plain + pad[|plain|..];
      var text := Xor(pad, last)[..|plain|];
      Xor(text + Zero()[|plain|..], pad) == last && last[..|plain|] == plain
  {
    var n := |plain|;
    var last := plain + pad[n..];
    var text := Xor(pad, last)[..n];
    var back := Xor(text + Zero()[n..], pad);
    forall i | 0 <= i < BLOCK_SIZE
      ensures back[i] == last[i]
    {
      if i < n {
        assert (pad[i] ^ plain[i]) ^ pad[i] == plain[i];
      } else {
        assert 0 ^ pad[i] == pad[i];
      }
    }
  }

  lemma EncryptDecrypt(c: Cipher, nonce: Block, text: seq<bv8>)
    requires IsPermutation(c)
    ensures Encrypt(c, nonce, Decrypt(c, nonce, text).text) == Tagged(text, Decrypt(c, nonce, text).tag)
  {
    EncryptDecryptFrom(c, text, c.encrypt(nonce), Zero());
  }

  lemma {:induction false} EncryptDecryptFrom(c: Cipher, text: seq<bv8>, delta: Block, checksum: Block)
    requires IsPermutation(c)
    ensures var back := DecryptFrom(c, text, delta, checksum);
      EncryptFrom(c, back.text, delta, checksum) == Tagged(text, back.tag)
    decreases |text|
  {
    var d := Doubled(delta);
    var plain := DecryptFrom(c, text, delta, checksum);
    if |text| > BLOCK_SIZE {
      var sent := text[..BLOCK_SIZE];
      var block := Xor(d, c.decrypt(Xor(d, sent)));
      var rest := DecryptFrom(c, text[BLOCK_SIZE..], d, Xor(checksum, block));
      assert plain.text[..BLOCK_SIZE] == block && plain.text[BLOCK_SIZE..] == rest.text;
      XorCancels(d, c.decrypt(Xor(d, sent)));
      XorCancels(d, sent);
      assert Xor(d, c.encrypt(Xor(d, block))) == sent;
      EncryptDecryptFrom(c, text[BLOCK_SIZE..], d, Xor(checksum, block));
      assert sent + text[BLOCK_SIZE..] == text;
    } else {
      LastText(Pad(c, d, |text|), text);
    }
  }

  lemma LastText(pad: Block, text: seq<bv8>)
    requires |text| <= BLOCK_SIZE
    ensures var last := Xor(text + Zero()[|text|..], pad);
      last[..|text|] + pad[|text|..] == last && Xor(pad, last)[..|text|] == text
  {
    var n := |text|;
    var last := Xor(text + Zero()[n..], pad);
    forall i | 0 <= i < BLOCK_SIZE
      ensures i < n ==> Xor(pad, last)[i] == text[i]
      ensures i >= n ==> last[i] == pad[i]
    {
      if i < n {
        assert pad[i] ^ (text[i] ^ pad[i]) == text[i];
      } else {
        assert 0 ^ pad[i] == pad[i];
      }
    }
  }

  // ---------------------------------------------------------------------------
  // The loop computes the mode of ISO/IEC 19772:2009, clause 6
  // ---------------------------------------------------------------------------

  /** The i-th offset: the encrypted nonce doubled i times. */
  function Offset(start: Block, i: nat): Block
    decreases i
  {
    if i == 0 then start else Offset(Doubled(start), i - 1)
  }

  /** Each offset is the one before it, doubled as a 128-bit number. */
  lemma {:induction false} OffsetDoubles(start: Block, i: nat)
    ensures Offset(start, 0) == start
    ensures Number(Offset(start, i + 1)) == DoubledNumber(Number(Offset(start, i)))
    decreases i
  {
    if i == 0 {
      NumberDoubled(start);
    } else {
      OffsetDoubles(Doubled(start), i - 1);
    }
  }

  /** How many blocks precede the last one. */
  function LeadingBlocks(n: nat): nat {
    if n > BLOCK_SIZE then 1 + LeadingBlocks(n - BLOCK_SIZE) else 0
  }

  /** The first `blocks` whole blocks of a text, added to `sum`. */
  function Summed(sum: Block, plain: seq<bv8>, blocks: nat): Block
    requires BLOCK_SIZE * blocks <= |plain|
    decreases blocks
  {
    if blocks == 0 then sum else Summed(Xor(sum, plain[..BLOCK_SIZE]), plain[BLOCK_SIZE..], blocks - 1)
  }

  lemma {:induction false} LeadingBlocksFit(n: nat)
    ensures BLOCK_SIZE * LeadingBlocks(n) <= n <= BLOCK_SIZE * LeadingBlocks(n) + BLOCK_SIZE
    ensures n > 0 ==> BLOCK_SIZE * LeadingBlocks(n) < n
  {
    if n > BLOCK_SIZE {
      LeadingBlocksFit(n - BLOCK_SIZE);
    }
  }

  /** The block whose bytes make the number of bits of the last block is the one the code builds. */
  lemma LengthInBits(n: nat, bits: Block)
    requires n <= BLOCK_SIZE && (forall i | 0 <= i < 15 :: bits[i] == 0) && bits[15] as int == 8 * n
    ensures bits == LengthBlock(n)
  {
    ByteRoundTrip(8 * n);
    SameOctet(bits[15], LengthBlock(n)[15]);
  }

  lemma {:induction false} LeadingBlocksAre(n: nat, m: nat)
    requires 16 * m <= n <= 16 * m + 16 && (n > 0 ==> 16 * m < n)
    ensures LeadingBlocks(n) == m
  {
    LeadingBlocksFit(n);
  }

  /** With m whole blocks in front of the last one, of t bytes: every leading block is whitened with its
      own offset, the last one is added to its pad, which enciphers the number 8 * t of its bits added to
      the last offset, and the tag enciphers the tripled offset added to the checksum. */
  lemma {:induction false} EncryptIsOcb(c: Cipher, nonce: Block, plain: seq<bv8>, m: nat, bits: Block)
    requires 16 * m <= |plain| <= 16 * m + 16 && (|plain| > 0 ==> 16 * m < |plain|)
    requires (forall i | 0 <= i < 15 :: bits[i] == 0) && bits[15] as int == 8 * (|plain| - 16 * m)
    ensures var r, start, tail := Encrypt(c, nonce, plain), c.encrypt(nonce), plain[16 * m..];
      var pad := c.encrypt(Xor(bits, Offset(start, m + 1)));
      && r.text[16 * m..] == Xor(tail, pad[..|tail|])
      && r.tag == c.encrypt(Xor(Tripled(Offset(start, m + 1)), Xor(Summed(Zero(), plain, m), tail + pad[|tail|..])))
      && (forall k {:trigger Offset(start, k + 1)} :: 0 <= k < m ==>
            r.text[16 * k..16 * k + 16]
            == Xor(Offset(start, k + 1), c.encrypt(Xor(Offset(start, k + 1), plain[16 * k..16 * k + 16]))))
  {
    LeadingBlocksAre(|plain|, m);
    LengthInBits(|plain| - 16 * m, bits);
    EncryptFromIsOcb(c, plain, c.encrypt(nonce), Zero());
    forall k {:trigger Offset(c.encrypt(nonce), k + 1)} | 0 <= k < m
      ensures Encrypt(c, nonce, plain).text[16 * k..16 * k + 16]
        == Xor(Offset(c.encrypt(nonce), k + 1),
               c.encrypt(Xor(Offset(c.encrypt(nonce), k + 1), plain[16 * k..16 * k + 16])))
    {
      BlockOfEncrypt(c, plain, c.encrypt(nonce), Zero(), k);
    }
  }

  lemma {:induction false} BlockOfEncrypt(c: Cipher, plain: seq<bv8>, delta: Block, checksum: Block, k: nat)
    requires k < LeadingBlocks(|plain|) && BLOCK_SIZE * k + BLOCK_SIZE <= |plain|
    ensures EncryptFrom(c, plain, delta, checksum).text[BLOCK_SIZE * k..BLOCK_SIZE * k + BLOCK_SIZE]
            == Xor(Offset(delta, k + 1),
                   c.encrypt(Xor(Offset(delta, k + 1), plain[BLOCK_SIZE * k..BLOCK_SIZE * k + BLOCK_SIZE])))
    decreases k
  {
    var d := Doubled(delta);
    var rest := plain[BLOCK_SIZE..];
    var sum := Xor(checksum, plain[..BLOCK_SIZE]);
    var text := EncryptFrom(c, plain, delta, checksum).text;
    assert Offset(delta, 1) == d;
    assert text[BLOCK_SIZE..] == EncryptFrom(c, rest, d, sum).text;
    if k > 0 {
      BlockOfEncrypt(c, rest, d, sum, k - 1);
      var o := BLOCK_SIZE * (k - 1);
      assert text[BLOCK_SIZE * k..BLOCK_SIZE * k + BLOCK_SIZE] == text[BLOCK_SIZE..][o..o + BLOCK_SIZE];
      assert plain[BLOCK_SIZE * k..BLOCK_SIZE * k + BLOCK_SIZE] == rest[o..o + BLOCK_SIZE];
    }
  }

  /** The part of EncryptIsOcb about the last block and the tag, for a run of blocks from any offset. */
  ghost predicate EndsAsOcb(c: Cipher, plain: seq<bv8>, delta: Block, checksum: Block, r: Tagged, blocks: nat) {
    && BLOCK_SIZE * blocks <= |plain| <= BLOCK_SIZE * blocks + BLOCK_SIZE && |r.text| == |plain|
    && var tail := plain[BLOCK_SIZE * blocks..];
       var pad := Pad(c, Offset(delta, blocks + 1), |tail|);
       && r.text[BLOCK_SIZE * blocks..] == Xor(tail, pad[..|tail|])
       && r.tag == c.encrypt(Xor(Tripled(Offset(delta, blocks + 1)),
                                 Xor(Summed(checksum, plain, blocks), tail + pad[|tail|..])))
  }

  lemma {:induction false} EncryptFromIsOcb(c: Cipher, plain: seq<bv8>, delta: Block, checksum: Block)
    ensures EndsAsOcb(c, plain, delta, checksum, EncryptFrom(c, plain, delta, checksum), LeadingBlocks(|plain|))
    decreases |plain|
  {
    if |plain| > BLOCK_SIZE {
      var rest := plain[BLOCK_SIZE..];
      var sum := Xor(checksum, plain[..BLOCK_SIZE]);
      var r, s := EncryptFrom(c, plain, delta, checksum), EncryptFrom(c, rest, Doubled(delta), sum);
      assert EndsAsOcb(c, rest, Doubled(delta), sum, s, LeadingBlocks(|rest|)) by {
        EncryptFromIsOcb(c, rest, Doubled(delta), sum);
      }
      assert r.text[BLOCK_SIZE..] == s.text && r.tag == s.tag;
      OneBlockMore(c, plain, delta, checksum, r, s, LeadingBlocks(|rest|));
    } else {
      OnlyTail(c, plain, delta, checksum);
    }
  }

  lemma OneBlockMore(c: Cipher, plain: seq<bv8>, delta: Block, checksum: Block, r: Tagged, s: Tagged, blocks: nat)
    requires |plain| > BLOCK_SIZE && |r.text| == |plain| && r.text[BLOCK_SIZE..] == s.text && r.tag == s.tag
    requires EndsAsOcb(c, plain[BLOCK_SIZE..], Doubled(delta), Xor(checksum, plain[..BLOCK_SIZE]), s, blocks)
    ensures EndsAsOcb(c, plain, delta, checksum, r, blocks + 1)
  {
    var o := BLOCK_SIZE * blocks;
    assert plain[BLOCK_SIZE..][o..] == plain[BLOCK_SIZE + o..];
    assert r.text[BLOCK_SIZE..][o..] == r.text[BLOCK_SIZE + o..];
    assert Offset(delta, blocks + 2) == Offset(Doubled(delta), blocks + 1);
  }

  lemma {:induction false} OnlyTail(c: Cipher, plain: seq<bv8>, delta: Block, checksum: Block)
    requires |plain| <= BLOCK_SIZE
    ensures EndsAsOcb(c, plain, delta, checksum, EncryptFrom(c, plain, delta, checksum), 0)
  {
    var r := EncryptFrom(c, plain, delta, checksum);
    var pad := Pad(c, Doubled(delta), |plain|);
    assert Offset(delta, 1) == Doubled(delta);
    assert plain[0..] == plain && r.text[0..] == r.text;
    forall i | 0 <= i < |plain|
      ensures r.text[i] == Xor(plain, pad[..|plain|])[i]
    {
      assert pad[i] ^ plain[i] == plain[i] ^ pad[i];
    }
  }
}
