/** The two OCB loops of src/crypt.c, in place on byte buffers, against the functions of Ocb. */
module OcbLoops {
  import opened Blocks
  import opened Ocb

  /** `now` is `was` with `part` written at `at`. */
  ghost predicate Written(now: seq<bv8>, was: seq<bv8>, at: nat, part: seq<bv8>)
    requires at + |part| <= |was|
  {
    && |now| == |was|
    && forall k {:trigger now[k]} :: 0 <= k < |was| ==> now[k] == if at <= k < at + |part| then part[k - at] else was[k]
  }

  lemma WrittenIsThere(now: seq<bv8>, was: seq<bv8>, at: nat, part: seq<bv8>)
    requires at + |part| <= |was| && Written(now, was, at, part)
    ensures now[at..at + |part|] == part
  {}

  /** XOR of two blocks into memory. */
  method XorInto(dst: array<bv8>, at: nat, a: Block, b: Block)
    requires at + BLOCK_SIZE <= dst.Length
    modifies dst
    ensures Written(dst[..], old(dst[..]), at, Xor(a, b))
  {
    for i := 0 to BLOCK_SIZE
      invariant forall j :: 0 <= j < dst.Length ==>
        dst[j] == if at <= j < at + i then a[j - at] ^ b[j - at] else old(dst[j])
    {
      dst[at + i] := a[i] ^ b[i];
    }
  }

  /** memcpy. */
  method CopyInto(dst: array<bv8>, at: nat, s: seq<bv8>)
    requires at + |s| <= dst.Length
    modifies dst
    ensures Written(dst[..], old(dst[..]), at, s)
  {
    for i := 0 to |s|
      invariant forall j :: 0 <= j < dst.Length ==>
        dst[j] == if at <= j < at + i then s[j - at] else old(dst[j])
    {
      dst[at + i] := s[i];
    }
  }

  /** XOR(dst, a, b) on a local block. */
  method XorBlock(dst: array<bv8>, a: Block, b: Block)
    requires dst.Length == BLOCK_SIZE
    modifies dst
    ensures dst[..] == Xor(a, b)
  {
    XorInto(dst, 0, a, b);
  }

  /** A block-sized copy into a local block. */
  method SetBlock(dst: array<bv8>, s: Block)
    requires dst.Length == BLOCK_SIZE
    modifies dst
    ensures dst[..] == s
  {
    CopyInto(dst, 0, s);
  }

  /** A local subblock array that starts out holding `s`. */
  method NewBlock(s: Block) returns (block: array<bv8>)
    ensures fresh(block) && block.Length == BLOCK_SIZE && block[..] == s
  {
    block := new bv8[BLOCK_SIZE];
    SetBlock(block, s);
  }

  /** The written part grows by the next piece. */
  lemma WrittenMore(before: seq<bv8>, now: seq<bv8>, was: seq<bv8>, at: nat, part: seq<bv8>, i: nat, j: nat)
    requires i <= j <= |part| && at + |part| <= |was|
    requires Written(before, was, at, part[..i]) && Written(now, before, at + i, part[i..j])
    ensures Written(now, was, at, part[..j])
  {}

  /** The body of the encryption loop: one whole block. */
  method EncryptBlock(c: Cipher, block: Block, dst: array<bv8>, to: nat, delta: array<bv8>, checksum: array<bv8>)
    requires to + BLOCK_SIZE <= dst.Length
    requires delta.Length == BLOCK_SIZE && checksum.Length == BLOCK_SIZE
    requires dst != delta && dst != checksum && delta != checksum
    modifies dst, delta, checksum
    ensures delta[..] == Doubled(old(delta[..]))
    ensures Written(dst[..], old(dst[..]), to, Xor(delta[..], c.encrypt(Xor(delta[..], block))))
    ensures checksum[..] == Xor(old(checksum[..]), block)
  {
    S2Wide(delta);
    var tmp := NewBlock(Xor(delta[..], block));
    SetBlock(tmp, c.encrypt(tmp[..]));
    XorInto(dst, to, delta[..], tmp[..]);
    XorBlock(checksum, checksum[..], block);
  }

  /** What follows the encryption loop: the last block, and the tag. */
  method EncryptLast(c: Cipher, last: seq<bv8>, dst: array<bv8>, to: nat,
                     delta: array<bv8>, checksum: array<bv8>, ghost r: Tagged) returns (tag: Block)
    requires |last| <= BLOCK_SIZE && to + |last| <= dst.Length
    requires delta.Length == BLOCK_SIZE && checksum.Length == BLOCK_SIZE
    requires dst != delta && dst != checksum && delta != checksum
    requires r == EncryptFrom(c, last, delta[..], checksum[..])
    modifies dst, delta, checksum
    ensures Written(dst[..], old(dst[..]), to, r.text) && tag == r.tag
  {
    S2Wide(delta);
    var left := |last|;
    var tmp := NewBlock(LengthBlock(left));
    XorBlock(tmp, tmp[..], delta[..]);
    var pad := NewBlock(c.encrypt(tmp[..]));
    CopyInto(tmp, 0, last);
    ghost var half := tmp[..];
    CopyInto(tmp, left, pad[left..]);
    assert tmp[..] == half[..left] + pad[left..];
    assert tmp[..] == last + pad[left..];
    XorBlock(checksum, checksum[..], tmp[..]);
    XorBlock(tmp, pad[..], tmp[..]);
    CopyInto(dst, to, tmp[..left]);
    S3Wide(delta);
    XorBlock(tmp, delta[..], checksum[..]);
    tag := c.encrypt(tmp[..]);
  }

  /** One turn of the encryption loop, kept in step with the whole result. */
  method EncryptNext(c: Cipher, src: seq<bv8>, dst: array<bv8>, at: nat, delta: array<bv8>, checksum: array<bv8>,
                     i: nat, ghost whole: Tagged)
    requires i + BLOCK_SIZE < |src| && at + |src| <= dst.Length
    requires delta.Length == BLOCK_SIZE && checksum.Length == BLOCK_SIZE
    requires dst != delta && dst != checksum && delta != checksum
    requires EncryptRemains(c, src, i, delta[..], checksum[..], whole)
    modifies dst, delta, checksum
    ensures EncryptRemains(c, src, i + BLOCK_SIZE, delta[..], checksum[..], whole)
    ensures Written(dst[..], old(dst[..]), at + i, whole.text[i..i + BLOCK_SIZE])
  {
    ghost var d, block := Doubled(delta[..]), src[i..i + BLOCK_SIZE];
    ghost var piece := Xor(d, c.encrypt(Xor(d, block)));
    EncryptTurn(c, src, i, delta[..], checksum[..], whole);
    assert whole.text[i..i + BLOCK_SIZE] == piece;
    EncryptBlock(c, src[i..i + BLOCK_SIZE], dst, at + i, delta, checksum);
  }

  /** The encryption loop: every block but the last. */
  method EncryptLeading(c: Cipher, src: seq<bv8>, dst: array<bv8>, at: nat, delta: array<bv8>, checksum: array<bv8>,
                        ghost whole: Tagged) returns (i: nat)
    requires at + |src| <= dst.Length && delta.Length == BLOCK_SIZE && checksum.Length == BLOCK_SIZE
    requires dst != delta && dst != checksum && delta != checksum
    requires EncryptRemains(c, src, 0, delta[..], checksum[..], whole)
    modifies dst, delta, checksum
    ensures i <= |src| <= i + BLOCK_SIZE
    ensures EncryptRemains(c, src, i, delta[..], checksum[..], whole)
    ensures Written(dst[..], old(dst[..]), at, whole.text[..i])
  {
    i := 0;
    while |src| - i > BLOCK_SIZE
      invariant i <= |src|
      invariant EncryptRemains(c, src, i, delta[..], checksum[..], whole)
      invariant Written(dst[..], old(dst[..]), at, whole.text[..i])
    {
      ghost var before := dst[..];
      EncryptNext(c, src, dst, at, delta, checksum, i, whole);
      WrittenMore(before, dst[..], old(dst[..]), at, whole.text, i, i + BLOCK_SIZE);
      i := i + BLOCK_SIZE;
    }
  }

  /** CryptState_ocb_encrypt. */
  method OcbEncrypt(c: Cipher, src: seq<bv8>, dst: array<bv8>, at: nat, nonce: Block) returns (tag: Block)
    requires at + |src| <= dst.Length
    modifies dst
    ensures Written(dst[..], old(dst[..]), at, Encrypt(c, nonce, src).text)
    ensures tag == Encrypt(c, nonce, src).tag
  {
    ghost var whole := Encrypt(c, nonce, src);
    var delta := NewBlock(c.encrypt(nonce));
    var checksum := NewBlock(Zero());
    EncryptStart(c, nonce, src);
    var i := EncryptLeading(c, src, dst, at, delta, checksum, whole);
    ghost var before, r := dst[..], EncryptFrom(c, src[i..], delta[..], checksum[..]);
    assert r.text == whole.text[i..] == whole.text[i..|src|] && r.tag == whole.tag;
    tag := EncryptLast(c, src[i..], dst, at + i, delta, checksum, r);
    WrittenMore(before, dst[..], old(dst[..]), at, whole.text, i, |src|);
    assert whole.text[..|src|] == whole.text;
  }

  /** The body of the decryption loop: one whole block. */
  method DecryptBlock(c: Cipher, block: Block, dst: array<bv8>, to: nat, delta: array<bv8>, checksum: array<bv8>)
    requires to + BLOCK_SIZE <= dst.Length
    requires delta.Length == BLOCK_SIZE && checksum.Length == BLOCK_SIZE
    requires dst != delta && dst != checksum && delta != checksum
    modifies dst, delta, checksum
    ensures delta[..] == Doubled(old(delta[..]))
    ensures Written(dst[..], old(dst[..]), to, Xor(delta[..], c.decrypt(Xor(delta[..], block))))
    ensures checksum[..] == Xor(old(checksum[..]), Xor(delta[..], c.decrypt(Xor(delta[..], block))))
  {
    S2Wide(delta);
    var tmp := NewBlock(Xor(delta[..], block));
    SetBlock(tmp, c.decrypt(tmp[..]));
    XorInto(dst, to, delta[..], tmp[..]);
    assert dst[to..to + BLOCK_SIZE] == Xor(delta[..], tmp[..]);
    XorBlock(checksum, checksum[..], dst[to..to + BLOCK_SIZE]);
  }

  /** What follows the decryption loop: the last block, and the tag. */
  method DecryptLast(c: Cipher, last: seq<bv8>, dst: array<bv8>, to: nat,
                     delta: array<bv8>, checksum: array<bv8>, ghost r: Tagged) returns (tag: Block)
    requires |last| <= BLOCK_SIZE && to + |last| <= dst.Length
    requires delta.Length == BLOCK_SIZE && checksum.Length == BLOCK_SIZE
    requires dst != delta && dst != checksum && delta != checksum
    requires r == DecryptFrom(c, last, delta[..], checksum[..])
    modifies dst, delta, checksum
    ensures Written(dst[..], old(dst[..]), to, r.text) && tag == r.tag
  {
    S2Wide(delta);
    var left := |last|;
    var tmp := NewBlock(LengthBlock(left));
    XorBlock(tmp, tmp[..], delta[..]);
    var pad := NewBlock(c.encrypt(tmp[..]));
    SetBlock(tmp, Zero());
    CopyInto(tmp, 0, last);
    assert tmp[..] == last + Zero()[left..];
    XorBlock(tmp, tmp[..], pad[..]);
    XorBlock(checksum, checksum[..], tmp[..]);
    CopyInto(dst, to, tmp[..left]);
    S3Wide(delta);
    XorBlock(tmp, delta[..], checksum[..]);
    tag := c.encrypt(tmp[..]);
  }

  /** One turn of the decryption loop, kept in step with the whole result. */
  method DecryptNext(c: Cipher, src: seq<bv8>, dst: array<bv8>, at: nat, delta: array<bv8>, checksum: array<bv8>,
                     i: nat, ghost whole: Tagged)
    requires i + BLOCK_SIZE < |src| && at + |src| <= dst.Length
    requires delta.Length == BLOCK_SIZE && checksum.Length == BLOCK_SIZE
    requires dst != delta && dst != checksum && delta != checksum
    requires DecryptRemains(c, src, i, delta[..], checksum[..], whole)
    modifies dst, delta, checksum
    ensures DecryptRemains(c, src, i + BLOCK_SIZE, delta[..], checksum[..], whole)
    ensures Written(dst[..], old(dst[..]), at + i, whole.text[i..i + BLOCK_SIZE])
  {
    ghost var d, block := Doubled(delta[..]), src[i..i + BLOCK_SIZE];
    ghost var piece := Xor(d, c.decrypt(Xor(d, block)));
    DecryptTurn(c, src, i, delta[..], checksum[..], whole);
    assert whole.text[i..i + BLOCK_SIZE] == piece;
    DecryptBlock(c, src[i..i + BLOCK_SIZE], dst, at + i, delta, checksum);
  }

  /** The decryption loop: every block but the last. */
  method DecryptLeading(c: Cipher, src: seq<bv8>, dst: array<bv8>, at: nat, delta: array<bv8>, checksum: array<bv8>,
                        ghost whole: Tagged) returns (i: nat)
    requires at + |src| <= dst.Length && delta.Length == BLOCK_SIZE && checksum.Length == BLOCK_SIZE
    requires dst != delta && dst != checksum && delta != checksum
    requires DecryptRemains(c, src, 0, delta[..], checksum[..], whole)
    modifies dst, delta, checksum
    ensures i <= |src| <= i + BLOCK_SIZE
    ensures DecryptRemains(c, src, i, delta[..], checksum[..], whole)
    ensures Written(dst[..], old(dst[..]), at, whole.text[..i])
  {
    i := 0;
    while |src| - i > BLOCK_SIZE
      invariant i <= |src|
      invariant DecryptRemains(c, src, i, delta[..], checksum[..], whole)
      invariant Written(dst[..], old(dst[..]), at, whole.text[..i])
    {
      ghost var before := dst[..];
      DecryptNext(c, src, dst, at, delta, checksum, i, whole);
      WrittenMore(before, dst[..], old(dst[..]), at, whole.text, i, i + BLOCK_SIZE);
      i := i + BLOCK_SIZE;
    }
  }

  /** CryptState_ocb_decrypt. */
  method OcbDecrypt(c: Cipher, src: seq<bv8>, dst: array<bv8>, at: nat, nonce: Block) returns (tag: Block)
    requires at + |src| <= dst.Length
    modifies dst
    ensures Written(dst[..], old(dst[..]), at, Decrypt(c, nonce, src).text)
    ensures tag == Decrypt(c, nonce, src).tag
  {
    ghost var whole := Decrypt(c, nonce, src);
    var delta := NewBlock(c.encrypt(nonce));
    var checksum := NewBlock(Zero());
    DecryptStart(c, nonce, src);
    var i := DecryptLeading(c, src, dst, at, delta, checksum, whole);
    ghost var before, r := dst[..], DecryptFrom(c, src[i..], delta[..], checksum[..]);
    assert r.text == whole.text[i..] == whole.text[i..|src|] && r.tag == whole.tag;
    tag := DecryptLast(c, src[i..], dst, at + i, delta, checksum, r);
    WrittenMore(before, dst[..], old(dst[..]), at, whole.text, i, |src|);
    assert whole.text[..|src|] == whole.text;
  }

  /** What is left of the whole result is the result on what is left. */
  ghost predicate EncryptRemains(c: Cipher, plain: seq<bv8>, i: nat, delta: Block, checksum: Block, whole: Tagged) {
    && |whole.text| == |plain| && i <= |plain|
    && whole.text[i..] == EncryptFrom(c, plain[i..], delta, checksum).text
    && whole.tag == EncryptFrom(c, plain[i..], delta, checksum).tag
  }

  lemma EncryptStart(c: Cipher, nonce: Block, plain: seq<bv8>)
    ensures EncryptRemains(c, plain, 0, c.encrypt(nonce), Zero(), Encrypt(c, nonce, plain))
  {
    var whole := Encrypt(c, nonce, plain);
    assert plain[0..] == plain && whole.text[0..] == whole.text;
  }

  /** One turn of the encryption loop, on the specification. */
  lemma EncryptTurn(c: Cipher, plain: seq<bv8>, i: nat, delta: Block, checksum: Block, whole: Tagged)
    requires i + BLOCK_SIZE < |plain| && EncryptRemains(c, plain, i, delta, checksum, whole)
    ensures var d := Doubled(delta);
      var block := plain[i..i + BLOCK_SIZE];
      && whole.text[i..i + BLOCK_SIZE] == Xor(d, c.encrypt(Xor(d, block)))
      && EncryptRemains(c, plain, i + BLOCK_SIZE, d, Xor(checksum, block), whole)
  {
    assert plain[i..][..BLOCK_SIZE] == plain[i..i + BLOCK_SIZE] && plain[i..][BLOCK_SIZE..] == plain[i + BLOCK_SIZE..];
    AdvanceText(whole.text, i);
  }

  /** What is left of the whole result is the result on what is left. */
  ghost predicate DecryptRemains(c: Cipher, text: seq<bv8>, i: nat, delta: Block, checksum: Block, whole: Tagged) {
    && |whole.text| == |text| && i <= |text|
    && whole.text[i..] == DecryptFrom(c, text[i..], delta, checksum).text
    && whole.tag == DecryptFrom(c, text[i..], delta, checksum).tag
  }

  lemma DecryptStart(c: Cipher, nonce: Block, text: seq<bv8>)
    ensures DecryptRemains(c, text, 0, c.encrypt(nonce), Zero(), Decrypt(c, nonce, text))
  {
    var whole := Decrypt(c, nonce, text);
    assert text[0..] == text && whole.text[0..] == whole.text;
  }

  /** One turn of the decryption loop, on the specification. */
  lemma DecryptTurn(c: Cipher, text: seq<bv8>, i: nat, delta: Block, checksum: Block, whole: Tagged)
    requires i + BLOCK_SIZE < |text| && DecryptRemains(c, text, i, delta, checksum, whole)
    ensures var d := Doubled(delta);
      var block := Xor(d, c.decrypt(Xor(d, text[i..i + BLOCK_SIZE])));
      && whole.text[i..i + BLOCK_SIZE] == block
      && DecryptRemains(c, text, i + BLOCK_SIZE, d, Xor(checksum, block), whole)
  {
    assert text[i..][..BLOCK_SIZE] == text[i..i + BLOCK_SIZE] && text[i..][BLOCK_SIZE..] == text[i + BLOCK_SIZE..];
    AdvanceText(whole.text, i);
  }

  lemma AdvanceText(whole: seq<bv8>, i: nat)
    requires i + BLOCK_SIZE <= |whole|
    ensures whole[i..][..BLOCK_SIZE] == whole[i..i + BLOCK_SIZE]
    ensures whole[i..][BLOCK_SIZE..] == whole[i + BLOCK_SIZE..]
  {}
}
