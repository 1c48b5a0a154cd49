/**
 * CBC mode (section 6.2 of NIST SP 800-38A) around an abstract block cipher, as `encrypt` and the
 * decryption inside `decrypt` in app.py. The keyed AES block functions are the parameters
 * `enc` and `dec`; the only thing assumed of them, where it is needed, is that `dec` inverts `enc`.
 */
module Cbc {
  import opened Wrappers
  import opened Padding

  /** One cipher block. */
  type Block = s: seq<byte> | |s| == BlockSize witness seq(BlockSize, _ => 0 as byte)

  function XorBlock(a: Block, b: Block): Block
  {
    seq(BlockSize, i requires 0 <= i < BlockSize => a[i] ^ b[i])
  }

  lemma XorCancel(a: Block, b: Block)
    ensures XorBlock(XorBlock(a, b), b) == a
  {
  }

  lemma XorAssociative(a: Block, b: Block, c: Block)
    ensures XorBlock(a, XorBlock(b, c)) == XorBlock(XorBlock(a, b), c)
  {
    var l, r := XorBlock(a, XorBlock(b, c)), XorBlock(XorBlock(a, b), c);
    assert forall i :: 0 <= i < BlockSize ==> l[i] == r[i];
  }

  /** The single property of the block cipher the model relies on: decryption inverts encryption. */
  ghost predicate Inverts(enc: Block -> Block, dec: Block -> Block)
  {
    forall x :: dec(enc(x)) == x
  }

  /** C(i-1) in the standard's notation: the initialisation vector for the first block. */
  function Chained(iv: Block, cs: seq<Block>, i: nat): Block
    requires i <= |cs|
  {
    if i == 0 then iv else cs[i - 1]
  }

  /** CBC encryption of whole blocks: C(i) = E(P(i) xor C(i-1)), C(-1) = IV. */
  function CbcEncrypt(enc: Block -> Block, iv: Block, ps: seq<Block>): (cs: seq<Block>)
    ensures |cs| == |ps|
    ensures forall i :: 0 <= i < |ps| ==> cs[i] == enc(XorBlock(ps[i], Chained(iv, cs, i)))
    decreases |ps|
  {
    if |ps| == 0 then []
    else
      var c0 := enc(XorBlock(ps[0], iv));
      [c0] + CbcEncrypt(enc, c0, ps[1..])
  }

  /** CBC decryption of whole blocks: P(i) = D(C(i)) xor C(i-1), C(-1) = IV. */
  function CbcDecrypt(dec: Block -> Block, iv: Block, cs: seq<Block>): (ps: seq<Block>)
    ensures |ps| == |cs|
    ensures forall i :: 0 <= i < |cs| ==> ps[i] == XorBlock(dec(cs[i]), Chained(iv, cs, i))
    decreases |cs|
  {
    if |cs| == 0 then []
    else [XorBlock(dec(cs[0]), iv)] + CbcDecrypt(dec, cs[0], cs[1..])
  }

  /** Decrypting the chain with the same IV gives back the plaintext blocks. */
  lemma CbcRoundTrip(enc: Block -> Block, dec: Block -> Block, iv: Block, ps: seq<Block>)
    requires Inverts(enc, dec)
    ensures CbcDecrypt(dec, iv, CbcEncrypt(enc, iv, ps)) == ps
  {
    var cs := CbcEncrypt(enc, iv, ps);
    var qs := CbcDecrypt(dec, iv, cs);
    forall i | 0 <= i < |ps| ensures qs[i] == ps[i] {
      XorCancel(ps[i], Chained(iv, cs, i));
    }
  }

  /** The bytes of a block list, in order. */
  function Flatten(bs: seq<Block>): (s: seq<byte>)
    ensures |s| == BlockSize * |bs|
  {
    if |bs| == 0 then [] else bs[0] + Flatten(bs[1..])
  }

  /** Splits block-aligned bytes into blocks; `Flatten` joins them again. */
  function ToBlocks(s: seq<byte>): (bs: seq<Block>)
    requires |s| % BlockSize == 0
    ensures BlockSize * |bs| == |s|
    ensures Flatten(bs) == s
    decreases |s|
  {
    if |s| == 0 then []
    else
      var b0: Block := s[..BlockSize];
      var bs := [b0] + ToBlocks(s[BlockSize..]);
      assert bs[1..] == ToBlocks(s[BlockSize..]);
      bs
  }

  lemma {:induction false} ToBlocksFlatten(bs: seq<Block>)
    ensures ToBlocks(Flatten(bs)) == bs
  {
    if |bs| > 0 {
      var s := Flatten(bs);
      assert s[..BlockSize] == bs[0];
      assert s[BlockSize..] == Flatten(bs[1..]);
      ToBlocksFlatten(bs[1..]);
    }
  }

  /** The last `BlockSize` bytes of a flattened non-empty block list are its last block. */
  lemma {:induction false} FlattenLast(bs: seq<Block>)
    requires |bs| > 0
    ensures Flatten(bs)[|Flatten(bs)| - BlockSize..] == bs[|bs| - 1]
  {
    if |bs| > 1 {
      FlattenLast(bs[1..]);
      assert bs[1..][|bs| - 2] == bs[|bs| - 1];
    }
  }

  /** Whether bytes are well padded depends only on their last block: the padding never exceeds one block. */
  lemma WellPaddedLastBlock(s: seq<byte>)
    requires |s| >= BlockSize
    ensures WellPadded(s) <==> WellPadded(s[|s| - BlockSize..])
  {
  }

  /** The pair `encrypt` returns. */
  datatype Envelope = Envelope(iv: Block, ct: seq<byte>)

  /** `encrypt`: pads the plaintext and CBC-encrypts it under the given IV (drawn at random in the source). */
  function Encrypt(enc: Block -> Block, iv: Block, plaintext: seq<byte>): (e: Envelope)
    ensures e.iv == iv
    ensures |e.ct| == |Pad(plaintext)|
    ensures |e.ct| > 0 && |e.ct| % BlockSize == 0
    ensures ToBlocks(e.ct) == CbcEncrypt(enc, iv, ToBlocks(Pad(plaintext)))
  {
    var cs := CbcEncrypt(enc, iv, ToBlocks(Pad(plaintext)));
    ToBlocksFlatten(cs);
    Envelope(iv, Flatten(cs))
  }

  /** The CBC decryption of block-aligned ciphertext, as bytes. */
  function DecryptBytes(dec: Block -> Block, iv: Block, ct: seq<byte>): (p: seq<byte>)
    requires |ct| % BlockSize == 0
    ensures |p| == |ct|
    ensures ToBlocks(p) == CbcDecrypt(dec, iv, ToBlocks(ct))
  {
    var ps := CbcDecrypt(dec, iv, ToBlocks(ct));
    ToBlocksFlatten(ps);
    Flatten(ps)
  }

  /** The last plaintext block of a non-empty aligned ciphertext: D(C(n-1)) xor C(n-2). */
  function LastPlainBlock(dec: Block -> Block, iv: Block, ct: seq<byte>): Block
    requires |ct| % BlockSize == 0 && |ct| > 0
  {
    var cs := ToBlocks(ct);
    XorBlock(dec(cs[|cs| - 1]), Chained(iv, cs, |cs| - 1))
  }

  /** The padding verdict on the decryption of a ciphertext is the verdict on its last plaintext block,
      which only the last ciphertext block and the one before it (or the IV) determine. */
  lemma VerdictFromLastBlock(dec: Block -> Block, iv: Block, ct: seq<byte>)
    requires |ct| % BlockSize == 0 && |ct| > 0
    ensures WellPadded(DecryptBytes(dec, iv, ct)) <==> WellPadded(LastPlainBlock(dec, iv, ct))
  {
    var cs := ToBlocks(ct);
    var ps := CbcDecrypt(dec, iv, cs);
    assert ps[|cs| - 1] == LastPlainBlock(dec, iv, ct);
    var s := Flatten(ps);
    FlattenLast(ps);
    assert s[|s| - BlockSize..] == LastPlainBlock(dec, iv, ct);
    WellPaddedLastBlock(s);
  }

  /** CBC is malleable: xoring `delta` into the IV of a one-block ciphertext xors `delta` into the
      decrypted block, which is how a forged IV steers the padding verdict byte by byte. */
  lemma IvMalleable(dec: Block -> Block, iv: Block, delta: Block, ct: seq<byte>)
    requires |ct| == BlockSize
    ensures LastPlainBlock(dec, XorBlock(iv, delta), ct) == XorBlock(LastPlainBlock(dec, iv, ct), delta)
  {
  }

  /** The attacker's forgery: `ct` with its block `j` xored with `delta`, every other block unchanged. */
  function XorIntoBlock(ct: seq<byte>, j: nat, delta: Block): (t: seq<byte>)
    requires |ct| % BlockSize == 0 && j < |ToBlocks(ct)|
    ensures |t| == |ct|
    ensures ToBlocks(t) == ToBlocks(ct)[j := XorBlock(ToBlocks(ct)[j], delta)]
  {
    var cs := ToBlocks(ct)[j := XorBlock(ToBlocks(ct)[j], delta)];
    ToBlocksFlatten(cs);
    Flatten(cs)
  }

  /** CBC is malleable through the block before the last: xoring `delta` into C(n-2) xors `delta` into
      the last decrypted block. With `IvMalleable` this covers ciphertexts of every length. */
  lemma PreviousBlockMalleable(dec: Block -> Block, iv: Block, delta: Block, ct: seq<byte>)
    requires |ct| % BlockSize == 0 && |ToBlocks(ct)| >= 2
    ensures var t := XorIntoBlock(ct, |ToBlocks(ct)| - 2, delta);
            |t| > 0 && LastPlainBlock(dec, iv, t) == XorBlock(LastPlainBlock(dec, iv, ct), delta)
  {
    var cs := ToBlocks(ct);
    var n := |cs|;
    var t := XorIntoBlock(ct, n - 2, delta);
    var x := dec(cs[n - 1]);
    assert ToBlocks(t)[n - 1] == cs[n - 1];
    assert LastPlainBlock(dec, iv, t) == XorBlock(x, XorBlock(cs[n - 2], delta));
    XorAssociative(x, cs[n - 2], delta);
  }

  /** The CBC decryption followed by `unpad` inside `decrypt`: `None` is the `ValueError` of `unpad`.
      What succeeds is the decryption with 1 to `BlockSize` padding bytes removed. */
  function Decrypt(dec: Block -> Block, iv: Block, ct: seq<byte>): (r: Option<seq<byte>>)
    requires |ct| % BlockSize == 0
    ensures r.Some? ==> |ct| - BlockSize <= |r.value| < |ct|
    ensures r.Some? ==> r.value == DecryptBytes(dec, iv, ct)[..|r.value|]
  {
    Unpad(DecryptBytes(dec, iv, ct))
  }

  /** The padding oracle: decryption of an empty ciphertext never unpads, and otherwise it unpads exactly
      when the last plaintext block, computed from the last two ciphertext blocks (or the IV), is well
      padded. */
  lemma DecryptVerdict(dec: Block -> Block, iv: Block, ct: seq<byte>)
    requires |ct| % BlockSize == 0
    ensures |ct| == 0 ==> Decrypt(dec, iv, ct).None?
    ensures |ct| > 0 ==> (Decrypt(dec, iv, ct).Some? <==> WellPadded(LastPlainBlock(dec, iv, ct)))
  {
    if |ct| > 0 {
      VerdictFromLastBlock(dec, iv, ct);
    }
  }

  /** Decrypting what `encrypt` produced, with the same IV, gives the padded plaintext. */
  lemma DecryptEncryptPadded(enc: Block -> Block, dec: Block -> Block, iv: Block, m: seq<byte>)
    requires Inverts(enc, dec)
    ensures DecryptBytes(dec, iv, Encrypt(enc, iv, m).ct) == Pad(m)
  {
    CbcRoundTrip(enc, dec, iv, ToBlocks(Pad(m)));
  }

  /** The full round trip: decrypting and unpadding what `encrypt` produced recovers the message. */
  lemma DecryptEncrypt(enc: Block -> Block, dec: Block -> Block, iv: Block, m: seq<byte>)
    requires Inverts(enc, dec)
    ensures Decrypt(dec, iv, Encrypt(enc, iv, m).ct) == Some(m)
  {
    DecryptEncryptPadded(enc, dec, iv, m);
    UnpadPad(m);
  }
}
