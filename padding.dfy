/**
 * PKCS#7 block padding (section 6.3 of RFC 5652) with the AES block size,
 * as `pad` and `unpad` in app.py.
 */
module Padding {
  import opened Wrappers

  /** One element of a Python `bytes` value. */
  type byte = bv8

  /** `BLOCK_SIZE`: the AES block size in bytes. */
  const BlockSize: nat := 16

  /** `s` ends in `k` bytes each equal to `k`, and `k` is a legal padding length. */
  ghost predicate EndsWithPadding(s: seq<byte>, k: int)
  {
    1 <= k <= BlockSize && k <= |s| &&
    forall i :: |s| - k <= i < |s| ==> s[i] as int == k
  }

  /** The padding rule: the last byte names a legal padding length and the padding is present in full. */
  ghost predicate WellPadded(s: seq<byte>)
  {
    |s| > 0 && EndsWithPadding(s, s[|s| - 1] as int)
  }

  /** `bytes([k] * k)`. */
  function Filler(k: nat): seq<byte>
    requires k < 256
  {
    seq(k, _ => k as byte)
  }

  /** Python's `s[-k:]` for `k >= 1`: the last `k` elements, or all of `s` when it is shorter. */
  function PyTail(s: seq<byte>, k: nat): seq<byte>
    requires k >= 1
  {
    if k <= |s| then s[|s| - k..] else s
  }

  /** Python's `s[:-k]` for `k >= 1`: all but the last `k` elements, or nothing when `s` is shorter. */
  function PyDropTail(s: seq<byte>, k: nat): seq<byte>
    requires k >= 1
  {
    if k <= |s| then s[..|s| - k] else []
  }

  /** The arithmetic of `pad_len`: between 1 and `BlockSize`, and it completes the last block. */
  lemma PadLength(n: nat)
    ensures 1 <= BlockSize - n % BlockSize <= BlockSize
    ensures (n + (BlockSize - n % BlockSize)) % BlockSize == 0
  {
    assert n == BlockSize * (n / BlockSize) + n % BlockSize;
    assert n + (BlockSize - n % BlockSize) == BlockSize * (n / BlockSize + 1);
  }

  /** At most one length in 1..BlockSize completes a given length to a block boundary. */
  lemma SameCompletion(n: nat, a: int, b: int)
    requires 1 <= a <= BlockSize && 1 <= b <= BlockSize
    requires (n + a) % BlockSize == 0 && (n + b) % BlockSize == 0
    ensures a == b
  {
    assert n + a == BlockSize * ((n + a) / BlockSize);
    assert n + b == BlockSize * ((n + b) / BlockSize);
  }

  /** `pad`: appends between 1 and `BlockSize` bytes, each equal to the number appended. */
  function Pad(data: seq<byte>): (r: seq<byte>)
    ensures |r| % BlockSize == 0
    ensures |data| < |r| <= |data| + BlockSize
    ensures r[..|data|] == data
    ensures EndsWithPadding(r, |r| - |data|)
  {
    var padLen := BlockSize - |data| % BlockSize;
    PadLength(|data|);
    data + Filler(padLen)
  }

  /** `unpad`: `None` stands for the `ValueError("Invalid padding")` it raises. */
  function Unpad(data: seq<byte>): (r: Option<seq<byte>>)
    ensures r.Some? <==> WellPadded(data)
    ensures r.Some? ==>
              var k := data[|data| - 1] as int;
              1 <= k <= BlockSize && r.value == data[..|data| - k]
  {
    if |data| == 0 then None
    else
      var padLen := data[|data| - 1] as int;
      if padLen < 1 || padLen > BlockSize then None
      else if PyTail(data, padLen) != Filler(padLen) then None
      else Some(PyDropTail(data, padLen))
  }

  /** `unpad` fails exactly on an empty input, a last byte `k` outside 1..16, an input shorter than `k`,
      or one of the last `k` bytes differing from `k`. */
  lemma UnpadFails(data: seq<byte>)
    ensures Unpad(data).None? <==>
              || |data| == 0
              || data[|data| - 1] == 0
              || data[|data| - 1] as int > BlockSize
              || |data| < data[|data| - 1] as int
              || exists i :: |data| - data[|data| - 1] as int <= i < |data| && data[i] != data[|data| - 1]
  {
  }

  /** Unpadding undoes padding, for every byte string. */
  lemma UnpadPad(data: seq<byte>)
    ensures Unpad(Pad(data)) == Some(data)
  {
  }

  /** On block-aligned input, padding the unpadded bytes gives the input back: `Pad` and `Unpad` are
      inverse bijections between all byte strings and the well-padded aligned ones. */
  lemma PadUnpad(s: seq<byte>)
    requires |s| % BlockSize == 0
    requires Unpad(s).Some?
    ensures Pad(Unpad(s).value) == s
  {
    var k := s[|s| - 1] as int;
    var d := Unpad(s).value;
    assert |d| + k == |s|;
    PadLength(|d|);
    SameCompletion(|d|, k, BlockSize - |d| % BlockSize);
    assert s[|d|..] == Filler(k);
    assert s == d + s[|d|..];
  }
}
