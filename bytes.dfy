/** Bytes as the Python tools see them: `bytes` objects become sequences of
    integers in 0..255, `struct.pack`/`struct.unpack` with the big-endian
    codes `>H`, `>I` and `>Q` become EncodeBE/DecodeBE over 2, 4 and 8 bytes,
    and `b''.join(...)` becomes Flatten. */
module Bytes {

  type byte = x: int | 0 <= x < 256

  datatype Option<+T> = None | Some(value: T)

  datatype Result<+T, +E> = Success(value: T) | Failure(error: E)

  /** 256^n: the number of values an n-byte unsigned field can hold. */
  function Pow256(n: nat): (p: nat)
    ensures p >= 1
  {
    if n == 0 then 1 else 256 * Pow256(n - 1)
  }

  /** Exclusive upper bounds of struct's `H`, `I` and `Q` fields. */
  const U16_LIMIT: nat := 0x1_0000
  const U32_LIMIT: nat := 0x1_0000_0000
  const U64_LIMIT: nat := 0x1_0000_0000_0000_0000

  lemma Pow256Limits()
    ensures Pow256(2) == U16_LIMIT
    ensures Pow256(3) == 0x100_0000
    ensures Pow256(4) == U32_LIMIT
    ensures Pow256(8) == U64_LIMIT
  {
    assert Pow256(1) == 256;
    assert Pow256(2) == 0x1_0000;
    assert Pow256(3) == 0x100_0000;
    assert Pow256(4) == 0x1_0000_0000;
    assert Pow256(5) == 0x100_0000_0000;
    assert Pow256(6) == 0x1_0000_0000_0000;
    assert Pow256(7) == 0x100_0000_0000_0000;
  }

  /** Big-endian n-byte encoding of v; defined only where struct.pack succeeds. */
  function EncodeBE(v: nat, n: nat): (r: seq<byte>)
    requires v < Pow256(n)
    ensures |r| == n
  {
    if n == 0 then [] else EncodeBE(v / 256, n - 1) + [v % 256]
  }

  /** The value of a big-endian byte string, as struct.unpack reads it. */
  function DecodeBE(s: seq<byte>): (v: nat)
    ensures v < Pow256(|s|)
  {
    if s == [] then 0 else DecodeBE(s[..|s| - 1]) * 256 + s[|s| - 1]
  }

  /** Unpacking what was packed gives the value back. */
  lemma {:induction false} DecodeEncodeBE(v: nat, n: nat)
    requires v < Pow256(n)
    ensures DecodeBE(EncodeBE(v, n)) == v
  {
    if n > 0 {
      var s := EncodeBE(v, n);
      assert s[..n - 1] == EncodeBE(v / 256, n - 1);
      DecodeEncodeBE(v / 256, n - 1);
    }
  }

  /** Packing what was unpacked gives the bytes back: the encoding is a bijection. */
  lemma {:induction false} EncodeDecodeBE(s: seq<byte>)
    ensures EncodeBE(DecodeBE(s), |s|) == s
  {
    if s != [] {
      var n := |s|;
      var v := DecodeBE(s);
      assert v / 256 == DecodeBE(s[..n - 1]) && v % 256 == s[n - 1];
      EncodeDecodeBE(s[..n - 1]);
      assert s == s[..n - 1] + [s[n - 1]];
    }
  }

  /** Two values packed into the same width agree exactly when their bytes agree. */
  lemma EncodeBEInjective(v: nat, w: nat, n: nat)
    requires v < Pow256(n) && w < Pow256(n)
    ensures EncodeBE(v, n) == EncodeBE(w, n) <==> v == w
  {
    DecodeEncodeBE(v, n);
    DecodeEncodeBE(w, n);
  }

  /** Total number of bytes in a list of byte strings. */
  function TotalLength(chunks: seq<seq<byte>>): nat
  {
    if chunks == [] then 0
    else TotalLength(chunks[..|chunks| - 1]) + |chunks[|chunks| - 1]|
  }

  /** `b''.join(chunks)`. */
  function Flatten(chunks: seq<seq<byte>>): (r: seq<byte>)
    ensures |r| == TotalLength(chunks)
  {
    if chunks == [] then [] else Flatten(chunks[..|chunks| - 1]) + chunks[|chunks| - 1]
  }

  /** The join of a prefix is a prefix of the join. */
  lemma {:induction false} FlattenPrefix(chunks: seq<seq<byte>>, k: nat)
    requires k <= |chunks|
    ensures TotalLength(chunks[..k]) <= TotalLength(chunks)
    ensures Flatten(chunks)[..TotalLength(chunks[..k])] == Flatten(chunks[..k])
  {
    if k < |chunks| {
      var n := |chunks|;
      var init := chunks[..n - 1];
      assert init[..k] == chunks[..k];
      FlattenPrefix(init, k);
      assert Flatten(chunks) == Flatten(init) + chunks[n - 1];
    } else {
      assert chunks[..k] == chunks;
    }
  }

  /** Chunk k of a join sits at the total length of the chunks before it. */
  lemma FlattenSlice(chunks: seq<seq<byte>>, k: nat)
    requires k < |chunks|
    ensures TotalLength(chunks[..k]) + |chunks[k]| <= TotalLength(chunks)
    ensures Flatten(chunks)[TotalLength(chunks[..k])..TotalLength(chunks[..k]) + |chunks[k]|] == chunks[k]
  {
    var pre := chunks[..k + 1];
    assert pre[..k] == chunks[..k];
    assert Flatten(pre) == Flatten(chunks[..k]) + chunks[k];
    FlattenPrefix(chunks, k + 1);
  }

  /** Chunks of one fixed width w: chunk k starts at byte w * k. */
  lemma {:induction false} TotalLengthUniform(chunks: seq<seq<byte>>, w: nat, k: nat)
    requires forall i :: 0 <= i < |chunks| ==> |chunks[i]| == w
    requires k <= |chunks|
    ensures TotalLength(chunks[..k]) == w * k
  {
    if k > 0 {
      var pre := chunks[..k];
      assert pre[..k - 1] == chunks[..k - 1];
      TotalLengthUniform(chunks, w, k - 1);
    }
  }

  /** A sequence cut at three points is the concatenation of the four pieces. */
  lemma SplitFour<T>(s: seq<T>, i: nat, j: nat, k: nat)
    requires i <= j <= k <= |s|
    ensures s == s[..i] + s[i..j] + s[j..k] + s[k..]
  {
    assert s[..i] + s[i..j] == s[..j];
    assert s[..j] + s[j..k] == s[..k];
  }
}
