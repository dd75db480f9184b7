/** Integer widths, byte strings, big-endian numbers and the growable output buffer shared by all modules. */
module Common {

  datatype Option<+T> = None | Some(value: T)

  const U32_SIZE := 0x1_0000_0000
  const U64_SIZE := 0x1_0000_0000_0000_0000

  type Byte = b: int | 0 <= b < 256
  type Bytes = seq<Byte>

  /** A frame as a transport may deliver it: codecs count positions in 32 bits. */
  type Frame = f: Bytes | |f| < U32_SIZE

  /** `RequestId(NonZeroU64)`. */
  type RequestId = n: int | 0 < n < U64_SIZE witness 1

  /** A `Range<u32>` into a frame. */
  datatype Range = Range(begin: nat, end: nat) {
    predicate Within(frame: Bytes) {
      begin <= end <= |frame|
    }

    function Of(frame: Bytes): Bytes
      requires Within(frame)
    {
      frame[begin..end]
    }
  }

  lemma SliceMiddle(pre: Bytes, x: Bytes, post: Bytes)
    ensures (pre + x + post)[|pre|..|pre| + |x|] == x
  {
  }

  /** The truncating cast `as u32`. */
  function AsU32(n: nat): nat {
    n % U32_SIZE
  }

  lemma AsU32Fits(n: nat)
    requires n < U32_SIZE
    ensures AsU32(n) == n
  {
  }

  function Pow256(k: nat): nat {
    if k == 0 then 1 else 256 * Pow256(k - 1)
  }

  /** The `k`-byte big-endian form of `n`. */
  function ToBigEndian(n: nat, k: nat): (s: Bytes)
    ensures |s| == k
  {
    if k == 0 then [] else ToBigEndian(n / 256, k - 1) + [n % 256]
  }

  function FromBigEndian(s: Bytes): (n: nat)
    ensures n < Pow256(|s|)
  {
    if s == [] then 0 else 256 * FromBigEndian(s[..|s| - 1]) + s[|s| - 1]
  }

  /** The high part of a number that fits into one byte more. */
  lemma HighPartFits(n: nat, bound: nat)
    requires n < 256 * bound
    ensures n / 256 < bound
  {
  }

  lemma {:induction false} BigEndianRoundTrip(n: nat, k: nat)
    requires n < Pow256(k)
    ensures FromBigEndian(ToBigEndian(n, k)) == n
  {
    if k == 0 {
    } else {
      var high := ToBigEndian(n / 256, k - 1);
      HighPartFits(n, Pow256(k - 1));
      BigEndianRoundTrip(n / 256, k - 1);
      FromBigEndianSnoc(high, n % 256);
    }
  }

  lemma FromBigEndianSnoc(high: Bytes, low: Byte)
    ensures FromBigEndian(high + [low]) == 256 * FromBigEndian(high) + low
  {
    assert (high + [low])[..|high|] == high;
  }

  lemma DivMod256(x: nat, b: Byte)
    ensures (256 * x + b) / 256 == x && (256 * x + b) % 256 == b
  {
  }

  lemma {:induction false} BigEndianUnique(s: Bytes)
    ensures ToBigEndian(FromBigEndian(s), |s|) == s
  {
    if s == [] {
    } else {
      DivMod256(FromBigEndian(s[..|s| - 1]), s[|s| - 1]);
      BigEndianUnique(s[..|s| - 1]);
      assert s == s[..|s| - 1] + [s[|s| - 1]];
    }
  }

  /** The `k`-byte little-endian form of `n`. */
  function ToLittleEndian(n: nat, k: nat): (s: Bytes)
    ensures |s| == k
  {
    if k == 0 then [] else [n % 256] + ToLittleEndian(n / 256, k - 1)
  }

  function FromLittleEndian(s: Bytes): (n: nat)
    ensures n < Pow256(|s|)
  {
    if s == [] then 0 else s[0] + 256 * FromLittleEndian(s[1..])
  }

  lemma {:induction false} LittleEndianRoundTrip(n: nat, k: nat)
    requires n < Pow256(k)
    ensures FromLittleEndian(ToLittleEndian(n, k)) == n
  {
    if k == 0 {
    } else {
      assert ToLittleEndian(n, k)[1..] == ToLittleEndian(n / 256, k - 1);
      LittleEndianRoundTrip(n / 256, k - 1);
    }
  }

  lemma Pow256Values()
    ensures Pow256(1) == 256 && Pow256(2) == 65536 && Pow256(4) == U32_SIZE && Pow256(8) == U64_SIZE
  {
  }

  /** What a serialiser leaves in the buffer, and whether it got to the end. */
  datatype Serialized = Serialized(bytes: Bytes, complete: bool)

  /** `BytesMut`: the caller's growable output buffer. */
  class BytesMut {
    var data: Bytes

    constructor ()
      ensures data == []
    {
      data := [];
    }

    method Clear()
      modifies this
      ensures data == []
    {
      data := [];
    }

    method Extend(more: Bytes)
      modifies this
      ensures data == old(data) + more
    {
      data := data + more;
    }

    /** `split().freeze()`: hands the contents over and leaves the buffer empty. */
    method Split() returns (contents: Bytes)
      modifies this
      ensures contents == old(data) && data == []
    {
      contents := data;
      data := [];
    }
  }
}
