/** Bytes and little-endian unsigned integers, as Python's `struct` module
    reads them under a '<' format (standard sizes, no alignment padding). */
module Bytes {

  type byte = b: int | 0 <= b < 256

  type Bytes = seq<byte>

  function Pow256(k: nat): (p: nat)
    ensures p >= 1
  {
    if k == 0 then 1 else 256 * Pow256(k - 1)
  }

  /** The unsigned integer whose little-endian encoding is `bs`. */
  function LeValue(bs: Bytes): (n: nat)
    ensures n < Pow256(|bs|)
  {
    if |bs| == 0 then 0
    else
      var tail := LeValue(bs[1..]);
      assert bs[0] + 256 * tail <= 255 + 256 * (Pow256(|bs| - 1) - 1);
      bs[0] + 256 * tail
  }

  /** The `width`-byte little-endian encoding of `n`. */
  function LeBytes(n: nat, width: nat): (bs: Bytes)
    requires n < Pow256(width)
    ensures |bs| == width
  {
    if width == 0 then [] else [n % 256] + LeBytes(n / 256, width - 1)
  }

  /** Reading back an encoded integer gives the integer. */
  lemma {:induction false} LeValueOfLeBytes(n: nat, width: nat)
    requires n < Pow256(width)
    ensures LeValue(LeBytes(n, width)) == n
  {
    if width > 0 {
      var bs := LeBytes(n, width);
      assert bs[1..] == LeBytes(n / 256, width - 1);
      LeValueOfLeBytes(n / 256, width - 1);
    }
  }

  /** Encoding a decoded integer gives back the bytes: the encoding is unique. */
  lemma {:induction false} LeBytesOfLeValue(bs: Bytes)
    ensures LeBytes(LeValue(bs), |bs|) == bs
  {
    if |bs| > 0 {
      LeBytesOfLeValue(bs[1..]);
      var n := LeValue(bs);
      assert n % 256 == bs[0] && n / 256 == LeValue(bs[1..]);
    }
  }
}
