/**
  The shapes every version of the cipher shares: the two variants, the width of the unit each
  writes, and a pair of input bytes whose second byte may be missing.
*/
module Units {
  import opened Wrappers

  /** `Standard` packs a pair into a 3-byte unit, `Extended` into a 4-byte unit. */
  datatype Variant = Standard | Extended

  /** The `N` of `Cipher<N>` and `Algorithm<N>`. */
  function Width(v: Variant): (n: nat)
    ensures n == 3 || n == 4
  {
    if v == Standard then 3 else 4
  }

  /** Two input bytes, the second missing when the input has an odd length. */
  type BytePair = (bv8, Option<bv8>)

  /** A 7-bit ASCII byte, the only kind the cipher is meant for. */
  predicate IsAscii(b: bv8)
  {
    b <= 0x7F
  }

  /** The bytes a pair stands for: `c0`, then `c1` when there is one. */
  function PairBytes(p: BytePair): (s: seq<bv8>)
    ensures |s| == (if p.1.Some? then 2 else 1) && s[0] == p.0
    ensures p.1.Some? ==> s[1] == p.1.value
  {
    match p.1
    case Some(c1) => [p.0, c1]
    case None => [p.0]
  }
}
