/**
  `src/cipherv2/simple.rs`: the second version packs a pair of bytes into the code point
  `(c0 << 7) | c1`, fourteen bits wide for ASCII bytes, and unpacks it with two masks.
*/
module SimpleV2 {
  import Utf8

  /** A pair of bytes; a lone last byte comes as `(c0, 0)`. */
  type BytePair = (bv8, bv8)

  /** Bits 7 to 13 of a code point: the first byte. */
  const C0Mask: bv32 := 0x3F80
  /** Bits 0 to 6 of a code point: the second byte. */
  const C1Mask: bv32 := 0x7F

  /**
    `encrypt_char_pair`: the code point `(c0 << 7) | c1`, computed in 16 bits. For every pair of
    bytes it is at most `0x7FFF`, below the surrogates, so `char::from_u32(..).unwrap()` never
    panics.
  */
  function EncryptCharPair(p: BytePair): (cp: bv32)
    ensures cp <= 0x7FFF
    ensures Utf8.IsScalarValue(cp)
  {
    ((p.0 as bv16 << 7) | p.1 as bv16) as bv32
  }

  /** `decrypt_char_pair`: the two masked fields of the code point, each at most `0x7F`. */
  function DecryptCharPair(cp: bv32): (p: BytePair)
    ensures p.0 <= 0x7F && p.1 <= 0x7F
  {
    (((cp & C0Mask) >> 7) as bv8, (cp & C1Mask) as bv8)
  }

  /** A pair comes back from its code point exactly when both bytes are ASCII. */
  lemma PairRoundTrip(p: BytePair)
    ensures DecryptCharPair(EncryptCharPair(p)) == p <==> p.0 <= 0x7F && p.1 <= 0x7F
  {
    if p.0 <= 0x7F && p.1 <= 0x7F {
      PairFields(p.0, p.1);
    }
  }

  lemma PairFields(c0: bv8, c1: bv8)
    requires c0 <= 0x7F && c1 <= 0x7F
    ensures ((((c0 as bv16 << 7) | c1 as bv16) as bv32 & C0Mask) >> 7) as bv8 == c0
    ensures (((c0 as bv16 << 7) | c1 as bv16) as bv32 & C1Mask) as bv8 == c1
  {
  }

  /** Distinct ASCII pairs are packed into distinct code points. */
  lemma EncryptInjective(p: BytePair, q: BytePair)
    requires p.0 <= 0x7F && p.1 <= 0x7F && q.0 <= 0x7F && q.1 <= 0x7F
    requires EncryptCharPair(p) == EncryptCharPair(q)
    ensures p == q
  {
    PairRoundTrip(p);
    PairRoundTrip(q);
  }

  /** "ad" is packed into U+30E4, and comes back. */
  lemma EncryptAd()
    ensures EncryptCharPair(('a' as bv8, 'd' as bv8)) == 0x30E4
    ensures DecryptCharPair(0x30E4) == ('a' as bv8, 'd' as bv8)
  {
  }
}
