/**
  The 3-byte packing of `src/cipher/standard.rs`: two 7-bit bytes become one three-byte UTF-8
  shaped unit. The lead byte is `1110 0fsb` where `s` is bit 6 of the first byte, `b` bit 6 of
  the second and `f` says the second byte is missing; the two continuation bytes `10xxxxxx`
  carry the low six bits of each byte.
*/
module StandardCipher {
  import opened Wrappers
  import opened Units
  import Utf8

  const SigBitMask: bv8 := 0x40
  const LowerBitsMask: bv8 := 0x3F
  const SingleCharMask: bv8 := 0x04

  /** `Standard::encrypt_char_pair`. */
  function EncryptCharPair(c0: bv8, c1: Option<bv8>): (e: seq<bv8>)
    ensures |e| == 3
    ensures 0xE0 <= e[0] <= 0xE7 && Utf8.IsContinuation(e[1]) && Utf8.IsContinuation(e[2])
    ensures e[0] & SingleCharMask != 0 <==> c1.None?
    ensures c1.None? ==> e[2] == 0x80
  {
    var lead := 0xE0 | ((c0 & SigBitMask) >> 5);
    var b1 := 0x80 | (c0 & LowerBitsMask);
    match c1
    case Some(c1) => [lead | ((c1 & SigBitMask) >> 6), b1, 0x80 | (c1 & LowerBitsMask)]
    case None => [lead | SingleCharMask, b1, 0x80]
  }

  /** `Standard::decrypt_char_pair`: total on every three bytes, and never above ASCII. */
  function DecryptCharPair(e: seq<bv8>): (p: BytePair)
    requires |e| == 3
    ensures IsAscii(p.0)
    ensures p.1.None? <==> e[0] & SingleCharMask != 0
    ensures p.1.Some? ==> IsAscii(p.1.value)
  {
    var c0 := ((e[0] & 2) << 5) | (e[1] & LowerBitsMask);
    if e[0] & SingleCharMask != 0 then (c0, None)
    else (c0, Some(((e[0] & 1) << 6) | (e[2] & LowerBitsMask)))
  }

  /** A pair of ASCII bytes comes back unchanged. */
  lemma PairRoundTrip(c0: bv8, c1: bv8)
    requires IsAscii(c0) && IsAscii(c1)
    ensures DecryptCharPair(EncryptCharPair(c0, Some(c1))) == (c0, Some(c1))
  {
  }

  /** A lone ASCII byte comes back alone. */
  lemma SingleRoundTrip(c0: bv8)
    requires IsAscii(c0)
    ensures DecryptCharPair(EncryptCharPair(c0, None)) == (c0, None)
  {
  }

  /** Bit 7 of either input byte never reaches the unit. */
  lemma HighBitIgnored(c0: bv8, c1: Option<bv8>)
    ensures EncryptCharPair(c0, c1)
         == EncryptCharPair(c0 & 0x7F, if c1.Some? then Some(c1.value & 0x7F) else None)
  {
  }

  /**
    A unit is well-formed UTF-8 except when both bytes are present with bit 6 clear and the
    first byte has bit 5 clear: then it is an overlong `E0 80..9F xx` form.
  */
  lemma WellFormedUnless(c0: bv8, c1: Option<bv8>)
    ensures Utf8.WellFormedChar(EncryptCharPair(c0, c1))
        <==> !(c1.Some? && c0 & 0x60 == 0 && c1.value & 0x40 == 0)
  {
    var e := EncryptCharPair(c0, c1);
    assert Utf8.WellFormedChar(e) <==> Utf8.WellFormed3(e[0], e[1], e[2]);
  }

  /** "ad" is the unit `E3 A1 A4`, the character U+3864. */
  lemma EncryptAd()
    ensures EncryptCharPair('a' as bv8, Some('d' as bv8)) == [0xE3, 0xA1, 0xA4]
    ensures Utf8.DecodeChar([0xE3, 0xA1, 0xA4]) == 0x3864
  {
  }

  /** "gc" is the unit `E3 A7 A3`, the character U+39E3, so "adgc" is U+3864 U+39E3. */
  lemma EncryptGc()
    ensures EncryptCharPair('g' as bv8, Some('c' as bv8)) == [0xE3, 0xA7, 0xA3]
    ensures Utf8.DecodeChar([0xE3, 0xA7, 0xA3]) == 0x39E3
  {
  }

  /** A lone "x" is `E6 B8 80`, U+6E00: bit 6 goes to bit 1 of the lead here too. */
  lemma EncryptX()
    ensures EncryptCharPair('x' as bv8, None) == [0xE6, 0xB8, 0x80]
    ensures Utf8.DecodeChar([0xE6, 0xB8, 0x80]) == 0x6E00
  {
  }
}
