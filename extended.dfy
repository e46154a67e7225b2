/**
  The 4-byte packing of `src/cipher/extended.rs`. The lead byte is always `F0`; the second byte
  is `1001 0fsb` with the same flag and high bits as the standard packing, and the last two
  bytes carry the low six bits of each input byte. Every unit is a well-formed four-byte UTF-8
  character in the range U+10000 .. U+17FFF.
*/
module ExtendedCipher {
  import opened Wrappers
  import opened Units
  import Utf8

  const SigBitMask: bv8 := 0x40
  const LowerBitsMask: bv8 := 0x3F
  const SingleCharMask: bv8 := 0x04

  /** `Extended::encrypt_char_pair`. */
  function EncryptCharPair(c0: bv8, c1: Option<bv8>): (e: seq<bv8>)
    ensures |e| == 4
    ensures e[0] == 0xF0 && 0x90 <= e[1] <= 0x97
    ensures Utf8.IsContinuation(e[2]) && Utf8.IsContinuation(e[3])
    ensures e[1] & SingleCharMask != 0 <==> c1.None?
    ensures c1.None? ==> e[3] == 0x80
  {
    var b1 := 0x90 | ((c0 & SigBitMask) >> 5);
    var b2 := 0x80 | (c0 & LowerBitsMask);
    match c1
    case Some(c1) => [0xF0, b1 | ((c1 & SigBitMask) >> 6), b2, 0x80 | (c1 & LowerBitsMask)]
    case None => [0xF0, b1 | SingleCharMask, b2, 0x80]
  }

  /** `Extended::decrypt_char_pair`: total on every four bytes, and never above ASCII. */
  function DecryptCharPair(e: seq<bv8>): (p: BytePair)
    requires |e| == 4
    ensures IsAscii(p.0)
    ensures p.1.None? <==> e[1] & SingleCharMask != 0
    ensures p.1.Some? ==> IsAscii(p.1.value)
  {
    var c0 := ((e[1] & 2) << 5) | (e[2] & LowerBitsMask);
    if e[1] & SingleCharMask != 0 then (c0, None)
    else (c0, Some(((e[1] & 1) << 6) | (e[3] & LowerBitsMask)))
  }

  /** A pair of ASCII bytes comes back unchanged. */
  lemma PairRoundTrip(c0: bv8, c1: bv8)
    requires IsAscii(c0) && IsAscii(c1)
    ensures DecryptCharPair(EncryptCharPair(c0, Some(c1))) == (c0, Some(c1))
  {
  }

  /** A lone ASCII byte comes back alone. */
  lemma SingleRoundTrip(c0: bv8)
    requires IsAscii(c0)
    ensures DecryptCharPair(EncryptCharPair(c0, None)) == (c0, None)
  {
  }

  /** Bit 7 of either input byte never reaches the unit. */
  lemma HighBitIgnored(c0: bv8, c1: Option<bv8>)
    ensures EncryptCharPair(c0, c1)
         == EncryptCharPair(c0 & 0x7F, if c1.Some? then Some(c1.value & 0x7F) else None)
  {
  }

  /** Every unit is one well-formed UTF-8 character between U+10000 and U+17FFF. */
  lemma AlwaysWellFormed(c0: bv8, c1: Option<bv8>)
    ensures Utf8.WellFormedChar(EncryptCharPair(c0, c1))
    ensures 0x10000 <= Utf8.DecodeChar(EncryptCharPair(c0, c1)) <= 0x17FFF
  {
    var e := EncryptCharPair(c0, c1);
    assert Utf8.WellFormed4(e[0], e[1], e[2], e[3]);
    Decode4Range(e[0], e[1], e[2], e[3]);
  }

  lemma Decode4Range(b0: bv8, b1: bv8, b2: bv8, b3: bv8)
    requires b0 == 0xF0 && 0x90 <= b1 <= 0x97
    ensures 0x10000 <= Utf8.Decode4(b0, b1, b2, b3) <= 0x17FFF
  {
  }

  /** "ad" is the character U+13864. */
  lemma EncryptAd()
    ensures EncryptCharPair('a' as bv8, Some('d' as bv8)) == [0xF0, 0x93, 0xA1, 0xA4]
    ensures Utf8.DecodeChar([0xF0, 0x93, 0xA1, 0xA4]) == 0x13864
  {
  }

  /** "gc" is the character U+139E3, so "adgc" is U+13864 U+139E3. */
  lemma EncryptGc()
    ensures EncryptCharPair('g' as bv8, Some('c' as bv8)) == [0xF0, 0x93, 0xA7, 0xA3]
    ensures Utf8.DecodeChar([0xF0, 0x93, 0xA7, 0xA3]) == 0x139E3
  {
  }

  /** A lone "x" is `F0 96 B8 80`, U+16E00: bit 6 goes to bit 1 of the second byte here too. */
  lemma EncryptX()
    ensures EncryptCharPair('x' as bv8, None) == [0xF0, 0x96, 0xB8, 0x80]
    ensures Utf8.DecodeChar([0xF0, 0x96, 0xB8, 0x80]) == 0x16E00
  {
  }
}
