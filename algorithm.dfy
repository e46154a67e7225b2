/**
  The first version of the packing, `src/cipher.rs`: the five operations of `Algorithm<N>` for
  `Standard` (N = 3) and `Extended` (N = 4). A pair and a lone byte are encrypted by separate
  operations, and a unit says which it holds through bit 2 of its flag byte (byte 0 of a
  standard unit, byte 1 of an extended one).

  Its high-bit mask is 127 rather than 0x40, so a pair's lead byte also receives bit 5 of the
  first byte, in the slot meant for bit 6 of the second.
*/
module Algorithm {
  import opened Units
  import Utf8

  const SigBitMask: bv8 := 127
  const LowerBitsMask: bv8 := 63
  const SingleCharMask: bv8 := 4

  /** Where a unit keeps its flag and high bits. */
  function FlagIndex(v: Variant): nat
  {
    if v == Standard then 0 else 1
  }

  /** `has_single_char`: the unit holds one byte rather than two. */
  predicate HasSingleChar(v: Variant, e: seq<bv8>)
    requires |e| == Width(v)
  {
    e[FlagIndex(v)] & SingleCharMask != 0
  }

  /** `encrypt_char_pair`. */
  function EncryptCharPair(v: Variant, c0: bv8, c1: bv8): (e: seq<bv8>)
    ensures |e| == Width(v) && !HasSingleChar(v, e)
    ensures v == Standard ==> 0xE0 <= e[0] <= 0xE3
    ensures v == Extended ==> e[0] == 0xF0 && 0x90 <= e[1] <= 0x93
    ensures forall i :: FlagIndex(v) < i < |e| ==> Utf8.IsContinuation(e[i])
  {
    var flags := ((c0 & SigBitMask) >> 5) | ((c1 & SigBitMask) >> 6);
    var low0, low1 := 128 | (c0 & LowerBitsMask), 128 | (c1 & LowerBitsMask);
    if v == Standard then [224 | flags, low0, low1] else [240, 144 | flags, low0, low1]
  }

  /** `encrypt_single_char`: bit 6 of the byte goes to bit 0 of the flag byte. */
  function EncryptSingleChar(v: Variant, c0: bv8): (e: seq<bv8>)
    ensures |e| == Width(v) && HasSingleChar(v, e)
    ensures v == Standard ==> 0xE4 <= e[0] <= 0xE5
    ensures v == Extended ==> e[0] == 0xF0 && 0x94 <= e[1] <= 0x95
    ensures forall i :: FlagIndex(v) < i < |e| ==> Utf8.IsContinuation(e[i])
    ensures e[|e| - 1] == 128
  {
    var flags := SingleCharMask | ((c0 & SigBitMask) >> 6);
    var low0 := 128 | (c0 & LowerBitsMask);
    if v == Standard then [224 | flags, low0, 128] else [240, 144 | flags, low0, 128]
  }

  /** `decrypt_char_pair`: both bytes come out as ASCII. */
  function DecryptCharPair(v: Variant, e: seq<bv8>): (d: seq<bv8>)
    requires |e| == Width(v)
    ensures |d| == 2 && IsAscii(d[0]) && IsAscii(d[1])
  {
    var i := FlagIndex(v);
    [((e[i] & 2) << 5) | (e[i + 1] & LowerBitsMask), ((e[i] & 1) << 6) | (e[i + 2] & LowerBitsMask)]
  }

  /** `decrypt_single_char`: the byte comes out as ASCII. */
  function DecryptSingleChar(v: Variant, e: seq<bv8>): (d: seq<bv8>)
    requires |e| == Width(v)
    ensures |d| == 1 && IsAscii(d[0])
  {
    var i := FlagIndex(v);
    [((e[i] & 1) << 6) | (e[i + 1] & LowerBitsMask)]
  }

  /** A lone ASCII byte comes back unchanged. */
  lemma SingleRoundTrip(v: Variant, c0: bv8)
    requires IsAscii(c0)
    ensures DecryptSingleChar(v, EncryptSingleChar(v, c0)) == [c0]
  {
  }

  /**
    What a pair of ASCII bytes decodes to: the first byte exactly, the second with bit 5 of the
    first ORed into its bit 6. So the pair comes back unchanged exactly when the first byte has
    bit 5 clear or the second has bit 6 set.
  */
  lemma PairRoundTrip(v: Variant, c0: bv8, c1: bv8)
    requires IsAscii(c0) && IsAscii(c1)
    ensures DecryptCharPair(v, EncryptCharPair(v, c0, c1)) == [c0, c1 | ((c0 & 0x20) << 1)]
    ensures DecryptCharPair(v, EncryptCharPair(v, c0, c1)) == [c0, c1]
        <==> c0 & 0x20 == 0 || c1 & 0x40 != 0
  {
    PairDecodes(v, c0, c1);
    PairBits(c0, c1);
    assert [c0, c1 | ((c0 & 0x20) << 1)] == [c0, c1] <==> c1 | ((c0 & 0x20) << 1) == c1;
  }

  lemma PairDecodes(v: Variant, c0: bv8, c1: bv8)
    requires IsAscii(c0) && IsAscii(c1)
    ensures DecryptCharPair(v, EncryptCharPair(v, c0, c1)) == [c0, c1 | ((c0 & 0x20) << 1)]
  {
    if v == Standard {
      UnitBits(224, c0, c1);
    } else {
      UnitBits(144, c0, c1);
    }
  }

  /** The bit arithmetic of `PairDecodes`, on the bytes of one unit. */
  lemma UnitBits(base: bv8, c0: bv8, c1: bv8)
    requires base == 224 || base == 144
    requires IsAscii(c0) && IsAscii(c1)
    ensures var flag := base | ((c0 & SigBitMask) >> 5) | ((c1 & SigBitMask) >> 6);
      var low0, low1 := 128 | (c0 & LowerBitsMask), 128 | (c1 & LowerBitsMask);
      && ((flag & 2) << 5) | (low0 & LowerBitsMask) == c0
      && ((flag & 1) << 6) | (low1 & LowerBitsMask) == c1 | ((c0 & 0x20) << 1)
  {
  }

  /** The bit arithmetic behind `PairRoundTrip`, on the bytes alone. */
  lemma PairBits(c0: bv8, c1: bv8)
    ensures c1 | ((c0 & 0x20) << 1) == c1 <==> c0 & 0x20 == 0 || c1 & 0x40 != 0
  {
  }

  /** "a1" decodes as "aq". */
  lemma DecryptsA1AsAq(v: Variant)
    ensures DecryptCharPair(v, EncryptCharPair(v, 'a' as bv8, '1' as bv8)) == ['a' as bv8, 'q' as bv8]
  {
  }

  /** The standard units of "ad" and "gc" are U+3864 and U+39E3. */
  lemma StandardAdGc()
    ensures EncryptCharPair(Standard, 'a' as bv8, 'd' as bv8) == [0xE3, 0xA1, 0xA4]
    ensures EncryptCharPair(Standard, 'g' as bv8, 'c' as bv8) == [0xE3, 0xA7, 0xA3]
    ensures Utf8.DecodeChar([0xE3, 0xA1, 0xA4]) == 0x3864
    ensures Utf8.DecodeChar([0xE3, 0xA7, 0xA3]) == 0x39E3
  {
  }

  /** The standard units of "bb" and of a lone "b" are U+38A2 and U+5880. */
  lemma StandardBbb()
    ensures EncryptCharPair(Standard, 'b' as bv8, 'b' as bv8) == [0xE3, 0xA2, 0xA2]
    ensures EncryptSingleChar(Standard, 'b' as bv8) == [0xE5, 0xA2, 0x80]
    ensures Utf8.DecodeChar([0xE3, 0xA2, 0xA2]) == 0x38A2
    ensures Utf8.DecodeChar([0xE5, 0xA2, 0x80]) == 0x5880
  {
  }

  /** The standard unit of a lone "x" is U+5E00. */
  lemma StandardX()
    ensures EncryptSingleChar(Standard, 'x' as bv8) == [0xE5, 0xB8, 0x80]
    ensures Utf8.DecodeChar([0xE5, 0xB8, 0x80]) == 0x5E00
  {
  }

  /** The extended units of "ad" and "gc" are U+13864 and U+139E3. */
  lemma ExtendedAdGc()
    ensures EncryptCharPair(Extended, 'a' as bv8, 'd' as bv8) == [0xF0, 0x93, 0xA1, 0xA4]
    ensures EncryptCharPair(Extended, 'g' as bv8, 'c' as bv8) == [0xF0, 0x93, 0xA7, 0xA3]
    ensures Utf8.DecodeChar([0xF0, 0x93, 0xA1, 0xA4]) == 0x13864
    ensures Utf8.DecodeChar([0xF0, 0x93, 0xA7, 0xA3]) == 0x139E3
  {
  }

  /** The extended units of "bb" and of a lone "b" are U+138A2 and U+15880. */
  lemma ExtendedBbb()
    ensures EncryptCharPair(Extended, 'b' as bv8, 'b' as bv8) == [0xF0, 0x93, 0xA2, 0xA2]
    ensures EncryptSingleChar(Extended, 'b' as bv8) == [0xF0, 0x95, 0xA2, 0x80]
    ensures Utf8.DecodeChar([0xF0, 0x93, 0xA2, 0xA2]) == 0x138A2
    ensures Utf8.DecodeChar([0xF0, 0x95, 0xA2, 0x80]) == 0x15880
  {
  }

  /** The extended unit of a lone "x" is U+15E00. */
  lemma ExtendedX()
    ensures EncryptSingleChar(Extended, 'x' as bv8) == [0xF0, 0x95, 0xB8, 0x80]
    ensures Utf8.DecodeChar([0xF0, 0x95, 0xB8, 0x80]) == 0x15E00
  {
  }
}
