/**
  UTF-8 as section 4 of RFC 3629 defines it: which byte sequences are well formed, and the
  code point a well-formed sequence encodes. It stands for the library routines the cipher
  calls (`String::from_utf8`, `str::from_utf8`, `char::encode_utf8`).
*/
module Utf8 {

  /** A continuation byte: `10xxxxxx`. */
  predicate IsContinuation(b: bv8)
  {
    0x80 <= b <= 0xBF
  }

  /**
    The length of the sequence that `lead` starts, by the table of section 4 of RFC 3629;
    0 for a byte that starts no well-formed sequence (continuation bytes, C0, C1, F5..FF).
  */
  function SequenceLength(lead: bv8): (n: nat)
    ensures n <= 4
  {
    if lead <= 0x7F then 1
    else if 0xC2 <= lead <= 0xDF then 2
    else if 0xE0 <= lead <= 0xEF then 3
    else if 0xF0 <= lead <= 0xF4 then 4
    else 0
  }

  /** UTF8-2 of RFC 3629: `C2-DF UTF8-tail`. */
  predicate WellFormed2(b0: bv8, b1: bv8)
  {
    0xC2 <= b0 <= 0xDF && IsContinuation(b1)
  }

  /** UTF8-3 of RFC 3629: `E0 A0-BF tail / E1-EC 2tail / ED 80-9F tail / EE-EF 2tail`. */
  predicate WellFormed3(b0: bv8, b1: bv8, b2: bv8)
  {
    && (|| (b0 == 0xE0 && 0xA0 <= b1 <= 0xBF)
        || (0xE1 <= b0 <= 0xEC && IsContinuation(b1))
        || (b0 == 0xED && 0x80 <= b1 <= 0x9F)
        || (0xEE <= b0 <= 0xEF && IsContinuation(b1)))
    && IsContinuation(b2)
  }

  /** UTF8-4 of RFC 3629: `F0 90-BF 2tail / F1-F3 3tail / F4 80-8F 2tail`. */
  predicate WellFormed4(b0: bv8, b1: bv8, b2: bv8, b3: bv8)
  {
    && (|| (b0 == 0xF0 && 0x90 <= b1 <= 0xBF)
        || (0xF1 <= b0 <= 0xF3 && IsContinuation(b1))
        || (b0 == 0xF4 && 0x80 <= b1 <= 0x8F))
    && IsContinuation(b2) && IsContinuation(b3)
  }

  /** `s` is exactly one well-formed character: one of UTF8-1 .. UTF8-4 of RFC 3629. */
  predicate WellFormedChar(s: seq<bv8>)
  {
    if |s| == 1 then s[0] <= 0x7F
    else if |s| == 2 then WellFormed2(s[0], s[1])
    else if |s| == 3 then WellFormed3(s[0], s[1], s[2])
    else if |s| == 4 then WellFormed4(s[0], s[1], s[2], s[3])
    else false
  }

  /** The lead byte of a well-formed character announces its length. */
  lemma LeadAnnouncesLength(s: seq<bv8>)
    requires WellFormedChar(s)
    ensures SequenceLength(s[0]) == |s|
  {
  }

  /** `s` is a sequence of well-formed characters (UTF8-octets of RFC 3629). */
  predicate WellFormed(s: seq<bv8>)
    decreases |s|
  {
    s == [] ||
    (var n := SequenceLength(s[0]);
     0 < n <= |s| && WellFormedChar(s[..n]) && WellFormed(s[n..]))
  }

  /** A Unicode scalar value: a code point that is not a surrogate. */
  predicate IsScalarValue(cp: bv32)
  {
    cp <= 0x10FFFF && !(0xD800 <= cp <= 0xDFFF)
  }

  function Decode2(b0: bv8, b1: bv8): bv32
  {
    ((b0 & 0x1F) as bv32 << 6) | (b1 & 0x3F) as bv32
  }

  function Decode3(b0: bv8, b1: bv8, b2: bv8): bv32
  {
    ((b0 & 0x0F) as bv32 << 12) | ((b1 & 0x3F) as bv32 << 6) | (b2 & 0x3F) as bv32
  }

  function Decode4(b0: bv8, b1: bv8, b2: bv8, b3: bv8): bv32
  {
    ((b0 & 0x07) as bv32 << 18) | ((b1 & 0x3F) as bv32 << 12)
    | ((b2 & 0x3F) as bv32 << 6) | (b3 & 0x3F) as bv32
  }

  /** The code point a well-formed character encodes; only the shortest form is well formed. */
  function DecodeChar(s: seq<bv8>): (cp: bv32)
    requires WellFormedChar(s)
    ensures IsScalarValue(cp)
    ensures |s| == 1 ==> cp <= 0x7F
    ensures |s| == 2 ==> 0x80 <= cp <= 0x7FF
    ensures |s| == 3 ==> 0x800 <= cp <= 0xFFFF
    ensures |s| == 4 ==> 0x10000 <= cp
  {
    if |s| == 1 then s[0] as bv32
    else if |s| == 2 then Decode2(s[0], s[1])
    else if |s| == 3 then Decode3(s[0], s[1], s[2])
    else Decode4(s[0], s[1], s[2], s[3])
  }

  /** The UTF-8 encoding of a scalar value (`char::encode_utf8`). */
  function EncodeChar(cp: bv32): (s: seq<bv8>)
    requires IsScalarValue(cp)
    ensures WellFormedChar(s)
    ensures DecodeChar(s) == cp
  {
    if cp <= 0x7F then [cp as bv8]
    else if cp <= 0x7FF then Encode2(cp)
    else if cp <= 0xFFFF then Encode3(cp)
    else Encode4(cp)
  }

  function Encode2(cp: bv32): (s: seq<bv8>)
    requires 0x80 <= cp <= 0x7FF
    ensures |s| == 2 && WellFormed2(s[0], s[1]) && Decode2(s[0], s[1]) == cp
  {
    var b0, b1 := (0xC0 | (cp >> 6)) as bv8, (0x80 | (cp & 0x3F)) as bv8;
    assert WellFormed2(b0, b1) && Decode2(b0, b1) == cp;
    [b0, b1]
  }

  function Encode3(cp: bv32): (s: seq<bv8>)
    requires 0x800 <= cp <= 0xFFFF && !(0xD800 <= cp <= 0xDFFF)
    ensures |s| == 3 && WellFormed3(s[0], s[1], s[2]) && Decode3(s[0], s[1], s[2]) == cp
  {
    var b0 := (0xE0 | (cp >> 12)) as bv8;
    var b1 := (0x80 | ((cp >> 6) & 0x3F)) as bv8;
    var b2 := (0x80 | (cp & 0x3F)) as bv8;
    Encode3Bits(cp);
    [b0, b1, b2]
  }

  lemma Encode3Bits(cp: bv32)
    requires 0x800 <= cp <= 0xFFFF && !(0xD800 <= cp <= 0xDFFF)
    ensures var b0, b1, b2 := (0xE0 | (cp >> 12)) as bv8, (0x80 | ((cp >> 6) & 0x3F)) as bv8, (0x80 | (cp & 0x3F)) as bv8;
      WellFormed3(b0, b1, b2) && Decode3(b0, b1, b2) == cp
  {
  }

  function Encode4(cp: bv32): (s: seq<bv8>)
    requires 0x10000 <= cp <= 0x10FFFF
    ensures |s| == 4 && WellFormed4(s[0], s[1], s[2], s[3]) && Decode4(s[0], s[1], s[2], s[3]) == cp
  {
    var b0 := (0xF0 | (cp >> 18)) as bv8;
    var b1 := (0x80 | ((cp >> 12) & 0x3F)) as bv8;
    var b2 := (0x80 | ((cp >> 6) & 0x3F)) as bv8;
    var b3 := (0x80 | (cp & 0x3F)) as bv8;
    Encode4Bits(cp);
    [b0, b1, b2, b3]
  }

  lemma Encode4Bits(cp: bv32)
    requires 0x10000 <= cp <= 0x10FFFF
    ensures var b0, b1 := (0xF0 | (cp >> 18)) as bv8, (0x80 | ((cp >> 12) & 0x3F)) as bv8;
      var b2, b3 := (0x80 | ((cp >> 6) & 0x3F)) as bv8, (0x80 | (cp & 0x3F)) as bv8;
      WellFormed4(b0, b1, b2, b3) && Decode4(b0, b1, b2, b3) == cp
  {
  }

  /** Decoding loses nothing: a well-formed character is the encoding of its code point. */
  lemma EncodeDecode(s: seq<bv8>)
    requires WellFormedChar(s)
    ensures EncodeChar(DecodeChar(s)) == s
  {
    if |s| == 2 {
      EncodeDecode2(s);
    } else if |s| == 3 {
      EncodeDecode3(s);
    } else if |s| == 4 {
      EncodeDecode4(s);
    }
  }

  lemma EncodeDecode2(s: seq<bv8>)
    requires |s| == 2 && WellFormed2(s[0], s[1])
    ensures WellFormedChar(s) && EncodeChar(DecodeChar(s)) == s
  {
    var t := EncodeChar(DecodeChar(s));
    assert |t| == 2;
    Decode2Injective(s[0], s[1], t[0], t[1]);
  }

  lemma EncodeDecode3(s: seq<bv8>)
    requires |s| == 3 && WellFormed3(s[0], s[1], s[2])
    ensures WellFormedChar(s) && EncodeChar(DecodeChar(s)) == s
  {
    var t := EncodeChar(DecodeChar(s));
    assert |t| == 3;
    Decode3Injective(s[0], s[1], s[2], t[0], t[1], t[2]);
  }

  lemma EncodeDecode4(s: seq<bv8>)
    requires |s| == 4 && WellFormed4(s[0], s[1], s[2], s[3])
    ensures WellFormedChar(s) && EncodeChar(DecodeChar(s)) == s
  {
    var cp := DecodeChar(s);
    assert 0x10000 <= cp;
    var t := EncodeChar(cp);
    assert WellFormedChar(t) && DecodeChar(t) == cp;
    assert |t| == 4;
    assert Decode4(t[0], t[1], t[2], t[3]) == cp;
    Decode4Injective(s[0], s[1], s[2], s[3], t[0], t[1], t[2], t[3]);
  }

  /** Two-byte characters that decode alike are alike. */
  lemma Decode2Injective(a0: bv8, a1: bv8, b0: bv8, b1: bv8)
    requires WellFormed2(a0, a1) && WellFormed2(b0, b1)
    requires Decode2(a0, a1) == Decode2(b0, b1)
    ensures a0 == b0 && a1 == b1
  {
  }

  /** Three-byte characters that decode alike are alike. */
  lemma Decode3Injective(a0: bv8, a1: bv8, a2: bv8, b0: bv8, b1: bv8, b2: bv8)
    requires WellFormed3(a0, a1, a2) && WellFormed3(b0, b1, b2)
    requires Decode3(a0, a1, a2) == Decode3(b0, b1, b2)
    ensures a0 == b0 && a1 == b1 && a2 == b2
  {
  }

  /** Four-byte characters that decode alike are alike. */
  lemma Decode4Injective(a0: bv8, a1: bv8, a2: bv8, a3: bv8, b0: bv8, b1: bv8, b2: bv8, b3: bv8)
    requires WellFormed4(a0, a1, a2, a3) && WellFormed4(b0, b1, b2, b3)
    requires Decode4(a0, a1, a2, a3) == Decode4(b0, b1, b2, b3)
    ensures a0 == b0 && a1 == b1 && a2 == b2 && a3 == b3
  {
  }

  /** The code points of a well-formed sequence, in order. */
  function DecodeAll(s: seq<bv8>): seq<bv32>
    requires WellFormed(s)
    decreases |s|
  {
    if s == [] then [] else
      var n := SequenceLength(s[0]);
      [DecodeChar(s[..n])] + DecodeAll(s[n..])
  }

  /** A well-formed character in front of a well-formed sequence. */
  lemma PrependChar(c: seq<bv8>, s: seq<bv8>)
    requires WellFormedChar(c) && WellFormed(s)
    ensures WellFormed(c + s)
    ensures DecodeAll(c + s) == [DecodeChar(c)] + DecodeAll(s)
  {
    LeadAnnouncesLength(c);
    assert (c + s)[..|c|] == c;
    assert (c + s)[|c|..] == s;
  }

  /** Bytes below 0x80 are well-formed UTF-8, one character each. */
  lemma {:induction false} AsciiWellFormed(s: seq<bv8>)
    requires forall i :: 0 <= i < |s| ==> s[i] <= 0x7F
    ensures WellFormed(s)
    decreases |s|
  {
    if s != [] {
      AsciiWellFormed(s[1..]);
      assert s[..1] == [s[0]];
    }
  }
}
