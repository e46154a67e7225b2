/**
  `src/decrypt.rs`: the decrypting driver of the first version. It takes the input `N` bytes at
  a time (its own `NBytes`, the same as `src/cipher/nbytes.rs`) and writes one byte for a unit
  flagged as a lone byte, two for any other, stopping at the first error.
*/
module Decrypter {
  import opened Wrappers
  import opened Io
  import opened Units
  import Utf8
  import Algorithm
  import BytePairs
  import NBytes
  import Encrypter

  /** The bytes of one unit: `decrypt_single_char` when it is flagged, `decrypt_char_pair` otherwise. */
  function DecryptUnit(v: Variant, e: seq<bv8>): (d: seq<bv8>)
    requires |e| == Width(v)
    ensures |d| == (if Algorithm.HasSingleChar(v, e) then 1 else 2)
    ensures forall i :: 0 <= i < |d| ==> IsAscii(d[i])
  {
    if Algorithm.HasSingleChar(v, e) then Algorithm.DecryptSingleChar(v, e) else Algorithm.DecryptCharPair(v, e)
  }

  /** What one iteration writes: the bytes of a unit, or its error. */
  function DecryptChunk(v: Variant, item: Result<seq<bv8>, Error>): Result<seq<bv8>, Error>
    requires item.Ok? ==> |item.value| == Width(v)
  {
    match item
    case Ok(unit) => Ok(DecryptUnit(v, unit))
    case Err(e) => Err(e)
  }

  function DecryptChunks(v: Variant, items: seq<Result<seq<bv8>, Error>>): (r: seq<Result<seq<bv8>, Error>>)
    requires NBytes.UnitsOf(Width(v), items)
    ensures |r| == |items| && forall i :: 0 <= i < |items| ==> r[i] == DecryptChunk(v, items[i])
  {
    seq(|items|, i requires 0 <= i < |items| => DecryptChunk(v, items[i]))
  }

  /** One more iteration after `written`: the first unit's bytes are written next, or it fails. */
  lemma DecryptStep(v: Variant, written: seq<bv8>, items: seq<Result<seq<bv8>, Error>>)
    requires items != [] && NBytes.UnitsOf(Width(v), items)
    ensures items[0].Ok? ==>
      Prepend(written, Drive(DecryptChunks(v, items)))
        == Prepend(written + DecryptUnit(v, items[0].value), Drive(DecryptChunks(v, items[1..])))
    ensures items[0].Err? ==>
      Prepend(written, Drive(DecryptChunks(v, items))) == Written(written, Failed(items[0].error))
  {
    assert DecryptChunks(v, items)[1..] == DecryptChunks(v, items[1..]);
    DriveStep(written, DecryptChunks(v, items));
  }

  /** What `Decrypter::decrypt` leaves in its writer, and how it ends. */
  function DecryptSpec(v: Variant, reader: seq<ReadResult>): Written
  {
    Drive(DecryptChunks(v, NBytes.UnitItems(Width(v), reader)))
  }

  /** `Decrypter::decrypt`: one or two bytes per unit, up to the first error. */
  method Decrypt(v: Variant, reader: seq<ReadResult>) returns (written: seq<bv8>, status: Status)
    ensures Written(written, status) == DecryptSpec(v, reader)
  {
    var units := new NBytes.NBytes(Width(v), reader);
    written := [];
    while true
      invariant units.Valid() && units.n == Width(v)
      invariant DecryptSpec(v, reader) == Prepend(written, Drive(DecryptChunks(v, units.Rest())))
      decreases |units.Rest()|
    {
      ghost var rest := units.Rest();
      if rest != [] {
        DecryptStep(v, written, rest);
      }
      var next := units.Next();
      match next
      case None =>
        return written, Done;
      case Some(Err(e)) =>
        return written, Failed(e);
      case Some(Ok(unit)) =>
        written := written + DecryptUnit(v, unit);
    }
  }

  /** The bytes of each complete unit of `s`, in order. */
  function Decrypted(v: Variant, s: seq<bv8>): (r: seq<seq<bv8>>)
    ensures |r| == |NBytes.Chunks(Width(v), s)|
    ensures forall i :: 0 <= i < |r| ==> r[i] == DecryptUnit(v, NBytes.Chunks(Width(v), s)[i])
  {
    var chunks := NBytes.Chunks(Width(v), s);
    seq(|chunks|, i requires 0 <= i < |chunks| => DecryptUnit(v, chunks[i]))
  }

  /**
    A reader that never fails has its complete units decrypted; the decryption ends with
    `Ok(())` when the length is a multiple of `N`, and with the truncation error otherwise.
  */
  lemma DecryptClean(v: Variant, s: seq<bv8>)
    ensures var n := Width(v);
      DecryptSpec(v, Clean(s))
        == Written(Concat(Decrypted(v, s)), if |s| % n == 0 then Done else Failed(Truncated(n, |s| % n)))
  {
    var n, chunks, d := Width(v), NBytes.Chunks(Width(v), s), Decrypted(v, s);
    NBytes.UnitItemsClean(n, s);
    if |s| % n == 0 {
      assert OkAll(chunks) + [] == OkAll(chunks);
      assert DecryptChunks(v, OkAll(chunks)) == OkAll(d);
      DriveAllOk(d);
    } else {
      var e := Truncated(n, |s| % n);
      assert DecryptChunks(v, OkAll(chunks) + [Err(e)]) == OkAll(d) + [Err(e)] + [];
      DriveFirstError(d, e, []);
    }
  }

  /** `decrypt_size`: two bytes for every complete unit. */
  function DecryptSize(n: nat, numBytes: nat): nat
    requires n > 0
  {
    (numBytes / n) * 2
  }

  /**
    The room `decrypt_string` reserves is never too small, and exactly right when no complete
    unit holds a lone byte.
  */
  lemma DecryptSizeBound(v: Variant, s: seq<bv8>)
    ensures |Concat(Decrypted(v, s))| <= DecryptSize(Width(v), |s|)
    ensures |Concat(Decrypted(v, s))| == DecryptSize(Width(v), |s|)
        <==> forall i :: 0 <= i < |NBytes.Chunks(Width(v), s)| ==>
               !Algorithm.HasSingleChar(v, NBytes.Chunks(Width(v), s)[i])
  {
    var chunks, d := NBytes.Chunks(Width(v), s), Decrypted(v, s);
    NBytes.ChunksCover(Width(v), s);
    OneOrTwo(d);
    assert (forall i :: 0 <= i < |d| ==> |d[i]| == 2)
       <==> forall i :: 0 <= i < |chunks| ==> !Algorithm.HasSingleChar(v, chunks[i]);
  }

  /** Chunks of one or two bytes make at most two bytes each, and exactly two only if all are pairs. */
  lemma {:induction false} OneOrTwo(units: seq<seq<bv8>>)
    requires forall i :: 0 <= i < |units| ==> 1 <= |units[i]| <= 2
    ensures |Concat(units)| <= 2 * |units|
    ensures |Concat(units)| == 2 * |units| <==> forall i :: 0 <= i < |units| ==> |units[i]| == 2
  {
    if units != [] {
      OneOrTwo(units[1..]);
      if |units[0]| == 2 {
        forall i | 0 < i < |units|
          ensures |units[i]| == |units[1..][i - 1]|
        {
        }
      }
    }
  }

  /** Decrypted bytes are ASCII. */
  lemma {:induction false} ConcatAscii(units: seq<seq<bv8>>)
    requires forall i, j :: 0 <= i < |units| && 0 <= j < |units[i]| ==> IsAscii(units[i][j])
    ensures forall k :: 0 <= k < |Concat(units)| ==> IsAscii(Concat(units)[k])
  {
    if units != [] {
      ConcatAscii(units[1..]);
      assert forall i, j :: 0 <= i < |units[1..]| && 0 <= j < |units[1..][i]| ==> IsAscii(units[1..][i][j]);
    }
  }

  /**
    `decrypt_string`: decrypts a string, then `String::from_utf8`. The bytes are always ASCII,
    so the only error is a unit cut short.
  */
  method DecryptString(v: Variant, s: seq<bv8>) returns (r: Result<seq<bv8>, Error>)
    requires Utf8.WellFormed(s)
    ensures r.Ok? <==> |s| % Width(v) == 0
    ensures r.Ok? ==> r.value == Concat(Decrypted(v, s))
    ensures r.Err? ==> r.error == Truncated(Width(v), |s| % Width(v))
  {
    DecryptClean(v, s);
    var written, status := Decrypt(v, Clean(s));
    if status.Failed? {
      return Err(status.error);
    }
    ConcatAscii(Decrypted(v, s));
    Utf8.AsciiWellFormed(written);
    if !Utf8.WellFormed(written) {
      assert false;
      return Err(InvalidUtf8);
    }
    return Ok(written);
  }

  /**
    What decrypting the encryption of an ASCII input gives back: every byte at an even
    position, and every byte at an odd position with bit 5 of the byte before it ORed into
    its bit 6.
  */
  function RoundTrip(s: seq<bv8>): (r: seq<bv8>)
    ensures |r| == |s|
    decreases |s|
  {
    if |s| < 2 then s else [s[0], s[1] | ((s[0] & 0x20) << 1)] + RoundTrip(s[2..])
  }

  /** `RoundTrip` byte by byte: even positions are kept, odd ones take bit 5 of the byte before. */
  lemma {:induction false} RoundTripIndex(s: seq<bv8>, i: nat)
    requires i < |s|
    ensures i % 2 == 0 ==> RoundTrip(s)[i] == s[i]
    ensures i % 2 == 1 ==> RoundTrip(s)[i] == s[i] | ((s[i - 1] & 0x20) << 1)
    decreases |s|
  {
    if i >= 2 {
      RoundTripIndex(s[2..], i - 2);
      assert RoundTrip(s)[i] == RoundTrip(s[2..])[i - 2];
      assert s[2..][i - 2] == s[i];
      if i % 2 == 1 {
        assert s[2..][i - 3] == s[i - 1];
      }
    }
  }

  /** The bytes of a pair once it has been encrypted and decrypted. */
  function PairBack(p: BytePair): seq<bv8>
  {
    match p.1
    case Some(c1) => [p.0, c1 | ((p.0 & 0x20) << 1)]
    case None => [p.0]
  }

  /** The pairs of `s`, each once encrypted and decrypted. */
  function Back(s: seq<bv8>): (r: seq<seq<bv8>>)
    ensures |r| == |BytePairs.Pairs(s)|
    ensures forall i :: 0 <= i < |r| ==> r[i] == PairBack(BytePairs.Pairs(s)[i])
  {
    var ps := BytePairs.Pairs(s);
    seq(|ps|, i requires 0 <= i < |ps| => PairBack(ps[i]))
  }

  lemma {:induction false} ConcatPairBack(s: seq<bv8>)
    ensures Concat(Back(s)) == RoundTrip(s)
    decreases |s|
  {
    var ps := BytePairs.Pairs(s);
    if |s| >= 2 {
      ConcatPairBack(s[2..]);
      var qs := BytePairs.Pairs(s[2..]);
      assert ps == [(s[0], Some(s[1]))] + qs;
      assert Back(s) == [PairBack(ps[0])] + Back(s[2..]);
    } else if |s| == 1 {
      assert Back(s) == [[s[0]]];
    }
  }

  /** Decrypting what an ASCII input encrypts to gives back `RoundTrip` of it, and `Ok(())`. */
  lemma DecryptEncrypt(v: Variant, s: seq<bv8>)
    requires forall i :: 0 <= i < |s| ==> IsAscii(s[i])
    ensures DecryptSpec(v, Clean(Encrypter.EncryptSpec(v, Clean(s)).bytes)) == Written(RoundTrip(s), Done)
  {
    var units := Encrypter.Encrypted(v, s);
    calc {
      DecryptSpec(v, Clean(Encrypter.EncryptSpec(v, Clean(s)).bytes));
    == { Encrypter.EncryptClean(v, s); }
      DecryptSpec(v, Clean(Concat(units)));
    == { NBytes.UnitsBack(Width(v), units); }
      Drive(DecryptChunks(v, OkAll(units)));
    == { UnitsComeBack(v, s); }
      Drive(OkAll(Back(s)));
    == { DriveAllOk(Back(s)); }
      Written(Concat(Back(s)), Done);
    == { ConcatPairBack(s); }
      Written(RoundTrip(s), Done);
    }
  }

  /** Each unit of an ASCII input decrypts to its pair, altered as `PairBack` says. */
  lemma UnitsComeBack(v: Variant, s: seq<bv8>)
    requires forall i :: 0 <= i < |s| ==> IsAscii(s[i])
    ensures DecryptChunks(v, OkAll(Encrypter.Encrypted(v, s))) == OkAll(Back(s))
  {
    var items := OkAll(Encrypter.Encrypted(v, s));
    assert NBytes.UnitsOf(Width(v), items);
    var d, back := DecryptChunks(v, items), OkAll(Back(s));
    assert |d| == |back|;
    forall i | 0 <= i < |d|
      ensures d[i] == back[i]
    {
      UnitComesBack(v, s, i);
    }
  }

  lemma UnitComesBack(v: Variant, s: seq<bv8>, i: nat)
    requires forall i :: 0 <= i < |s| ==> IsAscii(s[i])
    requires i < |BytePairs.Pairs(s)|
    ensures DecryptUnit(v, Encrypter.Encrypted(v, s)[i]) == Back(s)[i]
  {
    var p := BytePairs.Pairs(s)[i];
    assert p.0 == s[2 * i];
    assert p.1.Some? ==> p.1.value == s[2 * i + 1];
    UnitBack(v, p);
  }

  lemma UnitBack(v: Variant, p: BytePair)
    requires IsAscii(p.0) && (p.1.Some? ==> IsAscii(p.1.value))
    ensures DecryptUnit(v, Encrypter.EncryptPair(v, p)) == PairBack(p)
  {
    match p.1
    case Some(c1) => Algorithm.PairDecodes(v, p.0, c1);
    case None => Algorithm.SingleRoundTrip(v, p.0);
  }

  /**
    The round trip gives the input back exactly when no pair has bit 5 set in its first byte
    and bit 6 clear in its second.
  */
  lemma RoundTripIdentity(s: seq<bv8>)
    ensures RoundTrip(s) == s <==> forall i :: 0 <= i < |s| / 2 ==> PairKept(s[2 * i], s[2 * i + 1])
  {
    if RoundTrip(s) == s {
      KeptWhenSame(s);
    }
    if forall i :: 0 <= i < |s| / 2 ==> PairKept(s[2 * i], s[2 * i + 1]) {
      SameWhenKept(s);
    }
  }

  /** A pair survives the round trip: the first byte has bit 5 clear or the second has bit 6 set. */
  predicate PairKept(c0: bv8, c1: bv8)
  {
    c0 & 0x20 == 0 || c1 & 0x40 != 0
  }

  lemma KeptWhenSame(s: seq<bv8>)
    requires RoundTrip(s) == s
    ensures forall i :: 0 <= i < |s| / 2 ==> PairKept(s[2 * i], s[2 * i + 1])
  {
    forall i | 0 <= i < |s| / 2
      ensures PairKept(s[2 * i], s[2 * i + 1])
    {
      RoundTripAt(s, i);
    }
  }

  lemma SameWhenKept(s: seq<bv8>)
    requires forall i :: 0 <= i < |s| / 2 ==> PairKept(s[2 * i], s[2 * i + 1])
    ensures RoundTrip(s) == s
  {
    var r := RoundTrip(s);
    forall j | 0 <= j < |s|
      ensures r[j] == s[j]
    {
      if j % 2 == 0 {
        RoundTripIndex(s, j);
      } else {
        var i := j / 2;
        assert j == 2 * i + 1;
        RoundTripAt(s, i);
      }
    }
  }

  /** The odd byte of pair `i` survives the round trip exactly when the pair is kept. */
  lemma RoundTripAt(s: seq<bv8>, i: nat)
    requires i < |s| / 2
    ensures RoundTrip(s)[2 * i + 1] == s[2 * i + 1] <==> PairKept(s[2 * i], s[2 * i + 1])
  {
    var j := 2 * i + 1;
    assert j % 2 == 1 && j - 1 == 2 * i;
    RoundTripIndex(s, j);
    Algorithm.PairBits(s[2 * i], s[j]);
  }

  /** The strings the first version's tests encrypt: "ad", "adgc", "bbb" and "x". */
  const TestStrings: seq<seq<bv8>> := [
    ['a' as bv8, 'd' as bv8],
    ['a' as bv8, 'd' as bv8, 'g' as bv8, 'c' as bv8],
    ['b' as bv8, 'b' as bv8, 'b' as bv8],
    ['x' as bv8]
  ]

  /** Each of them is decrypted back to itself, in both variants, with `Ok(())`. */
  lemma TestStringsComeBack(v: Variant, s: seq<bv8>)
    requires s in TestStrings
    ensures DecryptSpec(v, Clean(Encrypter.EncryptSpec(v, Clean(s)).bytes)) == Written(s, Done)
  {
    var i :| 0 <= i < |TestStrings| && TestStrings[i] == s;
    TestStringKept(i);
    RoundTripIdentity(s);
    DecryptEncrypt(v, s);
  }

  lemma TestStringKept(i: nat)
    requires i < |TestStrings|
    ensures var s := TestStrings[i];
      && (forall j :: 0 <= j < |s| ==> IsAscii(s[j]))
      && forall k :: 0 <= k < |s| / 2 ==> PairKept(s[2 * k], s[2 * k + 1])
  {
    if i == 0 {
    } else if i == 1 {
    } else if i == 2 {
    } else {
    }
  }

  /** "a1" comes back as "aq". */
  lemma A1ComesBackAq()
    ensures RoundTrip(['a' as bv8, '1' as bv8]) == ['a' as bv8, 'q' as bv8]
  {
  }
}
