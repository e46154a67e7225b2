/**
  `src/cipher/mod.rs`: the `Cipher<N>` trait. A variant encrypts the input pair by pair, one
  unit of `N` bytes per pair, and decrypts it unit by unit, one or two bytes per unit; both
  loops stop at the first error (`?`) after writing everything before it.
*/
module Cipher {
  import opened Wrappers
  import opened Io
  import opened Units
  import StandardCipher
  import ExtendedCipher
  import BytePairs
  import NBytes

  /** `encrypt_char_pair` of the variant. */
  function EncryptCharPair(v: Variant, c0: bv8, c1: Option<bv8>): (e: seq<bv8>)
    ensures |e| == Width(v)
  {
    if v == Standard then StandardCipher.EncryptCharPair(c0, c1) else ExtendedCipher.EncryptCharPair(c0, c1)
  }

  /** `decrypt_char_pair` of the variant: every unit decrypts to ASCII bytes. */
  function DecryptCharPair(v: Variant, e: seq<bv8>): (p: BytePair)
    requires |e| == Width(v)
    ensures IsAscii(p.0) && (p.1.Some? ==> IsAscii(p.1.value))
  {
    if v == Standard then StandardCipher.DecryptCharPair(e) else ExtendedCipher.DecryptCharPair(e)
  }

  /** An ASCII pair, or a lone ASCII byte, comes back from its unit unchanged. */
  lemma UnitRoundTrip(v: Variant, p: BytePair)
    requires IsAscii(p.0) && (p.1.Some? ==> IsAscii(p.1.value))
    ensures DecryptCharPair(v, EncryptCharPair(v, p.0, p.1)) == p
  {
    match (v, p.1)
    case (Standard, Some(c1)) => StandardCipher.PairRoundTrip(p.0, c1);
    case (Standard, None) => StandardCipher.SingleRoundTrip(p.0);
    case (Extended, Some(c1)) => ExtendedCipher.PairRoundTrip(p.0, c1);
    case (Extended, None) => ExtendedCipher.SingleRoundTrip(p.0);
  }

  /** What one iteration of `encrypt` writes: the unit of a pair, or the pair's error. */
  function EncryptChunk(v: Variant, item: Result<BytePair, Error>): Result<seq<bv8>, Error>
  {
    match item
    case Ok(p) => Ok(EncryptCharPair(v, p.0, p.1))
    case Err(e) => Err(e)
  }

  function EncryptChunks(v: Variant, items: seq<Result<BytePair, Error>>): (r: seq<Result<seq<bv8>, Error>>)
    ensures |r| == |items| && forall i :: 0 <= i < |items| ==> r[i] == EncryptChunk(v, items[i])
  {
    seq(|items|, i requires 0 <= i < |items| => EncryptChunk(v, items[i]))
  }

  /** What `encrypt` leaves in its writer, and how it ends. */
  function EncryptSpec(v: Variant, reader: seq<ReadResult>): Written
  {
    Drive(EncryptChunks(v, BytePairs.PairItems(reader)))
  }

  /** What one iteration of `decrypt` writes: the one or two bytes of a unit, or its error. */
  function DecryptChunk(v: Variant, item: Result<seq<bv8>, Error>): Result<seq<bv8>, Error>
    requires item.Ok? ==> |item.value| == Width(v)
  {
    match item
    case Ok(unit) => Ok(PairBytes(DecryptCharPair(v, unit)))
    case Err(e) => Err(e)
  }

  function DecryptChunks(v: Variant, items: seq<Result<seq<bv8>, Error>>): (r: seq<Result<seq<bv8>, Error>>)
    requires NBytes.UnitsOf(Width(v), items)
    ensures |r| == |items| && forall i :: 0 <= i < |items| ==> r[i] == DecryptChunk(v, items[i])
  {
    seq(|items|, i requires 0 <= i < |items| => DecryptChunk(v, items[i]))
  }

  /** What `decrypt` leaves in its writer, and how it ends. */
  function DecryptSpec(v: Variant, reader: seq<ReadResult>): Written
  {
    Drive(DecryptChunks(v, NBytes.UnitItems(Width(v), reader)))
  }

  lemma EncryptChunksTail(v: Variant, items: seq<Result<BytePair, Error>>)
    requires items != []
    ensures EncryptChunks(v, items)[1..] == EncryptChunks(v, items[1..])
  {
    assert EncryptChunks(v, items)[1..] == EncryptChunks(v, items[1..]);
  }

  lemma DecryptChunksTail(v: Variant, items: seq<Result<seq<bv8>, Error>>)
    requires items != [] && NBytes.UnitsOf(Width(v), items)
    ensures DecryptChunks(v, items)[1..] == DecryptChunks(v, items[1..])
  {
    assert DecryptChunks(v, items)[1..] == DecryptChunks(v, items[1..]);
  }

  /** `Cipher::encrypt`: one unit per pair of `BytePairs`, up to the first error. */
  method Encrypt(v: Variant, reader: seq<ReadResult>) returns (written: seq<bv8>, status: Status)
    ensures Written(written, status) == EncryptSpec(v, reader)
  {
    var pairs := new BytePairs.BytePairs(reader);
    written := [];
    while true
      invariant pairs.Valid()
      invariant EncryptSpec(v, reader) == Prepend(written, Drive(EncryptChunks(v, pairs.Rest())))
      decreases |pairs.Rest()|
    {
      ghost var rest := pairs.Rest();
      if rest != [] {
        EncryptChunksTail(v, rest);
        DriveStep(written, EncryptChunks(v, rest));
      }
      var next := pairs.Next();
      match next
      case None =>
        return written, Done;
      case Some(Err(e)) =>
        return written, Failed(e);
      case Some(Ok(p)) =>
        var encrypted := EncryptCharPair(v, p.0, p.1);
        written := written + encrypted;
    }
  }

  /** `Cipher::decrypt`: one or two bytes per unit of `NBytes`, up to the first error. */
  method Decrypt(v: Variant, reader: seq<ReadResult>) returns (written: seq<bv8>, status: Status)
    ensures Written(written, status) == DecryptSpec(v, reader)
  {
    var units := new NBytes.NBytes(Width(v), reader);
    written := [];
    while true
      invariant units.Valid() && units.n == Width(v)
      invariant DecryptSpec(v, reader) == Prepend(written, Drive(DecryptChunks(v, units.Rest())))
      decreases |units.Rest()|
    {
      ghost var rest := units.Rest();
      if rest != [] {
        DecryptChunksTail(v, rest);
        DriveStep(written, DecryptChunks(v, rest));
      }
      var next := units.Next();
      match next
      case None =>
        return written, Done;
      case Some(Err(e)) =>
        return written, Failed(e);
      case Some(Ok(unit)) =>
        var decrypted := PairBytes(DecryptCharPair(v, unit));
        written := written + decrypted;
    }
  }

  /** The units of the pairs of `s`. */
  function Encrypted(v: Variant, s: seq<bv8>): (r: seq<seq<bv8>>)
    ensures |r| == |BytePairs.Pairs(s)|
    ensures forall i :: 0 <= i < |r| ==> |r[i]| == Width(v)
  {
    var ps := BytePairs.Pairs(s);
    seq(|ps|, i requires 0 <= i < |ps| => EncryptCharPair(v, ps[i].0, ps[i].1))
  }

  /**
    A reader that never fails is encrypted whole: one unit per pair, so `N` bytes for every
    two input bytes or fewer, and the encryption ends with `Ok(())`.
  */
  lemma EncryptClean(v: Variant, s: seq<bv8>)
    ensures EncryptSpec(v, Clean(s)) == Written(Concat(Encrypted(v, s)), Done)
    ensures |EncryptSpec(v, Clean(s)).bytes| == Width(v) * ((|s| + 1) / 2)
  {
    var ps := BytePairs.Pairs(s);
    BytePairs.PairItemsClean(s);
    assert EncryptChunks(v, OkAll(ps)) == OkAll(Encrypted(v, s));
    DriveAllOk(Encrypted(v, s));
    ConcatLength(Encrypted(v, s), Width(v));
  }

  /** Decrypting what an ASCII input encrypts to gives back the input, and `Ok(())`. */
  lemma DecryptEncrypt(v: Variant, s: seq<bv8>)
    requires forall i :: 0 <= i < |s| ==> IsAscii(s[i])
    ensures DecryptSpec(v, Clean(EncryptSpec(v, Clean(s)).bytes)) == Written(s, Done)
  {
    var ps, units := BytePairs.Pairs(s), Encrypted(v, s);
    EncryptClean(v, s);
    NBytes.UnitsBack(Width(v), units);
    var decrypted := seq(|ps|, i requires 0 <= i < |ps| => PairBytes(ps[i]));
    forall i | 0 <= i < |ps|
      ensures DecryptChunks(v, OkAll(units))[i] == OkAll(decrypted)[i]
    {
      assert ps[i].0 == s[2 * i];
      UnitRoundTrip(v, ps[i]);
    }
    assert DecryptChunks(v, OkAll(units)) == OkAll(decrypted);
    DriveAllOk(decrypted);
    ConcatPairBytes(ps);
    BytePairs.FlattenPairs(s);
  }

  lemma {:induction false} ConcatPairBytes(ps: seq<BytePair>)
    ensures Concat(seq(|ps|, i requires 0 <= i < |ps| => PairBytes(ps[i]))) == BytePairs.Flatten(ps)
  {
    if ps != [] {
      ConcatPairBytes(ps[1..]);
      assert seq(|ps|, i requires 0 <= i < |ps| => PairBytes(ps[i]))[1..]
          == seq(|ps| - 1, i requires 0 <= i < |ps| - 1 => PairBytes(ps[1..][i]));
    }
  }

  /**
    Encrypted input whose length is not a multiple of `N` decrypts its complete units and then
    fails with the truncation error, naming `N` and the bytes left over.
  */
  lemma DecryptTruncated(v: Variant, s: seq<bv8>)
    requires |s| % Width(v) != 0
    ensures var chunks := NBytes.Chunks(Width(v), s);
      DecryptSpec(v, Clean(s)).bytes
        == Concat(seq(|chunks|, i requires 0 <= i < |chunks| => PairBytes(DecryptCharPair(v, chunks[i]))))
    ensures DecryptSpec(v, Clean(s)).status == Failed(Truncated(Width(v), |s| % Width(v)))
  {
    var n := Width(v);
    var chunks := NBytes.Chunks(n, s);
    NBytes.UnitItemsClean(n, s);
    var decrypted := seq(|chunks|, i requires 0 <= i < |chunks| => PairBytes(DecryptCharPair(v, chunks[i])));
    assert DecryptChunks(v, OkAll(chunks) + [Err(Truncated(n, |s| % n))])
        == OkAll(decrypted) + [Err(Truncated(n, |s| % n))] + [];
    DriveFirstError(decrypted, Truncated(n, |s| % n), []);
  }
}
