/**
  `src/cipher/encrypt.rs`: an encrypting driver over its own fused pair iterator, which yields
  the raw items of each pair (read errors included) and leaves the `?` to the loop. Its
  cipher is the five-operation interface of `src/cipher.rs`.
*/
module CipherEncrypt {
  import opened Wrappers
  import opened Io
  import opened Units
  import Algorithm
  import BytePairs
  import Encrypter

  /** `RawBytePairs`: a fused byte iterator over `src` (cursor `pos`, `done` once it has seen the end). */
  class RawBytePairs {
    const src: seq<ReadResult>
    var pos: nat
    var done: bool

    ghost predicate Valid()
      reads this
    {
      pos <= |src| && (done ==> pos == |src|)
    }

    /** The raw pairs still to come. */
    ghost function Rest(): seq<BytePairs.RawPair>
      reads this
      requires Valid()
    {
      if done then [] else BytePairs.RawPairs(src[pos..])
    }

    /** `BytePairs::new`: fuses the byte iterator. */
    constructor (reader: seq<ReadResult>)
      ensures src == reader && Valid() && !done
      ensures Rest() == BytePairs.RawPairs(reader)
    {
      src, pos, done := reader, 0, false;
      new;
      assert reader[0..] == reader;
    }

    /** `Fuse<Bytes>::next`. */
    method NextByte() returns (r: Option<ReadResult>)
      requires Valid()
      modifies this
      ensures Valid()
      ensures old(done) || old(pos) == |src| ==> r.None? && done && pos == old(pos)
      ensures !old(done) && old(pos) < |src| ==> r == Some(src[old(pos)]) && !done && pos == old(pos) + 1
    {
      if done || pos == |src| {
        done := true;
        return None;
      }
      r := Some(src[pos]);
      pos := pos + 1;
    }

    /** `Iterator::next`: two items, the second possibly missing, or `None` at the end. */
    method Next() returns (r: Option<BytePairs.RawPair>)
      requires Valid()
      modifies this
      ensures Valid()
      ensures old(Rest()) == [] ==> r.None? && done && Rest() == []
      ensures old(Rest()) != [] ==> r == Some(old(Rest())[0]) && Rest() == old(Rest())[1..]
    {
      ghost var s := src[pos..];
      if |s| >= 2 {
        assert s[2..] == src[pos + 2..];
      }
      var b0 := NextByte();
      var b1 := NextByte();
      match b0
      case None => r := None;
      case Some(c0) => r := Some((c0, b1));
    }
  }

  /** What one iteration writes: the match on the raw pair, with its `?`s. */
  function RawChunk(v: Variant, raw: BytePairs.RawPair): Result<seq<bv8>, Error>
  {
    match raw.1
    case Some(c1) =>
      if raw.0.ReadError? || c1.ReadError? then Err(ReadFailed)
      else Ok(Algorithm.EncryptCharPair(v, raw.0.value, c1.value))
    case None =>
      if raw.0.ReadError? then Err(ReadFailed)
      else Ok(Algorithm.EncryptSingleChar(v, raw.0.value))
  }

  function RawChunks(v: Variant, raws: seq<BytePairs.RawPair>): (r: seq<Result<seq<bv8>, Error>>)
    ensures |r| == |raws| && forall i :: 0 <= i < |raws| ==> r[i] == RawChunk(v, raws[i])
  {
    seq(|raws|, i requires 0 <= i < |raws| => RawChunk(v, raws[i]))
  }

  /** One more iteration after `written`: the first raw pair's unit is written next, or it fails. */
  lemma RawStep(v: Variant, written: seq<bv8>, raws: seq<BytePairs.RawPair>)
    requires raws != []
    ensures RawChunk(v, raws[0]).Ok? ==>
      Prepend(written, Drive(RawChunks(v, raws)))
        == Prepend(written + RawChunk(v, raws[0]).value, Drive(RawChunks(v, raws[1..])))
    ensures RawChunk(v, raws[0]).Err? ==>
      Prepend(written, Drive(RawChunks(v, raws))) == Written(written, Failed(ReadFailed))
  {
    assert RawChunks(v, raws)[1..] == RawChunks(v, raws[1..]);
    DriveStep(written, RawChunks(v, raws));
  }

  /**
    Taking the `?` inside the loop rather than inside the iterator changes nothing: both
    first-version encrypters write the same units and stop at the same read error.
  */
  lemma SameAsEncrypter(v: Variant, reader: seq<ReadResult>)
    ensures Drive(RawChunks(v, BytePairs.RawPairs(reader))) == Encrypter.EncryptSpec(v, reader)
  {
    var raws := BytePairs.RawPairs(reader);
    forall i | 0 <= i < |raws|
      ensures RawChunks(v, raws)[i] == Encrypter.EncryptChunks(v, BytePairs.PairItems(reader))[i]
    {
    }
    assert RawChunks(v, raws) == Encrypter.EncryptChunks(v, BytePairs.PairItems(reader));
  }

  /** `Encrypter::encrypt`: one unit per raw pair, up to the first read error. */
  method Encrypt(v: Variant, reader: seq<ReadResult>) returns (written: seq<bv8>, status: Status)
    ensures Written(written, status) == Encrypter.EncryptSpec(v, reader)
  {
    SameAsEncrypter(v, reader);
    var pairs := new RawBytePairs(reader);
    written := [];
    while true
      invariant pairs.Valid()
      invariant Encrypter.EncryptSpec(v, reader) == Prepend(written, Drive(RawChunks(v, pairs.Rest())))
      decreases |pairs.Rest()|
    {
      ghost var rest := pairs.Rest();
      if rest != [] {
        RawStep(v, written, rest);
      }
      var next := pairs.Next();
      if next.None? {
        return written, Done;
      }
      var encrypted: seq<bv8>;
      match next.value {
        case (c0, Some(c1)) =>
          if c0.ReadError? || c1.ReadError? {
            return written, Failed(ReadFailed);
          }
          encrypted := Algorithm.EncryptCharPair(v, c0.value, c1.value);
        case (c0, None) =>
          if c0.ReadError? {
            return written, Failed(ReadFailed);
          }
          encrypted := Algorithm.EncryptSingleChar(v, c0.value);
      }
      written := written + encrypted;
    }
  }
}
