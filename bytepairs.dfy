/**
  `src/cipher/bytepairs.rs`: the input taken two bytes at a time. Each `next_pair` pulls two
  items from a fused byte iterator; the second may be missing at the end of an odd-length
  input, and a read error in either item makes the whole pair an error.
*/
module BytePairs {
  import opened Wrappers
  import opened Io
  import opened Units

  /** The two items one `next_pair` pulls: the first is there, the second may be missing. */
  type RawPair = (ReadResult, Option<ReadResult>)

  /** The raw pairs a fused reader yields: item `2i` and, when there is one, item `2i + 1`. */
  function RawPairs(s: seq<ReadResult>): (r: seq<RawPair>)
    ensures |r| == (|s| + 1) / 2
    ensures forall i :: 0 <= i < |r| ==> r[i].0 == s[2 * i]
    ensures forall i :: 0 <= i < |r| ==> r[i].1 == if 2 * i + 1 < |s| then Some(s[2 * i + 1]) else None
    decreases |s|
  {
    if s == [] then []
    else if |s| == 1 then [(s[0], None)]
    else [(s[0], Some(s[1]))] + RawPairs(s[2..])
  }

  /** One pair, or the read error of either of its items (the two `?` of `next_pair`). */
  function PairOf(raw: RawPair): (r: Result<BytePair, Error>)
    ensures r.Ok? <==> raw.0.Byte? && (raw.1.Some? ==> raw.1.value.Byte?)
    ensures r.Ok? ==> r.value.0 == raw.0.value && r.value.1.Some? == raw.1.Some?
    ensures r.Ok? && raw.1.Some? ==> r.value.1.value == raw.1.value.value
    ensures r.Err? ==> r.error == ReadFailed
  {
    match raw
    case (ReadError, _) => Err(ReadFailed)
    case (Byte(b0), None) => Ok((b0, None))
    case (Byte(_), Some(ReadError)) => Err(ReadFailed)
    case (Byte(b0), Some(Byte(b1))) => Ok((b0, Some(b1)))
  }

  /** Every item the iterator yields before it ends. */
  function PairItems(s: seq<ReadResult>): (r: seq<Result<BytePair, Error>>)
    ensures |r| == (|s| + 1) / 2
  {
    var raw := RawPairs(s);
    seq(|raw|, i requires 0 <= i < |raw| => PairOf(raw[i]))
  }

  /** The pairs of a reader that never fails: the reference the iterator is measured against. */
  function Pairs(s: seq<bv8>): (r: seq<BytePair>)
    ensures |r| == (|s| + 1) / 2
    ensures forall i :: 0 <= i < |r| ==> r[i].0 == s[2 * i]
    ensures forall i :: 0 <= i < |r| ==> r[i].1 == if 2 * i + 1 < |s| then Some(s[2 * i + 1]) else None
    decreases |s|
  {
    if s == [] then []
    else if |s| == 1 then [(s[0], None)]
    else [(s[0], Some(s[1]))] + Pairs(s[2..])
  }

  /** The bytes the pairs stand for, in order. */
  function Flatten(ps: seq<BytePair>): seq<bv8>
  {
    if ps == [] then [] else PairBytes(ps[0]) + Flatten(ps[1..])
  }

  /** Flattening the pairs gives back the input, byte for byte. */
  lemma {:induction false} FlattenPairs(s: seq<bv8>)
    ensures Flatten(Pairs(s)) == s
    decreases |s|
  {
    if |s| >= 2 {
      FlattenPairs(s[2..]);
      assert [s[0], s[1]] + s[2..] == s;
    }
  }

  /**
    Every pair but the last has its second byte, and the last lacks it exactly when the input
    has an odd length.
  */
  lemma PairsShape(s: seq<bv8>)
    ensures forall i :: 0 <= i < |Pairs(s)| - 1 ==> Pairs(s)[i].1.Some?
    ensures |s| > 0 ==> (Pairs(s)[|Pairs(s)| - 1].1.None? <==> |s| % 2 == 1)
  {
  }

  /** A reader that never fails yields exactly the pairs, each a success. */
  lemma PairItemsClean(s: seq<bv8>)
    ensures PairItems(Clean(s)) == OkAll(Pairs(s))
  {
    var c, raw := Clean(s), RawPairs(Clean(s));
    forall i | 0 <= i < |raw|
      ensures PairItems(c)[i] == OkAll(Pairs(s))[i]
    {
      assert raw[i].0 == Byte(s[2 * i]);
    }
  }

  /** A read error in item `k` makes pair `k / 2` an error. */
  lemma ReadErrorSurfaces(s: seq<ReadResult>, k: nat)
    requires k < |s| && s[k].ReadError?
    ensures PairItems(s)[k / 2] == Err(ReadFailed)
  {
    var raw := RawPairs(s);
    assert raw[k / 2].0 == s[k] || raw[k / 2].1 == Some(s[k]);
  }

  /** The first raw pair, then the rest: one `next_pair` takes two items. */
  lemma PairItemsStep(s: seq<ReadResult>)
    requires |s| >= 2
    ensures PairItems(s) == [PairOf((s[0], Some(s[1])))] + PairItems(s[2..])
  {
    assert RawPairs(s) == [(s[0], Some(s[1]))] + RawPairs(s[2..]);
  }

  /**
    `BytePairs`: a fused byte iterator over `src` (its cursor `pos`, and `done` once it has
    seen the end) that yields the pairs.
  */
  class BytePairs {
    const src: seq<ReadResult>
    var pos: nat
    var done: bool

    ghost predicate Valid()
      reads this
    {
      pos <= |src| && (done ==> pos == |src|)
    }

    /** The items still to come. */
    ghost function Rest(): seq<Result<BytePair, Error>>
      reads this
      requires Valid()
    {
      if done then [] else PairItems(src[pos..])
    }

    /** `BytePairs::new`. */
    constructor (reader: seq<ReadResult>)
      ensures src == reader && Valid() && !done
      ensures Rest() == PairItems(reader)
    {
      src, pos, done := reader, 0, false;
      new;
      assert reader[0..] == reader;
    }

    /** `Fuse<Bytes>::next`: the next item, and nothing ever again once the end was seen. */
    method NextByte() returns (r: Option<ReadResult>)
      requires Valid()
      modifies this
      ensures Valid()
      ensures old(done) || old(pos) == |src| ==> r.None? && done && pos == old(pos)
      ensures !old(done) && old(pos) < |src| ==> r == Some(src[old(pos)]) && !done && pos == old(pos) + 1
    {
      if done || pos == |src| {
        done := true;
        return None;
      }
      r := Some(src[pos]);
      pos := pos + 1;
    }

    /** `next_pair`: two items, made into a pair or an error, or `Ok(None)` at the end. */
    method NextPair() returns (r: Result<Option<BytePair>, Error>)
      requires Valid()
      modifies this
      ensures Valid()
      ensures old(Rest()) == [] ==> r == Ok(None) && done
      ensures old(Rest()) != [] ==> Rest() == old(Rest())[1..]
      ensures old(Rest()) != [] && old(Rest())[0].Ok? ==> r == Ok(Some(old(Rest())[0].value))
      ensures old(Rest()) != [] && old(Rest())[0].Err? ==> r == Err(old(Rest())[0].error)
    {
      ghost var s := src[pos..];
      ghost var items := Rest();
      if |s| >= 2 {
        PairItemsStep(s);
        assert s[2..] == src[pos + 2..];
      }
      var first := NextByte();
      var second := NextByte();
      if first.None? {
        return Ok(None);
      }
      assert items[0] == PairOf((first.value, second));
      if first.value.ReadError? {
        return Err(ReadFailed);
      }
      if second.None? {
        return Ok(Some((first.value.value, None)));
      }
      if second.value.ReadError? {
        return Err(ReadFailed);
      }
      return Ok(Some((first.value.value, Some(second.value.value))));
    }

    /** `Iterator::next`: the next item, or `None` from the end on. */
    method Next() returns (r: Option<Result<BytePair, Error>>)
      requires Valid()
      modifies this
      ensures Valid()
      ensures old(Rest()) == [] ==> r.None? && done && Rest() == []
      ensures old(Rest()) != [] ==> r == Some(old(Rest())[0]) && Rest() == old(Rest())[1..]
    {
      var pair := NextPair();
      match pair
      case Ok(None) => r := None;
      case Ok(Some(p)) => r := Some(Ok(p));
      case Err(e) => r := Some(Err(e));
    }
  }
}
