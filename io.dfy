/**
  The byte-stream plumbing every version of the cipher shares: what `Read::bytes()` yields,
  the errors the transform reports, and what a driver loop leaves in its writer.

  A reader is a finite sequence of `ReadResult`s (a sequence ends once and for all, so it is
  fused by construction); a writer is the sequence of bytes a driver appends to.
*/
module Io {
  import opened Wrappers

  /** One item of `Read::bytes()`: a byte, or a read that failed. */
  datatype ReadResult = Byte(value: bv8) | ReadError

  /** The errors of the transform (the source builds them as `anyhow` messages). */
  datatype Error =
    | ReadFailed                            // an I/O error from the reader
    | Truncated(expected: nat, found: nat)  // a unit of `expected` bytes cut short after `found` bytes
    | InvalidFirstByte(first: bv8)          // `char_len` refused a lead byte
    | UnexpectedEof                         // `read_exact` ran out of input
    | InvalidUtf8                           // `from_utf8` refused the bytes

  /** How a driver call ended: `Ok(())` or the error it returned. */
  datatype Status = Done | Failed(error: Error)

  /** What a driver call left in its writer, and how it ended. */
  datatype Written = Written(bytes: seq<bv8>, status: Status)

  /** The items of a reader that never fails and yields the bytes `s`. */
  function Clean(s: seq<bv8>): (r: seq<ReadResult>)
    ensures |r| == |s|
    ensures forall i :: 0 <= i < |s| ==> r[i] == Byte(s[i])
  {
    seq(|s|, i requires 0 <= i < |s| => Byte(s[i]))
  }

  lemma CleanDrop(s: seq<bv8>, k: nat)
    requires k <= |s|
    ensures Clean(s)[k..] == Clean(s[k..])
  {
    assert Clean(s)[k..] == Clean(s[k..]);
  }

  lemma CleanTake(s: seq<bv8>, k: nat)
    requires k <= |s|
    ensures Clean(s)[..k] == Clean(s[..k])
  {
    assert Clean(s)[..k] == Clean(s[..k]);
  }

  /** The bytes of items that are all bytes. */
  function Values(s: seq<ReadResult>): (r: seq<bv8>)
    requires forall i :: 0 <= i < |s| ==> s[i].Byte?
    ensures |r| == |s|
    ensures forall i :: 0 <= i < |s| ==> r[i] == s[i].value
  {
    seq(|s|, i requires 0 <= i < |s| => s[i].value)
  }

  lemma ValuesClean(s: seq<bv8>)
    ensures Values(Clean(s)) == s
  {
  }

  /**
    How many items, of at most the first `limit`, a reader yields as bytes before it fails or
    ends: the contract pins the number down, since a shorter count would stop at a byte.
  */
  function LeadingBytes(s: seq<ReadResult>, limit: nat): (k: nat)
    ensures k <= limit && k <= |s|
    ensures forall i :: 0 <= i < k ==> s[i].Byte?
    ensures k < limit && k < |s| ==> s[k].ReadError?
  {
    if limit == 0 || s == [] || s[0].ReadError? then 0 else 1 + LeadingBytes(s[1..], limit - 1)
  }

  /** Nothing else can be the count: the contract of `LeadingBytes` determines it. */
  lemma LeadingBytesIs(s: seq<ReadResult>, limit: nat, k: nat)
    requires k <= limit && k <= |s|
    requires forall i :: 0 <= i < k ==> s[i].Byte?
    requires k < limit && k < |s| ==> s[k].ReadError?
    ensures LeadingBytes(s, limit) == k
  {
  }

  /**
    What one call of an iterator's `next` yields: `End` (its `None`), or an item together with
    the number of reader items it used up.
  */
  datatype Step<T> = End | Item(item: Result<T, Error>, used: nat)

  /** Every item in `s` is a byte. */
  predicate AllBytes(s: seq<ReadResult>)
  {
    forall i :: 0 <= i < |s| ==> s[i].Byte?
  }

  /** The bytes of the chunks, in order. */
  function Concat(chunks: seq<seq<bv8>>): seq<bv8>
  {
    if chunks == [] then [] else chunks[0] + Concat(chunks[1..])
  }

  /** Chunks of `n` bytes each make `n` bytes per chunk. */
  lemma {:induction false} ConcatLength(chunks: seq<seq<bv8>>, n: nat)
    requires forall i :: 0 <= i < |chunks| ==> |chunks[i]| == n
    ensures |Concat(chunks)| == n * |chunks|
  {
    if chunks != [] {
      ConcatLength(chunks[1..], n);
    }
  }

  /** Every chunk, each a success. */
  function OkAll<T>(xs: seq<T>): (r: seq<Result<T, Error>>)
    ensures |r| == |xs|
    ensures forall i :: 0 <= i < |xs| ==> r[i] == Ok(xs[i])
  {
    seq(|xs|, i requires 0 <= i < |xs| => Ok(xs[i]))
  }

  lemma OkAllCons<T>(x: T, xs: seq<T>)
    ensures OkAll([x] + xs) == [Ok(x)] + OkAll(xs)
  {
    assert OkAll([x] + xs) == [Ok(x)] + OkAll(xs);
  }

  /** `w`, after `prefix` was written before it. */
  function Prepend(prefix: seq<bv8>, w: Written): Written
  {
    Written(prefix + w.bytes, w.status)
  }

  /**
    What a driver loop writes when its iterations, in turn, would write the chunks `chunks`
    or fail: every chunk before the first error, and then that error (`?` in the source).
  */
  function Drive(chunks: seq<Result<seq<bv8>, Error>>): Written
  {
    if chunks == [] then Written([], Done)
    else match chunks[0]
      case Err(e) => Written([], Failed(e))
      case Ok(bytes) => Prepend(bytes, Drive(chunks[1..]))
  }

  /** One more iteration after `prefix` was written: its chunk is written next, or it fails. */
  lemma DriveStep(prefix: seq<bv8>, chunks: seq<Result<seq<bv8>, Error>>)
    requires chunks != []
    ensures chunks[0].Ok? ==>
      Prepend(prefix, Drive(chunks)) == Prepend(prefix + chunks[0].value, Drive(chunks[1..]))
    ensures chunks[0].Err? ==> Prepend(prefix, Drive(chunks)) == Written(prefix, Failed(chunks[0].error))
  {
    if chunks[0].Ok? {
      var rest := Drive(chunks[1..]).bytes;
      assert prefix + (chunks[0].value + rest) == (prefix + chunks[0].value) + rest;
    } else {
      assert prefix + [] == prefix;
    }
  }

  /** A run of successful iterations writes their chunks and then goes on with the rest. */
  lemma {:induction false} DriveOkPrefix(oks: seq<seq<bv8>>, rest: seq<Result<seq<bv8>, Error>>)
    ensures Drive(OkAll(oks) + rest) == Prepend(Concat(oks), Drive(rest))
  {
    if oks == [] {
      assert OkAll(oks) + rest == rest;
    } else {
      assert (OkAll(oks) + rest)[1..] == OkAll(oks[1..]) + rest;
      DriveOkPrefix(oks[1..], rest);
    }
  }

  /** When every iteration succeeds the loop writes everything and returns `Ok(())`. */
  lemma DriveAllOk(oks: seq<seq<bv8>>)
    ensures Drive(OkAll(oks)) == Written(Concat(oks), Done)
  {
    DriveOkPrefix(oks, []);
    assert OkAll(oks) + [] == OkAll(oks);
  }

  /** The first error aborts the loop: nothing after it is written. */
  lemma DriveFirstError(oks: seq<seq<bv8>>, e: Error, rest: seq<Result<seq<bv8>, Error>>)
    ensures Drive(OkAll(oks) + [Err(e)] + rest) == Written(Concat(oks), Failed(e))
  {
    assert OkAll(oks) + [Err(e)] + rest == OkAll(oks) + ([Err(e)] + rest);
    DriveOkPrefix(oks, [Err(e)] + rest);
  }
}
