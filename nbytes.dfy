/**
  `src/cipher/nbytes.rs` (and the identical `NBytes` of `src/decrypt.rs`): encrypted input taken
  `n` bytes at a time. A unit cut short by the end of the input is an error that names `n` and
  the bytes found, and the end of the input at a unit boundary ends the iteration.
*/
module NBytes {
  import opened Wrappers
  import opened Io

  /** One `next`: a full unit, a read error, a unit cut short by the end, or the end itself. */
  function ReadUnit(n: nat, s: seq<ReadResult>): (r: Step<seq<bv8>>)
    requires n > 0
    ensures r.End? <==> s == []
    ensures r.Item? ==> 0 < r.used <= |s|
    ensures r.Item? && r.item.Ok? ==>
      r.used == n && |r.item.value| == n && forall i :: 0 <= i < n ==> s[i] == Byte(r.item.value[i])
    ensures r.Item? && r.item == Err(ReadFailed) <==> exists i :: 0 <= i < n && i < |s| && s[i].ReadError?
    ensures r.Item? && r.item.Err? && r.item.error.Truncated? ==>
      0 < |s| < n && AllBytes(s) && r.item.error == Truncated(n, |s|)
  {
    var k := LeadingBytes(s, n);
    if k == n then Item(Ok(Values(s[..n])), n)
    else if k < |s| then Item(Err(ReadFailed), k + 1)
    else if k == 0 then End
    else Item(Err(Truncated(n, k)), k)
  }

  /** Every unit among `items` has `n` bytes. */
  predicate UnitsOf(n: nat, items: seq<Result<seq<bv8>, Error>>)
  {
    forall i :: 0 <= i < |items| && items[i].Ok? ==> |items[i].value| == n
  }

  /** Every item the iterator yields before its first `None`. */
  function UnitItems(n: nat, s: seq<ReadResult>): (r: seq<Result<seq<bv8>, Error>>)
    requires n > 0
    ensures UnitsOf(n, r)
    decreases |s|
  {
    match ReadUnit(n, s)
    case End => []
    case Item(item, used) => [item] + UnitItems(n, s[used..])
  }

  /** The complete units of `s`, in order. */
  function Chunks(n: nat, s: seq<bv8>): (r: seq<seq<bv8>>)
    requires n > 0
    ensures forall i :: 0 <= i < |r| ==> |r[i]| == n
    decreases |s|
  {
    if |s| < n then [] else [s[..n]] + Chunks(n, s[n..])
  }

  /** What follows the complete units of `m` bytes: nothing, or the truncation error. */
  function Leftover(n: nat, m: nat): seq<Result<seq<bv8>, Error>>
    requires n > 0
  {
    if m % n == 0 then [] else [Err(Truncated(n, m % n))]
  }

  /**
    A reader that never fails yields its complete units and then, when its length is not a
    multiple of `n`, one truncation error naming `n` and the bytes left over.
  */
  lemma {:induction false} UnitItemsClean(n: nat, s: seq<bv8>)
    requires n == 3 || n == 4
    ensures UnitItems(n, Clean(s)) == OkAll(Chunks(n, s)) + Leftover(n, |s|)
    decreases |s|
  {
    if |s| >= n {
      var head, rest := [Ok(s[..n])], OkAll(Chunks(n, s[n..]));
      CleanUnit(n, s);
      UnitItemsClean(n, s[n..]);
      DivStep(n, |s|);
      assert Leftover(n, |s| - n) == Leftover(n, |s|);
      OkAllCons(s[..n], Chunks(n, s[n..]));
      assert head + (rest + Leftover(n, |s|)) == (head + rest) + Leftover(n, |s|);
    } else {
      DivSmall(n, |s|);
      CleanTail(n, s);
    }
  }

  /** A reader that never fails and holds a full unit yields it first. */
  lemma CleanUnit(n: nat, s: seq<bv8>)
    requires 0 < n <= |s|
    ensures UnitItems(n, Clean(s)) == [Ok(s[..n])] + UnitItems(n, Clean(s[n..]))
  {
    LeadingBytesIs(Clean(s), n, n);
    CleanDrop(s, n);
    assert Values(Clean(s)[..n]) == s[..n];
  }

  /** A reader that never fails and holds less than a unit yields only the truncation error. */
  lemma CleanTail(n: nat, s: seq<bv8>)
    requires |s| < n
    ensures UnitItems(n, Clean(s)) == if s == [] then [] else [Err(Truncated(n, |s|))]
  {
    if s != [] {
      LeadingBytesIs(Clean(s), n, |s|);
      assert UnitItems(n, Clean(s)) == [Err(Truncated(n, |s|))] + UnitItems(n, Clean(s)[|s|..]);
    }
  }

  /** There are `|s| / n` complete units, and together with the leftover bytes they are `s`. */
  lemma {:induction false} ChunksCover(n: nat, s: seq<bv8>)
    requires n == 3 || n == 4
    ensures |Chunks(n, s)| == |s| / n
    ensures Concat(Chunks(n, s)) + s[|s| - |s| % n..] == s
    decreases |s|
  {
    if |s| >= n {
      var rest := s[n..];
      ChunksCover(n, rest);
      DivStep(n, |s|);
      var tail := s[|s| - |s| % n..];
      assert rest[|rest| - |rest| % n..] == tail;
      assert Chunks(n, s) == [s[..n]] + Chunks(n, rest);
      calc {
        Concat(Chunks(n, s)) + tail;
        (s[..n] + Concat(Chunks(n, rest))) + tail;
        s[..n] + (Concat(Chunks(n, rest)) + tail);
        s[..n] + rest;
        s;
      }
    } else {
      DivSmall(n, |s|);
    }
  }

  lemma DivStep(n: nat, m: nat)
    requires (n == 3 || n == 4) && m >= n
    ensures (m - n) % n == m % n && (m - n) / n + 1 == m / n
  {
    if n == 3 {
      DivStep3(m);
    } else {
      DivStep4(m);
    }
  }

  lemma DivStep3(m: nat)
    requires m >= 3
    ensures (m - 3) % 3 == m % 3 && (m - 3) / 3 + 1 == m / 3
  {
  }

  lemma DivStep4(m: nat)
    requires m >= 4
    ensures (m - 4) % 4 == m % 4 && (m - 4) / 4 + 1 == m / 4
  {
  }

  lemma DivSmall(n: nat, m: nat)
    requires (n == 3 || n == 4) && m < n
    ensures m % n == m && m / n == 0
  {
    if n == 3 {
    } else {
    }
  }

  /** The complete units of units written one after another are those units. */
  lemma {:induction false} ChunksOfUnits(n: nat, units: seq<seq<bv8>>)
    requires n > 0 && forall i :: 0 <= i < |units| ==> |units[i]| == n
    ensures Chunks(n, Concat(units)) == units
  {
    if units != [] {
      var s := Concat(units);
      ConcatLength(units, n);
      assert s[..n] == units[0] && s[n..] == Concat(units[1..]);
      ChunksOfUnits(n, units[1..]);
    }
  }

  /** Units of width `n` written one after another come back one by one. */
  lemma {:induction false} UnitsBack(n: nat, units: seq<seq<bv8>>)
    requires n > 0 && forall i :: 0 <= i < |units| ==> |units[i]| == n
    ensures UnitItems(n, Clean(Concat(units))) == OkAll(units)
  {
    if units != [] {
      var s := Concat(units);
      assert s == units[0] + Concat(units[1..]);
      assert s[..n] == units[0] && s[n..] == Concat(units[1..]);
      CleanUnit(n, s);
      UnitsBack(n, units[1..]);
      OkAllCons(units[0], units[1..]);
      assert [units[0]] + units[1..] == units;
    }
  }

  /** `NBytes`: the reader `src` with its cursor `pos`, yielding units of `n` bytes. */
  class NBytes {
    const n: nat
    const src: seq<ReadResult>
    var pos: nat

    ghost predicate Valid()
      reads this
    {
      0 < n && pos <= |src|
    }

    /** The items still to come. */
    ghost function Rest(): seq<Result<seq<bv8>, Error>>
      reads this
      requires Valid()
    {
      UnitItems(n, src[pos..])
    }

    /** `NBytes::new`. */
    constructor (n: nat, reader: seq<ReadResult>)
      requires n > 0
      ensures this.n == n && src == reader && Valid()
      ensures Rest() == UnitItems(n, reader)
    {
      this.n, src, pos := n, reader, 0;
      new;
      assert reader[0..] == reader;
    }

    /** `Iterator::next`: fills a fresh unit byte by byte, stopping at an error or the end. */
    method Next() returns (r: Option<Result<seq<bv8>, Error>>)
      requires Valid()
      modifies this
      ensures Valid()
      ensures old(Rest()) == [] ==> r.None? && Rest() == []
      ensures old(Rest()) != [] ==> r == Some(old(Rest())[0]) && Rest() == old(Rest())[1..]
    {
      ghost var s := src[pos..];
      ghost var start := pos;
      var unit := new bv8[n];
      for i := 0 to n
        invariant pos == start + i <= |src|
        invariant forall j :: 0 <= j < i ==> s[j].Byte? && unit[j] == s[j].value
      {
        if pos == |src| {
          LeadingBytesIs(s, n, i);
          if i == 0 {
            return None;
          }
          assert s[i..] == src[pos..];
          return Some(Err(Truncated(n, i)));
        }
        match src[pos]
        case ReadError =>
          LeadingBytesIs(s, n, i);
          pos := pos + 1;
          assert s[i + 1..] == src[pos..];
          return Some(Err(ReadFailed));
        case Byte(b) =>
          unit[i] := b;
          pos := pos + 1;
      }
      LeadingBytesIs(s, n, n);
      assert unit[..] == Values(s[..n]);
      assert s[n..] == src[pos..];
      return Some(Ok(unit[..]));
    }
  }
}
