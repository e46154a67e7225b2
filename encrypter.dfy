/**
  `src/encrypt.rs`: the driver of the first version. It pulls two items from the reader's byte
  iterator per round, encrypts a pair or a lone last byte with the `Algorithm`, writes the
  unit, and stops at the end of the input or at the first read error.
*/
module Encrypter {
  import opened Wrappers
  import opened Io
  import opened Units
  import Utf8
  import Algorithm
  import BytePairs

  /** The unit of one pair: `encrypt_char_pair`, or `encrypt_single_char` for a lone byte. */
  function EncryptPair(v: Variant, p: BytePair): (e: seq<bv8>)
    ensures |e| == Width(v)
    ensures Algorithm.HasSingleChar(v, e) <==> p.1.None?
  {
    match p.1
    case Some(c1) => Algorithm.EncryptCharPair(v, p.0, c1)
    case None => Algorithm.EncryptSingleChar(v, p.0)
  }

  /** What one round writes: the unit of a pair, or the read error of either item. */
  function EncryptChunk(v: Variant, item: Result<BytePair, Error>): Result<seq<bv8>, Error>
  {
    match item
    case Ok(p) => Ok(EncryptPair(v, p))
    case Err(e) => Err(e)
  }

  function EncryptChunks(v: Variant, items: seq<Result<BytePair, Error>>): (r: seq<Result<seq<bv8>, Error>>)
    ensures |r| == |items| && forall i :: 0 <= i < |items| ==> r[i] == EncryptChunk(v, items[i])
  {
    seq(|items|, i requires 0 <= i < |items| => EncryptChunk(v, items[i]))
  }

  lemma EncryptChunksTail(v: Variant, items: seq<Result<BytePair, Error>>)
    requires items != []
    ensures EncryptChunks(v, items)[1..] == EncryptChunks(v, items[1..])
  {
    assert EncryptChunks(v, items)[1..] == EncryptChunks(v, items[1..]);
  }

  /**
    What `Encrypter::encrypt` leaves in its writer, and how it ends. The rounds take the same
    two items a `BytePairs` pair would, and fail on the same read errors.
  */
  function EncryptSpec(v: Variant, reader: seq<ReadResult>): Written
  {
    Drive(EncryptChunks(v, BytePairs.PairItems(reader)))
  }

  /** What the rounds still to come write after `written`. */
  function Remaining(v: Variant, written: seq<bv8>, s: seq<ReadResult>): Written
  {
    Prepend(written, Drive(EncryptChunks(v, BytePairs.PairItems(s))))
  }

  /** A round that takes two items fails on a read error in either, or writes their unit. */
  lemma RoundPair(v: Variant, written: seq<bv8>, s: seq<ReadResult>)
    requires |s| >= 2
    ensures s[0].ReadError? || s[1].ReadError? ==> Remaining(v, written, s) == Written(written, Failed(ReadFailed))
    ensures s[0].Byte? && s[1].Byte? ==>
      Remaining(v, written, s)
        == Remaining(v, written + Algorithm.EncryptCharPair(v, s[0].value, s[1].value), s[2..])
  {
    var items := BytePairs.PairItems(s);
    BytePairs.PairItemsStep(s);
    EncryptChunksTail(v, items);
    DriveStep(written, EncryptChunks(v, items));
  }

  /** A round that takes the last item fails on its read error, or writes its unit. */
  lemma RoundLast(v: Variant, written: seq<bv8>, s: seq<ReadResult>)
    requires |s| == 1
    ensures s[0].ReadError? ==> Remaining(v, written, s) == Written(written, Failed(ReadFailed))
    ensures s[0].Byte? ==>
      Remaining(v, written, s) == Written(written + Algorithm.EncryptSingleChar(v, s[0].value), Done)
  {
    var items := BytePairs.PairItems(s);
    assert BytePairs.RawPairs(s) == [(s[0], None)];
    assert |BytePairs.PairItems(s[1..])| == 0;
    EncryptChunksTail(v, items);
    DriveStep(written, EncryptChunks(v, items));
    if s[0].Byte? {
      var unit := Algorithm.EncryptSingleChar(v, s[0].value);
      assert written + unit + [] == written + unit;
    }
  }

  /**
    `Encrypter::encrypt`: each round matches on `(bytes.next(), bytes.next())` — two items, the
    last item alone, or the end.
  */
  method Encrypt(v: Variant, reader: seq<ReadResult>) returns (written: seq<bv8>, status: Status)
    ensures Written(written, status) == EncryptSpec(v, reader)
  {
    var pos := 0;
    written := [];
    assert reader[0..] == reader;
    while true
      invariant pos <= |reader|
      invariant EncryptSpec(v, reader) == Remaining(v, written, reader[pos..])
      decreases |reader| - pos
    {
      if pos == |reader| {
        return written, Done;
      }
      if pos + 1 == |reader| {
        RoundLast(v, written, reader[pos..]);
        if reader[pos].ReadError? {
          return written, Failed(ReadFailed);
        }
        return written + Algorithm.EncryptSingleChar(v, reader[pos].value), Done;
      }
      RoundPair(v, written, reader[pos..]);
      assert reader[pos..][2..] == reader[pos + 2..];
      var c0, c1 := reader[pos], reader[pos + 1];
      pos := pos + 2;
      if c0.ReadError? || c1.ReadError? {
        return written, Failed(ReadFailed);
      }
      written := written + Algorithm.EncryptCharPair(v, c0.value, c1.value);
    }
  }

  /** `encrypt_size`: room for one unit per pair, rounding an odd byte up to a pair. */
  function EncryptSize(n: nat, numBytes: nat): nat
  {
    var units := if numBytes % 2 == 0 then numBytes / 2 else numBytes / 2 + 1;
    units * n
  }

  /** The units of the pairs of `s`, in order. */
  function Encrypted(v: Variant, s: seq<bv8>): (r: seq<seq<bv8>>)
    ensures |r| == |BytePairs.Pairs(s)|
    ensures forall i :: 0 <= i < |r| ==> r[i] == EncryptPair(v, BytePairs.Pairs(s)[i])
  {
    var ps := BytePairs.Pairs(s);
    seq(|ps|, i requires 0 <= i < |ps| => EncryptPair(v, ps[i]))
  }

  /**
    A reader that never fails is encrypted whole, with `Ok(())`, into exactly the `encrypt_size`
    bytes the string wrapper reserves for it.
  */
  lemma EncryptClean(v: Variant, s: seq<bv8>)
    ensures EncryptSpec(v, Clean(s)) == Written(Concat(Encrypted(v, s)), Done)
    ensures |EncryptSpec(v, Clean(s)).bytes| == EncryptSize(Width(v), |s|)
  {
    var ps := BytePairs.Pairs(s);
    BytePairs.PairItemsClean(s);
    assert EncryptChunks(v, OkAll(ps)) == OkAll(Encrypted(v, s));
    DriveAllOk(Encrypted(v, s));
    ConcatLength(Encrypted(v, s), Width(v));
    PairCount(|s|, Width(v));
  }

  lemma PairCount(m: nat, n: nat)
    ensures EncryptSize(n, m) == n * ((m + 1) / 2)
  {
  }

  /** Only the last unit of an input can hold a lone byte, and it does when the length is odd. */
  lemma SingleOnlyLast(v: Variant, s: seq<bv8>)
    ensures forall i :: 0 <= i < |Encrypted(v, s)| - 1 ==> !Algorithm.HasSingleChar(v, Encrypted(v, s)[i])
    ensures |s| > 0 ==>
      (Algorithm.HasSingleChar(v, Encrypted(v, s)[|Encrypted(v, s)| - 1]) <==> |s| % 2 == 1)
  {
    BytePairs.PairsShape(s);
  }

  /**
    `encrypt_string`: encrypts a string into a byte vector, then `String::from_utf8`, which
    refuses the bytes unless they are well-formed UTF-8.
  */
  method EncryptString(v: Variant, s: seq<bv8>) returns (r: Result<seq<bv8>, Error>)
    requires Utf8.WellFormed(s)
    ensures var bytes := Concat(Encrypted(v, s));
      && (r.Ok? <==> Utf8.WellFormed(bytes))
      && (r.Ok? ==> r.value == bytes)
      && (r.Err? ==> r.error == InvalidUtf8)
  {
    EncryptClean(v, s);
    var written, status := Encrypt(v, Clean(s));
    if status.Failed? {
      assert false;
      return Err(ReadFailed);
    }
    if !Utf8.WellFormed(written) {
      return Err(InvalidUtf8);
    }
    return Ok(written);
  }

  /**
    A standard unit of an ASCII pair is a well-formed character unless the first byte is a
    control character and the second is below `@`: then its lead byte is `E0` with a second
    byte below `A0`, an overlong form.
  */
  lemma StandardPairWellFormed(c0: bv8, c1: bv8)
    requires IsAscii(c0) && IsAscii(c1)
    ensures Utf8.WellFormedChar(Algorithm.EncryptCharPair(Standard, c0, c1)) <==> !(c0 < 0x20 && c1 < 0x40)
  {
  }

  /** A standard unit of a lone ASCII byte is always a well-formed character. */
  lemma StandardSingleWellFormed(c0: bv8)
    requires IsAscii(c0)
    ensures Utf8.WellFormedChar(Algorithm.EncryptSingleChar(Standard, c0))
  {
  }

  /** So "\n\n" encrypts to `E0 8A 8A`, which `encrypt_string` refuses. */
  lemma StandardRefusesNewlines()
    ensures Concat(Encrypted(Standard, [0x0A, 0x0A])) == [0xE0, 0x8A, 0x8A]
    ensures !Utf8.WellFormed(Concat(Encrypted(Standard, [0x0A, 0x0A])))
  {
    var units := Encrypted(Standard, [0x0A, 0x0A]);
    assert units == [[0xE0, 0x8A, 0x8A]];
    assert Concat(units) == [0xE0, 0x8A, 0x8A] + Concat([]);
  }

  /** Every extended unit is a well-formed character, whatever the bytes. */
  lemma ExtendedWellFormed(p: BytePair)
    ensures Utf8.WellFormedChar(EncryptPair(Extended, p))
  {
    var e := EncryptPair(Extended, p);
    assert Utf8.WellFormed4(e[0], e[1], e[2], e[3]);
  }

  /** So `encrypt_string` with `Extended` always succeeds. */
  lemma ExtendedAlwaysUtf8(s: seq<bv8>)
    ensures Utf8.WellFormed(Concat(Encrypted(Extended, s)))
  {
    var units := Encrypted(Extended, s);
    forall i | 0 <= i < |units|
      ensures Utf8.WellFormedChar(units[i])
    {
      ExtendedWellFormed(BytePairs.Pairs(s)[i]);
    }
    WellFormedUnits(units);
  }

  /** Well-formed characters written one after another are well-formed UTF-8. */
  lemma {:induction false} WellFormedUnits(units: seq<seq<bv8>>)
    requires forall i :: 0 <= i < |units| ==> Utf8.WellFormedChar(units[i])
    ensures Utf8.WellFormed(Concat(units))
  {
    if units != [] {
      WellFormedUnits(units[1..]);
      Utf8.PrependChar(units[0], Concat(units[1..]));
    }
  }
}
