/**
  `src/cipher/simple.rs`: a standalone standard cipher. Its encryption is the loop and the
  unit layout of `src/encrypt.rs` with `Standard`, and it is modelled by that module. Its
  decryption reads three items per round and stops without an error once fewer than three
  remain, so a short tail, and any read error in it, is dropped.
*/
module Simple {
  import opened Wrappers
  import opened Io
  import opened Units
  import Utf8
  import NBytes
  import Algorithm
  import BytePairs
  import Encrypter
  import Decrypter

  /** The rounds of the decryption loop: a triple, or the read error of one of its items. */
  function TripleItems(s: seq<ReadResult>): (r: seq<Result<seq<bv8>, Error>>)
    ensures |r| == |s| / 3 && NBytes.UnitsOf(3, r)
    decreases |s|
  {
    if |s| < 3 then []
    else
      var item := if AllBytes(s[..3]) then Ok(Values(s[..3])) else Err(ReadFailed);
      [item] + TripleItems(s[3..])
  }

  /**
    What `Decrypter::decrypt` leaves in its writer, and how it ends. Each triple decrypts as
    a standard unit does (`decrypt_chars2` is `decrypt_single_char` or `decrypt_char_pair`
    of `src/cipher.rs`, by the same flag).
  */
  function DecryptSpec(reader: seq<ReadResult>): Written
  {
    Drive(Decrypter.DecryptChunks(Standard, TripleItems(reader)))
  }

  /** One round: three items make a unit, or fail on a read error; fewer than three end the loop. */
  lemma RoundTriple(written: seq<bv8>, s: seq<ReadResult>)
    requires |s| >= 3
    ensures var w := Prepend(written, Drive(Decrypter.DecryptChunks(Standard, TripleItems(s))));
      && (!AllBytes(s[..3]) ==> w == Written(written, Failed(ReadFailed)))
      && (AllBytes(s[..3]) ==>
            w == Prepend(written + Decrypter.DecryptUnit(Standard, Values(s[..3])),
                         Drive(Decrypter.DecryptChunks(Standard, TripleItems(s[3..])))))
  {
    Decrypter.DecryptStep(Standard, written, TripleItems(s));
  }

  lemma TripleBytes(s: seq<ReadResult>)
    requires |s| >= 3
    ensures AllBytes(s[..3]) <==> s[0].Byte? && s[1].Byte? && s[2].Byte?
    ensures AllBytes(s[..3]) ==> Values(s[..3]) == [s[0].value, s[1].value, s[2].value]
  {
    assert s[..3] == [s[0], s[1], s[2]];
  }

  /** `Decrypter::decrypt`: the loop over `(bytes.next(), bytes.next(), bytes.next())`. */
  method Decrypt(reader: seq<ReadResult>) returns (written: seq<bv8>, status: Status)
    ensures Written(written, status) == DecryptSpec(reader)
  {
    var pos := 0;
    written := [];
    assert reader[0..] == reader;
    while true
      invariant pos <= |reader|
      invariant DecryptSpec(reader)
             == Prepend(written, Drive(Decrypter.DecryptChunks(Standard, TripleItems(reader[pos..]))))
      decreases |reader| - pos
    {
      if |reader| - pos < 3 {
        return written, Done;
      }
      RoundTriple(written, reader[pos..]);
      TripleBytes(reader[pos..]);
      assert reader[pos..][3..] == reader[pos + 3..];
      var b0, b1, b2 := reader[pos], reader[pos + 1], reader[pos + 2];
      pos := pos + 3;
      if b0.ReadError? || b1.ReadError? || b2.ReadError? {
        return written, Failed(ReadFailed);
      }
      written := written + Decrypter.DecryptUnit(Standard, [b0.value, b1.value, b2.value]);
    }
  }

  /** A reader that never fails yields its complete triples and nothing for the tail. */
  lemma {:induction false} TriplesClean(s: seq<bv8>)
    ensures TripleItems(Clean(s)) == OkAll(NBytes.Chunks(3, s))
    decreases |s|
  {
    if |s| >= 3 {
      TriplesClean(s[3..]);
      CleanTake(s, 3);
      CleanDrop(s, 3);
      ValuesClean(s[..3]);
      OkAllCons(s[..3], NBytes.Chunks(3, s[3..]));
    }
  }

  /**
    A reader that never fails is decrypted with `Ok(())` whatever its length: its complete
    units are written and the bytes after them are dropped.
  */
  lemma DecryptClean(s: seq<bv8>)
    ensures DecryptSpec(Clean(s)) == Written(Concat(Decrypter.Decrypted(Standard, s)), Done)
  {
    var chunks := NBytes.Chunks(3, s);
    TriplesClean(s);
    assert Decrypter.DecryptChunks(Standard, OkAll(chunks)) == OkAll(Decrypter.Decrypted(Standard, s));
    DriveAllOk(Decrypter.Decrypted(Standard, s));
  }

  /** Items after the last complete triple are never looked at, read errors included. */
  lemma {:induction false} TailIgnored(s: seq<bv8>, tail: seq<ReadResult>)
    requires |s| % 3 == 0 && |tail| < 3
    ensures DecryptSpec(Clean(s) + tail) == DecryptSpec(Clean(s))
  {
    TriplesTail(Clean(s), tail);
  }

  lemma {:induction false} TriplesTail(s: seq<ReadResult>, tail: seq<ReadResult>)
    requires |s| % 3 == 0 && |tail| < 3
    ensures TripleItems(s + tail) == TripleItems(s)
    decreases |s|
  {
    if |s| >= 3 {
      assert (s + tail)[..3] == s[..3];
      assert (s + tail)[3..] == s[3..] + tail;
      TriplesTail(s[3..], tail);
    }
  }

  /**
    Decrypting what an ASCII input encrypts to gives back `Decrypter.RoundTrip` of it, as the
    first version's decrypter does.
  */
  lemma DecryptEncrypt(s: seq<bv8>)
    requires forall i :: 0 <= i < |s| ==> IsAscii(s[i])
    ensures DecryptSpec(Clean(Encrypter.EncryptSpec(Standard, Clean(s)).bytes)) == Written(Decrypter.RoundTrip(s), Done)
  {
    var units := Encrypter.Encrypted(Standard, s);
    calc {
      DecryptSpec(Clean(Encrypter.EncryptSpec(Standard, Clean(s)).bytes));
    == { Encrypter.EncryptClean(Standard, s); }
      DecryptSpec(Clean(Concat(units)));
    == { TriplesClean(Concat(units)); NBytes.ChunksOfUnits(3, units); }
      Drive(Decrypter.DecryptChunks(Standard, OkAll(units)));
    == { Decrypter.UnitsComeBack(Standard, s); }
      Drive(OkAll(Decrypter.Back(s)));
    == { DriveAllOk(Decrypter.Back(s)); Decrypter.ConcatPairBack(s); }
      Written(Decrypter.RoundTrip(s), Done);
    }
  }

  /** `encrypt_to_string`: any bytes, encrypted, then `String::from_utf8`. */
  method EncryptToString(data: seq<bv8>) returns (r: Result<seq<bv8>, Error>)
    ensures var bytes := Concat(Encrypter.Encrypted(Standard, data));
      && (r.Ok? <==> Utf8.WellFormed(bytes))
      && (r.Ok? ==> r.value == bytes)
      && (r.Err? ==> r.error == InvalidUtf8)
  {
    Encrypter.EncryptClean(Standard, data);
    var written, status := Encrypter.Encrypt(Standard, Clean(data));
    if status.Failed? {
      assert false;
      return Err(ReadFailed);
    }
    if !Utf8.WellFormed(written) {
      return Err(InvalidUtf8);
    }
    return Ok(written);
  }

  /** `decrypt_to_string`: any bytes decrypt, always successfully, to ASCII. */
  method DecryptToString(data: seq<bv8>) returns (r: Result<seq<bv8>, Error>)
    ensures r == Ok(Concat(Decrypter.Decrypted(Standard, data)))
  {
    DecryptClean(data);
    var written, status := Decrypt(Clean(data));
    if status.Failed? {
      assert false;
      return Err(ReadFailed);
    }
    Decrypter.ConcatAscii(Decrypter.Decrypted(Standard, data));
    Utf8.AsciiWellFormed(written);
    if !Utf8.WellFormed(written) {
      assert false;
      return Err(InvalidUtf8);
    }
    return Ok(written);
  }

  /** `encrypt_size`: three bytes per pair, rounding an odd byte up to a pair. */
  function EncryptSize(len: nat): nat
  {
    var chars := if len % 2 == 0 then len / 2 else len / 2 + 1;
    chars * 3
  }

  /** The room `encrypt_to_string` reserves is exactly what it writes. */
  lemma EncryptSizeExact(data: seq<bv8>)
    ensures EncryptSize(|data|) == |Concat(Encrypter.Encrypted(Standard, data))|
  {
    Encrypter.EncryptClean(Standard, data);
  }

  /** `decrypt_size`: half the number of complete units. */
  function DecryptSize(len: nat): nat
  {
    len / 3 / 2
  }

  /**
    The room `decrypt_to_string` reserves is at most what it writes: each unit writes at
    least one byte, and the reservation counts only half a byte per unit.
  */
  lemma DecryptSizeBelow(data: seq<bv8>)
    ensures DecryptSize(|data|) <= |Concat(Decrypter.Decrypted(Standard, data))|
  {
    var d := Decrypter.Decrypted(Standard, data);
    NBytes.ChunksCover(3, data);
    AtLeastOne(d);
  }

  lemma {:induction false} AtLeastOne(units: seq<seq<bv8>>)
    requires forall i :: 0 <= i < |units| ==> 1 <= |units[i]|
    ensures |units| <= |Concat(units)|
  {
    if units != [] {
      AtLeastOne(units[1..]);
    }
  }

  /** The bytes of "adgc". */
  const Adgc: seq<bv8> := ['a' as bv8, 'd' as bv8, 'g' as bv8, 'c' as bv8]

  /** "ad" and "gc" encrypt to U+3864 and U+39E3. */
  lemma AdGcUnits()
    ensures Encrypter.Encrypted(Standard, Adgc) == [[0xE3, 0xA1, 0xA4], [0xE3, 0xA7, 0xA3]]
  {
    assert BytePairs.Pairs(Adgc) == [('a' as bv8, Some('d' as bv8)), ('g' as bv8, Some('c' as bv8))];
    Algorithm.StandardAdGc();
  }

  /** So "adgc" encrypts to U+3864 U+39E3 ... */
  lemma AdGc()
    ensures Concat(Encrypter.Encrypted(Standard, Adgc)) == [0xE3, 0xA1, 0xA4, 0xE3, 0xA7, 0xA3]
  {
    AdGcUnits();
    assert Concat([[0xE3, 0xA1, 0xA4], [0xE3, 0xA7, 0xA3]]) == [0xE3, 0xA1, 0xA4] + ([0xE3, 0xA7, 0xA3] + []);
  }

  /** ... and comes back, since neither pair has bit 5 set in its first byte and bit 6 clear in its second. */
  lemma AdgcComesBack()
    ensures Decrypter.RoundTrip(Adgc) == Adgc
  {
    assert Decrypter.PairKept('a' as bv8, 'd' as bv8) && Decrypter.PairKept('g' as bv8, 'c' as bv8);
    Decrypter.RoundTripIdentity(Adgc);
  }
}
