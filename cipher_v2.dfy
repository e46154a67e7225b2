/**
  `src/cipherv2/mod.rs`: the drivers of the second version. `encrypt` writes the UTF-8
  encoding of one character per pair; `decrypt` writes one byte per character whose second
  field is 0 and two bytes otherwise. The pair and character iterators they loop over (its
  `bytepairs` and `chars` modules) are not part of this model: their items are the input.
*/
module CipherV2 {
  import opened Wrappers
  import opened Io
  import Utf8
  import SimpleV2

  /** What the `BytePairs` iterator of the second version yields: a pair, or its error. */
  type PairStream = seq<Result<SimpleV2.BytePair, Error>>

  /** What the `Chars` iterator of the second version yields: a code point, or its error. */
  type CharStream = seq<Result<bv32, Error>>

  /** The bytes `encrypt` writes for one pair: the UTF-8 encoding of its character. */
  function Encode(p: SimpleV2.BytePair): (e: seq<bv8>)
    ensures Utf8.WellFormedChar(e) && Utf8.DecodeChar(e) == SimpleV2.EncryptCharPair(p)
    ensures 1 <= |e| <= 3
  {
    Utf8.EncodeChar(SimpleV2.EncryptCharPair(p))
  }

  function EncryptChunks(pairs: PairStream): (r: seq<Result<seq<bv8>, Error>>)
    ensures |r| == |pairs|
    ensures forall i :: 0 <= i < |pairs| ==> r[i] == if pairs[i].Ok? then Ok(Encode(pairs[i].value)) else Err(pairs[i].error)
  {
    seq(|pairs|, i requires 0 <= i < |pairs| =>
      if pairs[i].Ok? then Ok(Encode(pairs[i].value)) else Err(pairs[i].error))
  }

  /** What `encrypt` leaves in its writer, and how it ends. */
  function EncryptSpec(pairs: PairStream): Written
  {
    Drive(EncryptChunks(pairs))
  }

  /**
    The bytes `decrypt` writes for one character: `[c0]` when its second field is 0, and
    `[c0, c1]` otherwise.
  */
  function DecryptChar(cp: bv32): (d: seq<bv8>)
    ensures 1 <= |d| <= 2 && d[0] <= 0x7F && (|d| == 2 ==> 0 < d[1] <= 0x7F)
  {
    var p := SimpleV2.DecryptCharPair(cp);
    if p.1 == 0 then [p.0] else [p.0, p.1]
  }

  function DecryptChunks(chars: CharStream): (r: seq<Result<seq<bv8>, Error>>)
    ensures |r| == |chars|
    ensures forall i :: 0 <= i < |chars| ==> r[i] == if chars[i].Ok? then Ok(DecryptChar(chars[i].value)) else Err(chars[i].error)
  {
    seq(|chars|, i requires 0 <= i < |chars| =>
      if chars[i].Ok? then Ok(DecryptChar(chars[i].value)) else Err(chars[i].error))
  }

  /** What `decrypt` leaves in its writer, and how it ends. */
  function DecryptSpec(chars: CharStream): Written
  {
    Drive(DecryptChunks(chars))
  }

  /** `Cipher::encrypt`: one encoded character per pair, up to the first error. */
  method Encrypt(pairs: PairStream) returns (written: seq<bv8>, status: Status)
    ensures Written(written, status) == EncryptSpec(pairs)
  {
    written := [];
    var i := 0;
    assert pairs[0..] == pairs;
    while i < |pairs|
      invariant i <= |pairs|
      invariant EncryptSpec(pairs) == Prepend(written, Drive(EncryptChunks(pairs[i..])))
    {
      assert EncryptChunks(pairs[i..])[1..] == EncryptChunks(pairs[i + 1..]);
      DriveStep(written, EncryptChunks(pairs[i..]));
      var pair := pairs[i];
      if pair.Err? {
        return written, Failed(pair.error);
      }
      var encrypted := SimpleV2.EncryptCharPair(pair.value);
      var encoded := Utf8.EncodeChar(encrypted);
      written := written + encoded;
      i := i + 1;
    }
    assert written + [] == written;
    return written, Done;
  }

  /** `Cipher::decrypt`: one or two bytes per character, up to the first error. */
  method Decrypt(chars: CharStream) returns (written: seq<bv8>, status: Status)
    ensures Written(written, status) == DecryptSpec(chars)
  {
    written := [];
    var i := 0;
    assert chars[0..] == chars;
    while i < |chars|
      invariant i <= |chars|
      invariant DecryptSpec(chars) == Prepend(written, Drive(DecryptChunks(chars[i..])))
    {
      assert DecryptChunks(chars[i..])[1..] == DecryptChunks(chars[i + 1..]);
      DriveStep(written, DecryptChunks(chars[i..]));
      var encrypted := chars[i];
      if encrypted.Err? {
        return written, Failed(encrypted.error);
      }
      var (c0, c1) := SimpleV2.DecryptCharPair(encrypted.value);
      if c1 == 0 {
        written := written + [c0];
      } else {
        written := written + [c0, c1];
      }
      i := i + 1;
    }
    assert written + [] == written;
    return written, Done;
  }

  /** The characters of the pairs, in order. */
  function Encrypted(pairs: seq<SimpleV2.BytePair>): (r: seq<bv32>)
    ensures |r| == |pairs| && forall i :: 0 <= i < |pairs| ==> r[i] == SimpleV2.EncryptCharPair(pairs[i])
  {
    seq(|pairs|, i requires 0 <= i < |pairs| => SimpleV2.EncryptCharPair(pairs[i]))
  }

  /** The encodings of the pairs, in order. */
  function Encodings(pairs: seq<SimpleV2.BytePair>): (r: seq<seq<bv8>>)
    ensures |r| == |pairs| && forall i :: 0 <= i < |pairs| ==> r[i] == Encode(pairs[i])
  {
    seq(|pairs|, i requires 0 <= i < |pairs| => Encode(pairs[i]))
  }

  /**
    Pairs without errors are encrypted whole, with `Ok(())`, into well-formed UTF-8 whose
    characters are the pairs' characters in input order (no pairs: nothing written).
  */
  lemma EncryptAll(pairs: seq<SimpleV2.BytePair>)
    ensures EncryptSpec(OkAll(pairs)) == Written(Concat(Encodings(pairs)), Done)
    ensures Utf8.WellFormed(Concat(Encodings(pairs)))
    ensures Utf8.DecodeAll(Concat(Encodings(pairs))) == Encrypted(pairs)
  {
    assert EncryptChunks(OkAll(pairs)) == OkAll(Encodings(pairs));
    DriveAllOk(Encodings(pairs));
    EncodingsDecode(pairs);
  }

  lemma {:induction false} EncodingsDecode(pairs: seq<SimpleV2.BytePair>)
    ensures Utf8.WellFormed(Concat(Encodings(pairs)))
    ensures Utf8.DecodeAll(Concat(Encodings(pairs))) == Encrypted(pairs)
  {
    if pairs != [] {
      EncodingsDecode(pairs[1..]);
      assert Encodings(pairs)[1..] == Encodings(pairs[1..]);
      assert Encrypted(pairs)[1..] == Encrypted(pairs[1..]);
      Utf8.PrependChar(Encode(pairs[0]), Concat(Encodings(pairs[1..])));
    }
  }

  /** The first failing pair stops `encrypt`: the pairs before it are written, nothing after. */
  lemma EncryptFirstError(pairs: seq<SimpleV2.BytePair>, e: Error, rest: PairStream)
    ensures EncryptSpec(OkAll(pairs) + [Err(e)] + rest) == Written(Concat(Encodings(pairs)), Failed(e))
  {
    var stream := OkAll(pairs) + [Err(e)] + rest;
    assert EncryptChunks(stream) == OkAll(Encodings(pairs)) + [Err(e)] + EncryptChunks(rest);
    DriveFirstError(Encodings(pairs), e, EncryptChunks(rest));
  }

  /** The first failing character stops `decrypt` the same way. */
  lemma DecryptFirstError(cps: seq<bv32>, e: Error, rest: CharStream)
    ensures DecryptSpec(OkAll(cps) + [Err(e)] + rest)
      == Written(Concat(seq(|cps|, i requires 0 <= i < |cps| => DecryptChar(cps[i]))), Failed(e))
  {
    var decrypted := seq(|cps|, i requires 0 <= i < |cps| => DecryptChar(cps[i]));
    var stream := OkAll(cps) + [Err(e)] + rest;
    assert DecryptChunks(stream) == OkAll(decrypted) + [Err(e)] + DecryptChunks(rest);
    DriveFirstError(decrypted, e, DecryptChunks(rest));
  }

  /** What a pair is decrypted back to: both bytes, or the first alone when the second is 0. */
  function PairBack(p: SimpleV2.BytePair): seq<bv8>
  {
    if p.1 == 0 then [p.0] else [p.0, p.1]
  }

  /** A character decrypts to its ASCII pair, except that a second byte 0 is not written. */
  lemma CharBack(p: SimpleV2.BytePair)
    requires p.0 <= 0x7F && p.1 <= 0x7F
    ensures DecryptChar(SimpleV2.EncryptCharPair(p)) == PairBack(p)
  {
    SimpleV2.PairRoundTrip(p);
  }

  /**
    Decrypting the characters `encrypt` wrote for ASCII pairs gives back every pair's bytes in
    order, a second byte 0 excepted.
  */
  lemma DecryptEncrypt(pairs: seq<SimpleV2.BytePair>)
    requires forall i :: 0 <= i < |pairs| ==> pairs[i].0 <= 0x7F && pairs[i].1 <= 0x7F
    ensures var w := EncryptSpec(OkAll(pairs));
      && Utf8.WellFormed(w.bytes)
      && DecryptSpec(OkAll(Utf8.DecodeAll(w.bytes))) == Written(Concat(seq(|pairs|, i requires 0 <= i < |pairs| => PairBack(pairs[i]))), Done)
  {
    EncryptAll(pairs);
    var back := seq(|pairs|, i requires 0 <= i < |pairs| => PairBack(pairs[i]));
    forall i | 0 <= i < |pairs|
      ensures DecryptChunks(OkAll(Encrypted(pairs)))[i] == OkAll(back)[i]
    {
      CharBack(pairs[i]);
    }
    assert DecryptChunks(OkAll(Encrypted(pairs))) == OkAll(back);
    DriveAllOk(back);
  }

  /**
    So a genuine 0 in second place does not survive: `(c0, 0)` comes back as `[c0]`, the
    same as a lone last byte.
  */
  lemma ZeroSecondByteLost(c0: bv8)
    requires c0 <= 0x7F
    ensures DecryptSpec([Ok(SimpleV2.EncryptCharPair((c0, 0)))]) == Written([c0], Done)
  {
    var chars := [Ok(SimpleV2.EncryptCharPair((c0, 0)))];
    CharBack((c0, 0));
    assert DecryptChunks(chars) == [Ok([c0])];
    assert Drive([Ok([c0])]) == Prepend([c0], Drive([]));
  }
}
