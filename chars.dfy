/**
  `src/cipher/chars.rs` (copied unchanged into `src/cipher/decrypt.rs`): a reader of UTF-8
  characters. The lead byte announces a length through `char_len`, the rest of the character
  is read with `read_exact`, and the bytes must then be well-formed UTF-8.
*/
module Chars {
  import opened Wrappers
  import opened Io
  import Utf8

  /** `char_len`, with its table as written: `0x71 ..= 0x7F` and `0xF8 ..= 0xFF` are refused. */
  function CharLen(first: bv8): (r: Result<nat, Error>)
    ensures r.Ok? ==> 1 <= r.value <= 4
    ensures r.Err? ==> r.error == InvalidFirstByte(first)
    ensures r.Ok? <==> first <= 0x70 || 0x80 <= first <= 0xF7
  {
    if first <= 0x70 then Ok(1)
    else if 0x80 <= first <= 0xDF then Ok(2)
    else if 0xE0 <= first <= 0xEF then Ok(3)
    else if 0xF0 <= first <= 0xF7 then Ok(4)
    else Err(InvalidFirstByte(first))
  }

  /** `char_len` as evidently intended: every ASCII byte is a one-byte character. */
  function CharLenFixed(first: bv8): (r: Result<nat, Error>)
    ensures r.Ok? ==> 1 <= r.value <= 4
    ensures r.Err? ==> r.error == InvalidFirstByte(first)
  {
    if first <= 0x7F then Ok(1)
    else if 0x80 <= first <= 0xDF then Ok(2)
    else if 0xE0 <= first <= 0xEF then Ok(3)
    else if 0xF0 <= first <= 0xF7 then Ok(4)
    else Err(InvalidFirstByte(first))
  }

  /** Where RFC 3629 knows the lead byte, `char_len` either agrees or refuses an ASCII byte. */
  lemma CharLenAgrees(first: bv8)
    requires Utf8.SequenceLength(first) != 0
    ensures CharLen(first).Ok? <==> !(0x71 <= first <= 0x7F)
    ensures CharLen(first).Ok? ==> CharLen(first).value == Utf8.SequenceLength(first)
  {
  }

  /** `q` (0x71) is a well-formed one-byte character, yet `char_len` refuses it. */
  lemma CharLenRefusesQ()
    ensures Utf8.WellFormedChar(['q' as bv8])
    ensures CharLen('q' as bv8) == Err(InvalidFirstByte(0x71))
  {
  }

  /** The intended table gives every well-formed character its own length. */
  lemma CharLenFixedAgrees(c: seq<bv8>)
    requires Utf8.WellFormedChar(c)
    ensures CharLenFixed(c[0]) == Ok(|c|)
  {
  }

  /** `from_utf8` accepting the bytes `char_len` asked for means they are one character. */
  lemma OneChar(buf: seq<bv8>)
    requires buf != [] && CharLen(buf[0]) == Ok(|buf|) && Utf8.WellFormed(buf)
    ensures Utf8.WellFormedChar(buf)
  {
    var n := Utf8.SequenceLength(buf[0]);
    CharLenAgrees(buf[0]);
    assert buf[..n] == buf;
  }

  /**
    `char::from_str(from_utf8(buf)?)`: the character the bytes `char_len` asked for encode, or
    `InvalidUtf8`. (`from_str` cannot fail here: see `OneChar`.)
  */
  function FromUtf8(buf: seq<bv8>): (r: Result<bv32, Error>)
    requires buf != [] && CharLen(buf[0]) == Ok(|buf|)
    ensures r.Ok? <==> Utf8.WellFormed(buf)
    ensures r.Ok? ==> Utf8.WellFormedChar(buf) && r.value == Utf8.DecodeChar(buf)
    ensures r.Err? ==> r.error == InvalidUtf8
  {
    if Utf8.WellFormed(buf) then
      OneChar(buf);
      Ok(Utf8.DecodeChar(buf))
    else
      Err(InvalidUtf8)
  }

  /**
    One `next_char`: the end of the input, a read error, a refused lead byte, an input that ends
    inside a character, bytes that are not UTF-8, or one character.
  */
  function ReadChar(s: seq<ReadResult>): (r: Step<bv32>)
    ensures r.End? <==> s == []
    ensures r.Item? ==> 0 < r.used <= |s|
  {
    if s == [] then End
    else if s[0].ReadError? then Item(Err(ReadFailed), 1)
    else match CharLen(s[0].value)
      case Err(e) => Item(Err(e), 1)
      case Ok(len) =>
        var k := LeadingBytes(s[1..], len - 1);
        if k < len - 1 then
          if k < |s| - 1 then Item(Err(ReadFailed), k + 2) else Item(Err(UnexpectedEof), k + 1)
        else
          Item(FromUtf8(Values(s[..len])), len)
  }

  /**
    A character comes only from a lead byte `char_len` accepts, followed by the bytes it asked
    for, which together are one well-formed character.
  */
  lemma ReadCharOk(s: seq<ReadResult>)
    requires ReadChar(s).Item? && ReadChar(s).item.Ok?
    ensures var n := ReadChar(s).used;
      && AllBytes(s[..n])
      && CharLen(s[0].value) == Ok(n)
      && Utf8.WellFormedChar(Values(s[..n]))
      && ReadChar(s).item.value == Utf8.DecodeChar(Values(s[..n]))
  {
  }

  /** Every item the iterator yields before its first `None`. */
  function CharItems(s: seq<ReadResult>): seq<Result<bv32, Error>>
    decreases |s|
  {
    match ReadChar(s)
    case End => []
    case Item(item, used) => [item] + CharItems(s[used..])
  }

  /**
    A reader that never fails and holds well-formed UTF-8 without the refused bytes yields its
    code points, in order.
  */
  lemma {:induction false} CharItemsClean(s: seq<bv8>)
    requires Utf8.WellFormed(s)
    requires forall i :: 0 <= i < |s| ==> !(0x71 <= s[i] <= 0x7F)
    ensures CharItems(Clean(s)) == OkAll(Utf8.DecodeAll(s))
    decreases |s|
  {
    if s != [] {
      var n := Utf8.SequenceLength(s[0]);
      CleanFirst(s, n);
      CharItemsClean(s[n..]);
      OkAllCons(Utf8.DecodeChar(s[..n]), Utf8.DecodeAll(s[n..]));
    }
  }

  lemma CleanFirst(s: seq<bv8>, n: nat)
    requires Utf8.WellFormed(s) && s != [] && n == Utf8.SequenceLength(s[0])
    requires !(0x71 <= s[0] <= 0x7F)
    ensures Utf8.WellFormedChar(s[..n]) && Utf8.WellFormed(s[n..])
    ensures CharItems(Clean(s)) == [Ok(Utf8.DecodeChar(s[..n]))] + CharItems(Clean(s[n..]))
  {
    var c := Clean(s);
    CharLenAgrees(s[0]);
    CleanTake(s, n);
    ValuesClean(s[..n]);
    assert Utf8.WellFormed(s[..n]) by {
      assert s[..n][..n] == s[..n] && s[..n][n..] == [];
    }
    LeadingBytesIs(c[1..], n - 1, n - 1);
    ReadCharCases(c, n);
    CleanDrop(s, n);
  }

  /** How `ReadChar` ends once the lead byte announced `len`, by what `read_exact` finds. */
  lemma ReadCharCases(s: seq<ReadResult>, len: nat)
    requires s != [] && s[0].Byte? && CharLen(s[0].value) == Ok(len)
    ensures var k := LeadingBytes(s[1..], len - 1);
      && (k < len - 1 && k < |s| - 1 ==> ReadChar(s) == Item(Err(ReadFailed), k + 2))
      && (k < len - 1 && k == |s| - 1 ==> ReadChar(s) == Item(Err(UnexpectedEof), k + 1))
      && (k == len - 1 ==>
            && len <= |s| && AllBytes(s[..len])
            && ReadChar(s) == Item(FromUtf8(Values(s[..len])), len))
  {
  }

  /** The bytes of "h💯❤⭐k". */
  const FiveChars: seq<bv8> := [0x68] + ([0xF0, 0x9F, 0x92, 0xAF] + ([0xE2, 0x9D, 0xA4] + ([0xE2, 0xAD, 0x90] + [0x6B])))

  lemma HundredPoints()
    ensures Utf8.WellFormedChar([0xF0, 0x9F, 0x92, 0xAF])
    ensures Utf8.DecodeChar([0xF0, 0x9F, 0x92, 0xAF]) == 0x1F4AF
  {
  }

  lemma HeavyHeart()
    ensures Utf8.WellFormedChar([0xE2, 0x9D, 0xA4])
    ensures Utf8.DecodeChar([0xE2, 0x9D, 0xA4]) == 0x2764
  {
  }

  lemma WhiteStar()
    ensures Utf8.WellFormedChar([0xE2, 0xAD, 0x90])
    ensures Utf8.DecodeChar([0xE2, 0xAD, 0x90]) == 0x2B50
  {
  }

  lemma FiveCharsDecode()
    ensures Utf8.WellFormed(FiveChars)
    ensures Utf8.DecodeAll(FiveChars) == [0x68, 0x1F4AF, 0x2764, 0x2B50, 0x6B]
  {
    var c0, c1, c2, c3, c4: seq<bv8> := [0x68], [0xF0, 0x9F, 0x92, 0xAF], [0xE2, 0x9D, 0xA4], [0xE2, 0xAD, 0x90], [0x6B];
    HundredPoints();
    HeavyHeart();
    WhiteStar();
    Utf8.PrependChar(c4, []);
    assert c4 + [] == c4;
    Utf8.PrependChar(c3, c4);
    Utf8.PrependChar(c2, c3 + c4);
    Utf8.PrependChar(c1, c2 + (c3 + c4));
    Utf8.PrependChar(c0, c1 + (c2 + (c3 + c4)));
  }

  /** Reading "h💯❤⭐k" yields its five characters in order. */
  lemma ReadsFiveChars()
    ensures CharItems(Clean(FiveChars)) == OkAll([0x68, 0x1F4AF, 0x2764, 0x2B50, 0x6B])
  {
    FiveCharsDecode();
    CharItemsClean(FiveChars);
  }

  /** `Chars`: the reader `src` with its cursor `pos`, yielding characters. */
  class Chars {
    const src: seq<ReadResult>
    var pos: nat

    ghost predicate Valid()
      reads this
    {
      pos <= |src|
    }

    /** The items still to come. */
    ghost function Rest(): seq<Result<bv32, Error>>
      reads this
      requires Valid()
    {
      CharItems(src[pos..])
    }

    /** `Chars::new`. */
    constructor (reader: seq<ReadResult>)
      ensures src == reader && Valid()
      ensures Rest() == CharItems(reader)
    {
      src, pos := reader, 0;
      new;
      assert reader[0..] == reader;
    }

    /**
      `read_char_len`: reads one byte into `buf[0]`; `Ok(0)` at the end of the input. (The
      retry on an interrupted read is not modelled: a reader item is read once.)
    */
    method ReadCharLen(buf: array<bv8>) returns (r: Result<nat, Error>)
      requires Valid() && buf.Length == 4
      modifies this, buf
      ensures Valid()
      ensures old(pos) == |src| ==> r == Ok(0) && pos == old(pos)
      ensures old(pos) < |src| && src[old(pos)].ReadError? ==> r == Err(ReadFailed) && pos == old(pos) + 1
      ensures old(pos) < |src| && src[old(pos)].Byte? ==>
        r == Ok(1) && pos == old(pos) + 1 && buf[0] == src[old(pos)].value
    {
      if pos == |src| {
        return Ok(0);
      }
      var item := src[pos];
      pos := pos + 1;
      match item
      case ReadError => r := Err(ReadFailed);
      case Byte(b) => buf[0] := b; r := Ok(1);
    }

    /**
      `read_exact(&mut buf[from..to])`: fills the slice item by item; the end of the input
      first is `UnexpectedEof`, a read error first is that error.
    */
    method ReadExact(buf: array<bv8>, from: nat, to: nat) returns (r: Result<(), Error>)
      requires Valid() && from <= to <= buf.Length
      modifies this, buf
      ensures Valid()
      ensures var s, k := old(src[pos..]), LeadingBytes(old(src[pos..]), to - from);
        && (k == to - from ==> r.Ok? && pos == old(pos) + k && buf[from..to] == Values(s[..k]))
        && (k < to - from && k < |s| ==> r == Err(ReadFailed) && pos == old(pos) + k + 1)
        && (k < to - from && k == |s| ==> r == Err(UnexpectedEof) && pos == old(pos) + k)
      ensures buf[..from] == old(buf[..from])
    {
      ghost var s := src[pos..];
      ghost var start := pos;
      var i := from;
      while i < to
        invariant from <= i <= to && pos == start + (i - from) <= |src|
        invariant forall j :: 0 <= j < i - from ==> s[j].Byte? && buf[from + j] == s[j].value
        invariant buf[..from] == old(buf[..from])
      {
        if pos == |src| {
          LeadingBytesIs(s, to - from, i - from);
          return Err(UnexpectedEof);
        }
        if src[pos].ReadError? {
          LeadingBytesIs(s, to - from, i - from);
          pos := pos + 1;
          return Err(ReadFailed);
        }
        buf[i] := src[pos].value;
        pos := pos + 1;
        i := i + 1;
      }
      LeadingBytesIs(s, to - from, to - from);
      assert buf[from..to] == Values(s[..to - from]);
      return Ok(());
    }

    /**
      `next_char`: the lead byte into a fresh buffer, then as many more bytes as `char_len`
      asks for, then `from_utf8` on them.
    */
    method NextChar() returns (r: Result<Option<bv32>, Error>)
      requires Valid()
      modifies this
      ensures Valid()
      ensures var step := ReadChar(old(src[pos..]));
        && (step.End? ==> r == Ok(None) && pos == old(pos))
        && (step.Item? ==> pos == old(pos) + step.used)
        && (step.Item? && step.item.Ok? ==> r == Ok(Some(step.item.value)))
        && (step.Item? && step.item.Err? ==> r == Err(step.item.error))
    {
      ghost var s := src[pos..];
      ghost var start := pos;
      var buf := new bv8[4];
      var read := ReadCharLen(buf);
      if read.Err? {
        return Err(read.error);
      }
      if read.value == 0 {
        return Ok(None);
      }
      var len := CharLen(buf[0]);
      if len.Err? {
        return Err(len.error);
      }
      assert s[1..] == src[pos..];
      r := ReadTail(buf, len.value, s);
    }

    /**
      The rest of `next_char` once the lead byte `buf[0]` (the first item of `s`) announced
      `len` bytes: `read_exact` for the others, then `from_utf8`.
    */
    method ReadTail(buf: array<bv8>, len: nat, ghost s: seq<ReadResult>) returns (r: Result<Option<bv32>, Error>)
      requires Valid() && buf.Length == 4
      requires s != [] && s[0] == Byte(buf[0]) && s[1..] == src[pos..]
      requires CharLen(buf[0]) == Ok(len)
      modifies this, buf
      ensures Valid()
      ensures var step := ReadChar(s);
        && step.Item? && pos == old(pos) + step.used - 1
        && (step.item.Ok? ==> r == Ok(Some(step.item.value)))
        && (step.item.Err? ==> r == Err(step.item.error))
    {
      ReadCharCases(s, len);
      ghost var lead := buf[0];
      if len > 1 {
        var rest := ReadExact(buf, 1, len);
        if rest.Err? {
          return Err(rest.error);
        }
        assert buf[..1] == [lead];
        assert buf[1..len] == Values(s[1..][..len - 1]);
      }
      var bytes := buf[..len];
      forall j | 0 <= j < len
        ensures bytes[j] == Values(s[..len])[j]
      {
        if j > 0 {
          assert bytes[j] == buf[1..len][j - 1];
        }
      }
      assert bytes == Values(s[..len]);
      var c := FromUtf8(bytes);
      match c
      case Err(e) => r := Err(e);
      case Ok(ch) => r := Ok(Some(ch));
    }

    /** `Iterator::next`: `next_char` with its `Result` and `Option` swapped. */
    method Next() returns (r: Option<Result<bv32, Error>>)
      requires Valid()
      modifies this
      ensures Valid()
      ensures old(Rest()) == [] ==> r.None? && Rest() == []
      ensures old(Rest()) != [] ==> r == Some(old(Rest())[0]) && Rest() == old(Rest())[1..]
    {
      ghost var s := src[pos..];
      var c := NextChar();
      if ReadChar(s).Item? {
        assert s[ReadChar(s).used..] == src[pos..];
      }
      match c
      case Ok(None) => r := None;
      case Ok(Some(ch)) => r := Some(Ok(ch));
      case Err(e) => r := Some(Err(e));
    }
  }
}
