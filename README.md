# unicipher in Dafny

unicipher hides ASCII text in Unicode: it packs two 7-bit bytes into one multi-byte UTF-8
character and unpacks them again. The repository keeps several versions of this transform side
by side. This project models each of them as it is written and proves what it does.

- **The 3- and 4-byte packers** (`src/cipher/standard.rs`, `src/cipher/extended.rs`).
  - A pair `(c0, Option<c1>)` becomes one unit. The standard unit is three bytes, `1110 0fsb`
    followed by two continuation bytes. The extended unit is four bytes, `F0`, `1001 0fsb`,
    then two continuation bytes.
  - `s` and `b` are bit 6 of each byte. `f` marks a missing second byte.
  - Modules `StandardCipher` and `ExtendedCipher`.
- **The five-operation `Algorithm<N>`** (`src/cipher.rs`). It encrypts a pair and a lone byte
  separately and tests a unit's flag with `has_single_char`. Its high-bit mask is 127, not
  0x40. Module `Algorithm`.
- **The input iterators.**
  - The fused pair iterator of `src/cipher/bytepairs.rs` (module `BytePairs`).
  - The pair iterator inside `src/cipher/encrypt.rs`, which leaves read errors to the loop
    (class `CipherEncrypt.RawBytePairs`).
  - The unit chunker `NBytes` of `src/cipher/nbytes.rs`, `src/decrypt.rs:33-65` and
    `src/cipher/decrypt.rs:34-68` (module `NBytes`). The three copies are the same code.
  - The UTF-8 character reader of `src/cipher/chars.rs`, copied as `src/cipher/decrypt.rs:70-120`
    (module `Chars`).
- **The drivers.**
  - The `Cipher<N>` trait's `encrypt`/`decrypt` (`src/cipher/mod.rs`, module `Cipher`).
  - `Encrypter`/`Decrypter` with `encrypt_string`, `decrypt_string` and their size formulas
    (`src/encrypt.rs`, `src/decrypt.rs`; modules `Encrypter` and `Decrypter`).
  - The `Encrypter` of `src/cipher/encrypt.rs` (module `CipherEncrypt`).
  - The `Decrypter` of `src/cipher/decrypt.rs:16-31`. It is `Decrypter.Decrypt` with the trait's
    single-byte operation named `decrypt_char`.
  - The self-contained standard cipher of `src/cipher/simple.rs` (module `Simple`). Its inline
    packing is `Algorithm` with `Standard`, and its encryption loop is `Encrypter.Encrypt`.
- **The second version** (`src/cipherv2`). It packs a pair into the code point `(c0 << 7) | c1`
  (module `SimpleV2`). Its drivers write one UTF-8 character per pair and decrypt one or two
  bytes per character (module `CipherV2`).

Shared pieces:

- A reader is a finite sequence of `Io.ReadResult` items: a byte, or a failed read. A
  sequence ends once and for all, so every iterator over it is fused. `Io.Clean(s)` is a reader
  that never fails.
- A driver returns the bytes it wrote and how it ended (`Io.Status`: `Done` is `Ok(())`,
  `Failed(e)` is an error). Each driver method is proved equal to a specification function
  built on `Io.Drive`: every chunk is written up to the first error, which ends the loop (the
  source's `?`).
- Section 4 of RFC 3629 is module `Utf8`. It stands in for `String::from_utf8`, `str::from_utf8`
  and `char::encode_utf8`.
- Bytes are `bv8` and code points `bv32`. The `N` of `Cipher<N>` and `Algorithm<N>` is
  `Units.Width(v)`, which is 3 or 4.

The test vectors in `src/cipher/tests.rs` and at `src/cipher.rs:113-221` fit the layout of
`src/cipher.rs`, not that of `src/cipher/standard.rs` and `src/cipher/extended.rs`:

- For a lone byte, `src/cipher.rs:32,80` puts bit 6 into bit 0 of the flag byte. The test
  vectors agree: "x" gives U+5E00 (`Algorithm.StandardX`) and U+15E00 (`Algorithm.ExtendedX`),
  and "bbb" gives U+38A2 U+5880.
- `standard.rs` and `extended.rs` put it into bit 1. Their "x" is `E6 B8 80` = U+6E00
  (`StandardCipher.EncryptX`) and U+16E00 (`ExtendedCipher.EncryptX`).

Each file is modelled as written, so both layouts are in the model.

## Model

| member | source | states |
|---|---|---|
| StandardCipher.EncryptCharPair | src/cipher/standard.rs:10-26 | every unit is three bytes: a lead byte in E0..E7, then two continuation bytes; bit 2 of the lead is set exactly when the second byte is missing, and then the last byte is 0x80 |
| StandardCipher.DecryptCharPair | src/cipher/standard.rs:28-41 | total on every three bytes; both decoded bytes are ASCII; the second byte is missing exactly when bit 2 of the lead is set |
| StandardCipher.PairRoundTrip | src/cipher/standard.rs:10-41 | an ASCII pair comes back from its unit unchanged |
| StandardCipher.SingleRoundTrip | src/cipher/standard.rs:10-41 | a lone ASCII byte comes back alone |
| StandardCipher.HighBitIgnored | src/cipher/standard.rs:3-26 | bit 7 of either input never reaches the unit: the unit of `(c0, c1)` is the unit of the bytes masked to 7 bits |
| StandardCipher.WellFormedUnless | src/cipher/standard.rs:10-26 | a unit is a well-formed UTF-8 character exactly unless both bytes are present, bits 5 and 6 of the first are clear and bit 6 of the second is clear (then it is an overlong `E0 80..9F` form) |
| StandardCipher.EncryptAd | src/cipher/tests.rs:4-10 | "ad" is `E3 A1 A4`, the character U+3864 |
| StandardCipher.EncryptGc | src/cipher/tests.rs:12-18 | "gc" is `E3 A7 A3`, U+39E3, so "adgc" is U+3864 U+39E3 |
| StandardCipher.EncryptX | src/cipher/standard.rs:10-26 | a lone "x" is `E6 B8 80`, U+6E00, not the U+5E00 the tests expect |
| ExtendedCipher.EncryptCharPair | src/cipher/extended.rs:11-29 | every unit is four bytes: `F0`, a byte in 90..97, then two continuation bytes; bit 2 of byte 1 is set exactly when the second byte is missing, and then the last byte is 0x80 |
| ExtendedCipher.DecryptCharPair | src/cipher/extended.rs:31-44 | total on every four bytes; both decoded bytes are ASCII; the second byte is missing exactly when bit 2 of byte 1 is set |
| ExtendedCipher.PairRoundTrip | src/cipher/extended.rs:11-44 | an ASCII pair comes back from its unit unchanged |
| ExtendedCipher.SingleRoundTrip | src/cipher/extended.rs:11-44 | a lone ASCII byte comes back alone |
| ExtendedCipher.HighBitIgnored | src/cipher/extended.rs:3-29 | bit 7 of either input never reaches the unit |
| ExtendedCipher.AlwaysWellFormed | src/cipher/extended.rs:11-29 | every unit, whatever the bytes, is one well-formed UTF-8 character between U+10000 and U+17FFF |
| ExtendedCipher.EncryptAd | src/cipher/tests.rs:40-60 | "ad" is `F0 93 A1 A4`, U+13864 |
| ExtendedCipher.EncryptGc | src/cipher/tests.rs:62-68 | "gc" is U+139E3, so "adgc" is U+13864 U+139E3 |
| ExtendedCipher.EncryptX | src/cipher/extended.rs:11-29 | a lone "x" is `F0 96 B8 80`, U+16E00, not the U+15E00 the tests expect |
| Algorithm.EncryptCharPair | src/cipher.rs:16-26 | a pair unit has width N and no single-byte flag; standard lead byte in E0..E3, extended `F0` then 90..93; the bytes after the flag byte are continuation bytes |
| Algorithm.EncryptSingleChar | src/cipher.rs:28-36 | a lone-byte unit has width N and the single-byte flag; standard lead E4..E5, extended `F0` then 94..95; its last byte is 0x80 |
| Algorithm.DecryptCharPair | src/cipher.rs:38-46 | two ASCII bytes from any unit |
| Algorithm.DecryptSingleChar | src/cipher.rs:48-52 | one ASCII byte from any unit |
| Algorithm.SingleRoundTrip | src/cipher.rs:28-52 | in both variants a lone ASCII byte comes back unchanged |
| Algorithm.PairRoundTrip | src/cipher.rs:1-46 | an ASCII pair decodes to `c0` and to `c1` with bit 5 of `c0` ORed into its bit 6, so it comes back unchanged exactly when bit 5 of `c0` is clear or bit 6 of `c1` is set |
| Algorithm.DecryptsA1AsAq | src/cipher.rs:16-46 | "a1" decodes as "aq" in both variants |
| Algorithm.StandardAdGc | src/cipher.rs:113-127 | "ad" and "gc" are U+3864 and U+39E3 |
| Algorithm.StandardBbb | src/cipher/tests.rs:20-26 | "bb" and a lone "b" are U+38A2 and U+5880 |
| Algorithm.StandardX | src/cipher/tests.rs:28-34 | a lone "x" is U+5E00 |
| Algorithm.ExtendedAdGc | src/cipher.rs:152-180 | "ad" and "gc" are U+13864 and U+139E3 |
| Algorithm.ExtendedBbb | src/cipher/tests.rs:70-101 | "bb" and a lone "b" are U+138A2 and U+15880 |
| Algorithm.ExtendedX | src/cipher/tests.rs:103-109 | a lone "x" is U+15E00 |
| BytePairs.RawPairs | src/cipher/bytepairs.rs:27-34 | raw pair `i` is item `2i` with item `2i + 1` when there is one; there are `ceil(n / 2)` of them |
| BytePairs.PairOf | src/cipher/bytepairs.rs:28-31 | a raw pair gives a pair exactly when neither item is a read error, with the same bytes; otherwise the read error |
| BytePairs.Pairs | src/cipher/bytepairs.rs:27-34 | the pairs of a reader that never fails: `ceil(n / 2)` of them, pair `i` holding bytes `2i` and `2i + 1` |
| BytePairs.FlattenPairs | src/cipher/bytepairs.rs:27-34 | the pairs, flattened, are the input bytes in order |
| BytePairs.PairsShape | src/cipher/bytepairs.rs:28-31 | every pair but the last has its second byte; the last lacks it exactly when the length is odd |
| BytePairs.PairItemsClean | src/cipher/bytepairs.rs:27-42 | a reader that never fails yields exactly its pairs, each a success |
| BytePairs.ReadErrorSurfaces | src/cipher/bytepairs.rs:29-30 | a read error at item `k` makes pair `k / 2` an error |
| BytePairs.BytePairs.constructor | src/cipher/bytepairs.rs:11-25 | the items to come are all pairs of the reader |
| BytePairs.BytePairs.NextByte | src/cipher/bytepairs.rs:23 | the fused byte iterator: the next item, and nothing ever again once it has seen the end |
| BytePairs.BytePairs.NextPair | src/cipher/bytepairs.rs:27-34 | `Ok(None)` at the end; otherwise the first item to come, as a pair or its error, and the rest stay |
| BytePairs.BytePairs.Next | src/cipher/bytepairs.rs:40-42 | yields the items to come one by one, then `None` for ever |
| NBytes.ReadUnit | src/cipher/nbytes.rs:19-38 | the end at a unit boundary ends the iteration; a unit holds the next N bytes; a read error among them is an error; an end inside a unit is the truncation error naming N and the bytes found |
| NBytes.UnitItemsClean | src/cipher/nbytes.rs:19-38 | a reader that never fails yields its complete units, then the truncation error with `k = m mod N` when the length `m` is not a multiple of N |
| NBytes.ChunksCover | src/cipher/nbytes.rs:19-30 | there are `m / N` complete units, and with the leftover bytes they make up the input |
| NBytes.ChunksOfUnits | src/cipher/nbytes.rs:19-30 | units written one after another are cut back into the same units |
| NBytes.UnitsBack | src/cipher/nbytes.rs:19-30 | units written one after another are read back one by one, without error |
| NBytes.NBytes.constructor | src/cipher/nbytes.rs:8-13 | the items to come are all units of the reader |
| NBytes.NBytes.Next | src/cipher/nbytes.rs:19-30 | fills a fresh array byte by byte and yields the items to come one by one, then `None` |
| Chars.CharLen | src/cipher/chars.rs:47-55 | 1 for 00..70, 2 for 80..DF, 3 for E0..EF, 4 for F0..F7; any other byte, 71..7F included, is refused with `InvalidFirstByte` |
| Chars.CharLenAgrees | src/cipher/chars.rs:47-55 | where RFC 3629 knows the lead byte, `char_len` gives its length, except that it refuses 71..7F |
| Chars.CharLenRefusesQ | src/cipher/chars.rs:49 | "q" is a well-formed character that `char_len` refuses |
| Chars.CharLenFixed | src/cipher/chars.rs:47-55 | the intended table: a length of 1..4 or `InvalidFirstByte` |
| Chars.CharLenFixedAgrees | src/cipher/chars.rs:47-55 | the intended table gives every well-formed character its own length |
| Chars.OneChar | src/cipher/chars.rs:25 | bytes that `from_utf8` accepts after `char_len` are one character, so `char::from_str` cannot fail |
| Chars.FromUtf8 | src/cipher/chars.rs:25 | succeeds exactly on well-formed bytes, with the code point they encode; otherwise `InvalidUtf8` |
| Chars.ReadChar | src/cipher/chars.rs:14-27 | the end of the input only when it is empty; every item consumes between one item and all of the input |
| Chars.ReadCharOk | src/cipher/chars.rs:14-27 | a character comes from exactly `char_len(lead)` bytes that form one well-formed character, and is their code point |
| Chars.CharItemsClean | src/cipher/chars.rs:39-44 | a well-formed reader that never fails and avoids 71..7F yields its code points in order |
| Chars.ReadsFiveChars | src/cipher/chars.rs:62-76 | reading "h💯❤⭐k" yields its five characters in order |
| Chars.Chars.constructor | src/cipher/chars.rs:9-12 | the items to come are all characters of the reader |
| Chars.Chars.ReadCharLen | src/cipher/chars.rs:29-36 | `Ok(0)` at the end; a read error; or `Ok(1)` with the byte in `buf[0]` |
| Chars.Chars.ReadExact | src/cipher/chars.rs:22 | fills the slice from the reader, or fails with the read error or `UnexpectedEof` found first |
| Chars.Chars.NextChar | src/cipher/chars.rs:14-27 | does what `ReadChar` says: `Ok(None)` at the end, or the item, consuming its items |
| Chars.Chars.ReadTail | src/cipher/chars.rs:20-26 | after the lead byte, ends as `ReadChar` does for the whole character |
| Chars.Chars.Next | src/cipher/chars.rs:42-44 | yields the items to come one by one, then `None` |
| Cipher.DecryptCharPair | src/cipher/mod.rs:19 | every unit decrypts to ASCII bytes, in both variants |
| Cipher.UnitRoundTrip | src/cipher/mod.rs:17-19 | in both variants an ASCII pair, or a lone ASCII byte, comes back from its unit unchanged |
| Cipher.Encrypt | src/cipher/mod.rs:21-32 | writes one unit per pair of `BytePairs` and ends as the encryption specification says |
| Cipher.Decrypt | src/cipher/mod.rs:34-46 | writes `[c0, c1]` or `[c0]` per unit of `NBytes` and ends as the decryption specification says |
| Cipher.EncryptClean | src/cipher/mod.rs:21-32 | a reader that never fails is encrypted whole, with `Ok(())`, into `N * ceil(n / 2)` bytes |
| Cipher.DecryptEncrypt | src/cipher/mod.rs:21-46 | decrypting what an ASCII input encrypts to gives back the input, with `Ok(())` |
| Cipher.DecryptTruncated | src/cipher/mod.rs:39-44 | encrypted input whose length is not a multiple of N writes the one or two bytes of every complete unit, in order, and then fails with the truncation error naming N and the bytes left over |
| CipherEncrypt.RawBytePairs.constructor | src/cipher/encrypt.rs:35-41 | the raw pairs to come are all raw pairs of the reader |
| CipherEncrypt.RawBytePairs.NextByte | src/cipher/encrypt.rs:38 | the fused byte iterator: the next item, and nothing ever again once it has seen the end |
| CipherEncrypt.RawBytePairs.Next | src/cipher/encrypt.rs:46-52 | yields the raw pairs one by one, then `None` for ever |
| CipherEncrypt.RawStep | src/cipher/encrypt.rs:20-26 | one iteration writes the first raw pair's unit, or fails on a read error in it |
| CipherEncrypt.SameAsEncrypter | src/cipher/encrypt.rs:20-26 | taking the `?` in the loop writes the same units and stops at the same read error as `src/encrypt.rs` |
| CipherEncrypt.Encrypt | src/cipher/encrypt.rs:16-28 | writes one unit per raw pair and ends as the first version's encryption specification says |
| Encrypter.EncryptPair | src/encrypt.rs:21-23 | a unit of width N, flagged as a lone byte exactly when the second byte is missing |
| Encrypter.RoundPair | src/encrypt.rs:21-22 | a round on two items fails on a read error in either, or writes their pair unit |
| Encrypter.RoundLast | src/encrypt.rs:23 | a round on the last item fails on its read error, or writes its lone-byte unit and ends with `Ok(())` |
| Encrypter.Encrypt | src/encrypt.rs:15-28 | writes one unit per two items, a lone-byte unit for an odd last item, and stops at the first read error |
| Encrypter.EncryptClean | src/encrypt.rs:15-49 | a reader that never fails is encrypted whole, with `Ok(())`, into exactly `encrypt_size` bytes |
| Encrypter.PairCount | src/encrypt.rs:42-49 | `encrypt_size(n)` is `N * ceil(n / 2)` |
| Encrypter.SingleOnlyLast | src/encrypt.rs:21-24 | only the last unit can hold a lone byte, and it does exactly when the length is odd |
| Encrypter.EncryptString | src/encrypt.rs:31-40 | returns the encrypted bytes exactly when they are well-formed UTF-8, and `InvalidUtf8` otherwise |
| Encrypter.StandardPairWellFormed | src/encrypt.rs:39 | a standard unit of an ASCII pair is well-formed exactly unless `c0 < 0x20` and `c1 < 0x40` |
| Encrypter.StandardSingleWellFormed | src/encrypt.rs:39 | a standard unit of a lone ASCII byte is always well-formed |
| Encrypter.StandardRefusesNewlines | src/encrypt.rs:39 | "\n\n" encrypts to `E0 8A 8A`, which is not UTF-8, so `encrypt_string` fails |
| Encrypter.ExtendedWellFormed | src/cipher.rs:62-84 | every extended unit is one well-formed character |
| Encrypter.ExtendedAlwaysUtf8 | src/encrypt.rs:39 | so with `Extended` the bytes are always UTF-8 |
| Decrypter.DecryptUnit | src/decrypt.rs:19-27 | one ASCII byte for a unit flagged as a lone byte, two for any other |
| Decrypter.Decrypt | src/decrypt.rs:15-30 | writes the bytes of each unit of `NBytes` and stops at the first error |
| Decrypter.DecryptClean | src/decrypt.rs:15-65 | a reader that never fails has its complete units decrypted; it ends with `Ok(())` when the length is a multiple of N and with the truncation error otherwise |
| Decrypter.DecryptSizeBound | src/decrypt.rs:78-81 | `decrypt_size` is never below what is written, and equals it exactly when no complete unit holds a lone byte |
| Decrypter.DecryptString | src/decrypt.rs:67-76 | succeeds exactly when the length is a multiple of N, with the decrypted bytes; otherwise the truncation error |
| Decrypter.RoundTripIndex | src/cipher.rs:16-52 | the round trip keeps every byte at an even position and ORs bit 5 of the byte before into bit 6 of every byte at an odd position |
| Decrypter.UnitBack | src/decrypt.rs:19-27 | an ASCII pair's unit decrypts as `PairBack` says: the first byte exactly, the second with the leaked bit |
| Decrypter.UnitsComeBack | src/decrypt.rs:15-30 | each unit of an ASCII input decrypts to its pair as `PairBack` says |
| Decrypter.ConcatPairBack | src/decrypt.rs:15-30 | the pairs brought back, in order, are the round trip of the input |
| Decrypter.DecryptEncrypt | src/decrypt.rs:15-30 | decrypting what an ASCII input encrypts to gives back its round trip, with `Ok(())` |
| Decrypter.RoundTripIdentity | src/cipher.rs:16-46 | the round trip gives the input back exactly when every pair has bit 5 of its first byte clear or bit 6 of its second set |
| Decrypter.RoundTripAt | src/cipher.rs:16-46 | the second byte of pair `i` survives exactly when the pair is kept |
| Decrypter.TestStringsComeBack | src/cipher.rs:113-221 | "ad", "adgc", "bbb" and "x" are decrypted back to themselves in both variants |
| Decrypter.A1ComesBackAq | src/cipher.rs:16-46 | "a1" comes back as "aq" |
| Simple.TripleItems | src/cipher/simple.rs:67-75 | one round per complete triple, and nothing for a short tail |
| Simple.RoundTriple | src/cipher/simple.rs:70-72 | a round on three items fails on a read error in any of them, or writes the unit's bytes |
| Simple.Decrypt | src/cipher/simple.rs:67-103 | reads three items per round, writes one or two bytes by bit 2 of the first, and ends with `Ok(())` when fewer than three remain |
| Simple.DecryptClean | src/cipher/simple.rs:67-75 | a reader that never fails is decrypted with `Ok(())` whatever its length: complete units are written, the tail is dropped |
| Simple.TailIgnored | src/cipher/simple.rs:70-72 | items after the last complete triple are never looked at, read errors included |
| Simple.DecryptEncrypt | src/cipher/simple.rs:20-103 | decrypting what an ASCII input encrypts to gives back its round trip |
| Simple.EncryptToString | src/cipher/simple.rs:106-111 | returns the encrypted bytes exactly when they are well-formed UTF-8, and `InvalidUtf8` otherwise |
| Simple.DecryptToString | src/cipher/simple.rs:113-118 | always succeeds, with the decrypted complete units |
| Simple.EncryptSizeExact | src/cipher/simple.rs:120-128 | `encrypt_size` is exactly the length of the encryption |
| Simple.DecryptSizeBelow | src/cipher/simple.rs:130-134 | `decrypt_size` is at most the length of the decryption |
| Simple.AdGcUnits | src/cipher/simple.rs:139-150 | "ad" and "gc" encrypt to U+3864 and U+39E3 |
| Simple.AdGc | src/cipher/simple.rs:152-158 | "adgc" encrypts to U+3864 U+39E3 |
| Simple.AdgcComesBack | src/cipher/simple.rs:152-158 | "adgc" comes back unchanged |
| SimpleV2.EncryptCharPair | src/cipherv2/simple.rs:9-16 | the code point is at most 0x7FFF, below the surrogates, so `from_u32(..).unwrap()` never panics |
| SimpleV2.DecryptCharPair | src/cipherv2/simple.rs:18-23 | both decoded bytes are at most 0x7F |
| SimpleV2.PairRoundTrip | src/cipherv2/simple.rs:9-23 | a pair comes back from its code point exactly when both bytes are ASCII |
| SimpleV2.EncryptInjective | src/cipherv2/simple.rs:9-16 | distinct ASCII pairs give distinct code points |
| SimpleV2.EncryptAd | src/cipherv2/simple.rs:9-23 | "ad" is U+30E4, and comes back |
| CipherV2.Encode | src/cipherv2/mod.rs:22-24 | one to three bytes forming one well-formed character, whose code point is the pair's |
| CipherV2.DecryptChar | src/cipherv2/mod.rs:35-37 | one or two ASCII bytes; a second byte is never 0 |
| CipherV2.Encrypt | src/cipherv2/mod.rs:15-27 | writes the encoding of each pair and stops at the first error |
| CipherV2.Decrypt | src/cipherv2/mod.rs:29-41 | writes one or two bytes per character and stops at the first error |
| CipherV2.EncryptAll | src/cipherv2/mod.rs:21-26 | pairs without errors are encrypted with `Ok(())` into well-formed UTF-8 whose characters are the pairs' code points in order |
| CipherV2.EncryptFirstError | src/cipherv2/mod.rs:22 | the first failing pair stops `encrypt`: the pairs before it are written, nothing after |
| CipherV2.DecryptFirstError | src/cipherv2/mod.rs:35 | the first failing character stops `decrypt` the same way |
| CipherV2.CharBack | src/cipherv2/mod.rs:35-37 | the character of an ASCII pair decrypts to both bytes, or to the first alone when the second is 0 |
| CipherV2.DecryptEncrypt | src/cipherv2/mod.rs:15-41 | decrypting what ASCII pairs encrypt to gives back every pair's bytes in order, a second byte 0 excepted |
| CipherV2.ZeroSecondByteLost | src/cipherv2/mod.rs:36 | a genuine 0 in second place is lost: `(c0, 0)` comes back as `[c0]` |
| Utf8.EncodeDecode | src/cipherv2/mod.rs:23 | a well-formed character is the encoding of its code point |

## Left out

- Write errors: every writer is an appended byte sequence that never fails. The string wrappers write to a `Vec`, which cannot fail.
- The retry on `ErrorKind::Interrupted` in `read_char_len` (`src/cipher/chars.rs:29-36`): each reader item is read once.
- How many bytes a failing `read_exact` has consumed is not observable afterwards: the model consumes up to the failing item.
- `Vec::with_capacity` is only an allocation hint. The size formulas are modelled as functions and compared with the real output lengths.
- The text of the `anyhow` error messages: errors are the `Io.Error` datatype.
- `src/main.rs`, a demo that prints results.
- The test modules are not code to model. Their vectors are lemmas.
- The pair and character iterators of the second version (`src/cipherv2/bytepairs.rs`, `src/cipherv2/chars.rs`) are not part of this model. `CipherV2` takes their items as its input.
- The 4-byte scratch buffer of `encode_utf8` in `src/cipherv2/mod.rs:20-24`: the encoding is computed directly.
- `src/cipherv2/mod.rs:11` names the trait `Cipher<N>` while `src/cipherv2/simple.rs:1` implements `CipherV2`. `src/cipher/encrypt.rs:23` and `src/cipher/decrypt.rs:22-23` call `encrypt_single_char`, `has_single_char` and `decrypt_char`, which the trait in `src/cipher/mod.rs` does not have. The model treats these as the intended signatures: the second-version trait, and the five operations of `src/cipher.rs`.
- `src/cipher/simple.rs:20-53`, its encryption, is not a separate member: its loop and packing are `Encrypter.Encrypt` with `Standard`.
- `Encrypter.EncryptString`, `Decrypter.DecryptString`: their input is well-formed UTF-8, because the source takes a `&str`.

## Findings

| source | as written | input that shows it | evidently intended | confidence | as-written member | corrected member |
|---|---|---|---|---|---|---|
| src/cipher.rs:1-22 | `SIG_BIT_MASK` is 127, so `(c0 & 127) >> 5` puts bit 5 of the first byte into lead bit 0, the slot for bit 6 of the second byte (also `src/cipher/simple.rs:5,35-39`) | "a1" decrypts as "aq" | mask 0x40, as in `src/cipher/standard.rs:3`: every ASCII pair comes back | not executed | Algorithm.PairRoundTrip | StandardCipher.PairRoundTrip |
| src/cipher/chars.rs:49 | `char_len` gives length 1 only to `0x00..=0x70`, so `0x71..=0x7F` is refused with an error (also `src/cipher/decrypt.rs:114`) | "q" (0x71) | every byte up to 0x7F is a one-byte character | not executed | Chars.CharLenRefusesQ | Chars.CharLenFixedAgrees |
