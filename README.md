# rustar in Dafny

A model of `rustar`, a `no_std` reader for ustar tape archives held in
memory. The archive is a byte buffer. A 512-byte header block carries:

- the entry's name, NUL-padded, at offset 0 (100 bytes);
- its size, in octal ASCII, at offset 0x7c (11 bytes are read);
- the magic "ustar" at offset 257.

The content follows the header and is padded with zeros to a whole number
of blocks. The next header comes right after it. Two zero blocks end the
archive.

The library's parts, and where they are modelled:

- `oct2bin` decodes octal fields. Module `Octal`, file `octal.dfy`.
- `parse_header` decodes one block. Module `Header`, file `header.dfy`.
- `TarIter` is a cursor that walks the headers. Module `Iter`, file `iter.dfy`.
- `tar_lookup` and `extract_file` look an entry up by name. Module `Lookup`, file `lookup.dfy`.
- `make_tar` is the test suite's archive builder. Module `Builder`, file `builder.dfy`.
- The concrete archives the tests build are in module `Scenarios`, file `scenarios.dfy`.
- `Utf8` (file `utf8.dfy`) stands in for `core::str::from_utf8`.
- `Bytes` and `Options` hold the byte type and `Option`.

How the model is built:

- The archive is an immutable `seq<byte>`. A borrowed slice `&archive[a..b]` is the index pair `Span(a, b)`. A header's `&str` name is its byte sequence, and `&str ==` is byte equality.
- `Entries(archive, offset)` is a ghost function: the whole chain of headers a cursor at `offset` yields. It ends at the first header that fails to parse.
- `TarIter` is a class whose one mutable field is `offset`. A ghost field `yielded` records what the cursor has handed out. The invariant `Valid()` says two things:
  - the offset is block-aligned;
  - `yielded + Entries(archive, offset) == Entries(archive, 0)`.
- `oct2bin`, `TarIter::next` and `tar_lookup` are imperative in the source. They are methods: `Oct2Bin` and `TarLookup` loop, `Next` updates the cursor. Each is proved against a specification function:
  - `OctValue` for `oct2bin`;
  - `Entries` for `next`;
  - `Lookup` for `tar_lookup`.
- `parse_header` is a pure function. It decodes the size field (src/lib.rs:37) with `OctRange`, which reads the field in place; `OctRangeSlice` proves it equal to `OctValue` of the slice `header[0x7c..0x7c + 11]`. The magic test (src/lib.rs:33) is `HasMagic`, compared byte by byte; `ParseHeaderFailures` proves it equal to comparing the five-byte slice with "ustar".
- `extract_file` is a method, because it calls the loop method `TarLookup`. Its result is specified by the ghost function `Extracted`.

`tar_lookup` (src/lib.rs:77-86) skips an entry whose name matches but whose
content ends past the end of the buffer, and goes on scanning. Such an
entry is always the last one of the chain. The cursor steps past its
`file_end`, so the next `parse_header` finds less than a block left
(src/lib.rs:28, 71-72). Skipping it and scanning on therefore gives the
same answer as stopping at the first name match and returning `None` when
its content does not fit. `Iter.OutOfBoundsIsLast` and
`Lookup.LookupStopsAtFirstName` prove this.

## Model

| member | source | states |
|---|---|---|
| Octal.Oct2Bin | src/lib.rs:8-16 | the loop returns `OctValue(s)`: the base-8 number spelled by the bytes `'0'..'7'` of `s`, every other byte skipped |
| Octal.Digits | src/lib.rs:10-14 | the digits kept are no more than the bytes, and each is below 8 |
| Octal.OctValueSnoc | src/lib.rs:11-13 | one more byte: a digit gives `n * 8 + digit`; any other byte leaves the value unchanged |
| Octal.OctValueConcat | src/lib.rs:8-16 | decoding a concatenation shifts the first part by one octal place per digit of the second |
| Octal.OctValueIgnoresNonDigits | src/lib.rs:10-14 | non-digit bytes (NUL, space, anything) before or after a field do not change its value |
| Octal.OctValueLeadingZero | tests/tests.rs:50 | a leading `'0'` does not change the value |
| Octal.OctValueBound | src/lib.rs:37 | a field of `w` bytes decodes to less than `8^w`, so the 11-byte size field gives less than `2^33` |
| Octal.OctRangeSlice | src/lib.rs:37 | decoding the size field in place equals decoding the slice `header[0x7c..0x7c + 11]` |
| Octal.ToOctal | tests/tests.rs:17 | `format!("{:o}", n)` is at least one byte, all of them octal digits |
| Octal.OctValueToOctal | tests/tests.rs:17-19 | round trip: decoding the octal spelling of `n` gives `n` |
| Octal.ToOctalLength | tests/tests.rs:17-19 | a number below `8^k` is spelled with at most `k` digits |
| Octal.Oct2BinExamples | tests/tests.rs:47-52 | `""` decodes to 0, `"10"` to 8, `"7"` to 7 and `"00010"` to 8 |
| Utf8.ValidRangeSlice | src/lib.rs:42 | checking UTF-8 on an index range of the buffer is checking the sub-slice it delimits |
| Utf8.ValidUtf8Slice | src/lib.rs:42 | the in-place check of `archive[lo..hi]` agrees with `from_utf8` on that slice |
| Utf8.AsciiIsValidUtf8 | tests/tests.rs:13 | seven-bit ASCII names, as the tests use, are valid UTF-8 |
| Header.NulFrom | src/lib.rs:41 | the NUL search returns a position inside the searched range |
| Header.NulFromFirst | src/lib.rs:41 | `position(b == 0).unwrap_or(len)` stops at the first NUL: none before it, and a NUL at it unless it is the end |
| Header.NameEnd | src/lib.rs:40-41 | the name ends within the first 100 bytes of the block |
| Header.TrimmedNameUnique | src/lib.rs:40-42 | the name is the one NUL-free prefix of the 100-byte field that is either the whole field or followed by a NUL |
| Header.ParseHeader | src/lib.rs:27-50 | fewer than 512 bytes left gives `None`; a success has the magic, `file_start == offset + 512` and `file_end == file_start + size` |
| Header.ParseHeaderFailures | src/lib.rs:28-42 | `None` exactly when the block is out of range, or the magic is not "ustar", or the name is not valid UTF-8; the first two are decided on their own |
| Header.ParseHeaderFields | src/lib.rs:37-49 | the fields on success: name cut at the first NUL, `size == oct2bin(size field)`, `file_start == offset + 512`, `file_end - file_start == size`; the name has no NUL, at most 100 bytes, valid UTF-8 |
| Header.ParseHeaderAccepts | src/lib.rs:27-50 | a block inside the buffer with the magic and a valid UTF-8 name parses to exactly that name and the size its field spells |
| Header.ZeroBlockIsNotAHeader | src/lib.rs:33-35 | a block whose magic starts with a zero byte, such as the end-of-archive blocks, is not a header |
| Iter.Advance | src/lib.rs:70-72 | the step past a header is a multiple of 512, at least `size + 512` and less than `size + 1024` |
| Iter.TarIter.constructor | src/lib.rs:59-61 | a fresh cursor stands at offset 0, has yielded nothing and is valid |
| Iter.TarIter.Next | src/lib.rs:67-74 | returns `parse_header` at the cursor. On success: offset increased by `Advance(size)`, entry appended, `file_end <= offset`, offset still block-aligned. On failure: offset unchanged, so the next call fails too, and everything yielded is the whole chain |
| Iter.EntriesStep | src/lib.rs:67-74 | the chain from a parsed header is that header, then the chain after its content |
| Iter.EntriesEnd | src/lib.rs:68 | the chain ends where a header fails to parse |
| Iter.ListEntries | src/lib.rs:64-75 | draining a fresh iterator terminates and yields exactly `Entries(archive, 0)` |
| Iter.EntryStart | src/lib.rs:67-74 | the `i`-th entry's content starts on a block boundary inside the buffer, at least `i + 1` blocks past the start |
| Iter.EntryGap | src/lib.rs:70-72 | an entry's content ends at least one block before the next header starts |
| Iter.EntriesOrdered | src/lib.rs:67-74 | any later entry starts past an earlier one's content |
| Iter.EntriesLayout | src/lib.rs:67-74 | the entries are block-aligned and in archive order, and there are no more of them than blocks in the buffer |
| Iter.OutOfBoundsIsLast | src/lib.rs:67-74 | an entry whose content ends past the buffer is the last of the chain |
| Iter.EntryWellFormed | src/lib.rs:27-50 | every entry of the chain has a NUL-free, valid UTF-8 name of at most 100 bytes and `file_end == file_start + size`, with its header inside the buffer |
| Lookup.FirstHit | src/lib.rs:78-84 | the index found holds an entry with the name whose content ends inside the buffer, and no earlier entry passes; `None` exactly when no entry passes |
| Lookup.LookupSpan | src/lib.rs:80-81 | a returned span lies inside the buffer past the first header, and its length is the entry's size |
| Lookup.NulQueryNeverMatches | tests/tests.rs:74-78 | a query containing NUL is never found |
| Lookup.TarLookup | src/lib.rs:77-86 | the loop returns `Lookup`: the span of the first entry in iteration order that passes the name and bound test, or `None`; a returned span lies inside the buffer |
| Lookup.FoundAt | src/lib.rs:79-81 | a passing entry after a prefix of the chain with none is the lookup's result |
| Lookup.FirstNamed | src/lib.rs:79 | the index found holds the first entry with the name; `None` exactly when no entry has it |
| Lookup.LookupStopsAtFirstName | src/lib.rs:77-86 | the lookup equals: the first entry with the name, its span if its content ends inside the buffer, `None` otherwise or when no entry has the name |
| Lookup.ExtractFile | src/lib.rs:89-91 | returns a copy of the looked-up content: `Some(archive[start..end])` exactly when the lookup finds a span |
| Builder.Overwrite | tests/tests.rs:14 | `copy_from_slice` into a window changes exactly that window to the given bytes |
| Builder.ByteSum | tests/tests.rs:28 | the byte sum of `s` is at most 255 times its length |
| Builder.ChecksumField | tests/tests.rs:29-30 | `format!("{:06o}\0 ", sum)` is exactly eight bytes |
| Builder.HeaderBlock | tests/tests.rs:10-30 | the header `make_tar` builds is one 512-byte block |
| Builder.HeaderBlockFields | tests/tests.rs:12-22 | the block holds the name NUL-padded to 100 bytes, the size's octal digits NUL-padded to 11 bytes at 0x7c, and "ustar" at 257; the checksum written last touches none of them |
| Builder.ReadName | src/lib.rs:40-42 | a name NUL-padded in the name field is read back unchanged |
| Builder.ReadSize | src/lib.rs:37 | octal digits NUL-padded in the size field decode to the number |
| Builder.HeaderBlockRead | tests/tests.rs:10-30 | wherever the block stands, the magic, name and size read back as written |
| Builder.ParseHeaderBlock | tests/tests.rs:9-30 | `parse_header` on a block `make_tar` wrote gives exactly its name and size, content right after the block |
| Builder.Padding | tests/tests.rs:37 | the padding is below 512 and rounds the content up to whole blocks |
| Builder.AdvanceCoversPadding | tests/tests.rs:35-38 | header, content and padding together are exactly the iterator's step |
| Builder.EntryBlock | tests/tests.rs:32-38 | the header with its padded content is as long as the iterator's step |
| Builder.MakeTar | tests/tests.rs:9-44 | the archive is `Advance` of the content length plus 1024 bytes long: the entry's blocks and two zero blocks |
| Builder.EntryBlockChain | tests/tests.rs:32-38 | an entry block anywhere in a buffer adds its header to the chain and holds its content where the header says |
| Builder.ZeroTail | tests/tests.rs:40-41 | the two zero blocks end the chain |
| Builder.MakeTarRoundTrip | tests/tests.rs:64-86 | the built archive has exactly one entry, and extracting it by name gives the contents back, empty contents included |
| Builder.Concatenated | tests/tests.rs:91-95 | dropping the first archive's end blocks and appending the second gives both entry blocks, then the end blocks |
| Builder.ConcatenatedEntries | tests/tests.rs:88-112 | the concatenation yields both entries in order, the second header one step past the first |
| Scenarios.AsciiNameStorable | tests/tests.rs:13-14 | a seven-bit, NUL-free name of at most 100 bytes can be stored and read back |
| Scenarios.GeneratedArchive | tests/tests.rs:64-72 | "liz.txt" is extracted from its archive as "hello owo\n" |
| Scenarios.MissingFile | tests/tests.rs:74-78 | "missing.txt\0" is not found in the archive holding "only.txt" |
| Scenarios.EmptyFile | tests/tests.rs:80-86 | the empty entry is found and its content is empty |
| Scenarios.MultipleFiles | tests/tests.rs:88-112 | the two concatenated archives yield "puppyboy.txt" then "puppygirl.txt", and nothing else |

## Left out

- The `TarReader` block-device trait (src/lib.rs:98-100): it declares one I/O method and has no behaviour.
- Oct2Bin: does not model `usize` overflow of `n * 8 + digit` (a panic in debug builds, wrap-around in release), because the model's integers are unbounded. The 11-byte size field is proved to hold less than `2^33`. That is beyond a 32-bit `usize`, so on such targets an 11-digit size field can itself overflow in `oct2bin` (src/lib.rs:12, 37).
- ParseHeader: does not model `usize` overflow of `offset + 512` or `offset + 512 + size`, for the same reason.
- Iter.TarIter.Next: does not model `usize` overflow of the new offset.
- `core::str::from_utf8` is a library call. It is modelled as the well-formedness grammar of RFC 3629, section 4. Only its yes/no answer is used.
- Lifetimes and borrowing: a borrowed slice is a `Span` into the immutable buffer, and a name is a plain byte sequence. `to_vec` is a sequence value.
- `make_tar` (tests/tests.rs:9-44) fills a mutable 512-byte array in place. The model builds the same block as a value with `Overwrite`. The checksum is computed as the helper computes it, although the parser never reads it.
- MakeTar: requires a name of at most 100 bytes and a size below `8^11`, so that it covers only the archives `parse_header` can read back. The Rust helper's `header` is a 512-byte array (tests/tests.rs:10). A name of 101 to 512 bytes runs past the 100-byte name field (tests/tests.rs:14). The later writes overwrite whatever part of it lands on the size digits, the checksum or the magic. `parse_header` reads back at most its first 100 bytes. Only a name over 512 bytes panics. A size of `8^11` or more writes more octal digits than the 11 bytes the parser reads. Every call in tests/tests.rs meets both bounds.
- Builder.MakeTarRoundTrip: requires a name with no NUL and valid UTF-8. A Rust `&str` is always valid UTF-8. A name with a NUL is cut at it when read back.
- The `sample.tar` test (tests/tests.rs:54-62) reads a binary fixture that is not part of this model.
- The test's `from_utf8_lossy` and NUL split of each yielded name (tests/tests.rs:98-104) are not modelled. The names the model yields have no NUL and are valid UTF-8, so both are the identity.
