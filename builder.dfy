/** `make_tar`, the archive builder of the test suite, and what reading its
    output gives back. */
module Builder {
  import opened Bytes
  import opened Options
  import opened Octal
  import opened Utf8
  import opened Header
  import opened Iter
  import opened Lookup

  /** `buf[at..at + |bytes|].copy_from_slice(bytes)`. */
  function Overwrite(buf: seq<byte>, at: nat, bytes: seq<byte>): (r: seq<byte>)
    requires at + |bytes| <= |buf|
    ensures |r| == |buf|
    ensures forall i :: 0 <= i < |r| ==> r[i] == if at <= i < at + |bytes| then bytes[i - at] else buf[i]
  {
    buf[..at] + bytes + buf[at + |bytes|..]
  }

  /** `header.iter().map(|&b| b as u32).sum()`. */
  function ByteSum(s: seq<byte>): (n: nat)
    ensures n <= 255 * |s|
  {
    if s == [] then 0 else ByteSum(s[..|s| - 1]) + s[|s| - 1] as nat
  }

  /** `format!("{:06o}\0 ", sum)`: six octal digits, zero-padded on the left,
      then a NUL and a space. A 512-byte block sums to at most 130560, which
      six digits always hold. */
  function ChecksumField(sum: nat): (f: seq<byte>)
    requires sum < 262144
    ensures |f| == 8
  {
    assert Pow8(6) == 262144;
    ToOctalLength(sum, 6);
    var digits := ToOctal(sum);
    seq(6 - |digits|, _ => AsciiZero) + digits + [0, 0x20]
  }

  /** The header block `make_tar` writes: the name at offset 0, the size in
      octal at 0x7c, "ustar" at 257, and the checksum, computed with its own
      field read as eight spaces, at 148. */
  function HeaderBlock(filename: seq<byte>, size: nat): (b: seq<byte>)
    requires |filename| <= 100 && size < 0x2_0000_0000
    ensures |b| == 512
  {
    assert Pow8(11) == 0x2_0000_0000;
    ToOctalLength(size, 11);
    var named := Overwrite(Zeros(512), 0, filename);
    var sized := Overwrite(named, 0x7c, ToOctal(size));
    var marked := Overwrite(sized, 257, Magic);
    var blanked := Overwrite(marked, 148, seq(8, _ => 0x20));
    Overwrite(blanked, 148, ChecksumField(ByteSum(blanked)))
  }

  /** The fields `parse_header` reads hold the name, NUL-padded to 100 bytes,
      the size's octal digits, NUL-padded to 11 bytes, and the magic. The
      checksum, written last, lies outside all three. */
  lemma HeaderBlockFields(filename: seq<byte>, size: nat)
    requires |filename| <= 100 && size < 0x2_0000_0000
    ensures var b := HeaderBlock(filename, size);
      var digits := ToOctal(size);
      |digits| <= 11 &&
      (forall i :: 0 <= i < |filename| ==> b[i] == filename[i]) &&
      (forall i :: |filename| <= i < 100 ==> b[i] == 0) &&
      (forall j :: 0x7c <= j < 0x7c + |digits| ==> b[j] == digits[j - 0x7c]) &&
      (forall j :: 0x7c + |digits| <= j < 0x7c + 11 ==> b[j] == 0) &&
      (forall i :: 0 <= i < 5 ==> b[257 + i] == Magic[i])
  {
    hide ByteSum;
    hide ChecksumField;
    assert Pow8(11) == 0x2_0000_0000;
    ToOctalLength(size, 11);
  }

  /** The name `make_tar` can store so that `parse_header` reads it back:
      at most 100 bytes, no NUL, valid UTF-8 (a Rust `&str` always is). */
  predicate StorableName(filename: seq<byte>) {
    |filename| <= 100 && (forall i :: 0 <= i < |filename| ==> filename[i] != 0) && ValidUtf8(filename)
  }

  /** A NUL-padded name field is cut back to the name. */
  lemma ReadName(archive: seq<byte>, offset: nat, filename: seq<byte>)
    requires offset + 512 <= |archive| && |filename| <= 100
    requires forall i :: 0 <= i < |filename| ==> filename[i] != 0
    requires forall j :: offset <= j < offset + |filename| ==> archive[j] == filename[j - offset]
    requires forall j :: offset + |filename| <= j < offset + 100 ==> archive[j] == 0
    ensures archive[offset .. NameEnd(archive, offset)] == filename
  {
    var raw := archive[offset .. offset + NameLen];
    assert forall i :: 0 <= i < 100 ==> raw[i] == archive[offset + i];
    assert raw[..|filename|] == filename;
    if |filename| < 100 {
      assert raw[|filename|] == archive[offset + |filename|];
    }
    assert IsTrimmedName(raw, filename);
    TrimmedNameUnique(archive, offset, filename);
  }

  /** A size field of octal digits followed by NULs decodes to the number. */
  lemma ReadSize(archive: seq<byte>, offset: nat, size: nat)
    requires offset + 512 <= |archive| && |ToOctal(size)| <= 11
    requires forall j :: offset + 0x7c <= j < offset + 0x7c + |ToOctal(size)| ==>
      archive[j] == ToOctal(size)[j - offset - 0x7c]
    requires forall j :: offset + 0x7c + |ToOctal(size)| <= j < offset + 0x7c + 11 ==> archive[j] == 0
    ensures OctValue(archive[offset + SizeOffset .. offset + SizeOffset + SizeLen]) == size
  {
    var digits := ToOctal(size);
    var pad := Zeros(11 - |digits|);
    var field := archive[offset + SizeOffset .. offset + SizeOffset + SizeLen];
    forall i | 0 <= i < 11
      ensures field[i] == (digits + pad)[i]
    {
      assert field[i] == archive[offset + 0x7c + i];
    }
    assert field == digits + pad;
    OctValueIgnoresNonDigits(digits, pad);
    OctValueToOctal(size);
  }

  /** The three fields of a header block `make_tar` wrote, read in place. */
  lemma HeaderBlockRead(archive: seq<byte>, offset: nat, filename: seq<byte>, size: nat)
    requires StorableName(filename) && size < 0x2_0000_0000
    requires offset + 512 <= |archive| && archive[offset .. offset + 512] == HeaderBlock(filename, size)
    ensures archive[offset + MagicOffset .. offset + MagicOffset + 5] == Magic
    ensures archive[offset .. NameEnd(archive, offset)] == filename
    ensures OctValue(archive[offset + SizeOffset .. offset + SizeOffset + SizeLen]) == size
  {
    hide ParseHeader;
    var b := HeaderBlock(filename, size);
    HeaderBlockFields(filename, size);
    hide HeaderBlock;
    assert forall j :: offset <= j < offset + 512 ==> archive[j] == b[j - offset] by {
      assert forall j :: offset <= j < offset + 512 ==> archive[offset .. offset + 512][j - offset] == archive[j];
    }
    ReadName(archive, offset, filename);
    ReadSize(archive, offset, size);
    var m := archive[offset + MagicOffset .. offset + MagicOffset + 5];
    assert forall i :: 0 <= i < 5 ==> m[i] == b[257 + i];
    assert m == Magic;
  }

  /** `parse_header` reads back exactly what `make_tar` wrote, wherever in
      the archive the block stands. */
  lemma ParseHeaderBlock(archive: seq<byte>, offset: nat, filename: seq<byte>, size: nat)
    requires StorableName(filename) && size < 0x2_0000_0000
    requires offset + 512 <= |archive| && archive[offset .. offset + 512] == HeaderBlock(filename, size)
    ensures ParseHeader(archive, offset) == Some(TarHeader(filename, size, offset + 512, offset + 512 + size))
  {
    hide ParseHeader;
    HeaderBlockRead(archive, offset, filename, size);
    hide HeaderBlock;
    hide IsTrimmedName;
    hide WellFormed;
    hide OctValue;
    hide NameEnd;
    hide ValidUtf8;
    ParseHeaderAccepts(archive, offset, filename, size);
  }

  /** `(512 - len % 512) % 512`: the zero bytes that round the content up to
      whole blocks. */
  function Padding(len: nat): (p: nat)
    ensures p < 512 && (len + p) % 512 == 0
  {
    (512 - len % 512) % 512
  }

  /** A header followed by its padded content is exactly as long as the step
      `next` takes past it. */
  lemma AdvanceCoversPadding(len: nat)
    ensures Advance(len) == 512 + len + Padding(len)
  {
    var q, r := len / 512, len % 512;
    assert len == 512 * q + r;
    if r == 0 {
      assert (len + 511) / 512 == q;
    } else {
      assert (len + 511) / 512 == q + 1;
    }
  }

  /** One entry as `make_tar` lays it out: header block, content, zero
      padding to the next block boundary. */
  function EntryBlock(filename: seq<byte>, contents: seq<byte>): (e: seq<byte>)
    requires |filename| <= 100 && |contents| < 0x2_0000_0000
    ensures |e| == Advance(|contents|)
  {
    AdvanceCoversPadding(|contents|);
    HeaderBlock(filename, |contents|) + contents + Zeros(Padding(|contents|))
  }

  /** `make_tar(filename, contents)`: the entry, then two zero blocks. */
  function MakeTar(filename: seq<byte>, contents: seq<byte>): (t: seq<byte>)
    requires |filename| <= 100 && |contents| < 0x2_0000_0000
    ensures |t| == Advance(|contents|) + 1024
  {
    EntryBlock(filename, contents) + Zeros(1024)
  }

  /** An entry block anywhere in an archive adds its header to the chain, and
      its content is where the header says. */
  lemma EntryBlockChain(before: seq<byte>, filename: seq<byte>, contents: seq<byte>, after: seq<byte>)
    requires StorableName(filename) && |contents| < 0x2_0000_0000
    ensures var archive := before + EntryBlock(filename, contents) + after;
      var at := |before|;
      Entries(archive, at) ==
        [TarHeader(filename, |contents|, at + 512, at + 512 + |contents|)] +
        Entries(archive, at + |EntryBlock(filename, contents)|) &&
      archive[at + 512 .. at + 512 + |contents|] == contents
  {
    hide ParseHeader;
    var e := EntryBlock(filename, contents);
    var archive := before + e + after;
    var at := |before|;
    var hb := HeaderBlock(filename, |contents|);
    assert e == hb + contents + Zeros(Padding(|contents|));
    hide EntryBlock;
    hide HeaderBlock;
    hide Entries;
    assert archive[at .. at + 512] == hb;
    assert archive[at + 512 .. at + 512 + |contents|] == contents;
    ParseHeaderBlock(archive, at, filename, |contents|);
    EntriesStep(archive, at, TarHeader(filename, |contents|, at + 512, at + 512 + |contents|));
  }

  /** The zero blocks that end an archive end the chain. */
  lemma ZeroTail(before: seq<byte>)
    ensures Entries(before + Zeros(1024), |before|) == []
  {
    hide ParseHeader;
    var archive := before + Zeros(1024);
    ZeroBlockIsNotAHeader(archive, |before|);
  }

  /** Round trip: the archive `make_tar` builds holds exactly the one entry,
      and `extract_file` gives the contents back, empty contents included. */
  lemma MakeTarRoundTrip(filename: seq<byte>, contents: seq<byte>)
    requires StorableName(filename) && |contents| < 0x2_0000_0000
    ensures Entries(MakeTar(filename, contents), 0) == [TarHeader(filename, |contents|, 512, 512 + |contents|)]
    ensures Extracted(MakeTar(filename, contents), filename) == Some(contents)
  {
    hide ParseHeader;
    var e := EntryBlock(filename, contents);
    var archive := MakeTar(filename, contents);
    assert archive == [] + e + Zeros(1024);
    EntryBlockChain([], filename, contents, Zeros(1024));
    ZeroTail(e);
    var hs := Entries(archive, 0);
    assert hs == [TarHeader(filename, |contents|, 512, 512 + |contents|)];
    assert FirstHit(hs, filename, |archive|) == Some(0);
  }

  /** `tar1.truncate(len - 1024); tar1.append(&mut tar2)`: the first entry
      without its end blocks, then the whole second archive. */
  function Concatenated(n1: seq<byte>, c1: seq<byte>, n2: seq<byte>, c2: seq<byte>): (t: seq<byte>)
    requires |n1| <= 100 && |c1| < 0x2_0000_0000 && |n2| <= 100 && |c2| < 0x2_0000_0000
    ensures t == EntryBlock(n1, c1) + EntryBlock(n2, c2) + Zeros(1024)
  {
    var tar1 := MakeTar(n1, c1);
    var tar2 := MakeTar(n2, c2);
    assert tar1[..|tar1| - 1024] == EntryBlock(n1, c1);
    tar1[..|tar1| - 1024] + tar2
  }

  /** Two entries in a row: the iterator steps over the first one's content
      and yields both, in order. */
  lemma ConcatenatedEntries(n1: seq<byte>, c1: seq<byte>, n2: seq<byte>, c2: seq<byte>)
    requires StorableName(n1) && |c1| < 0x2_0000_0000 && StorableName(n2) && |c2| < 0x2_0000_0000
    ensures var b1 := Advance(|c1|);
      Entries(Concatenated(n1, c1, n2, c2), 0) ==
        [TarHeader(n1, |c1|, 512, 512 + |c1|), TarHeader(n2, |c2|, b1 + 512, b1 + 512 + |c2|)]
  {
    hide ParseHeader;
    hide EntryBlock;
    hide Concatenated;
    var e1 := EntryBlock(n1, c1);
    var e2 := EntryBlock(n2, c2);
    var archive := Concatenated(n1, c1, n2, c2);
    assert archive == [] + e1 + (e2 + Zeros(1024));
    EntryBlockChain([], n1, c1, e2 + Zeros(1024));
    assert archive == e1 + e2 + Zeros(1024);
    EntryBlockChain(e1, n2, c2, Zeros(1024));
    assert archive == (e1 + e2) + Zeros(1024);
    ZeroTail(e1 + e2);
  }
}
