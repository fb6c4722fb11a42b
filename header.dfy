/** `parse_header`: decoding one 512-byte ustar header block of the archive. */
module Header {
  import opened Bytes
  import opened Options
  import opened Octal
  import opened Utf8

  const BlockSize: nat := 512
  const NameLen: nat := 100
  const SizeOffset: nat := 0x7c
  const SizeLen: nat := 11
  const MagicOffset: nat := 257
  /** The five bytes "ustar" compared at offset 257. */
  const Magic: seq<byte> := [0x75, 0x73, 0x74, 0x61, 0x72]

  /** One entry: its name (NUL padding stripped), its declared size and the
      absolute offsets of its content in the archive. */
  datatype TarHeader = TarHeader(name: seq<byte>, size: nat, fileStart: nat, fileEnd: nat)

  /** `position(|&b| b == 0).unwrap_or(len)`, counted from `i` within
      `archive[i..end]`: the index of the first NUL there, or `end`. */
  function NulFrom(archive: seq<byte>, i: nat, end: nat): (p: nat)
    requires i <= end <= |archive|
    ensures i <= p <= end
    decreases end - i
  {
    if i == end || archive[i] == 0 then i else NulFrom(archive, i + 1, end)
  }

  /** `NulFrom` stops at the first NUL and at nothing else. */
  lemma {:induction false} NulFromFirst(archive: seq<byte>, i: nat, end: nat)
    requires i <= end <= |archive|
    ensures var p := NulFrom(archive, i, end);
      (forall j :: i <= j < p ==> archive[j] != 0) && (p < end ==> archive[p] == 0)
    decreases end - i
  {
    if i < end && archive[i] != 0 {
      NulFromFirst(archive, i + 1, end);
    }
  }

  /** `name` is `raw` cut at its first NUL: a NUL-free prefix that is either
      all of `raw` or followed by a NUL. */
  ghost predicate IsTrimmedName(raw: seq<byte>, name: seq<byte>) {
    |name| <= |raw| && name == raw[..|name|] &&
    (forall i :: 0 <= i < |name| ==> name[i] != 0) &&
    (|name| < |raw| ==> raw[|name|] == 0)
  }

  /** Where the name of the block at `offset` ends: the first NUL of its
      100-byte name field, or the end of the field. */
  function NameEnd(archive: seq<byte>, offset: nat): (e: nat)
    requires offset + 512 <= |archive|
    ensures offset <= e <= offset + 100
  {
    NulFrom(archive, offset, offset + 100)
  }

  /** The name field has exactly one trimmed name, the one `NameEnd` cuts. */
  lemma TrimmedNameUnique(archive: seq<byte>, offset: nat, name: seq<byte>)
    requires offset + BlockSize <= |archive|
    ensures IsTrimmedName(archive[offset .. offset + NameLen], name) <==>
      name == archive[offset .. NameEnd(archive, offset)]
  {
    var raw := archive[offset .. offset + NameLen];
    var e := NameEnd(archive, offset);
    NulFromFirst(archive, offset, offset + NameLen);
    var p := e - offset;
    assert archive[offset..e] == raw[..p];
    assert forall j :: 0 <= j < p ==> raw[j] != 0 by {
      assert forall j :: 0 <= j < p ==> raw[j] == archive[offset + j];
    }
    assert p < |raw| ==> raw[p] == 0 by {
      if p < |raw| {
        assert raw[p] == archive[e];
      }
    }
    assert IsTrimmedName(raw, raw[..p]);
    if IsTrimmedName(raw, name) {
      assert |name| < |raw| ==> raw[|name|] == 0;
      assert |name| >= p;
      assert |name| == p;
    }
  }

  /** The facts every successfully parsed header satisfies. */
  ghost predicate WellFormed(h: TarHeader) {
    |h.name| <= 100 &&
    (forall i :: 0 <= i < |h.name| ==> h.name[i] != 0) &&
    ValidUtf8(h.name) &&
    h.fileStart >= 512 &&
    h.fileEnd == h.fileStart + h.size &&
    // 8^11: eleven octal digits express no more
    h.size < 0x2_0000_0000
  }

  /** The five magic bytes of the block at `offset` read "ustar". */
  predicate HasMagic(archive: seq<byte>, offset: nat)
    requires offset + 512 <= |archive|
  {
    archive[offset + 257] == 0x75 && archive[offset + 258] == 0x73 && archive[offset + 259] == 0x74 &&
    archive[offset + 260] == 0x61 && archive[offset + 261] == 0x72
  }

  /** The 11 bytes of the size field, `header[0x7c..0x7c + 11]`. */
  function SizeField(archive: seq<byte>, offset: nat): seq<byte>
    requires offset + 512 <= |archive|
  {
    archive[offset + 0x7c .. offset + 0x7c + 11]
  }

  /** `parse_header(archive, offset)`. The block is addressed through
      `archive` directly rather than through the sub-slice `header`. */
  function ParseHeader(archive: seq<byte>, offset: nat): (r: Option<TarHeader>)
    ensures offset + 512 > |archive| ==> r == None
    ensures r.Some? ==>
      offset + 512 <= |archive| && HasMagic(archive, offset) &&
      r.value.fileStart == offset + 512 &&
      r.value.fileEnd == r.value.fileStart + r.value.size
  {
    if offset + 512 > |archive| then None
    else if !HasMagic(archive, offset) then None
    else
      var size := OctRange(archive, offset + 0x7c, offset + 0x7c + 11);
      var e := NameEnd(archive, offset);
      if !ValidRange(archive, offset, e) then None
      else Some(TarHeader(archive[offset..e], size, offset + 512, offset + 512 + size))
  }

  /** `parse_header` fails in exactly three cases, checked in this order, and
      the first is decided before anything is indexed: less than a block
      left, magic other than "ustar", a name that is not valid UTF-8. */
  lemma ParseHeaderFailures(archive: seq<byte>, offset: nat)
    ensures offset + BlockSize > |archive| ==> ParseHeader(archive, offset) == None
    ensures offset + BlockSize <= |archive| && archive[offset + MagicOffset .. offset + MagicOffset + 5] != Magic ==>
      ParseHeader(archive, offset) == None
    ensures ParseHeader(archive, offset).None? <==>
      offset + BlockSize > |archive| || archive[offset + MagicOffset .. offset + MagicOffset + 5] != Magic ||
      !ValidUtf8(archive[offset .. NameEnd(archive, offset)])
  {
    if offset + BlockSize <= |archive| {
      var m := archive[offset + MagicOffset .. offset + MagicOffset + 5];
      assert HasMagic(archive, offset) <==> m == Magic by {
        if m == Magic {
          assert m[0] == 0x75 && m[1] == 0x73 && m[2] == 0x74 && m[3] == 0x61 && m[4] == 0x72;
        }
      }
      ValidUtf8Slice(archive, offset, NameEnd(archive, offset));
    }
  }

  /** The header `parse_header` returns: the name field cut at its first NUL,
      the size the 11-byte size field spells in octal, and the content span
      right after the header block, of exactly that size; `file_end` is not
      checked against the buffer. */
  lemma ParseHeaderFields(archive: seq<byte>, offset: nat)
    ensures ParseHeader(archive, offset).Some? ==>
      var h := ParseHeader(archive, offset).value;
      var size := OctValue(archive[offset + SizeOffset .. offset + SizeOffset + SizeLen]);
      h == TarHeader(archive[offset .. NameEnd(archive, offset)], size, offset + BlockSize, offset + BlockSize + size) &&
      IsTrimmedName(archive[offset .. offset + NameLen], h.name) &&
      h.fileEnd - h.fileStart == h.size &&
      WellFormed(h)
  {
    if ParseHeader(archive, offset).Some? {
      var e := NameEnd(archive, offset);
      ValidUtf8Slice(archive, offset, e);
      TrimmedNameUnique(archive, offset, archive[offset..e]);
      OctRangeSlice(archive, offset + 0x7c, offset + 0x7c + 11);
      OctValueBound(SizeField(archive, offset));
      assert Pow8(SizeLen) == 0x2_0000_0000;
    }
  }

  /** A block with the magic, a valid UTF-8 name and a size field parses to
      exactly that name and size. */
  lemma ParseHeaderAccepts(archive: seq<byte>, offset: nat, name: seq<byte>, size: nat)
    requires offset + BlockSize <= |archive|
    requires archive[offset + MagicOffset .. offset + MagicOffset + 5] == Magic
    requires archive[offset .. NameEnd(archive, offset)] == name && ValidUtf8(name)
    requires OctValue(archive[offset + SizeOffset .. offset + SizeOffset + SizeLen]) == size
    ensures ParseHeader(archive, offset) == Some(TarHeader(name, size, offset + BlockSize, offset + BlockSize + size))
  {
    hide ParseHeader;
    hide NameEnd;
    hide OctValue;
    hide ValidUtf8;
    hide IsTrimmedName;
    hide WellFormed;
    ParseHeaderFailures(archive, offset);
    ParseHeaderFields(archive, offset);
  }

  /** A block whose magic bytes are zero, such as the all-zero blocks that end
      an archive, is not a header. */
  lemma ZeroBlockIsNotAHeader(archive: seq<byte>, offset: nat)
    requires offset + BlockSize <= |archive|
    requires archive[offset + MagicOffset] == 0
    ensures ParseHeader(archive, offset) == None
  {

  }
}
