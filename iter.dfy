/** `TarIter`: the forward-only cursor over the archive's chain of headers. */
module Iter {
  import opened Bytes
  import opened Options
  import opened Header

  /** How far `next` moves the cursor past a header declaring `size` bytes:
      the header block plus `ceil(size / 512)` content blocks. It is the least
      multiple of 512 that covers the header and the content. */
  function Advance(size: nat): (step: nat)
    ensures step % 512 == 0
    ensures size + 512 <= step < size + 1024
  {
    var blocks := (size + 511) / 512;
    512 + blocks * 512
  }

  /** The entries a cursor standing at `offset` yields, in archive order: parse
      a header, jump past its content, repeat until a parse fails. */
  ghost function Entries(archive: seq<byte>, offset: nat): (hs: seq<TarHeader>)
    decreases |archive| - offset
  {
    match ParseHeader(archive, offset)
    case None => []
    case Some(h) => [h] + Entries(archive, offset + Advance(h.size))
  }

  class TarIter {
    const archive: seq<byte>
    var offset: nat
    /** The entries handed out so far. */
    ghost var yielded: seq<TarHeader>

    /** The cursor is block-aligned, and what it has yielded followed by what
        it will yield is the archive's whole chain of entries. */
    ghost predicate Valid()
      reads this
    {
      offset % 512 == 0 && yielded + Entries(archive, offset) == Entries(archive, 0)
    }

    /** `TarIter::new`: a fresh cursor at the start of the archive. */
    constructor (archive: seq<byte>)
      ensures Valid()
      ensures this.archive == archive && offset == 0 && yielded == []
    {
      this.archive := archive;
      offset := 0;
      yielded := [];
    }

    /** `next`: parse the header at the cursor; on success move past its
        content and yield it, on failure stay put and end the sequence, which
        is then the archive's whole chain. */
    method Next() returns (h: Option<TarHeader>)
      requires Valid()
      modifies this
      ensures Valid()
      ensures h == ParseHeader(archive, old(offset))
      ensures h.None? ==> offset == old(offset) && yielded == old(yielded) == Entries(archive, 0)
      // once exhausted, every later call fails the same way
      ensures h.None? ==> ParseHeader(archive, offset) == None
      ensures h.Some? ==>
        offset == old(offset) + Advance(h.value.size) &&
        yielded == old(yielded) + [h.value]
      ensures h.Some? ==> old(offset) + 512 <= |archive| && h.value.fileEnd <= offset < h.value.fileEnd + 512
    {
      hide ParseHeader;
      hide Entries;
      var header := ParseHeader(archive, offset);
      if header.None? {
        EntriesEnd(archive, offset);
        assert yielded + [] == yielded;
        return None;
      }
      EntriesStep(archive, offset, header.value);
      assert yielded + ([header.value] + Entries(archive, offset + Advance(header.value.size))) ==
        (yielded + [header.value]) + Entries(archive, offset + Advance(header.value.size));
      var size := header.value.size;
      var blocks := (size + 511) / 512;
      offset := offset + 512 + blocks * 512;
      yielded := yielded + [header.value];
      return header;
    }
  }

  /** The chain from a header that parses is that header, then the chain after its content. */
  lemma EntriesStep(archive: seq<byte>, offset: nat, h: TarHeader)
    requires ParseHeader(archive, offset) == Some(h)
    ensures Entries(archive, offset) == [h] + Entries(archive, offset + Advance(h.size))
  {
    hide ParseHeader;
  }

  /** The chain from a header that does not parse is empty. */
  lemma EntriesEnd(archive: seq<byte>, offset: nat)
    requires ParseHeader(archive, offset).None?
    ensures Entries(archive, offset) == []
  {
    hide ParseHeader;
  }

  /** Drains a fresh iterator, as `TarIter::new(archive).collect()` does. */
  method ListEntries(archive: seq<byte>) returns (hs: seq<TarHeader>)
    ensures hs == Entries(archive, 0)
  {
    hide ParseHeader;
    var it := new TarIter(archive);
    hs := [];
    while true
      invariant it.Valid() && it.archive == archive
      invariant hs == it.yielded
      decreases |archive| - it.offset
    {
      var h := it.Next();
      if h.None? {
        return;
      }
      hs := hs + [h.value];
    }
  }

  /** The `i`-th entry of the chain from an aligned `offset` has its header
      in a whole block inside the archive, at least `i + 1` blocks past
      `offset`. */
  lemma {:induction false} EntryStart(archive: seq<byte>, offset: nat, i: nat)
    requires offset % 512 == 0
    requires i < |Entries(archive, offset)|
    ensures var h := Entries(archive, offset)[i];
      h.fileStart % 512 == 0 && offset + (i + 1) * 512 <= h.fileStart <= |archive|
    decreases i
  {
    hide ParseHeader;
    hide Entries;
    if ParseHeader(archive, offset).None? {
      EntriesEnd(archive, offset);
    }
    var h := ParseHeader(archive, offset).value;
    var next := offset + Advance(h.size);
    EntriesStep(archive, offset, h);
    if i > 0 {
      EntryStart(archive, next, i - 1);
      assert Entries(archive, offset)[i] == Entries(archive, next)[i - 1];
    }
  }

  /** Each entry's content ends at least a block before the next header. */
  lemma {:induction false} EntryGap(archive: seq<byte>, offset: nat, i: nat)
    requires offset % 512 == 0
    requires i + 1 < |Entries(archive, offset)|
    ensures Entries(archive, offset)[i].fileEnd + 512 <= Entries(archive, offset)[i + 1].fileStart
    decreases i
  {
    hide ParseHeader;
    var h := ParseHeader(archive, offset).value;
    var next := offset + Advance(h.size);
    EntriesStep(archive, offset, h);
    assert Entries(archive, offset)[i + 1] == Entries(archive, next)[i];
    if i == 0 {
      EntryStart(archive, next, 0);
    } else {
      EntryGap(archive, next, i - 1);
      assert Entries(archive, offset)[i] == Entries(archive, next)[i - 1];
    }
  }

  /** Any two entries of the chain, in order: the later header starts past
      the earlier one's content. */
  lemma {:induction false} EntriesOrdered(archive: seq<byte>, offset: nat, i: nat, j: nat)
    requires offset % 512 == 0
    requires i < j < |Entries(archive, offset)|
    ensures Entries(archive, offset)[i].fileEnd + 512 <= Entries(archive, offset)[j].fileStart
    decreases j - i
  {
    hide ParseHeader;
    EntryGap(archive, offset, j - 1);
    if i < j - 1 {
      EntriesOrdered(archive, offset, i, j - 1);
      EntryWellFormed(archive, offset, j - 1);
    }
  }

  /** The entries sit in archive order at block boundaries, each one's content
      ending before the next one's header starts, and there are no more of
      them than whole blocks in the archive. */
  lemma EntriesLayout(archive: seq<byte>, offset: nat)
    requires offset % 512 == 0
    ensures var hs := Entries(archive, offset);
      (forall i :: 0 <= i < |hs| ==> hs[i].fileStart % 512 == 0) &&
      (forall i, j :: 0 <= i < j < |hs| ==> hs[i].fileEnd + 512 <= hs[j].fileStart) &&
      (hs != [] ==> offset + |hs| * 512 <= |archive|)
  {
    hide ParseHeader;
    var hs := Entries(archive, offset);
    forall i | 0 <= i < |hs|
      ensures hs[i].fileStart % 512 == 0
    {
      EntryStart(archive, offset, i);
    }
    forall i, j | 0 <= i < j < |hs|
      ensures hs[i].fileEnd + 512 <= hs[j].fileStart
    {
      EntriesOrdered(archive, offset, i, j);
    }
    if hs != [] {
      EntryStart(archive, offset, |hs| - 1);
    }
  }

  /** Every entry of the chain is a header `parse_header` accepted: its name is
      NUL-free valid UTF-8 of at most 100 bytes, its header block lies inside
      the archive past `offset`, and its content span is exactly its size. */
  lemma {:induction false} EntryWellFormed(archive: seq<byte>, offset: nat, i: nat)
    requires i < |Entries(archive, offset)|
    ensures var h := Entries(archive, offset)[i];
      WellFormed(h) && offset + 512 <= h.fileStart <= |archive|
    decreases i
  {
    hide ParseHeader;
    hide WellFormed;
    assert ParseHeader(archive, offset).Some?;
    var h := ParseHeader(archive, offset).value;
    var next := offset + Advance(h.size);
    EntriesStep(archive, offset, h);
    if i == 0 {
      ParseHeaderFields(archive, offset);
      assert Entries(archive, offset)[0] == h;
      assert WellFormed(h);
      assert offset + 512 <= h.fileStart <= |archive|;
    } else {
      EntryWellFormed(archive, next, i - 1);
      assert Entries(archive, offset)[i] == Entries(archive, next)[i - 1];
    }
  }

  /** An entry whose content runs past the end of the archive is the last
      one: the cursor steps past `file_end`, so the next parse finds less
      than a block left. */
  lemma OutOfBoundsIsLast(archive: seq<byte>, i: nat)
    requires i < |Entries(archive, 0)|
    requires Entries(archive, 0)[i].fileEnd > |archive|
    ensures i == |Entries(archive, 0)| - 1
  {
    hide ParseHeader;
    if i + 1 < |Entries(archive, 0)| {
      EntryGap(archive, 0, i);
      EntryStart(archive, 0, i + 1);
    }
  }
}
