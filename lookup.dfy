/** `tar_lookup` and `extract_file`: the first entry of the chain whose name
    is the query and whose content lies inside the archive. */
module Lookup {
  import opened Bytes
  import opened Options
  import opened Header
  import opened Iter

  /** A borrowed view `archive[start..end]`. */
  datatype Span = Span(start: nat, end: nat)

  /** The test `tar_lookup` applies to each entry: the name is the query,
      byte for byte, and the content ends inside the archive. */
  predicate Hit(h: TarHeader, filename: seq<byte>, len: nat) {
    h.name == filename && h.fileEnd <= len
  }

  /** The index of the first entry of `hs` that passes the test. */
  function FirstHit(hs: seq<TarHeader>, filename: seq<byte>, len: nat): (r: Option<nat>)
    ensures r.Some? ==> r.value < |hs| && Hit(hs[r.value], filename, len)
    ensures r.Some? ==> forall k :: 0 <= k < r.value ==> !Hit(hs[k], filename, len)
    ensures r.None? <==> forall k :: 0 <= k < |hs| ==> !Hit(hs[k], filename, len)
  {
    if hs == [] then None
    else if Hit(hs[0], filename, len) then Some(0)
    else match FirstHit(hs[1..], filename, len)
      case None => None
      case Some(k) => Some(k + 1)
  }

  /** The index of the first entry of `hs` named `filename`, bounds aside. */
  function FirstNamed(hs: seq<TarHeader>, filename: seq<byte>): (r: Option<nat>)
    ensures r.Some? ==> r.value < |hs| && hs[r.value].name == filename
    ensures r.Some? ==> forall k :: 0 <= k < r.value ==> hs[k].name != filename
    ensures r.None? <==> forall k :: 0 <= k < |hs| ==> hs[k].name != filename
  {
    if hs == [] then None
    else if hs[0].name == filename then Some(0)
    else match FirstNamed(hs[1..], filename)
      case None => None
      case Some(k) => Some(k + 1)
  }

  /** What `tar_lookup(archive, filename)` returns: the content span of the
      first hit among the entries a fresh iterator yields, if any. */
  ghost function Lookup(archive: seq<byte>, filename: seq<byte>): Option<Span> {
    var hs := Entries(archive, 0);
    match FirstHit(hs, filename, |archive|)
    case None => None
    case Some(k) => Some(Span(hs[k].fileStart, hs[k].fileEnd))
  }

  /** A span `tar_lookup` returns lies inside the archive, past the header
      block of its entry, and is as long as the entry's declared size. */
  lemma LookupSpan(archive: seq<byte>, filename: seq<byte>)
    ensures Lookup(archive, filename).Some? ==>
      var sp := Lookup(archive, filename).value;
      var k := FirstHit(Entries(archive, 0), filename, |archive|).value;
      512 <= sp.start <= sp.end <= |archive| && sp.end - sp.start == Entries(archive, 0)[k].size
  {
    hide ParseHeader;
    var hs := Entries(archive, 0);
    var r := FirstHit(hs, filename, |archive|);
    if r.Some? {
      EntryWellFormed(archive, 0, r.value);
    }
  }

  /** The parsed names contain no NUL, so a query containing one never
      matches and the lookup fails. */
  lemma NulQueryNeverMatches(archive: seq<byte>, filename: seq<byte>, i: nat)
    requires i < |filename| && filename[i] == 0
    ensures Lookup(archive, filename) == None
  {
    hide ParseHeader;
    var hs := Entries(archive, 0);
    forall k | 0 <= k < |hs|
      ensures !Hit(hs[k], filename, |archive|)
    {
      EntryWellFormed(archive, 0, k);
      assert hs[k].name != filename;
    }
  }

  /** `tar_lookup`: walks a fresh iterator and returns the span of the first
      entry whose name is `filename` and whose content fits in the archive;
      a name match that runs past the end is skipped and the walk goes on. */
  method TarLookup(archive: seq<byte>, filename: seq<byte>) returns (r: Option<Span>)
    ensures r == Lookup(archive, filename)
    ensures r.Some? ==> r.value.start <= r.value.end <= |archive|
  {
    hide ParseHeader;
    hide Entries;
    var it := new TarIter(archive);
    while true
      invariant it.Valid() && it.archive == archive
      invariant forall k :: 0 <= k < |it.yielded| ==> !Hit(it.yielded[k], filename, |archive|)
      decreases |archive| - it.offset
    {
      ghost var before := it.yielded;
      var h := it.Next();
      if h.None? {
        return None;
      }
      var header := h.value;
      if header.name == filename && header.fileEnd <= |archive| {
        FoundAt(archive, filename, before, header, Entries(archive, it.offset));
        return Some(Span(header.fileStart, header.fileEnd));
      }
    }
  }

  /** Skipping a name match whose content runs past the end and scanning on
      gives the same answer as stopping at the first name match: such an
      entry is the last of the chain, so nothing follows it. */
  lemma LookupStopsAtFirstName(archive: seq<byte>, filename: seq<byte>)
    ensures var hs := Entries(archive, 0);
      Lookup(archive, filename) ==
        match FirstNamed(hs, filename)
        case None => None
        case Some(k) => if hs[k].fileEnd <= |archive| then Some(Span(hs[k].fileStart, hs[k].fileEnd)) else None
  {
    hide ParseHeader;
    hide Entries;
    var hs := Entries(archive, 0);
    var n := FirstNamed(hs, filename);
    var r := FirstHit(hs, filename, |archive|);
    if n.Some? {
      var k := n.value;
      if hs[k].fileEnd <= |archive| {
        assert r.Some? && r.value == k;
      } else {
        OutOfBoundsIsLast(archive, k);
        assert r.None?;
      }
    } else {
      assert r.None?;
    }
  }

  /** A hit right after a prefix of the chain without one is the lookup's result. */
  lemma FoundAt(archive: seq<byte>, filename: seq<byte>, before: seq<TarHeader>, h: TarHeader, rest: seq<TarHeader>)
    requires Entries(archive, 0) == before + [h] + rest
    requires forall k :: 0 <= k < |before| ==> !Hit(before[k], filename, |archive|)
    requires Hit(h, filename, |archive|)
    ensures Lookup(archive, filename) == Some(Span(h.fileStart, h.fileEnd))
  {
    hide Entries;
    hide FirstHit;
    var hs := Entries(archive, 0);
    var r := FirstHit(hs, filename, |archive|);
    assert hs[|before|] == h;
    assert r.Some?;
    assert r.value <= |before|;
    assert r.value >= |before|;
  }

  /** What `extract_file(archive, filename)` returns: the looked-up content,
      copied. */
  ghost function Extracted(archive: seq<byte>, filename: seq<byte>): Option<seq<byte>> {
    match Lookup(archive, filename)
    case None => None
    case Some(sp) =>
      LookupSpan(archive, filename);
      Some(archive[sp.start .. sp.end])
  }

  /** `extract_file`: `tar_lookup(archive, filename).map(|data| data.to_vec())`. */
  method ExtractFile(archive: seq<byte>, filename: seq<byte>) returns (r: Option<seq<byte>>)
    ensures r == Extracted(archive, filename)
  {
    var span := TarLookup(archive, filename);
    if span.None? {
      return None;
    }
    LookupSpan(archive, filename);
    r := Some(archive[span.value.start .. span.value.end]);
  }
}
