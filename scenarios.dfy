/** The archives the repository's tests build, and what the model says about them. */
module Scenarios {
  import opened Bytes
  import opened Options
  import opened Utf8
  import opened Header
  import opened Iter
  import opened Lookup
  import opened Builder

  const Liz: seq<byte> := Ascii("liz.txt")
  const Owo: seq<byte> := Ascii("hello owo\n")
  const Only: seq<byte> := Ascii("only.txt")
  const Data: seq<byte> := Ascii("data")
  const Missing: seq<byte> := Ascii("missing.txt\0")
  const Grim: seq<byte> := Ascii("in the grim darkness of the future.txt")
  const Puppyboy: seq<byte> := Ascii("puppyboy.txt")
  const Puppygirl: seq<byte> := Ascii("puppygirl.txt")
  const BoyData: seq<byte> := Ascii("OwO\n")
  const GirlData: seq<byte> := Ascii("^W^\n")

  /** A NUL-free seven-bit name of at most 100 bytes can be stored in a header. */
  lemma AsciiNameStorable(s: string)
    requires |s| <= 100
    requires forall i :: 0 <= i < |s| ==> 0 < s[i] as int < 0x80
    ensures StorableName(Ascii(s))
  {
    AsciiIsValidUtf8(Ascii(s));
  }

  /** `test_extract_file_from_generated`: "liz.txt" comes back out of the
      archive built around it. */
  lemma GeneratedArchive()
    ensures Extracted(MakeTar(Liz, Owo), Liz) == Some(Owo)
  {
    AsciiNameStorable("liz.txt");
    MakeTarRoundTrip(Liz, Owo);
  }

  /** `test_extract_missing_file`: a query ending in NUL finds nothing. */
  lemma MissingFile()
    ensures Extracted(MakeTar(Only, Data), Missing) == None
  {
    assert Missing[11] == 0;
    NulQueryNeverMatches(MakeTar(Only, Data), Missing, 11);
  }

  /** `test_extract_empty_file`: an entry of size zero is found, and its
      content is empty. */
  lemma EmptyFile()
    ensures Extracted(MakeTar(Grim, []), Grim) == Some([])
  {
    AsciiNameStorable("in the grim darkness of the future.txt");
    MakeTarRoundTrip(Grim, []);
  }

  /** `test_iter_multiple_files`: iterating the two concatenated archives
      yields "puppyboy.txt" and then "puppygirl.txt". */
  lemma MultipleFiles()
    ensures var hs := Entries(Concatenated(Puppyboy, BoyData, Puppygirl, GirlData), 0);
      |hs| == 2 && hs[0].name == Puppyboy && hs[1].name == Puppygirl
  {
    AsciiNameStorable("puppyboy.txt");
    AsciiNameStorable("puppygirl.txt");
    ConcatenatedEntries(Puppyboy, BoyData, Puppygirl, GirlData);
  }
}
