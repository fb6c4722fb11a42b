/** Well-formedness of UTF-8 text, the check `core::str::from_utf8` makes on a
    header's name. */
module Utf8 {
  import opened Bytes

  predicate IsContinuation(b: byte) {
    0x80 <= b <= 0xBF
  }

  /** `s[i..end]` is well-formed UTF-8 by the byte-sequence grammar of RFC 3629,
      section 4: empty, or one well-formed character followed by well-formed
      text. It walks indices rather than sub-slices, so that the view
      `archive[offset..nameEnd]` is checked in place. */
  predicate ValidRange(s: seq<byte>, i: nat, end: nat)
    requires end <= |s|
    decreases end - i, 1
  {
    i >= end || ValidFrom(s, i, end)
  }

  /** A well-formed character starts at `i < end` and well-formed text
      follows it: no overlong forms, no surrogates (U+D800..U+DFFF), nothing
      above U+10FFFF. */
  predicate ValidFrom(s: seq<byte>, i: nat, end: nat)
    requires i < end <= |s|
    decreases end - i, 0
  {
    var b := s[i];
    var n := end - i;
    if b <= 0x7F then ValidRange(s, i + 1, end)
    else if 0xC2 <= b <= 0xDF then
      n >= 2 && IsContinuation(s[i + 1]) && ValidRange(s, i + 2, end)
    else if b == 0xE0 then
      n >= 3 && 0xA0 <= s[i + 1] <= 0xBF && IsContinuation(s[i + 2]) && ValidRange(s, i + 3, end)
    else if 0xE1 <= b <= 0xEC || 0xEE <= b <= 0xEF then
      n >= 3 && IsContinuation(s[i + 1]) && IsContinuation(s[i + 2]) && ValidRange(s, i + 3, end)
    else if b == 0xED then
      n >= 3 && 0x80 <= s[i + 1] <= 0x9F && IsContinuation(s[i + 2]) && ValidRange(s, i + 3, end)
    else if b == 0xF0 then
      n >= 4 && 0x90 <= s[i + 1] <= 0xBF && IsContinuation(s[i + 2]) && IsContinuation(s[i + 3]) &&
      ValidRange(s, i + 4, end)
    else if 0xF1 <= b <= 0xF3 then
      n >= 4 && IsContinuation(s[i + 1]) && IsContinuation(s[i + 2]) && IsContinuation(s[i + 3]) &&
      ValidRange(s, i + 4, end)
    else if b == 0xF4 then
      n >= 4 && 0x80 <= s[i + 1] <= 0x8F && IsContinuation(s[i + 2]) && IsContinuation(s[i + 3]) &&
      ValidRange(s, i + 4, end)
    else false
  }

  /** `core::str::from_utf8(s).is_ok()`. */
  predicate ValidUtf8(s: seq<byte>) {
    ValidRange(s, 0, |s|)
  }

  /** Checking a range in place is checking the sub-slice it delimits. */
  lemma {:induction false} ValidRangeSlice(s: seq<byte>, lo: nat, i: nat, hi: nat)
    requires lo <= i <= hi <= |s|
    ensures ValidRange(s, i, hi) <==> ValidRange(s[lo..hi], i - lo, hi - lo)
    decreases hi - i
  {
    var t := s[lo..hi];
    if i < hi {
      assert ValidRange(s, i, hi) == ValidFrom(s, i, hi);
      assert ValidRange(t, i - lo, hi - lo) == ValidFrom(t, i - lo, hi - lo);
      assert forall j :: i <= j < hi ==> t[j - lo] == s[j];
      ValidRangeSlice(s, lo, i + 1, hi);
      if i + 2 <= hi { ValidRangeSlice(s, lo, i + 2, hi); }
      if i + 3 <= hi { ValidRangeSlice(s, lo, i + 3, hi); }
      if i + 4 <= hi { ValidRangeSlice(s, lo, i + 4, hi); }
    }
  }

  lemma ValidUtf8Slice(s: seq<byte>, lo: nat, hi: nat)
    requires lo <= hi <= |s|
    ensures ValidRange(s, lo, hi) <==> ValidUtf8(s[lo..hi])
  {
    ValidRangeSlice(s, lo, lo, hi);
  }

  /** Seven-bit ASCII text is valid UTF-8. */
  lemma AsciiIsValidUtf8(s: seq<byte>)
    requires forall i :: 0 <= i < |s| ==> s[i] <= 0x7F
    ensures ValidUtf8(s)
  {
    AsciiValidRange(s, 0);
  }

  lemma {:induction false} AsciiValidRange(s: seq<byte>, i: nat)
    requires forall j :: 0 <= j < |s| ==> s[j] <= 0x7F
    ensures ValidRange(s, i, |s|)
    decreases |s| - i
  {
    if i < |s| {
      AsciiValidRange(s, i + 1);
      assert ValidFrom(s, i, |s|);
    }
  }
}
