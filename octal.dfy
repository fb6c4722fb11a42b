/** The permissive octal decoder `oct2bin`, and the octal formatter the archive
    builder uses to write numeric fields. */
module Octal {
  import opened Bytes

  const AsciiZero: byte := 0x30  // '0'
  const AsciiSeven: byte := 0x37 // '7'

  predicate IsOctalDigit(c: byte) {
    AsciiZero <= c <= AsciiSeven
  }

  /** The values of the octal-digit bytes of `s`, in order; every other byte
      (NUL, space, anything) is dropped. */
  function Digits(s: seq<byte>): (ds: seq<nat>)
    ensures |ds| <= |s|
    ensures forall k :: 0 <= k < |ds| ==> ds[k] < 8
  {
    if s == [] then []
    else
      var last := s[|s| - 1];
      Digits(s[..|s| - 1]) + (if IsOctalDigit(last) then [(last - AsciiZero) as nat] else [])
  }

  /** The number written by a list of base-8 digits, most significant first. */
  function Base8(ds: seq<nat>): nat
  {
    if ds == [] then 0 else Base8(ds[..|ds| - 1]) * 8 + ds[|ds| - 1]
  }

  function Pow8(k: nat): (p: nat)
    ensures p >= 1
  {
    if k == 0 then 1 else 8 * Pow8(k - 1)
  }

  /** The value `oct2bin` is meant to compute: the base-8 number spelled by the
      octal digits of `s`, ignoring all other bytes. */
  function OctValue(s: seq<byte>): nat
  {
    Base8(Digits(s))
  }

  /** `OctValue(s[lo..hi])`, read in place: the field is not copied out. */
  function OctRange(s: seq<byte>, lo: nat, hi: nat): nat
    requires lo <= hi <= |s|
    decreases hi - lo
  {
    if hi == lo then 0
    else
      var c := s[hi - 1];
      if 0x30 <= c <= 0x37 then OctRange(s, lo, hi - 1) * 8 + (c - 0x30) as nat
      else OctRange(s, lo, hi - 1)
  }

  /** `oct2bin`: folds `n = n * 8 + digit` over the bytes and skips every
      byte that is not an octal digit. */
  method Oct2Bin(s: seq<byte>) returns (n: nat)
    ensures n == OctValue(s)
  {
    n := 0;
    for i := 0 to |s|
      invariant n == OctValue(s[..i])
    {
      assert s[..i + 1] == s[..i] + [s[i]];
      OctValueSnoc(s[..i], s[i]);
      var c := s[i];
      if AsciiZero <= c <= AsciiSeven {
        n := n * 8 + (c - AsciiZero) as nat;
      }
    }
    assert s[..|s|] == s;
  }

  /** The in-place reading of a field is the decoder applied to its bytes. */
  lemma {:induction false} OctRangeSlice(s: seq<byte>, lo: nat, hi: nat)
    requires lo <= hi <= |s|
    ensures OctRange(s, lo, hi) == OctValue(s[lo..hi])
    decreases hi - lo
  {
    if hi > lo {
      OctRangeSlice(s, lo, hi - 1);
      assert s[lo..hi] == s[lo..hi - 1] + [s[hi - 1]];
      OctValueSnoc(s[lo..hi - 1], s[hi - 1]);
    }
  }

  /** One more byte: a digit shifts the value one octal place and adds itself;
      any other byte leaves it unchanged. */
  lemma OctValueSnoc(s: seq<byte>, c: byte)
    ensures OctValue(s + [c]) == if IsOctalDigit(c) then OctValue(s) * 8 + (c - AsciiZero) as nat else OctValue(s)
  {
    var t := s + [c];
    assert t[..|t| - 1] == s;
    var ds := Digits(s);
    if IsOctalDigit(c) {
      var e := ds + [(c - AsciiZero) as nat];
      assert Digits(t) == e;
      assert e[..|e| - 1] == ds;
      assert Base8(e) == Base8(ds) * 8 + (c - AsciiZero) as nat;
    } else {
      assert Digits(t) == ds + [];
      assert ds + [] == ds;
    }
  }

  /** The digits of a concatenation are the digits of each part. */
  lemma {:induction false} DigitsConcat(s: seq<byte>, t: seq<byte>)
    ensures Digits(s + t) == Digits(s) + Digits(t)
    decreases |t|
  {
    if t == [] {
      assert s + t == s;
    } else {
      var t' := t[..|t| - 1];
      assert (s + t)[..|s + t| - 1] == s + t';
      assert (s + t)[|s + t| - 1] == t[|t| - 1];
      DigitsConcat(s, t');
    }
  }

  lemma {:induction false} Base8Concat(a: seq<nat>, b: seq<nat>)
    ensures Base8(a + b) == Base8(a) * Pow8(|b|) + Base8(b)
    decreases |b|
  {
    if b == [] {
      assert a + b == a;
    } else {
      var b' := b[..|b| - 1];
      assert (a + b)[..|a + b| - 1] == a + b';
      assert (a + b)[|a + b| - 1] == b[|b| - 1];
      Base8Concat(a, b');
      calc {
        Base8(a + b);
        Base8(a + b') * 8 + b[|b| - 1];
        (Base8(a) * Pow8(|b'|) + Base8(b')) * 8 + b[|b| - 1];
        Base8(a) * (Pow8(|b'|) * 8) + (Base8(b') * 8 + b[|b| - 1]);
        Base8(a) * Pow8(|b|) + Base8(b);
      }
    }
  }

  /** Decoding a concatenation: the digits of `s` are shifted left by one octal
      place per digit of `t`. */
  lemma OctValueConcat(s: seq<byte>, t: seq<byte>)
    ensures OctValue(s + t) == OctValue(s) * Pow8(|Digits(t)|) + OctValue(t)
  {
    DigitsConcat(s, t);
    Base8Concat(Digits(s), Digits(t));
  }

  /** Bytes that are not octal digits are ignored wherever they stand. */
  lemma OctValueIgnoresNonDigits(s: seq<byte>, junk: seq<byte>)
    requires forall i :: 0 <= i < |junk| ==> !IsOctalDigit(junk[i])
    ensures OctValue(s + junk) == OctValue(s)
    ensures OctValue(junk + s) == OctValue(s)
  {
    NoDigits(junk);
    OctValueConcat(s, junk);
    OctValueConcat(junk, s);
  }

  lemma {:induction false} NoDigits(junk: seq<byte>)
    requires forall i :: 0 <= i < |junk| ==> !IsOctalDigit(junk[i])
    ensures Digits(junk) == []
    decreases |junk|
  {
    if junk != [] {
      NoDigits(junk[..|junk| - 1]);
    }
  }

  /** Leading zero digits do not change the value. */
  lemma OctValueLeadingZero(s: seq<byte>)
    ensures OctValue([AsciiZero] + s) == OctValue(s)
  {
    OctValueConcat([AsciiZero], s);
    assert [AsciiZero] == [] + [AsciiZero];
    assert Digits([AsciiZero]) == [0];
    assert Base8([0]) == 0;
  }

  lemma {:induction false} Base8Bound(ds: seq<nat>)
    requires forall k :: 0 <= k < |ds| ==> ds[k] < 8
    ensures Base8(ds) < Pow8(|ds|)
    decreases |ds|
  {
    if ds != [] {
      Base8Bound(ds[..|ds| - 1]);
    }
  }

  lemma {:induction false} Pow8Monotone(j: nat, k: nat)
    requires j <= k
    ensures Pow8(j) <= Pow8(k)
    decreases k
  {
    if j < k {
      Pow8Monotone(j, k - 1);
    }
  }

  /** A field of `w` bytes decodes to less than `8^w`: the 11-byte size field of
      a header holds less than `8^11 = 2^33`. */
  lemma OctValueBound(s: seq<byte>)
    ensures OctValue(s) < Pow8(|Digits(s)|)
    ensures OctValue(s) < Pow8(|s|)
  {
    Base8Bound(Digits(s));
    Pow8Monotone(|Digits(s)|, |s|);
  }

  /** `format!("{:o}", n)`: the shortest octal spelling of `n` ("0" for zero). */
  function ToOctal(n: nat): (s: seq<byte>)
    ensures 1 <= |s|
    ensures forall i :: 0 <= i < |s| ==> IsOctalDigit(s[i])
    decreases n
  {
    if n < 8 then [AsciiZero + n as byte]
    else ToOctal(n / 8) + [AsciiZero + (n % 8) as byte]
  }

  /** Round trip: decoding what the formatter writes gives the number back. */
  lemma {:induction false} OctValueToOctal(n: nat)
    ensures OctValue(ToOctal(n)) == n
    decreases n
  {
    if n < 8 {
      OctValueSnoc([], AsciiZero + n as byte);
      assert [] + [AsciiZero + n as byte] == ToOctal(n);
    } else {
      OctValueToOctal(n / 8);
      OctValueSnoc(ToOctal(n / 8), AsciiZero + (n % 8) as byte);
    }
  }

  /** A number below `8^k` is spelled with at most `k` octal digits. */
  lemma {:induction false} ToOctalLength(n: nat, k: nat)
    requires 1 <= k && n < Pow8(k)
    ensures |ToOctal(n)| <= k
    decreases k
  {
    if n >= 8 {
      assert k >= 2;
      ToOctalLength(n / 8, k - 1);
    }
  }

  /** The decoder's unit tests: `b"10"`, `b"7"`, `b"00010"` and `b""`. */
  lemma Oct2BinExamples()
    ensures OctValue([]) == 0
    ensures OctValue([0x31, 0x30]) == 8
    ensures OctValue([0x37]) == 7
    ensures OctValue([0x30, 0x30, 0x30, 0x31, 0x30]) == 8
  {
    assert OctValue([]) == 0;
    hide Digits;
    var one, zero, seven: byte := 0x31, 0x30, 0x37;
    OctValueSnoc([], one);
    assert [] + [one] == [one];
    OctValueSnoc([one], zero);
    OctValueSnoc([], seven);
    assert [] + [seven] == [seven];
    OctValueLeadingZero([one, zero]);
    assert [zero] + [one, zero] == [zero, one, zero];
    OctValueLeadingZero([zero, one, zero]);
    assert [zero] + [zero, one, zero] == [zero, zero, one, zero];
    OctValueLeadingZero([zero, zero, one, zero]);
    assert [zero] + [zero, zero, one, zero] == [zero, zero, zero, one, zero];
  }
}
