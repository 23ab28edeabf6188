/** Frame addressing: frame `i` of the sequence lives at
    `/frames/frame_NNNN.webp`, where `NNNN` is `String(i).padStart(4, '0')`. */
module FramePath {

  import opened Options

  const Prefix: string := "/frames/frame_"
  const Suffix: string := ".webp"
  /** The width passed to `padStart`. */
  const Width: nat := 4

  predicate IsDigit(c: char) {
    '0' <= c <= '9'
  }

  predicate AllDigits(s: string) {
    forall k :: 0 <= k < |s| ==> IsDigit(s[k])
  }

  function DigitChar(d: nat): (c: char)
    requires d < 10
    ensures IsDigit(c)
  {
    (48 + d) as char
  }

  function DigitValue(c: char): (d: nat)
    requires IsDigit(c)
    ensures d < 10
  {
    c as int - 48
  }

  function Pow10(k: nat): (p: nat)
    ensures p >= 1
  {
    if k == 0 then 1 else 10 * Pow10(k - 1)
  }

  /** `String(n)`: the decimal numeral of `n`, without leading zeros. */
  function Decimal(n: nat): (s: string)
    ensures |s| >= 1 && AllDigits(s)
  {
    if n < 10 then [DigitChar(n)] else Decimal(n / 10) + [DigitChar(n % 10)]
  }

  /** The number a string of digits denotes (leading zeros allowed). */
  function Value(s: string): nat
    requires AllDigits(s)
  {
    if s == [] then 0 else Value(s[..|s| - 1]) * 10 + DigitValue(s[|s| - 1])
  }

  /** `k` copies of `c`. */
  function Repeat(c: char, k: nat): (s: string)
    ensures |s| == k
    ensures forall j :: 0 <= j < k ==> s[j] == c
  {
    if k == 0 then [] else Repeat(c, k - 1) + [c]
  }

  /** `s.padStart(width, c)`: `c` is prepended until the string is `width`
      long; a string already that long or longer is returned unchanged. */
  function PadStart(s: string, width: nat, c: char): (r: string)
    ensures |s| >= width ==> r == s
    ensures |s| < width ==> |r| == width && r[width - |s|..] == s
    ensures forall j :: 0 <= j < |r| - |s| ==> r[j] == c
  {
    if |s| >= width then s else Repeat(c, width - |s|) + s
  }

  /** `String(i).padStart(4, '0')`. */
  function Pad4(i: nat): string {
    PadStart(Decimal(i), Width, '0')
  }

  /** The source path the loader assigns to frame `i`: below 10000 it is
      the prefix, four digits that denote `i`, and the suffix. */
  function Path(i: nat): (p: string)
    ensures |Prefix| + |Suffix| < |p|
    ensures p[..|Prefix|] == Prefix && p[|p| - |Suffix|..] == Suffix
    ensures i < Pow10(Width) ==>
      && |p| == |Prefix| + Width + |Suffix|
      && AllDigits(p[|Prefix|..|Prefix| + Width])
      && Value(p[|Prefix|..|Prefix| + Width]) == i
  {
    Pad4Digits(i);
    var p := Prefix + Pad4(i) + Suffix;
    assert p[..|Prefix|] == Prefix;
    assert p[|p| - |Suffix|..] == Suffix;
    assert p[|Prefix|..|Prefix| + |Pad4(i)|] == Pad4(i);
    p
  }

  /** Recovers the frame number from a path of the four-digit form, and
      refuses every other string. */
  function ParsePath(p: string): (r: Option<nat>)
    ensures r.Some? ==> |p| == |Prefix| + Width + |Suffix|
    ensures r.Some? ==> r.value < Pow10(Width)
    ensures r.Some? ==> Path(r.value) == p
  {
    var n := |Prefix|;
    if |p| == n + Width + |Suffix| && p[..n] == Prefix && p[n + Width..] == Suffix
       && AllDigits(p[n..n + Width])
    then
      var digits := p[n..n + Width];
      ValueBound(digits);
      var v := Value(digits);
      var q := Path(v);
      ValueInjective(q[n..n + Width], digits);
      assert p == p[..n] + digits + p[n + Width..];
      assert q == q[..n] + q[n..n + Width] + q[n + Width..];
      Some(v)
    else None
  }

  /** Digit strings of one length that denote the same number are equal. */
  lemma {:induction false} ValueInjective(s: string, t: string)
    requires AllDigits(s) && AllDigits(t) && |s| == |t|
    requires Value(s) == Value(t)
    ensures s == t
  {
    if s != [] {
      var k := |s| - 1;
      assert DigitValue(s[k]) == Value(s) % 10 && DigitValue(t[k]) == Value(t) % 10;
      ValueInjective(s[..k], t[..k]);
      assert s == s[..k] + [s[k]] && t == t[..k] + [t[k]];
    }
  }

  lemma {:induction false} ValueBound(s: string)
    requires AllDigits(s)
    ensures Value(s) < Pow10(|s|)
  {
    if s != [] {
      ValueBound(s[..|s| - 1]);
    }
  }

  lemma {:induction false} ValueOfDecimal(n: nat)
    ensures Value(Decimal(n)) == n
  {
    if n >= 10 {
      var s := Decimal(n);
      assert s[..|s| - 1] == Decimal(n / 10);
      ValueOfDecimal(n / 10);
    }
  }

  lemma {:induction false} DecimalLength(n: nat, k: nat)
    requires 1 <= k && n < Pow10(k)
    ensures |Decimal(n)| <= k
  {
    if n >= 10 {
      DecimalLength(n / 10, k - 1);
    }
  }

  lemma {:induction false} ValueOfZeros(k: nat)
    ensures Value(Repeat('0', k)) == 0
  {
    if k > 0 {
      var z := Repeat('0', k);
      assert z[..k - 1] == Repeat('0', k - 1);
      ValueOfZeros(k - 1);
    }
  }

  /** Leading zeros do not change the value of a numeral. */
  lemma {:induction false} ValueIgnoresLeadingZeros(k: nat, s: string)
    requires AllDigits(s)
    ensures AllDigits(Repeat('0', k) + s)
    ensures Value(Repeat('0', k) + s) == Value(s)
    decreases |s|
  {
    var t := Repeat('0', k) + s;
    assert AllDigits(t);
    if s == [] {
      assert t == Repeat('0', k);
      ValueOfZeros(k);
    } else {
      assert t[..|t| - 1] == Repeat('0', k) + s[..|s| - 1];
      ValueIgnoresLeadingZeros(k, s[..|s| - 1]);
    }
  }

  /** The padded index is exactly four digits and denotes the index again;
      past 9999 `padStart` leaves the longer numeral as it is. */
  lemma Pad4Digits(i: nat)
    ensures i < Pow10(Width) ==> |Pad4(i)| == Width
    ensures i >= Pow10(Width) ==> Pad4(i) == Decimal(i) && |Pad4(i)| > Width
    ensures AllDigits(Pad4(i))
    ensures Value(Pad4(i)) == i
  {
    var d := Decimal(i);
    ValueOfDecimal(i);
    if i < Pow10(Width) {
      DecimalLength(i, Width);
      ValueIgnoresLeadingZeros(Width - |d|, d);
      assert Pad4(i) == Repeat('0', Width - |d|) + d;
    } else {
      ValueBound(d);
      if |d| <= Width {
        PowMonotone(|d|, Width);
      }
    }
  }

  lemma {:induction false} PowMonotone(a: nat, b: nat)
    requires a <= b
    ensures Pow10(a) <= Pow10(b)
    decreases b
  {
    if a < b {
      PowMonotone(a, b - 1);
    }
  }

  /** Every frame path of the four-digit range parses back to its frame;
      hence distinct frames are fetched from distinct files. */
  lemma PathRoundTrip(i: nat)
    requires i < Pow10(Width)
    ensures |Path(i)| == |Prefix| + Width + |Suffix|
    ensures Path(i)[..|Prefix|] == Prefix
    ensures Path(i)[|Prefix| + Width..] == Suffix
    ensures ParsePath(Path(i)) == Some(i)
  {
    Pad4Digits(i);
    var p := Path(i);
    var n := |Prefix|;
    assert p[..n] == Prefix;
    assert p[n..n + Width] == Pad4(i);
    assert p[n + Width..] == Suffix;
  }

  lemma PathInjective(i: nat, j: nat)
    requires i < Pow10(Width) && j < Pow10(Width)
    requires Path(i) == Path(j)
    ensures i == j
  {
    PathRoundTrip(i);
    PathRoundTrip(j);
  }

  /** The first and last frames of the 180-frame sequence. */
  lemma FirstAndLastPaths()
    ensures Path(1) == "/frames/frame_0001.webp"
    ensures Path(180) == "/frames/frame_0180.webp"
  {
    assert Decimal(1) == "1";
    assert Decimal(180) == "180" by {
      assert Decimal(18) == "18";
    }
  }

}
