/** `calculateQualityScore`: a composition heuristic that rates one parsed
    sequence out of 100 from the share of recognised nucleotide letters and
    from whether its GC content lies in the band [0.4, 0.6]. */
module Quality {

  /** `c.toUpperCase()` for the characters that can matter here: ASCII lower
      case letters map to upper case, every other character to itself. */
  function ToUpperAscii(c: char): (u: char)
    ensures !('a' <= u <= 'z')
    ensures 'A' <= u <= 'Z' <==> 'A' <= c <= 'Z' || 'a' <= c <= 'z'
    ensures !('a' <= c <= 'z') ==> u == c
  {
    if 'a' <= c <= 'z' then (c as int - 32) as char else c
  }

  /** `['A', 'T', 'C', 'G', 'U', 'N'].includes(base.toUpperCase())`: the six
      letters in either case, and nothing else. */
  predicate IsValidBase(c: char)
    ensures IsValidBase(c) <==> c in {'A', 'T', 'C', 'G', 'U', 'N', 'a', 't', 'c', 'g', 'u', 'n'}
  {
    ToUpperAscii(c) in {'A', 'T', 'C', 'G', 'U', 'N'}
  }

  /** `['G', 'C'].includes(base.toUpperCase())`: `G` or `C` in either case,
      each of them also a valid base. */
  predicate IsGC(c: char)
    ensures IsGC(c) <==> c in {'G', 'C', 'g', 'c'}
    ensures IsGC(c) ==> IsValidBase(c)
  {
    ToUpperAscii(c) in {'G', 'C'}
  }

  /** How many of the first `n` characters of `s` pass `IsValidBase`. */
  function CountValidUpTo(s: string, n: nat): (r: nat)
    requires n <= |s|
    ensures r <= n
    ensures r == n <==> forall i :: 0 <= i < n ==> IsValidBase(s[i])
  {
    if n == 0 then 0
    else CountValidUpTo(s, n - 1) + (if IsValidBase(s[n - 1]) then 1 else 0)
  }

  /** How many of the first `n` characters of `s` pass `IsGC`: every G or C
      is also a valid base, so it never exceeds the valid count. */
  function CountGCUpTo(s: string, n: nat): (r: nat)
    requires n <= |s|
    ensures r <= CountValidUpTo(s, n)
  {
    if n == 0 then 0
    else CountGCUpTo(s, n - 1) + (if IsGC(s[n - 1]) then 1 else 0)
  }

  /** The length of `sequence.split('').filter(IsValidBase)`. */
  function CountValid(s: string): (n: nat)
    ensures n <= |s|
    ensures n == |s| <==> forall i :: 0 <= i < |s| ==> IsValidBase(s[i])
  {
    CountValidUpTo(s, |s|)
  }

  /** The length of `sequence.split('').filter(IsGC)`. */
  function CountGC(s: string): (n: nat)
    ensures n <= CountValid(s)
  {
    CountGCUpTo(s, |s|)
  }

  /** `Math.min(a, b)`: the smaller of the two. */
  function Min(a: real, b: real): (m: real)
    ensures m <= a && m <= b
    ensures m == a || m == b
  {
    if b < a then b else a
  }

  /** `gcContent >= 0.4 && gcContent <= 0.6` with `gcContent = gc / len`.
      A sequence inside the band holds some G or C and some other letter. */
  predicate InGcBand(gc: nat, len: nat)
    requires len > 0
    ensures InGcBand(gc, len) ==> 0 < gc < len
  {
    LowerBand(gc as real, len as real);
    UpperBand(gc as real, len as real);
    var gcContent := gc as real / len as real;
    0.4 <= gcContent && gcContent <= 0.6
  }

  /** `validityScore + gcScore` of a non-empty sequence, before the clamp:
      between 30 (no valid base, GC content outside the band) and 100. */
  function RawScore(s: string): (r: real)
    requires |s| > 0
    ensures 30.0 <= r <= 100.0
  {
    RatioBounds(CountValid(s), |s|);
    var validityScore := (CountValid(s) as real / |s| as real) * 50.0;
    var gcScore := if InGcBand(CountGC(s), |s|) then 50.0 else 30.0;
    validityScore + gcScore
  }

  /** `calculateQualityScore(sequence)`: 0 for the empty sequence, otherwise
      the raw score clamped at 100. */
  function QualityScore(s: string): (score: real)
    ensures s == [] ==> score == 0.0
    ensures s != [] ==> 30.0 <= score <= 100.0
  {
    if |s| == 0 then 0.0
    else Min(100.0, RawScore(s))
  }

  /** Scaling both sides by a positive factor keeps their order. */
  lemma ScaleOrder(a: real, b: real, m: real)
    requires m > 0.0
    ensures a <= b <==> a * m <= b * m
  {
    if a <= b {
      assert (b - a) * m >= 0.0;
    } else {
      assert (a - b) * m > 0.0;
    }
  }

  /** A count out of a positive total gives a share in [0, 1], exactly 1 only
      when the count is the total. */
  lemma RatioBounds(k: nat, n: nat)
    requires 0 < n && k <= n
    ensures 0.0 <= k as real / n as real <= 1.0
    ensures k as real / n as real == 1.0 <==> k == n
  {
    var q, m := k as real / n as real, n as real;
    assert q * m == k as real;
    ScaleOrder(0.0, q, m);
    ScaleOrder(q, 1.0, m);
    ScaleOrder(1.0, q, m);
  }

  /** The lower edge of the band, `0.4 <= g / l`, without the division. */
  lemma LowerBand(g: real, l: real)
    requires l > 0.0
    ensures 0.4 <= g / l <==> 2.0 * l <= 5.0 * g
  {
    var q := g / l;
    assert q * l == g;
    if 0.4 <= q {
      assert (q - 0.4) * l >= 0.0;
    } else {
      assert (0.4 - q) * l > 0.0;
    }
  }

  /** The upper edge of the band, `g / l <= 0.6`, without the division. */
  lemma UpperBand(g: real, l: real)
    requires l > 0.0
    ensures g / l <= 0.6 <==> 5.0 * g <= 3.0 * l
  {
    var q := g / l;
    assert q * l == g;
    if q <= 0.6 {
      assert (0.6 - q) * l >= 0.0;
    } else {
      assert (q - 0.6) * l > 0.0;
    }
  }

  /** The GC band test on reals is the integer test `2·len <= 5·gc <= 3·len`. */
  lemma GcBandExact(gc: nat, len: nat)
    requires len > 0
    ensures InGcBand(gc, len) <==> 2 * len <= 5 * gc <= 3 * len
  {
    LowerBand(gc as real, len as real);
    UpperBand(gc as real, len as real);
  }

  /** On a non-empty sequence the clamp at 100 never bites: the score is the
      raw sum, at most 50 for validity plus 50 or 30 for GC balance. */
  lemma ClampInactive(s: string)
    requires s != []
    ensures RawScore(s) <= 100.0
    ensures QualityScore(s) == RawScore(s)
  {
    RatioBounds(CountValid(s), |s|);
  }

  /** A perfect score is reached exactly when every character is one of
      A, T, C, G, U, N (in either case) and the GC content is in the band. */
  lemma PerfectScore(s: string)
    ensures QualityScore(s) == 100.0 <==>
              s != [] && (forall i :: 0 <= i < |s| ==> IsValidBase(s[i]))
              && 2 * |s| <= 5 * CountGC(s) <= 3 * |s|
  {
    if s != [] {
      RatioBounds(CountValid(s), |s|);
      GcBandExact(CountGC(s), |s|);
      ClampInactive(s);
    }
  }

  /** Two strings that agree position by position once upper-cased. */
  predicate SameIgnoringCase(s: string, t: string) {
    |s| == |t| && forall i :: 0 <= i < |s| ==> ToUpperAscii(s[i]) == ToUpperAscii(t[i])
  }

  lemma {:induction false} CountsUpToIgnoreCase(s: string, t: string, n: nat)
    requires SameIgnoringCase(s, t) && n <= |s|
    ensures CountValidUpTo(s, n) == CountValidUpTo(t, n)
    ensures CountGCUpTo(s, n) == CountGCUpTo(t, n)
  {
    if n > 0 {
      CountsUpToIgnoreCase(s, t, n - 1);
      assert ToUpperAscii(s[n - 1]) == ToUpperAscii(t[n - 1]);
    }
  }

  /** Changing the case of letters never changes the score. */
  lemma CaseInsensitive(s: string, t: string)
    requires SameIgnoringCase(s, t)
    ensures QualityScore(s) == QualityScore(t)
  {
    CountsUpToIgnoreCase(s, t, |s|);
  }

  /** The score of a non-empty sequence in terms of its two counts alone. */
  lemma ScoreOfCounts(s: string)
    requires s != []
    ensures QualityScore(s) ==
      (CountValid(s) as real / |s| as real) * 50.0
      + (if 2 * |s| <= 5 * CountGC(s) <= 3 * |s| then 50.0 else 30.0)
  {
    GcBandExact(CountGC(s), |s|);
    ClampInactive(s);
  }

  /** The empty sequence scores 0. */
  lemma ScoreEmpty()
    ensures QualityScore("") == 0.0
  {
  }

  /** Worked example: an all-GC sequence is fully valid but outside the band. */
  lemma ScoreAllGC()
    ensures QualityScore("GCGCGCGCGC") == 80.0
  {
    var s := "GCGCGCGCGC";
    assert CountValidUpTo(s, 10) == 10 && CountGCUpTo(s, 10) == 10;
    ScoreOfCounts(s);
  }

  /** Worked example: an all-AT sequence is fully valid but outside the band. */
  lemma ScoreAllAT()
    ensures QualityScore("ATATATATAT") == 80.0
  {
    var s := "ATATATATAT";
    assert CountValidUpTo(s, 10) == 10 && CountGCUpTo(s, 10) == 0;
    ScoreOfCounts(s);
  }

  /** Worked example: GC content exactly 0.4 is inside the band. */
  lemma ScoreBalanced()
    ensures QualityScore("ATCGATCGAT") == 100.0
  {
    var s := "ATCGATCGAT";
    assert CountValidUpTo(s, 10) == 10 && CountGCUpTo(s, 10) == 4;
    ScoreOfCounts(s);
  }

  /** Worked example: half the letters invalid and GC content 0.25: 25 + 30. */
  lemma ScoreHalfInvalid()
    ensures QualityScore("XXXXATCG") == 55.0
  {
    var s := "XXXXATCG";
    assert CountValidUpTo(s, 8) == 4 && CountGCUpTo(s, 8) == 2;
    ScoreOfCounts(s);
  }

  /** Worked example: lower-case letters count like upper-case ones. */
  lemma ScoreLowerCase()
    ensures QualityScore("atcg") == 100.0
  {
    var s := "atcg";
    assert CountValidUpTo(s, 4) == 4 && CountGCUpTo(s, 4) == 2;
    ScoreOfCounts(s);
  }

  /** Worked example: four valid bases, two of them G or C. */
  lemma ScoreAtcg()
    ensures QualityScore("ATCG") == 100.0
  {
    var s := "ATCG";
    assert CountValidUpTo(s, 4) == 4 && CountGCUpTo(s, 4) == 2;
    ScoreOfCounts(s);
  }

  /** Worked example: `GGCC` is all G and C, so its GC content is 1. */
  lemma ScoreGgcc()
    ensures QualityScore("GGCC") == 80.0
  {
    var s := "GGCC";
    assert CountValidUpTo(s, 4) == 4 && CountGCUpTo(s, 4) == 4;
    ScoreOfCounts(s);
  }
}
