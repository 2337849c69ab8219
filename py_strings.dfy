/**
 * GC content of a Python `str`, as the Python scripts compute it:
 * `(s.count("G") + s.count("C")) / len(s)`, upper case only, over every
 * character of the string (not only the bases).
 */
module PyStrings {
  import opened Text

  /** An upper-case G or C, the only characters `str.count("G")` and `str.count("C")` see. */
  predicate GorC(ch: char)
  {
    ch == 'G' || ch == 'C'
  }

  /** `s.count("G") + s.count("C")`. */
  function GcCount(s: string): (r: nat)
    ensures r <= |s|
  {
    CountWhere(s, GorC)
  }

  /** Counting over a concatenation adds the counts of the parts. */
  lemma {:induction false} GcCountConcat(s: string, t: string)
    ensures GcCount(s + t) == GcCount(s) + GcCount(t)
    decreases |t|
  {
    if t != [] {
      var t' := t[..|t| - 1];
      assert (s + t)[..|s + t| - 1] == s + t';
      GcCountConcat(s, t');
    } else {
      assert s + t == s;
    }
  }

  /**
   * GC content: 0.0 for the empty string, otherwise the fraction of the
   * characters that are G or C, so that `r * |s|` is the count.
   */
  function GcContent(s: string): (r: real)
    ensures 0.0 <= r <= 1.0
    ensures |s| == 0 ==> r == 0.0
    ensures |s| > 0 ==> r * |s| as real == GcCount(s) as real
  {
    if |s| == 0 then 0.0 else GcCount(s) as real / |s| as real
  }

  /** The GC content of a concatenation is the length-weighted mean of the parts' contents. */
  lemma GcContentConcat(s: string, t: string)
    ensures GcContent(s + t) * (|s| + |t|) as real == GcContent(s) * |s| as real + GcContent(t) * |t| as real
  {
    GcCountConcat(s, t);
    assert |s + t| == |s| + |t|;
    assert GcContent(s) * |s| as real == GcCount(s) as real;
    assert GcContent(t) * |t| as real == GcCount(t) as real;
    assert GcContent(s + t) * (|s| + |t|) as real == GcCount(s + t) as real;
  }

  /** A ratio `r = c / l` exceeds 0.6 exactly when `5c > 3l`. */
  lemma RatioAboveThreeFifths(c: real, l: real, r: real)
    requires l > 0.0 && r * l == c
    ensures r > 0.6 <==> 5.0 * c > 3.0 * l
  {
    var d := r - 0.6;
    assert c - 0.6 * l == d * l;
    if d > 0.0 {
      assert d * l > 0.0;
    } else {
      assert d * l <= 0.0;
    }
  }

  /** The `> 0.6` test in integers: more than three fifths of the characters are G or C. */
  lemma GcAboveThreeFifths(s: string)
    requires |s| > 0
    ensures GcContent(s) > 0.6 <==> 5 * GcCount(s) > 3 * |s|
  {
    RatioAboveThreeFifths(GcCount(s) as real, |s| as real, GcContent(s));
  }
}
