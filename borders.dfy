/**
 * The theory behind Knuth–Morris–Pratt: prefixes of the pattern that end
 * at the current scan position, borders, and the failure ("LPS") table.
 * The same scan over the pattern itself, starting at offset 1, builds the
 * table, so every lemma is stated for an arbitrary window `[lo, i)` of a
 * text `t`.
 */
module Borders {
  import opened Text
  import opened Occurrences

  /** The last `x` symbols of the window `t[lo..i]` spell `p[..x]`. */
  ghost predicate EndsWith(t: Bytes, lo: int, i: int, p: Bytes, x: int)
  {
    0 <= lo <= i <= |t| && 0 <= x <= i - lo && x <= |p| && PrefixAgree(t, i - x, p, 0, x)
  }

  /** The cells `p[k..x]` agree with the text from offset `s + k` on, compared one by one. */
  ghost predicate PrefixAgree(t: Bytes, s: int, p: Bytes, k: nat, x: int)
    requires 0 <= s && s + x <= |t| && x <= |p|
    decreases x - k
  {
    k >= x || (t[s + k] == p[k] && PrefixAgree(t, s, p, k + 1, x))
  }

  lemma {:induction false} PrefixAgreeChars(t: Bytes, s: int, p: Bytes, k: nat, x: int)
    requires 0 <= s && s + x <= |t| && x <= |p|
    ensures PrefixAgree(t, s, p, k, x) <==> forall q :: k <= q < x ==> t[s + q] == p[q]
    decreases x - k
  {
    if k < x {
      PrefixAgreeChars(t, s, p, k + 1, x);
    }
  }

  /** `EndsWith` symbol by symbol. */
  lemma EndsWithChars(t: Bytes, lo: int, i: int, p: Bytes, x: int)
    ensures EndsWith(t, lo, i, p, x) <==>
      0 <= lo <= i <= |t| && 0 <= x <= i - lo && x <= |p| &&
      forall k :: 0 <= k < x ==> t[i - x + k] == p[k]
  {
    if 0 <= lo <= i <= |t| && 0 <= x <= i - lo && x <= |p| {
      PrefixAgreeChars(t, i - x, p, 0, x);
    }
  }

  /** `v` is the length of the longest proper border of `p[..len]`. */
  ghost predicate IsLongestBorder(p: Bytes, len: int, v: int)
  {
    0 <= v < len <= |p| && EndsWith(p, 0, len, p, v) &&
    forall x :: v < x < len ==> !EndsWith(p, 0, len, p, x)
  }

  /** The first `n` entries of `lps` are right: `lps[q]` is the longest proper border of `p[..q+1]`. */
  ghost predicate LpsUpTo(p: Bytes, lps: seq<int>, n: int)
    decreases n
  {
    |lps| == |p| && 0 <= n <= |p| &&
    (n == 0 || (LpsUpTo(p, lps, n - 1) && IsLongestBorder(p, n, lps[n - 1])))
  }

  /** Every entry below `n` of a table that is right up to `n` is right. */
  lemma {:induction false} LpsEntry(p: Bytes, lps: seq<int>, n: int, q: int)
    requires LpsUpTo(p, lps, n) && 0 <= q < n
    ensures IsLongestBorder(p, q + 1, lps[q])
    decreases n
  {
    if q < n - 1 {
      LpsEntry(p, lps, n - 1, q);
    }
  }

  /** A table that is right up to `n` is right up to any `k <= n`. */
  lemma {:induction false} LpsPrefix(p: Bytes, lps: seq<int>, n: int, k: int)
    requires LpsUpTo(p, lps, n) && 0 <= k <= n
    ensures LpsUpTo(p, lps, k)
    decreases n
  {
    if k < n {
      LpsPrefix(p, lps, n - 1, k);
    }
  }

  /** Writing entry `i` leaves the entries below `i` right. */
  lemma {:induction false} LpsWrite(p: Bytes, lps: seq<int>, n: int, i: int, v: int)
    requires LpsUpTo(p, lps, n) && n <= i < |lps|
    ensures LpsUpTo(p, lps[i := v], n)
    decreases n
  {
    if n > 0 {
      LpsWrite(p, lps, n - 1, i, v);
    }
  }

  /** The complete failure table of `p`. */
  ghost predicate LpsTable(p: Bytes, lps: seq<int>)
  {
    LpsUpTo(p, lps, |p|)
  }

  /** `j` is the longest prefix of `p` (of any length up to |p|) ending the window. */
  ghost predicate Longest(t: Bytes, lo: int, i: int, p: Bytes, j: int)
  {
    EndsWith(t, lo, i, p, j) && forall x :: j < x <= |p| ==> !EndsWith(t, lo, i, p, x)
  }

  /** `j` is the longest proper prefix of `p` ending the window. */
  ghost predicate LongestBelow(t: Bytes, lo: int, i: int, p: Bytes, j: int)
  {
    EndsWith(t, lo, i, p, j) && j < |p| && forall x :: j < x < |p| ==> !EndsWith(t, lo, i, p, x)
  }

  /**
   * Every proper prefix longer than `j` that ends the window fails to extend
   * by the next symbol `t[i]` (which exists: `i < hi`).
   */
  ghost predicate Candidates(t: Bytes, lo: int, i: int, hi: int, p: Bytes, j: int)
  {
    hi <= |t| && forall x :: j < x < |p| && EndsWith(t, lo, i, p, x) ==> i < hi && p[x] != t[i]
  }

  /** Of two prefixes ending the same window, the shorter is a border of the longer. */
  lemma ShorterIsBorder(t: Bytes, lo: int, i: int, p: Bytes, x: int, y: int)
    requires EndsWith(t, lo, i, p, x) && EndsWith(t, lo, i, p, y) && x <= y
    ensures EndsWith(p, 0, y, p, x)
  {
    EndsWithChars(t, lo, i, p, x);
    EndsWithChars(t, lo, i, p, y);
    EndsWithChars(p, 0, y, p, x);
    forall k | 0 <= k < x
      ensures p[y - x + k] == p[k]
    {
      assert t[i - y + (y - x + k)] == p[y - x + k];
    }
  }

  /** A border of a prefix that ends the window ends the window too. */
  lemma BorderEnds(t: Bytes, lo: int, i: int, p: Bytes, x: int, y: int)
    requires EndsWith(t, lo, i, p, y) && EndsWith(p, 0, y, p, x)
    ensures EndsWith(t, lo, i, p, x)
  {
    EndsWithChars(t, lo, i, p, y);
    EndsWithChars(p, 0, y, p, x);
    EndsWithChars(t, lo, i, p, x);
    forall k | 0 <= k < x
      ensures t[i - x + k] == p[k]
    {
      assert p[y - x + k] == p[k];
      assert t[i - y + (y - x + k)] == p[y - x + k];
    }
  }

  /** Reading one more symbol extends a prefix by one exactly when the symbols agree. */
  lemma EndsWithStep(t: Bytes, lo: int, i: int, p: Bytes, x: int)
    requires 0 <= lo <= i < |t| && 0 <= x < |p|
    ensures EndsWith(t, lo, i + 1, p, x + 1) <==> EndsWith(t, lo, i, p, x) && t[i] == p[x]
  {
    EndsWithChars(t, lo, i + 1, p, x + 1);
    EndsWithChars(t, lo, i, p, x);
    if EndsWith(t, lo, i + 1, p, x + 1) {
      assert t[i + 1 - (x + 1) + x] == p[x];
      forall k | 0 <= k < x
        ensures t[i - x + k] == p[k]
      {
        assert t[i + 1 - (x + 1) + k] == p[k];
      }
    }
  }

  /**
   * The failure step `j := lps[j - 1]` after a mismatch loses no candidate:
   * the border still ends the window and every longer prefix still fails.
   */
  lemma Fallback(t: Bytes, lo: int, i: int, hi: int, p: Bytes, j: int, v: int)
    requires 0 < j < |p| && EndsWith(t, lo, i, p, j) && Candidates(t, lo, i, hi, p, j)
    requires i < hi && p[j] != t[i]
    requires IsLongestBorder(p, j, v)
    ensures EndsWith(t, lo, i, p, v) && Candidates(t, lo, i, hi, p, v)
  {
    BorderEnds(t, lo, i, p, v, j);
    forall x | v < x < |p| && EndsWith(t, lo, i, p, x)
      ensures i < hi && p[x] != t[i]
    {
      if x < j {
        ShorterIsBorder(t, lo, i, p, x, j);
        assert false;
      }
    }
  }

  /** A symbol that matches extends the longest candidate: the result is the longest prefix. */
  lemma Extend(t: Bytes, lo: int, i: int, hi: int, p: Bytes, j: int)
    requires 0 <= j < |p| && EndsWith(t, lo, i, p, j) && Candidates(t, lo, i, hi, p, j)
    requires i < hi && p[j] == t[i]
    ensures Longest(t, lo, i + 1, p, j + 1)
  {
    EndsWithStep(t, lo, i, p, j);
    var next := i + 1;
    forall x | j + 1 < x <= |p|
      ensures !EndsWith(t, lo, next, p, x)
    {
      EndsWithStep(t, lo, i, p, x - 1);
    }
  }

  /** With no candidate left and `p[0]` not matching, nothing of `p` ends the longer window. */
  lemma Restart(t: Bytes, lo: int, i: int, hi: int, p: Bytes)
    requires 0 < |p| && EndsWith(t, lo, i, p, 0) && Candidates(t, lo, i, hi, p, 0)
    requires i < hi && p[0] != t[i]
    ensures Longest(t, lo, i + 1, p, 0)
  {
    var next := i + 1;
    forall x | 0 < x <= |p|
      ensures !EndsWith(t, lo, next, p, x)
    {
      EndsWithStep(t, lo, i, p, x - 1);
    }
  }

  /** After a full match, `j := lps[m - 1]` is the longest proper prefix ending the window. */
  lemma Reset(t: Bytes, lo: int, i: int, p: Bytes, v: int)
    requires 0 < |p| && Longest(t, lo, i, p, |p|) && IsLongestBorder(p, |p|, v)
    ensures LongestBelow(t, lo, i, p, v)
  {
    BorderEnds(t, lo, i, p, v, |p|);
    forall x | v < x < |p|
      ensures !EndsWith(t, lo, i, p, x)
    {
      if EndsWith(t, lo, i, p, x) {
        ShorterIsBorder(t, lo, i, p, x, |p|);
        assert false;
      }
    }
  }

  /** The whole pattern ends the window exactly when it occurs there. */
  lemma EndsWithMatch(t: Bytes, lo: int, i: int, p: Bytes)
    requires 0 <= lo <= i - |p| && i <= |t|
    ensures EndsWith(t, lo, i, p, |p|) <==> MatchAt(p, t, i - |p|)
  {
    MatchAtChars(p, t, i - |p|);
    EndsWithChars(t, lo, i, p, |p|);
    if MatchAt(p, t, i - |p|) {
      forall k | 0 <= k < |p|
        ensures t[i - |p| + k] == p[k]
      {
      }
    }
  }

  /** The scan of `p` over itself from offset 1 computes the longest proper border. */
  lemma BorderFromScan(p: Bytes, i: int, v: int)
    requires 1 <= i <= |p| && Longest(p, 1, i, p, v)
    ensures IsLongestBorder(p, i, v)
  {
    forall x | v < x < i
      ensures !EndsWith(p, 0, i, p, x)
    {
      if EndsWith(p, 0, i, p, x) {
        assert EndsWith(p, 1, i, p, x);
        assert false;
      }
    }
  }

  /**
   * After a KMP step has read `t[i-1]` into state `j`: the state is `|p|`
   * exactly when a match ends there, and the state carried forward
   * (the failure entry after a match) is the longest proper prefix.
   */
  lemma AfterStep(t: Bytes, lo: int, i: int, p: Bytes, lps: seq<int>, j: int)
    requires LpsTable(p, lps) && 1 <= |p| && Longest(t, lo, i, p, j)
    ensures j == |p| ==> lo <= i - |p|
    ensures lo <= i - |p| ==> (j == |p| <==> MatchAt(p, t, i - |p|))
    ensures LongestBelow(t, lo, i, p, if j == |p| then lps[j - 1] else j)
  {
    if lo <= i - |p| {
      EndsWithMatch(t, lo, i, p);
    }
    if j == |p| {
      LpsEntry(p, lps, |p|, |p| - 1);
      Reset(t, lo, i, p, lps[j - 1]);
    }
  }

  /** The longest prefix ending the window is a valid fallback state. */
  lemma LongestCandidates(t: Bytes, lo: int, i: int, hi: int, p: Bytes, j: int)
    requires Longest(t, lo, i, p, j) && hi <= |t|
    ensures EndsWith(t, lo, i, p, j) && Candidates(t, lo, i, hi, p, j)
  {
  }

  /**
   * The state of the failure-table loop of `src/imp/KMPh.cpp` before it
   * looks at `p[i]`: the first `i` entries are right and `len` is a
   * candidate border of `p[..i]`.
   */
  ghost predicate LpsScan(p: Bytes, lps: seq<int>, i: int, len: int)
  {
    1 <= i <= |p| && LpsUpTo(p, lps, i) && EndsWith(p, 1, i, p, len) && Candidates(p, 1, i, |p|, p, len)
  }

  /** `p[i]` extends the candidate: record `len + 1` and move on. */
  lemma LpsScanExtend(p: Bytes, lps: seq<int>, i: int, len: int)
    requires LpsScan(p, lps, i, len) && i < |p| && p[i] == p[len]
    ensures LpsScan(p, lps[i := len + 1], i + 1, len + 1)
  {
    Extend(p, 1, i, |p|, p, len);
    RecordBorder(p, lps, i, len + 1);
  }

  /** A mismatch with a non-empty candidate falls back to its longest border. */
  lemma LpsScanFallback(p: Bytes, lps: seq<int>, i: int, len: int)
    requires LpsScan(p, lps, i, len) && i < |p| && p[i] != p[len] && len != 0
    ensures 0 <= lps[len - 1] < len && LpsScan(p, lps, i, lps[len - 1])
  {
    LpsEntry(p, lps, i, len - 1);
    Fallback(p, 1, i, |p|, p, len, lps[len - 1]);
  }

  /** A mismatch with the empty candidate records 0 and moves on. */
  lemma LpsScanRestart(p: Bytes, lps: seq<int>, i: int)
    requires LpsScan(p, lps, i, 0) && i < |p| && p[i] != p[0]
    ensures LpsScan(p, lps[i := 0], i + 1, 0)
  {
    Restart(p, 1, i, |p|, p);
    RecordBorder(p, lps, i, 0);
  }

  /** Recording the scan state of the pattern against itself extends the table by one entry. */
  lemma RecordBorder(p: Bytes, lps: seq<int>, i: int, v: int)
    requires 1 <= i < |p| && LpsUpTo(p, lps, i) && Longest(p, 1, i + 1, p, v)
    ensures LpsUpTo(p, lps[i := v], i + 1)
  {
    BorderFromScan(p, i + 1, v);
    LpsWrite(p, lps, i, i, v);
  }
}
