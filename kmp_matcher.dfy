/**
 * `src/imp/KMPh.cpp`: the KMP matcher class. Its failure table and its
 * scan are written as single `while` loops in which every iteration either
 * reads a symbol or falls back through the table; `Search` returns the
 * offsets of all (overlapping) occurrences.
 */
module KmpMatcher {
  import opened Text
  import opened Occurrences
  import opened Borders

  /**
   * The failure table. `len` is the current border of `p[..i]`: a symbol
   * that extends it is recorded and read, a mismatch falls back to
   * `lps[len - 1]`, and a mismatch at `len == 0` records 0 and reads on.
   */
  method ComputeLps(p: Bytes) returns (lps: seq<int>)
    ensures LpsTable(p, lps)
  {
    var m := |p|;
    lps := seq(m, _ => 0);
    var len := 0;
    var i := 1;
    if m == 0 {
      return;
    }
    while i < m
      invariant LpsScan(p, lps, i, len)
      decreases m - i, len
    {
      if p[i] == p[len] {
        LpsScanExtend(p, lps, i, len);
        len := len + 1;
        lps := lps[i := len];
        i := i + 1;
      } else {
        if len != 0 {
          LpsScanFallback(p, lps, i, len);
          len := lps[len - 1];
        } else {
          LpsScanRestart(p, lps, i);
          lps := lps[i := 0];
          i := i + 1;
        }
      }
    }
  }

  /**
   * The state of a search loop over the window `t[lo..e]` at its head: `j`
   * is a candidate prefix ending `t[lo..i]`, and `matches` holds every
   * occurrence inside the window that ends within `t[lo..i]`.
   */
  ghost predicate Scanned(p: Bytes, t: Bytes, lo: int, e: int, i: int, j: int, matches: seq<int>)
  {
    lo <= i <= e <= |t| && 0 <= j < |p| && EndsWith(t, lo, i, p, j) && Candidates(t, lo, i, e, p, j) &&
    matches == Completed(p, t, lo, e - |p| + 1, i)
  }

  /**
   * The state between the loop body's two tests: as `Scanned`, except that
   * `j` may be `|p|`, in which case the occurrence ending at `i` is still
   * to be reported.
   */
  ghost predicate Pending(p: Bytes, t: Bytes, lo: int, e: int, i: int, j: int, matches: seq<int>)
  {
    lo <= i <= e <= |t| && 0 <= j <= |p| && 1 <= |p| && EndsWith(t, lo, i, p, j) && Candidates(t, lo, i, e, p, j) &&
    (if j == |p| then matches + [i - j] else matches) == Completed(p, t, lo, e - |p| + 1, i)
  }

  /** Before the first symbol of the window: the empty candidate, nothing found. */
  lemma ScanStart(p: Bytes, t: Bytes, lo: int, e: int)
    requires 0 <= lo <= e <= |t| && 1 <= |p|
    ensures Scanned(p, t, lo, e, lo, 0, [])
  {
    assert t[lo - 0..lo] == p[..0];
  }

  /** Reading a symbol that extends the candidate. */
  lemma ReadNext(p: Bytes, t: Bytes, lo: int, e: int, i: int, j: int, matches: seq<int>)
    requires Scanned(p, t, lo, e, i, j, matches) && i < e && p[j] == t[i]
    ensures Pending(p, t, lo, e, i + 1, j + 1, matches)
  {
    Extend(t, lo, i, e, p, j);
    CompletedNext(p, t, lo, e - |p| + 1, i);
    if i + 1 - |p| >= lo {
      EndsWithMatch(t, lo, i + 1, p);
    }
  }

  /** Reporting the occurrence that ends at `i` and falling back to the longest border. */
  lemma ReportNext(p: Bytes, t: Bytes, lps: seq<int>, lo: int, e: int, i: int, matches: seq<int>)
    requires LpsTable(p, lps) && 1 <= |p| && Pending(p, t, lo, e, i, |p|, matches)
    ensures Scanned(p, t, lo, e, i, lps[|p| - 1], matches + [i - |p|])
  {
    LpsEntry(p, lps, |p|, |p| - 1);
    Reset(t, lo, i, p, lps[|p| - 1]);
  }

  /** A mismatch with a non-empty candidate falls back to its longest border. */
  lemma FallbackNext(p: Bytes, t: Bytes, lps: seq<int>, lo: int, e: int, i: int, j: int, matches: seq<int>)
    requires LpsTable(p, lps) && Pending(p, t, lo, e, i, j, matches)
    requires 0 < j < |p| && i < e && p[j] != t[i]
    ensures lps[j - 1] < j && Scanned(p, t, lo, e, i, lps[j - 1], matches)
  {
    LpsEntry(p, lps, |p|, j - 1);
    Fallback(t, lo, i, e, p, j, lps[j - 1]);
  }

  /** A mismatch with the empty candidate skips the symbol. */
  lemma RestartNext(p: Bytes, t: Bytes, lo: int, e: int, i: int, matches: seq<int>)
    requires Pending(p, t, lo, e, i, 0, matches) && 1 <= |p| && i < e && p[0] != t[i]
    ensures Scanned(p, t, lo, e, i + 1, 0, matches)
  {
    Restart(t, lo, i, e, p);
    CompletedNext(p, t, lo, e - |p| + 1, i);
    if i + 1 - |p| >= lo {
      EndsWithMatch(t, lo, i + 1, p);
    }
  }

  /**
   * The second half of the search loop's body, after the symbol has or has
   * not been read: report a completed match (`found`; the caller records
   * the offset `i - |p|`) and fall back, or on a mismatch fall back (or, at
   * state 0, skip the symbol).
   */
  method Settle(p: Bytes, t: Bytes, lps: seq<int>, lo: int, e: int, i: int, j: int, ghost matches: seq<int>)
    returns (i': int, j': int, found: bool, ghost matches': seq<int>)
    requires LpsTable(p, lps) && Pending(p, t, lo, e, i, j, matches)
    ensures Scanned(p, t, lo, e, i', j', matches')
    ensures found <==> j == |p|
    ensures found ==> i' == i
    ensures matches' == if found then matches + [i' - |p|] else matches
    ensures i' > i || (i' == i && j' < j) || (i' == i && j' == j && (i == e || p[j] == t[i]))
  {
    var m := |p|;
    if j == m {
      ReportNext(p, t, lps, lo, e, i, matches);
      i', j', found, matches' := i, lps[j - 1], true, matches + [i - m];
    } else if i < e && p[j] != t[i] {
      if j != 0 {
        FallbackNext(p, t, lps, lo, e, i, j, matches);
        i', j', found, matches' := i, lps[j - 1], false, matches;
      } else {
        RestartNext(p, t, lo, e, i, matches);
        i', j', found, matches' := i + 1, j, false, matches;
      }
    } else {
      i', j', found, matches' := i, j, false, matches;
    }
  }

  /**
   * `KMP::search`: nothing for an empty pattern or a text shorter than the
   * pattern; otherwise the scan of `SearchAll`, which is the same loop.
   */
  method Search(p: Bytes, t: Bytes) returns (matches: seq<int>)
    ensures matches == if |p| == 0 then [] else Occ(p, t)
  {
    var n, m := |t|, |p|;
    if m == 0 || n < m {
      return [];
    }
    matches := SearchAll(p, t);
  }

  /**
   * The KMP scan: every offset at which `p` occurs in `t`, ascending, and
   * nothing for an empty pattern. Each iteration either reads a symbol or
   * falls back through the table. On a text shorter than the pattern the
   * scan runs and reports nothing.
   */
  method SearchAll(p: Bytes, t: Bytes) returns (matches: seq<int>)
    ensures matches == if |p| == 0 then [] else Occ(p, t)
  {
    var n, m := |t|, |p|;
    if m == 0 {
      return [];
    }
    var lps := ComputeLps(p);
    matches := [];
    var i, j := 0, 0;
    while i < n
      invariant Scanned(p, t, 0, n, i, j, matches)
      decreases n - i, j
    {
      if p[j] == t[i] {
        ReadNext(p, t, 0, n, i, j, matches);
        i := i + 1;
        j := j + 1;
      }
      var found;
      ghost var reported;
      i, j, found, reported := Settle(p, t, lps, 0, n, i, j, matches);
      if found {
        matches := matches + [i - m];
      }
    }
    CompletedAll(p, t, 0, n - m + 1, i);
  }
}
