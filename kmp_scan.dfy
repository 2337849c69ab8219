/**
 * The step every KMP loop in the C++ sources repeats: fall back through the
 * failure table while the next symbol does not extend the current prefix,
 * then extend if it does.
 */
module KmpScan {
  import opened Text
  import opened Occurrences
  import opened Borders

  /**
   * Reads `c == t[i]` in state `j` (the longest proper prefix of `p` ending
   * the window `t[lo..i]`); the new state is the longest prefix of `p`
   * ending `t[lo..i+1]`, the whole of `p` included. Only the first `j`
   * entries of `lps` are consulted, which lets the failure table itself be
   * built with this step.
   */
  method Advance(p: Bytes, lps: seq<int>, j: nat, c: Byte, ghost t: Bytes, ghost lo: int, ghost i: int)
    returns (j': nat)
    requires LpsUpTo(p, lps, j) && j < |p|
    requires 0 <= lo <= i < |t| && t[i] == c && LongestBelow(t, lo, i, p, j)
    ensures j' <= j + 1 && Longest(t, lo, i + 1, p, j')
  {
    j' := j;
    while j' > 0 && p[j'] != c
      invariant j' <= j && EndsWith(t, lo, i, p, j') && Candidates(t, lo, i, |t|, p, j')
    {
      LpsEntry(p, lps, j, j' - 1);
      Fallback(t, lo, i, |t|, p, j', lps[j' - 1]);
      j' := lps[j' - 1];
    }
    if p[j'] == c {
      Extend(t, lo, i, |t|, p, j');
      j' := j' + 1;
    } else {
      Restart(t, lo, i, |t|, p);
    }
  }

  /**
   * `Advance`, then the reset the searches perform after a full match:
   * `found` reports that an occurrence of `p` ends at `i + 1`, and the
   * state carried on is again a proper prefix.
   */
  method Step(p: Bytes, lps: seq<int>, j: nat, c: Byte, ghost t: Bytes, ghost lo: int, ghost i: int)
    returns (j': nat, found: bool)
    requires LpsTable(p, lps) && j < |p|
    requires 0 <= lo <= i < |t| && t[i] == c && LongestBelow(t, lo, i, p, j)
    ensures found ==> lo <= i + 1 - |p|
    ensures found <==> lo <= i + 1 - |p| && MatchAt(p, t, i + 1 - |p|)
    ensures LongestBelow(t, lo, i + 1, p, j')
  {
    LpsPrefix(p, lps, |p|, j);
    j' := Advance(p, lps, j, c, t, lo, i);
    AfterStep(t, lo, i + 1, p, lps, j');
    found := j' == |p|;
    if found {
      j' := lps[j' - 1];
    }
  }
}
