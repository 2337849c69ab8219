/**
 * `src/imp/BMh.cpp`: the Boyer–Moore–Horspool matcher class. Each window
 * is compared right to left; a match is recorded and the window moves on
 * by one, a mismatch at cell `j` moves it by the table entry of the text
 * byte under `j`, less the distance from `j` to the last cell, and by at
 * least one. `Search` returns the offsets of all (overlapping) occurrences.
 */
module BmhMatcher {
  import opened Text
  import opened Occurrences
  import opened BadChar

  /**
   * The shift after a mismatch at cell `j` under text byte `c`:
   * `max(1, table[c] - (m - 1 - j))`.
   */
  function MismatchShift(table: seq<int>, m: int, j: int, c: Byte): (r: int)
    requires |table| == 256
    ensures r >= 1
    ensures r > 1 ==> r == table[Code(c)] - (m - 1 - j)
  {
    var d := table[Code(c)] - (m - 1 - j);
    if d < 1 then 1 else d
  }

  /**
   * With the Horspool table of `p`, the mismatch shift is `j - L` for the
   * last cell `L < m - 1` holding the text byte when `L < j`, and 1 otherwise;
   * either way it jumps over no occurrence.
   */
  lemma MismatchShiftSafe(p: Bytes, t: Bytes, table: seq<int>, s: int, j: int)
    requires HorspoolTable(p, table) && 0 <= s && 0 <= j < |p| && s + |p| <= |t|
    requires p[j] != t[s + j]
    ensures forall x :: s < x < s + MismatchShift(table, |p|, j, t[s + j]) ==> !MatchAt(p, t, x)
  {
    var L := LastBefore(p, t[s + j], |p| - 1);
    if L < j {
      MismatchSkip(p, t, s, j, |p| - 1);
    }
  }

  /**
   * Every offset at which `p` occurs in `t`, ascending; nothing for an
   * empty pattern or a text shorter than the pattern.
   */
  method Search(p: Bytes, t: Bytes) returns (matches: seq<int>)
    ensures matches == if |p| == 0 then [] else Occ(p, t)
  {
    var n, m := |t|, |p|;
    if m == 0 || n < m {
      return [];
    }
    var badChar := CreateBadCharTable(p);
    matches := [];
    var i := 0;
    while i <= n - m
      invariant 0 <= i && matches == MatchesIn(p, t, 0, i)
      decreases n - i
    {
      // `k` is one more than the C++ index `j` left by the right-to-left compare
      var k := MismatchFromRight(p, t, i);
      if k == 0 {
        SkipAhead(p, t, 0, i, 1);
        matches := matches + [i];
        i := i + 1;
      } else {
        var j := k - 1;
        var shift := MismatchShift(badChar, m, j, t[i + j]);
        MismatchShiftSafe(p, t, badChar, i, j);
        SkipAhead(p, t, 0, i, shift);
        i := i + shift;
      }
    }
    MatchesInToEnd(p, t, 0, i);
  }
}
