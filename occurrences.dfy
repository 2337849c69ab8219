/**
 * The specification every matcher is held to: the set of offsets at which
 * a pattern occurs in a text, overlapping occurrences included.
 */
module Occurrences {
  import opened Text

  /** `p` occurs in `t` at offset `s`. */
  predicate MatchAt(p: Bytes, t: Bytes, s: int)
  {
    0 <= s && s + |p| <= |t| && AgreeFrom(p, t, s, 0)
  }

  /** The cells `p[k..]` agree with the text from offset `s + k` on, compared one by one. */
  predicate AgreeFrom(p: Bytes, t: Bytes, s: int, k: nat)
    requires 0 <= s && s + |p| <= |t|
    decreases |p| - k
  {
    k >= |p| || (t[s + k] == p[k] && AgreeFrom(p, t, s, k + 1))
  }

  lemma {:induction false} AgreeFromChars(p: Bytes, t: Bytes, s: int, k: nat)
    requires 0 <= s && s + |p| <= |t|
    ensures AgreeFrom(p, t, s, k) <==> forall j :: k <= j < |p| ==> t[s + j] == p[j]
    decreases |p| - k
  {
    if k < |p| {
      AgreeFromChars(p, t, s, k + 1);
    }
  }

  /** The offsets `s` with `lo <= s < hi` at which `p` occurs, in ascending order. */
  function MatchesIn(p: Bytes, t: Bytes, lo: int, hi: int): seq<int>
    decreases hi - lo
  {
    if hi <= lo then []
    else MatchesIn(p, t, lo, hi - 1) + (if MatchAt(p, t, hi - 1) then [hi - 1] else [])
  }

  /** Occ(p, t): every offset `0 <= s <= |t| - |p|` with `t[s..s+|p|] == p`, ascending. */
  function Occ(p: Bytes, t: Bytes): seq<int>
  {
    MatchesIn(p, t, 0, |t| - |p| + 1)
  }

  /** The same offsets as a set. */
  ghost function OccSet(p: Bytes, t: Bytes): set<int>
  {
    set s | 0 <= s <= |t| - |p| && MatchAt(p, t, s)
  }

  ghost predicate Ascending(s: seq<int>)
  {
    forall a, b :: 0 <= a < b < |s| ==> s[a] < s[b]
  }

  lemma MatchAtChars(p: Bytes, t: Bytes, s: int)
    ensures MatchAt(p, t, s) <==>
            (0 <= s && s + |p| <= |t| && forall k :: 0 <= k < |p| ==> t[s + k] == p[k])
  {
    if 0 <= s && s + |p| <= |t| {
      AgreeFromChars(p, t, s, 0);
    }
  }

  /** A match is an equal slice. */
  lemma MatchAtSlice(p: Bytes, t: Bytes, s: int)
    ensures MatchAt(p, t, s) <==> 0 <= s && s + |p| <= |t| && t[s..s + |p|] == p
  {
    MatchAtChars(p, t, s);
    if 0 <= s && s + |p| <= |t| && t[s..s + |p|] == p {
      forall k | 0 <= k < |p| ensures t[s + k] == p[k] {
        assert t[s..s + |p|][k] == t[s + k];
      }
    }
  }

  /** A match at `s` forces the text symbol at `q` to be `p[q - s]`. */
  lemma MatchForces(p: Bytes, t: Bytes, s: int, q: int)
    requires MatchAt(p, t, s) && s <= q < s + |p|
    ensures t[q] == p[q - s]
  {
    MatchAtChars(p, t, s);
    assert t[s + (q - s)] == p[q - s];
  }

  /** MatchesIn holds exactly the matching offsets of [lo, hi), strictly ascending. */
  lemma {:induction false} MatchesInMembers(p: Bytes, t: Bytes, lo: int, hi: int)
    ensures forall x :: x in MatchesIn(p, t, lo, hi) <==> lo <= x < hi && MatchAt(p, t, x)
    ensures Ascending(MatchesIn(p, t, lo, hi))
    decreases hi - lo
  {
    if hi > lo {
      MatchesInMembers(p, t, lo, hi - 1);
      var prev := MatchesIn(p, t, lo, hi - 1);
      forall a, b | 0 <= a < b < |MatchesIn(p, t, lo, hi)|
        ensures MatchesIn(p, t, lo, hi)[a] < MatchesIn(p, t, lo, hi)[b]
      {
        if b >= |prev| {
          assert prev[a] in prev;
        }
      }
    }
  }

  lemma {:induction false} MatchesInSplit(p: Bytes, t: Bytes, lo: int, mid: int, hi: int)
    requires lo <= mid <= hi
    ensures MatchesIn(p, t, lo, hi) == MatchesIn(p, t, lo, mid) + MatchesIn(p, t, mid, hi)
    decreases hi - mid
  {
    if hi > mid {
      MatchesInSplit(p, t, lo, mid, hi - 1);
    }
  }

  lemma {:induction false} MatchesInNone(p: Bytes, t: Bytes, lo: int, hi: int)
    requires forall x :: lo <= x < hi ==> !MatchAt(p, t, x)
    ensures MatchesIn(p, t, lo, hi) == []
    decreases hi - lo
  {
    if hi > lo {
      MatchesInNone(p, t, lo, hi - 1);
    }
  }

  /** Extending the upper bound over offsets that hold no match changes nothing. */
  lemma MatchesInExtend(p: Bytes, t: Bytes, lo: int, hi: int, hi2: int)
    requires hi <= hi2
    requires forall x :: hi <= x < hi2 ==> !MatchAt(p, t, x)
    ensures MatchesIn(p, t, lo, hi2) == MatchesIn(p, t, lo, hi)
  {
    if hi <= lo {
      if hi2 > lo {
        MatchesInNone(p, t, lo, hi2);
      }
    } else {
      MatchesInSplit(p, t, lo, hi, hi2);
      MatchesInNone(p, t, hi, hi2);
    }
  }

  /** No match starts past |t| - |p|: any upper bound from there on gives Occ's tail. */
  lemma MatchesInToEnd(p: Bytes, t: Bytes, lo: int, hi: int)
    requires hi >= |t| - |p| + 1
    ensures MatchesIn(p, t, lo, hi) == MatchesIn(p, t, lo, |t| - |p| + 1)
  {
    MatchesInExtend(p, t, lo, |t| - |p| + 1, hi);
  }

  /** One more offset. */
  lemma MatchesInNext(p: Bytes, t: Bytes, lo: int, hi: int)
    requires lo <= hi
    ensures MatchesIn(p, t, lo, hi + 1) == MatchesIn(p, t, lo, hi) + (if MatchAt(p, t, hi) then [hi] else [])
  {
  }

  /**
   * A shift of `d` from alignment `s` that jumps only over non-matching
   * alignments loses nothing: the matches below `s + d` are those below `s`
   * plus `s` itself if it matches.
   */
  lemma SkipAhead(p: Bytes, t: Bytes, lo: int, s: int, d: int)
    requires lo <= s && 1 <= d
    requires forall x :: s < x < s + d ==> !MatchAt(p, t, x)
    ensures MatchesIn(p, t, lo, s + d) == MatchesIn(p, t, lo, s) + (if MatchAt(p, t, s) then [s] else [])
  {
    MatchesInExtend(p, t, lo, s + 1, s + d);
  }

  /** SkipAhead, with the upper bound capped at `cap` (an ownership limit). */
  lemma SkipAheadCapped(p: Bytes, t: Bytes, lo: int, s: int, d: int, cap: int)
    requires lo <= s < cap && 1 <= d
    requires forall x :: s < x < s + d ==> !MatchAt(p, t, x)
    ensures MatchesIn(p, t, lo, if s + d < cap then s + d else cap)
         == MatchesIn(p, t, lo, s) + (if MatchAt(p, t, s) then [s] else [])
  {
    var h := if s + d < cap then s + d else cap;
    MatchesInExtend(p, t, lo, s + 1, h);
  }

  /** Occ and OccSet hold the same offsets, and Occ lists each once, so |Occ| = |OccSet|. */
  lemma OccIsOccSet(p: Bytes, t: Bytes)
    ensures forall x :: x in Occ(p, t) <==> x in OccSet(p, t)
    ensures |Occ(p, t)| == |OccSet(p, t)|
  {
    MatchesInMembers(p, t, 0, |t| - |p| + 1);
    SetSizeUpTo(p, t, |t| - |p| + 1);
    assert OccSet(p, t) == set s | 0 <= s < |t| - |p| + 1 && MatchAt(p, t, s);
  }

  lemma {:induction false} SetSizeUpTo(p: Bytes, t: Bytes, hi: int)
    ensures |set s | 0 <= s < hi && MatchAt(p, t, s)| == |MatchesIn(p, t, 0, hi)|
    decreases hi
  {
    if hi <= 0 {
      var S := set s | 0 <= s < hi && MatchAt(p, t, s);
      assert S == {} by {
        forall x | x in S ensures false {}
      }
    } else {
      SetSizeUpTo(p, t, hi - 1);
      StepSet(p, t, hi - 1);
    }
  }

  lemma StepSet(p: Bytes, t: Bytes, h: int)
    ensures (set s | 0 <= s < h + 1 && MatchAt(p, t, s))
         == (set s | 0 <= s < h && MatchAt(p, t, s)) + (if MatchAt(p, t, h) then {h} else {})
  {
  }

  /**
   * The part of an ownership range `[lo, hi)` that lies below `h + 1` grows
   * by `h` exactly when `h` is owned and is a match.
   */
  lemma OwnedNext(p: Bytes, t: Bytes, lo: int, hi: int, h: int)
    ensures MatchesIn(p, t, lo, if hi < h + 1 then hi else h + 1)
         == MatchesIn(p, t, lo, if hi < h then hi else h) + (if lo <= h < hi && MatchAt(p, t, h) then [h] else [])
  {
  }

  /** The matches that start in the ownership range `[lo, hi)` below alignment `s`. */
  function Before(p: Bytes, t: Bytes, lo: int, hi: int, s: int): seq<int>
  {
    MatchesIn(p, t, lo, if hi < s then hi else s)
  }

  /**
   * A skip of `d` from an owned alignment `s` over alignments that do not
   * match counts `s` and nothing else.
   */
  lemma SkipOwned(p: Bytes, t: Bytes, lo: int, hi: int, s: int, d: int)
    requires lo <= s < hi && 1 <= d
    requires forall x :: s < x < s + d ==> !MatchAt(p, t, x)
    ensures |Before(p, t, lo, hi, s + d)| == |Before(p, t, lo, hi, s)| + (if MatchAt(p, t, s) then 1 else 0)
  {
    SkipAheadCapped(p, t, lo, s, d, hi);
  }

  /** Past the last alignment that fits, nothing more is owned. */
  lemma BeforeAll(p: Bytes, t: Bytes, lo: int, hi: int, s: int)
    requires s >= hi || s + |p| > |t|
    ensures Before(p, t, lo, hi, s) == MatchesIn(p, t, lo, hi)
  {
    if s < hi {
      MatchesInExtend(p, t, lo, s, hi);
    }
  }

  /**
   * The matches that start in the ownership range `[lo, hi)` and that a
   * left-to-right scan has completed after reading the first `i` bytes.
   */
  function Completed(p: Bytes, t: Bytes, lo: int, hi: int, i: int): seq<int>
  {
    MatchesIn(p, t, lo, if hi < i - |p| + 1 then hi else i - |p| + 1)
  }

  /** Reading byte `i` completes the alignment `i + 1 - |p|` and no other. */
  lemma CompletedNext(p: Bytes, t: Bytes, lo: int, hi: int, i: int)
    ensures Completed(p, t, lo, hi, i + 1)
         == Completed(p, t, lo, hi, i) + (if lo <= i + 1 - |p| < hi && MatchAt(p, t, i + 1 - |p|) then [i + 1 - |p|] else [])
  {
    OwnedNext(p, t, lo, hi, i + 1 - |p|);
  }

  /**
   * A scan that reports `found` for the alignment `i + 1 - |p|`, and is
   * right whenever that alignment is owned, keeps an exact count of
   * `Completed`.
   */
  lemma CountNext(p: Bytes, t: Bytes, lo: int, hi: int, i: int, found: bool)
    requires found ==> MatchAt(p, t, i + 1 - |p|)
    requires lo <= i + 1 - |p| && MatchAt(p, t, i + 1 - |p|) ==> found
    ensures |Completed(p, t, lo, hi, i + 1)|
         == |Completed(p, t, lo, hi, i)| + (if found && lo <= i + 1 - |p| < hi then 1 else 0)
  {
    CompletedNext(p, t, lo, hi, i);
  }

  /** Once the scan has read every byte, the completed matches are all owned matches. */
  lemma CompletedAll(p: Bytes, t: Bytes, lo: int, hi: int, i: int)
    requires i >= |t| || i >= hi + |p| - 1
    ensures Completed(p, t, lo, hi, i) == MatchesIn(p, t, lo, hi)
  {
    var top := if hi < i - |p| + 1 then hi else i - |p| + 1;
    if top < hi {
      MatchesInExtend(p, t, lo, top, hi);
    }
  }

  /**
   * Compares `p` with `t[s..s+|p|]` from the right, as the Horspool loops do.
   * `j == 0` means a match; otherwise `p[j-1]` differs from the text and
   * every cell to its right agrees.
   */
  method MismatchFromRight(p: Bytes, t: Bytes, s: nat) returns (j: nat)
    requires s + |p| <= |t|
    ensures j <= |p|
    ensures j == 0 <==> MatchAt(p, t, s)
    ensures j > 0 ==> p[j - 1] != t[s + j - 1]
    ensures forall k :: j <= k < |p| ==> p[k] == t[s + k]
  {
    j := |p|;
    while j > 0 && p[j - 1] == t[s + j - 1]
      invariant j <= |p|
      invariant forall k :: j <= k < |p| ==> p[k] == t[s + k]
    {
      j := j - 1;
    }
    MatchAtChars(p, t, s);
  }

  /** Overlapping occurrences are all reported: "AA" in "AAAA" and "AT" in "ATATAT". */
  lemma OverlapExamples()
    ensures Occ("AA", "AAAA") == [0, 1, 2]
    ensures Occ("AT", "ATATAT") == [0, 2, 4]
  {
    var aa: Bytes, aaaa: Bytes := "AA", "AAAA";
    assert MatchAt(aa, aaaa, 0) && MatchAt(aa, aaaa, 1) && MatchAt(aa, aaaa, 2);
    var at: Bytes, atat: Bytes := "AT", "ATATAT";
    assert MatchAt(at, atat, 0) && MatchAt(at, atat, 2) && MatchAt(at, atat, 4);
    MatchAtChars(at, atat, 1);
    MatchAtChars(at, atat, 3);
    assert atat[1] != at[0] && atat[3] != at[0];
    assert MatchesIn(at, atat, 0, 2) == [0];
    assert MatchesIn(at, atat, 0, 4) == [0, 2];
  }
}
