/**
 * `dna_matchers.cpp`: the matchers behind the Python bindings. Its
 * `kmp_search` is the loop of `src/imp/KMPh.cpp` without the short-text
 * guard (`KmpMatcher.SearchAll`). Its Boyer–Moore and its Shift-Or differ
 * from the textbook algorithms, and each is modelled as written next to a
 * corrected version:
 *  - after a match the Boyer–Moore scan jumps a whole pattern length, and
 *    after a mismatch it shifts by the distance from the pattern's END to
 *    the last copy of the text byte, whichever cell mismatched; it reports
 *    only occurrences, but not all of them;
 *  - the Shift-Or mask table is declared with the initialiser `{~0ULL}`,
 *    which sets entry 0 only and leaves the other 255 masks zero, so on a
 *    text without NUL bytes every offset is reported.
 */
module DnaMatchers {
  import opened Text
  import opened Occurrences
  import opened BadChar
  import opened Bits

  /** The larger of two integers. */
  function Max(a: int, b: int): (r: int)
    ensures r >= a && r >= b && (r == a || r == b)
  {
    if a < b then b else a
  }

  // ------------------------------------------------------------ Boyer–Moore

  /**
   * The `bad_char_shift` map: every byte of the pattern maps to `m - 1`
   * minus its last index; bytes not in the pattern have no entry.
   */
  method ShiftTable(p: Bytes) returns (table: map<Byte, int>)
    ensures forall c :: c in table <==> c in p
    ensures forall c :: c in table ==> table[c] == |p| - 1 - LastBefore(p, c, |p|)
  {
    var m := |p|;
    table := map[];
    var i := 0;
    while i < m
      invariant 0 <= i <= m
      invariant forall c :: c in table <==> c in p[..i]
      invariant forall c :: c in table ==> table[c] == m - 1 - LastBefore(p, c, i)
    {
      assert p[..i + 1] == p[..i] + [p[i]];
      table := table[p[i] := m - i - 1];
      i := i + 1;
    }
    assert p[..i] == p;
  }

  /** A byte is in `p` exactly when it has a last index there. */
  lemma InPattern(p: Bytes, c: Byte)
    ensures c in p <==> LastBefore(p, c, |p|) >= 0
  {
    if c in p {
      var q :| 0 <= q < |p| && p[q] == c;
    }
  }

  /**
   * The shift the scan takes after a mismatch under text byte `c`:
   * `m - 1 - last(c)` (0 when `c` is the last cell), or `m` when `c` is not
   * in the pattern; the loop then takes at least 1.
   */
  function DnaShift(p: Bytes, c: Byte): (r: int)
    ensures 0 <= r <= |p|
  {
    var last := LastBefore(p, c, |p|);
    if last < 0 then |p| else |p| - 1 - last
  }

  /**
   * The cell at which the right-to-left compare of `p` against `t[s..]`
   * stops, looking at the cells below `k`: the largest `j < k` with
   * `p[j] != t[s + j]`, or -1 when all of them agree.
   */
  function MismatchBelow(p: Bytes, t: Bytes, s: int, k: int): (j: int)
    requires 0 <= s && s + |p| <= |t| && 0 <= k <= |p|
    ensures -1 <= j < k
    ensures j >= 0 ==> p[j] != t[s + j]
    decreases k
  {
    if k == 0 then -1 else if p[k - 1] != t[s + k - 1] then k - 1 else MismatchBelow(p, t, s, k - 1)
  }

  /** Every cell between the stop and `k` agrees. */
  lemma {:induction false} MismatchBelowAgrees(p: Bytes, t: Bytes, s: int, k: int)
    requires 0 <= s && s + |p| <= |t| && 0 <= k <= |p|
    ensures forall q :: MismatchBelow(p, t, s, k) < q < k ==> p[q] == t[s + q]
    decreases k
  {
    if k > 0 && p[k - 1] == t[s + k - 1] {
      MismatchBelowAgrees(p, t, s, k - 1);
    }
  }

  /** The window at `i` matches: the compare runs off the left end. */
  predicate BmHit(p: Bytes, t: Bytes, i: int)
    requires 0 <= i && i + |p| <= |t|
  {
    MismatchBelow(p, t, i, |p|) < 0
  }

  /**
   * The alignment after `i`: `m` further after a match; after a mismatch
   * `DnaShift` of the text byte at the mismatching cell, and at least 1.
   */
  function BmNext(p: Bytes, t: Bytes, i: int): (r: int)
    requires 1 <= |p| && 0 <= i && i + |p| <= |t|
    ensures r > i
  {
    var j := MismatchBelow(p, t, i, |p|);
    if j < 0 then i + |p| else i + Max(1, DnaShift(p, t[i + j]))
  }

  /** The offsets the as-written scan reports from alignment `i` on. */
  function BmScan(p: Bytes, t: Bytes, i: int): seq<int>
    requires 1 <= |p| && 0 <= i
    decreases |t| - i
  {
    if i > |t| - |p| then []
    else if BmHit(p, t, i) then [i] + BmScan(p, t, BmNext(p, t, i))
    else BmScan(p, t, BmNext(p, t, i))
  }

  /**
   * What the scan reports is sound and never overlaps: every offset is an
   * occurrence at or after `i`, and two reported offsets are at least `m`
   * apart.
   */
  lemma {:induction false} BmScanSound(p: Bytes, t: Bytes, i: int)
    requires 1 <= |p| && 0 <= i
    ensures forall x :: x in BmScan(p, t, i) ==> i <= x && MatchAt(p, t, x)
    ensures forall a, b :: 0 <= a < b < |BmScan(p, t, i)| ==> BmScan(p, t, i)[a] + |p| <= BmScan(p, t, i)[b]
    decreases |t| - i
  {
    if i <= |t| - |p| {
      if BmHit(p, t, i) {
        BmScanSound(p, t, i + |p|);
        MismatchBelowAgrees(p, t, i, |p|);
        MatchAtChars(p, t, i);
        var rest := BmScan(p, t, i + |p|);
        assert BmScan(p, t, i) == [i] + rest;
        forall a, b | 0 <= a < b < |[i] + rest|
          ensures ([i] + rest)[a] + |p| <= ([i] + rest)[b]
        {
          assert ([i] + rest)[b] == rest[b - 1];
          assert rest[b - 1] in rest;
          if a > 0 {
            assert ([i] + rest)[a] == rest[a - 1];
          }
        }
      } else {
        BmScanSound(p, t, BmNext(p, t, i));
      }
    }
  }

  /** The right-to-left compare of `boyer_moore_search`: it stops at `MismatchBelow(p, t, i, m)`. */
  method CompareFromRight(p: Bytes, t: Bytes, i: int) returns (j: int)
    requires 0 <= i && i + |p| <= |t|
    ensures j == MismatchBelow(p, t, i, |p|)
  {
    j := |p| - 1;
    while j >= 0 && p[j] == t[i + j]
      invariant -1 <= j < |p|
      invariant MismatchBelow(p, t, i, j + 1) == MismatchBelow(p, t, i, |p|)
    {
      j := j - 1;
    }
  }

  /** The shift read from the `bad_char_shift` map, with `m` for an absent byte, is `DnaShift`. */
  lemma TableShift(p: Bytes, table: map<Byte, int>, c: Byte)
    requires forall c :: c in table <==> c in p
    requires forall c :: c in table ==> table[c] == |p| - 1 - LastBefore(p, c, |p|)
    ensures (if c in table then table[c] else |p|) == DnaShift(p, c)
  {
    InPattern(p, c);
  }

  /** One window of the scan: `done` followed by what the scan reports from `i` on. */
  lemma BmScanStep(p: Bytes, t: Bytes, i: int, done: seq<int>)
    requires 1 <= |p| && 0 <= i <= |t| - |p|
    ensures done + BmScan(p, t, i) == (if BmHit(p, t, i) then done + [i] else done) + BmScan(p, t, BmNext(p, t, i))
  {
    if BmHit(p, t, i) {
      assert BmScan(p, t, i) == [i] + BmScan(p, t, BmNext(p, t, i));
    }
  }

  /**
   * One window of `boyer_moore_search`: the right-to-left compare, then
   * either the match and a jump of `m`, or the map's shift for the text
   * byte at the mismatching cell (`m` for a byte not in the pattern), at
   * least 1.
   */
  method BmWindow(p: Bytes, t: Bytes, badCharShift: map<Byte, int>, i: int) returns (hit: bool, next: int)
    requires 1 <= |p| && 0 <= i <= |t| - |p|
    requires forall c :: c in badCharShift <==> c in p
    requires forall c :: c in badCharShift ==> badCharShift[c] == |p| - 1 - LastBefore(p, c, |p|)
    ensures hit == BmHit(p, t, i) && next == BmNext(p, t, i)
  {
    var m := |p|;
    var j := CompareFromRight(p, t, i);
    if j < 0 {
      hit, next := true, i + m;
    } else {
      var c := t[i + j];
      TableShift(p, badCharShift, c);
      var d := if c in badCharShift then badCharShift[c] else m;
      hit, next := false, i + Max(1, d);
    }
  }

  /**
   * `boyer_moore_search` as written: nothing for an empty pattern,
   * otherwise the offsets `BmScan` lists (occurrences only, at least `m`
   * apart, ascending).
   */
  method BoyerMooreSearch(t: Bytes, p: Bytes) returns (matches: seq<int>)
    ensures matches == if |p| == 0 then [] else BmScan(p, t, 0)
  {
    var n, m := |t|, |p|;
    if m == 0 {
      return [];
    }
    var badCharShift := ShiftTable(p);
    matches := [];
    var i := 0;
    while i <= n - m
      invariant 0 <= i && matches + BmScan(p, t, i) == BmScan(p, t, 0)
      decreases n - i
    {
      var hit, next := BmWindow(p, t, badCharShift, i);
      BmScanStep(p, t, i, matches);
      if hit {
        matches := matches + [i];
      }
      i := next;
    }
    assert matches + [] == matches;
  }

  /** "AA" in "AAAA": the scan reports 0 and 2, not the overlapping 1. */
  lemma BmScanSkipsOverlap()
    ensures BmScan("AA", "AAAA", 0) == [0, 2]
    ensures Occ("AA", "AAAA") == [0, 1, 2]
  {
    var p, t: Bytes := "AA", "AAAA";
    assert MismatchBelow(p, t, 0, 2) == -1;
    assert MismatchBelow(p, t, 2, 2) == -1;
    assert BmScan(p, t, 4) == [];
    OverlapExamples();
  }

  /**
   * "AAA" in "YAAAA": the first window mismatches at cell 0 under 'Y',
   * which is not in the pattern, so the scan jumps 3 and ends, missing
   * the occurrences at 1 and 2.
   */
  lemma BmScanSkipsOccurrence()
    ensures BmScan("AAA", "YAAAA", 0) == []
    ensures 1 in Occ("AAA", "YAAAA") && 2 in Occ("AAA", "YAAAA")
  {
    var p, t: Bytes := "AAA", "YAAAA";
    assert MismatchBelow(p, t, 0, 3) == 0;
    assert LastBefore(p, 'Y', 3) == -1;
    assert BmScan(p, t, 3) == [];
    MatchAtChars(p, t, 1);
    MatchAtChars(p, t, 2);
    MatchesInMembers(p, t, 0, |t| - |p| + 1);
  }

  /**
   * The corrected scan: one step after a match, and after a mismatch at
   * cell `j` the shift `max(1, shift[c] - (m - 1 - j))`, which brings the
   * last copy of the text byte under cell `j`. It reports every
   * occurrence.
   */
  method BoyerMooreSearchFixed(t: Bytes, p: Bytes) returns (matches: seq<int>)
    ensures matches == if |p| == 0 then [] else Occ(p, t)
  {
    var n, m := |t|, |p|;
    if m == 0 {
      return [];
    }
    var badCharShift := ShiftTable(p);
    matches := [];
    var i := 0;
    while i <= n - m
      invariant 0 <= i && matches == MatchesIn(p, t, 0, i)
      decreases n - i
    {
      var k := MismatchFromRight(p, t, i);
      if k == 0 {
        SkipAhead(p, t, 0, i, 1);
        matches := matches + [i];
        i := i + 1;
      } else {
        var j := k - 1;
        var c := t[i + j];
        TableShift(p, badCharShift, c);
        var d := if c in badCharShift then badCharShift[c] else m;
        var shift := Max(1, d - (m - 1 - j));
        if LastBefore(p, c, m) < j {
          MismatchSkip(p, t, i, j, m);
        }
        SkipAhead(p, t, 0, i, shift);
        i := i + shift;
      }
    }
    MatchesInToEnd(p, t, 0, i);
  }

  // ------------------------------------------------------------ Shift-Or

  /** The offsets reported when every byte passes the test: `0 .. n - m`, or, at `m == 64`, `i - 63` for every `i`. */
  function EveryOffset(n: nat, m: nat): seq<int>
  {
    if m == 64 then seq(n, k => k - 63) else seq(Max(0, n - m + 1), k => k)
  }

  /** Clearing bits of the zero word leaves it zero. */
  lemma AndZero(x: Word)
    ensures And(Zero(), x) == Zero()
  {
    forall k | 0 <= k < 64
      ensures And(Zero(), x)[k] == Zero()[k]
    {
    }
  }

  /**
   * A step that reads a zero mask only shifts the register: the ones
   * stay above the number of bytes read, and bit `m` is found clear
   * once `m` bytes have been read (always, for `m == 64`).
   */
  lemma ShiftOnly(R: Word, mask: Word, i: nat, m: nat)
    requires 1 <= m <= 64 && mask == Zero()
    requires forall k :: 0 <= k < 64 ==> (R[k] <==> k >= i + 1)
    ensures forall k :: 0 <= k < 64 ==> (Shl(Or(R, mask))[k] <==> k >= i + 2)
    ensures (And(Shl(Or(R, mask)), Pow2(m)) == Zero()) <==> (m == 64 || m <= i + 1)
  {
    TestBit(Shl(Or(R, mask)), m);
  }

  /** One more byte read adds the offset `i - m + 1` exactly when the test passes. */
  lemma EveryOffsetNext(i: nat, m: nat)
    requires 1 <= m <= 64
    ensures EveryOffset(i + 1, m) == EveryOffset(i, m) + (if m == 64 || m <= i + 1 then [i - m + 1] else [])
  {
    if m < 64 && m <= i + 1 {
      assert Max(0, i + 1 - m + 1) == Max(0, i - m + 1) + 1;
    }
  }

  /**
   * `bit_parallel_search` as written: nothing for an empty pattern or one
   * longer than 64; on a text without NUL bytes every byte reads the zero
   * mask, the register only shifts, and every offset is reported.
   */
  method BitParallelSearch(t: Bytes, p: Bytes) returns (matches: seq<int>)
    ensures |p| == 0 || |p| > 64 ==> matches == []
    ensures 1 <= |p| <= 64 && '\0' !in t ==> matches == EveryOffset(|t|, |p|)
  {
    var m, n := |p|, |t|;
    if m == 0 || m > 64 {
      return [];
    }
    // `{~0ULL}`: entry 0 is all ones, the other entries are zero-initialised
    var patternMask := new Word[256](_ => Zero());
    patternMask[0] := Ones();
    var R := Not(Pow2(0));
    var i := 0;
    while i < m
      invariant 0 <= i <= m
      invariant forall c :: 1 <= c < 256 ==> patternMask[c] == Zero()
    {
      var c := Code(p[i]);
      AndZero(Not(Pow2(i)));
      patternMask[c] := And(patternMask[c], Not(Pow2(i)));
      i := i + 1;
    }
    matches := [];
    i := 0;
    while i < n
      invariant 0 <= i <= n
      invariant forall c :: 1 <= c < 256 ==> patternMask[c] == Zero()
      invariant '\0' !in t ==> forall k :: 0 <= k < 64 ==> (R[k] <==> k >= i + 1)
      invariant '\0' !in t ==> matches == EveryOffset(i, m)
    {
      if '\0' !in t {
        assert Code(t[i]) >= 1;
        ShiftOnly(R, patternMask[Code(t[i])], i, m);
        EveryOffsetNext(i, m);
      }
      R := Or(R, patternMask[Code(t[i])]);
      R := Shl(R);
      if And(R, Pow2(m)) == Zero() {
        matches := matches + [i - m + 1];
      }
      i := i + 1;
    }
  }

  /** "AC" against "GGG": no occurrence, yet the as-written search reports 0 and 1. */
  lemma MaskInitReportsAll()
    ensures '\0' !in "GGG" && EveryOffset(3, 2) == [0, 1]
    ensures Occ("AC", "GGG") == []
  {
    var p, t: Bytes := "AC", "GGG";
    MatchAtChars(p, t, 0);
    MatchAtChars(p, t, 1);
    assert Occ(p, t) == MatchesIn(p, t, 0, 2);
  }
}
