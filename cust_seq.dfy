/**
 * `cust_seq.cpp`: a second set of the three matchers returning offsets,
 * a pattern analyser and the hybrid selector that dispatches on it. Its
 * `kmp_search` is the loop of `src/imp/KMPh.cpp` without the short-text
 * guard (`KmpMatcher.SearchAll`). Its Boyer–Moore keeps the last index of
 * every byte in the whole pattern (-1 when absent); its Shift-Or keeps the
 * register shifted one place up, tests bit `m`, and so goes wrong at
 * `m == 64` (see `BitParallelSearch` and `BitParallelSearchFixed`).
 */
module CustSeq {
  import opened Text
  import opened Occurrences
  import opened BadChar
  import opened Bits
  import opened ShiftOrBits
  import opened PatternShape
  import Masks = SearchParallel
  import KmpMatcher

  // ------------------------------------------------------------ Boyer–Moore

  /** The `badChar` array: for every byte code, the last index of that byte in `p`, or -1. */
  method LastIndexTable(p: Bytes) returns (table: seq<int>)
    ensures |table| == 256
    ensures forall c :: 0 <= c < 256 ==> table[c] == LastBefore(p, c as char, |p|)
  {
    var a := new int[256](_ => -1);
    var i := 0;
    while i < |p|
      invariant 0 <= i <= |p|
      invariant forall c :: 0 <= c < 256 ==> a[c] == LastBefore(p, c as char, i)
    {
      a[Code(p[i])] := i;
      i := i + 1;
    }
    table := a[..];
  }

  /**
   * The shift after a match at `s`: past the last cell of `p` holding
   * `t[s + m]`, or 1 at the end of the text. With every table entry in
   * `[-1, m)` it moves between 1 and `m + 1` places.
   */
  function MatchShift(table: seq<int>, t: Bytes, s: int, m: nat): (r: int)
    requires |table| == 256 && 0 <= s
    requires forall c :: 0 <= c < 256 ==> -1 <= table[c] < m
    ensures 1 <= r <= m + 1
  {
    if s + m < |t| then m - table[Code(t[s + m])] else 1
  }

  /**
   * The shift after a match jumps over no occurrence: an alignment it
   * passes would put a cell of `p` holding `t[s + m]` right of its last one.
   */
  lemma MatchShiftSafe(p: Bytes, t: Bytes, s: int, table: seq<int>)
    requires 1 <= |p| && 0 <= s && s + |p| <= |t|
    requires |table| == 256 && forall c :: 0 <= c < 256 ==> table[c] == LastBefore(p, c as char, |p|)
    requires forall c :: 0 <= c < 256 ==> -1 <= table[c] < |p|
    ensures forall x :: s < x < s + MatchShift(table, t, s, |p|) ==> !MatchAt(p, t, x)
  {
    if s + |p| < |t| {
      Blocked(p, t, s + |p|, LastBefore(p, t[s + |p|], |p|), |p|);
    }
  }

  /** The shift after a mismatch at cell `j`: `max(1, j - last(t[s + j]))`. */
  function MismatchShift(table: seq<int>, t: Bytes, s: int, j: int): (r: int)
    requires |table| == 256 && 0 <= s && 0 <= s + j < |t|
    ensures r >= 1
  {
    var d := j - table[Code(t[s + j])];
    if d < 1 then 1 else d
  }

  /**
   * `boyer_moore_search`: the offsets of all (overlapping) occurrences,
   * ascending; nothing for an empty pattern. Both shifts are at least one
   * and jump over no occurrence.
   */
  method BoyerMooreSearch(t: Bytes, p: Bytes) returns (matches: seq<int>)
    ensures matches == if |p| == 0 then [] else Occ(p, t)
  {
    var n, m := |t|, |p|;
    if m == 0 {
      return [];
    }
    var badChar := LastIndexTable(p);
    matches := [];
    var s := 0;
    while s <= n - m
      invariant 0 <= s && matches == MatchesIn(p, t, 0, s)
      decreases n - s
    {
      // `k` is one more than the C++ index `j` left by the right-to-left compare
      var k := MismatchFromRight(p, t, s);
      if k == 0 {
        var shift := MatchShift(badChar, t, s, m);
        MatchShiftSafe(p, t, s, badChar);
        SkipAhead(p, t, 0, s, shift);
        matches := matches + [s];
        s := s + shift;
      } else {
        var j := k - 1;
        var shift := MismatchShift(badChar, t, s, j);
        if badChar[Code(t[s + j])] < j {
          MismatchSkip(p, t, s, j, m);
        }
        SkipAhead(p, t, 0, s, shift);
        s := s + shift;
      }
    }
    MatchesInToEnd(p, t, 0, s);
  }

  // ------------------------------------------------------------ Shift-Or

  /** `~1`, the register before any byte is read, is the all-ones state shifted up once. */
  lemma InitialRegister()
    ensures Not(Pow2(0)) == Shl(Ones())
  {
    forall k | 0 <= k < 64
      ensures Not(Pow2(0))[k] == Shl(Ones())[k]
    {
    }
  }

  /**
   * With the register kept as the Shift-Or state shifted up once: the
   * state after reading `t[i]` describes the window `t[..i + 1]`; testing
   * its bit `m - 1` (before the shift) reports exactly the match ending at
   * `i`; testing bit `m` after the shift does the same while `m < 64`, and
   * at `m == 64` the word `1 << 64` it compares against is zero and every byte reports.
   */
  lemma RegisterStep(t: Bytes, i: int, p: Bytes, B: seq<Word>, D: Word)
    requires MaskTable(p, B) && 0 <= i < |t| && 1 <= |p| && StateInv(t, 0, i, p, D)
    ensures StateInv(t, 0, i + 1, p, Or(Shl(D), B[Code(t[i])]))
    ensures (And(Or(Shl(D), B[Code(t[i])]), Pow2(|p| - 1)) == Zero())
        <==> 0 <= i + 1 - |p| && MatchAt(p, t, i + 1 - |p|)
    ensures |p| < 64 ==> ((And(Shl(Or(Shl(D), B[Code(t[i])])), Pow2(|p|)) == Zero())
        <==> 0 <= i + 1 - |p| && MatchAt(p, t, i + 1 - |p|))
    ensures |p| == 64 ==> And(Shl(Or(Shl(D), B[Code(t[i])])), Pow2(|p|)) == Zero()
  {
    var D' := Or(Shl(D), B[Code(t[i])]);
    ReadAndReport(t, 0, i, p, B, D);
    if i + 1 < |p| {
      StateShort(t, 0, i + 1, p, D');
    }
    TestBit(D', |p| - 1);
    TestBit(Shl(D'), |p|);
  }

  /**
   * `bit_parallel_search` as written: nothing for an empty pattern or one
   * longer than 64, every occurrence for `m < 64`, but at `m == 64` the
   * test `R & (1 << 64)` passes on every byte and the result is every
   * offset `i - 63`, negative ones included.
   */
  method BitParallelSearch(t: Bytes, p: Bytes) returns (matches: seq<int>)
    ensures |p| == 0 || |p| > 64 ==> matches == []
    ensures 1 <= |p| < 64 ==> matches == Occ(p, t)
    ensures |p| == 64 ==> matches == seq(|t|, k => k - 63)
  {
    var m, n := |p|, |t|;
    if m == 0 || m > 64 {
      return [];
    }
    var patternMask := Masks.BuildMasks(p);
    var R := Not(Pow2(0));
    ghost var D := Ones();
    StateInit(t, 0, p);
    InitialRegister();
    matches := [];
    var i := 0;
    while i < n
      invariant 0 <= i <= n && StateInv(t, 0, i, p, D) && R == Shl(D)
      invariant m < 64 ==> matches == Completed(p, t, 0, n - m + 1, i)
      invariant m == 64 ==> matches == seq(i, k => k - 63)
    {
      RegisterStep(t, i, p, patternMask, D);
      CompletedNext(p, t, 0, n - m + 1, i);
      R := Or(R, patternMask[Code(t[i])]);
      D := R;
      R := Shl(R);
      if And(R, Pow2(m)) == Zero() {
        matches := matches + [i - m + 1];
      }
      assert m == 64 ==> matches == seq(i + 1, k => k - 63);
      i := i + 1;
    }
    if m < 64 {
      CompletedAll(p, t, 0, n - m + 1, i);
    }
  }

  /**
   * A 64-byte pattern that does not occur: the as-written search reports
   * 64 offsets, from -63 on, where there is no occurrence at all.
   */
  lemma FullWidthReportsEverything()
    ensures var p, t := seq(64, _ => 'A'), seq(64, _ => 'C');
      Occ(p, t) == [] && seq(|t|, k => k - 63) != Occ(p, t)
  {
    var p, t := seq(64, _ => 'A'), seq(64, _ => 'C');
    assert !MatchAt(p, t, 0) by {
      MatchAtChars(p, t, 0);
      assert t[0] != p[0];
    }
    assert Occ(p, t) == MatchesIn(p, t, 0, 1);
    assert seq(|t|, k => k - 63)[0] == -63;
  }

  /**
   * `bit_parallel_search` with the test moved before the shift (bit
   * `m - 1` of `R | mask`), which needs no bit 64: every occurrence for
   * `1 <= m <= 64`.
   */
  method BitParallelSearchFixed(t: Bytes, p: Bytes) returns (matches: seq<int>)
    ensures matches == if |p| == 0 || |p| > 64 then [] else Occ(p, t)
  {
    var m, n := |p|, |t|;
    if m == 0 || m > 64 {
      return [];
    }
    var patternMask := Masks.BuildMasks(p);
    var R := Not(Pow2(0));
    ghost var D := Ones();
    StateInit(t, 0, p);
    InitialRegister();
    matches := [];
    var i := 0;
    while i < n
      invariant 0 <= i <= n && StateInv(t, 0, i, p, D) && R == Shl(D)
      invariant matches == Completed(p, t, 0, n - m + 1, i)
    {
      RegisterStep(t, i, p, patternMask, D);
      CompletedNext(p, t, 0, n - m + 1, i);
      R := Or(R, patternMask[Code(t[i])]);
      if And(R, Pow2(m - 1)) == Zero() {
        matches := matches + [i - m + 1];
      }
      D := R;
      R := Shl(R);
      i := i + 1;
    }
    CompletedAll(p, t, 0, n - m + 1, i);
  }

  // ------------------------------------------------------------ analysis

  /** The fields of `PatternAnalysis`; GC content is an exact ratio. */
  datatype PatternAnalysis = PatternAnalysis(
    isRepetitive: bool, isPeriodic: bool, gcContent: real,
    longestRun: int, distinctChars: int, period: int)

  /**
   * `compute_period_simple`: 0 for the empty pattern, otherwise the
   * smallest `q <= m / 2` dividing `m` with `pattern[i] == pattern[i % q]`
   * throughout, or `m` when there is none.
   */
  method ComputePeriodSimple(pattern: Bytes) returns (r: int)
    ensures r == SmallestPeriod(pattern)
  {
    var m := |pattern|;
    if m == 0 {
      return 0;
    }
    var q := 1;
    while q <= m / 2
      invariant 1 <= q <= m / 2 + 1
      invariant forall d :: 1 <= d < q && m % d == 0 ==> !HasPeriod(pattern, d)
      invariant PeriodFrom(pattern, q) == SmallestPeriod(pattern)
    {
      if m % q != 0 {
        q := q + 1;
        continue;
      }
      var periodic := true;
      var i := q;
      while i < m
        invariant q <= i <= m
        invariant forall k :: q <= k < i ==> pattern[k] == pattern[k % q]
      {
        if pattern[i] != pattern[i % q] {
          periodic := false;
          break;
        }
        i := i + 1;
      }
      if periodic {
        return q;
      }
      q := q + 1;
    }
    r := m;
  }

  /** G or C, upper case only, as `analyze_pattern` counts them. */
  predicate IsUpperGC(c: Byte)
  {
    c == 'G' || c == 'C'
  }

  /** The periodicity verdict: the smallest period for short patterns, a long run for long ones. */
  predicate Periodic(p: Bytes)
  {
    var run := LongestRun(p);
    run > |p| / 3 && if |p| <= 100 then SmallestPeriod(p) <= |p| / 2 else run > |p| / 2
  }

  /** The repetitiveness verdict: a run longer than a third of the length, or periodic. */
  predicate Repetitive(p: Bytes)
  {
    LongestRun(p) > |p| / 3 || Periodic(p)
  }

  /** The first loop of `analyze_pattern`: the number of upper-case G/C bytes. */
  method CountGC(pattern: Bytes) returns (gcCount: int)
    ensures gcCount == CountWhere(pattern, IsUpperGC)
  {
    gcCount := 0;
    var i := 0;
    while i < |pattern|
      invariant 0 <= i <= |pattern| && gcCount == CountWhere(pattern[..i], IsUpperGC)
    {
      assert pattern[..i + 1][..i] == pattern[..i];
      if pattern[i] == 'G' || pattern[i] == 'C' {
        gcCount := gcCount + 1;
      }
      i := i + 1;
    }
    assert pattern[..i] == pattern;
  }

  /**
   * The second loop of `analyze_pattern`: distinct bytes through a `seen`
   * array, and the longest run through `current_run` (1 for the empty
   * pattern, as the counter starts there).
   */
  method ShapePass(pattern: Bytes) returns (distinct: int, longest: int)
    ensures distinct == |Symbols(pattern)|
    ensures longest == LongestRun(pattern)
  {
    var length := |pattern|;
    var seen := new bool[256](_ => false);
    distinct := 0;
    longest := 1;
    var current := 1;
    var i := 0;
    while i < length
      invariant 0 <= i <= length
      invariant forall c :: 0 <= c < 256 ==> (seen[c] <==> c as char in Symbols(pattern[..i]))
      invariant distinct == |Symbols(pattern[..i])|
      invariant longest == LongestRunUpTo(pattern, i)
      invariant if i == 0 then current == 1 else current == RunEndingAt(pattern, i - 1)
    {
      distinct := SeenStep(seen, pattern, i, distinct);
      current, longest := RunStep(pattern, i, current, longest);
      i := i + 1;
    }
    assert pattern[..i] == pattern;
  }

  /** The `seen` bookkeeping of one step of `analyze_pattern`'s second loop. */
  method SeenStep(seen: array<bool>, pattern: Bytes, i: int, distinct: int) returns (distinct': int)
    requires seen.Length == 256 && 0 <= i < |pattern|
    requires forall c :: 0 <= c < 256 ==> (seen[c] <==> c as char in Symbols(pattern[..i]))
    requires distinct == |Symbols(pattern[..i])|
    modifies seen
    ensures forall c :: 0 <= c < 256 ==> (seen[c] <==> c as char in Symbols(pattern[..i + 1]))
    ensures distinct' == |Symbols(pattern[..i + 1])|
  {
    SymbolsPrefix(pattern, i);
    SymbolsPrefixCount(pattern, i);
    assert Code(pattern[i]) as char == pattern[i];
    distinct' := distinct;
    if !seen[Code(pattern[i])] {
      seen[Code(pattern[i])] := true;
      distinct' := distinct' + 1;
    }
  }

  /** The run bookkeeping of one step of `analyze_pattern`'s second loop. */
  method RunStep(pattern: Bytes, i: int, current: int, longest: int) returns (current': int, longest': int)
    requires 0 <= i < |pattern|
    requires if i == 0 then current == 1 else current == RunEndingAt(pattern, i - 1)
    requires longest == LongestRunUpTo(pattern, i)
    ensures current' == RunEndingAt(pattern, i) && longest' == LongestRunUpTo(pattern, i + 1)
  {
    current', longest' := current, longest;
    if i > 0 {
      if pattern[i] == pattern[i - 1] {
        current' := current' + 1;
        longest' := if longest' < current' then current' else longest';
      } else {
        current' := 1;
      }
    }
  }

  /**
   * `analyze_pattern`: the GC count, the distinct bytes and the longest
   * run, then the verdicts.
   */
  method AnalyzePattern(pattern: Bytes) returns (a: PatternAnalysis)
    ensures a.gcContent == if |pattern| == 0 then 0.0 else CountWhere(pattern, IsUpperGC) as real / |pattern| as real
    ensures a.distinctChars == |Symbols(pattern)|
    ensures a.longestRun == LongestRun(pattern)
    ensures a.isPeriodic == Periodic(pattern)
    ensures a.isRepetitive == Repetitive(pattern)
    ensures a.period == if LongestRun(pattern) > |pattern| / 3 && |pattern| <= 100 then SmallestPeriod(pattern) else |pattern|
  {
    var length := |pattern|;
    var gcCount := CountGC(pattern);
    var gc := if length == 0 then 0.0 else gcCount as real / length as real;
    var distinct, longest := ShapePass(pattern);

    var isRepetitive := longest > length / 3;
    var isPeriodic := false;
    var period := length;
    if isRepetitive && length <= 100 {
      period := ComputePeriodSimple(pattern);
      isPeriodic := period <= length / 2;
    } else if isRepetitive && length > 100 {
      isPeriodic := longest > length / 2;
    }
    isRepetitive := isRepetitive || isPeriodic;
    a := PatternAnalysis(isRepetitive, isPeriodic, gc, longest, distinct, period);
  }

  /** One byte repeated is repetitive; so is any pattern of at most two bytes. */
  lemma RepetitiveExamples(p: Bytes)
    ensures 1 <= |p| && Uniform(p, 0, |p|) ==> Repetitive(p)
    ensures |p| <= 2 ==> Repetitive(p)
  {
    LongestRunIsLongest(p);
  }

  // ------------------------------------------------------------ selection

  /** The algorithm name `hybrid_search` reports, given the analysis verdicts. */
  function Choice(length: nat, repetitive: bool, distinct: int): (r: Bytes)
    ensures r in ["None", "Bit-Parallel", "KMP", "Boyer-Moore"]
    ensures r == "None" <==> length == 0
    ensures r == "Bit-Parallel" <==> 0 < length <= 64 && !repetitive && distinct > 2
    ensures r == "KMP" <==> length != 0 && repetitive
  {
    if length == 0 then "None"
    else if length <= 64 && !repetitive && distinct > 2 then "Bit-Parallel"
    else if repetitive then "KMP"
    else if length > 100 && distinct >= 3 then "Boyer-Moore"
    else "Boyer-Moore"
  }

  /** Byte `k` of "ACGT" repeated: never equal to the byte after it. */
  function AcgtAt(k: nat): (c: Byte)
    ensures c in "ACGT" && c == "ACGT"[k % 4] && c != "ACGT"[(k + 1) % 4]
  {
    var r := k % 4;
    assert (k + 1) % 4 == if r == 3 then 0 else r + 1;
    "ACGT"[r]
  }

  /** "ACGT" sixteen times over. */
  function AcgtRepeat(): (p: Bytes)
    ensures |p| == 64 && forall k: nat :: k < 64 ==> p[k] == AcgtAt(k)
  {
    seq(64, (k: nat) => AcgtAt(k))
  }

  /** `AcgtRepeat()` has no two equal neighbours, so no run longer than one byte. */
  lemma AcgtRepeatRun()
    ensures LongestRun(AcgtRepeat()) == 1
  {
    var p := AcgtRepeat();
    forall k | 0 <= k < 63
      ensures p[k] != p[k + 1]
    {
      assert p[k] == AcgtAt(k) && p[k + 1] == AcgtAt(k + 1);
    }
    NoEqualNeighbours(p);
  }

  /** The bytes of `AcgtRepeat()` are exactly A, C, G and T. */
  lemma AcgtRepeatSymbols()
    ensures Symbols(AcgtRepeat()) == {'A', 'C', 'G', 'T'} && |Symbols(AcgtRepeat())| == 4
  {
    var p := AcgtRepeat();
    forall x | x in Symbols(p)
      ensures x == 'A' || x == 'C' || x == 'G' || x == 'T'
    {
      var k :| 0 <= k < |p| && p[k] == x;
      assert x == AcgtAt(k);
    }
    assert p[0] == 'A' && p[1] == 'C' && p[2] == 'G' && p[3] == 'T';
    assert Symbols(p) == {'A', 'C', 'G', 'T'};
  }

  /** Without two equal neighbours, the longest run is a single byte. */
  lemma NoEqualNeighbours(s: Bytes)
    requires |s| >= 1 && forall k :: 0 <= k < |s| - 1 ==> s[k] != s[k + 1]
    ensures LongestRun(s) == 1
  {
    LongestRunIsLongest(s);
    var a, b :| Uniform(s, a, b) && b - a == LongestRun(s);
    assert a + 1 >= |s| || s[a] != s[a + 1];
    assert b - a <= 1;
  }

  /**
   * The selector does send a 64-byte pattern to the as-written Shift-Or:
   * `AcgtRepeat()` has no run longer than 1 and four distinct bytes, so it
   * is named "Bit-Parallel", and in "AAAA" it has no occurrence.
   */
  lemma HybridReachesFullWidth()
    ensures Choice(64, Repetitive(AcgtRepeat()), |Symbols(AcgtRepeat())|) == "Bit-Parallel"
    ensures Occ(AcgtRepeat(), "AAAA") == []
  {
    var p := AcgtRepeat();
    AcgtRepeatRun();
    AcgtRepeatSymbols();
    SingleRunsNotRepetitive(p);
  }

  /** A pattern of at least three bytes without a run of two is not repetitive. */
  lemma SingleRunsNotRepetitive(p: Bytes)
    requires |p| >= 3 && LongestRun(p) == 1
    ensures !Repetitive(p)
  {
  }

  /**
   * `hybrid_search`: the analysis decides the name, and the named matcher
   * runs as written. Every branch returns every occurrence except the
   * Shift-Or one on a 64-byte pattern, where `bit_parallel_search` reports
   * every offset `i - 63`.
   */
  method HybridSearch(t: Bytes, p: Bytes) returns (matches: seq<int>, name: Bytes)
    ensures name == Choice(|p|, Repetitive(p), |Symbols(p)|)
    ensures |p| == 0 ==> matches == []
    ensures |p| == 64 && name == "Bit-Parallel" ==> matches == seq(|t|, k => k - 63)
    ensures 0 < |p| && !(|p| == 64 && name == "Bit-Parallel") ==> matches == Occ(p, t)
  {
    var length := |p|;
    if length == 0 {
      return [], "None";
    }
    var analysis := AnalyzePattern(p);
    // the name each branch reports
    name := Choice(length, analysis.isRepetitive, analysis.distinctChars);
    if length <= 64 && !analysis.isRepetitive && analysis.distinctChars > 2 {
      matches := BitParallelSearch(t, p);
    } else if analysis.isRepetitive {
      matches := KmpMatcher.SearchAll(p, t);
    } else {
      matches := BoyerMooreSearch(t, p);
    }
  }
}
