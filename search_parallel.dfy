/**
 * `src/search_parallel.cpp`: counting searches for Boyer–Moore–Horspool,
 * Shift-Or and KMP, each sequential and split over OpenMP workers that own
 * contiguous ranges of alignments. Each search returns the number of
 * (overlapping) occurrences, and 0 for an empty pattern.
 */
module SearchParallel {
  import opened Text
  import opened Occurrences
  import opened Borders
  import opened Bits
  import opened ShiftOrBits
  import opened BadChar
  import opened Chunks
  import KmpScan
  import opened Shards

  /** Below this many bytes per worker the parallel searches use a single worker. */
  const MIN_PER_THREAD: nat := 65536

  /** What a counting search of this file returns: 0 for an empty pattern, else |Occ|. */
  function Expected(p: Bytes, t: Bytes): nat
  {
    if |p| == 0 then 0 else |Occ(p, t)|
  }

  // ---------------------------------------------------------------- tables

  /**
   * The failure table, built by running the KMP step over the pattern
   * itself from offset 1.
   */
  method ComputeLps(p: Bytes) returns (lps: seq<int>)
    ensures LpsTable(p, lps)
  {
    var m := |p|;
    lps := seq(m, _ => 0);
    var len := 0;
    var i := 1;
    while i < m
      invariant 1 <= i
      invariant i <= m || m == 0
      invariant LpsUpTo(p, lps, if i < m then i else m)
      invariant m > 0 ==> LongestBelow(p, 1, i, p, len)
    {
      LpsPrefix(p, lps, i, len);
      len := KmpScan.Advance(p, lps, len, p[i], p, 1, i);
      RecordBorder(p, lps, i, len);
      lps := lps[i := len];
      i := i + 1;
    }
  }

  /** The 256 Shift-Or masks: all ones, with bit `i` cleared in the mask of `p[i]`. */
  method BuildMasks(p: Bytes) returns (B: seq<Word>)
    requires |p| <= 64
    ensures MaskTable(p, B)
  {
    var a := new Word[256](_ => Ones());
    var i := 0;
    while i < |p|
      invariant 0 <= i <= |p|
      invariant forall c :: 0 <= c < 256 ==> a[c] == MaskOf(p, i, c)
    {
      var c := Code(p[i]);
      forall d | 0 <= d < 256 {
        MaskOfStep(p, i, d);
      }
      a[c] := And(a[c], Not(Pow2(i)));
      i := i + 1;
    }
    B := a[..];
  }

  // ---------------------------------------------------------------- workers

  /**
   * Horspool over the alignments `[ws, we)`: the count is the number of
   * matches that start there. The sequential search is the worker that owns
   * `[0, n)`.
   */
  method BmhWorker(p: Bytes, t: Bytes, table: seq<int>, ws: nat, we: nat) returns (local: nat)
    requires HorspoolTable(p, table) && |p| <= |t| && we <= |t|
    ensures local == |MatchesIn(p, t, ws, we)|
  {
    var n, m := |t|, |p|;
    local := 0;
    var s := ws;
    while s + m <= n && s < we
      invariant ws <= s
      invariant local == |Before(p, t, ws, we, s)|
      decreases n - s
    {
      var j := MismatchFromRight(p, t, s);
      if j == 0 {
        SkipOwned(p, t, ws, we, s, 1);
        local := local + 1;
        s := s + 1;
      } else {
        var shift := table[Code(t[s + m - 1])];
        if shift == 0 {
          shift := 1;
        }
        HorspoolSkip(p, t, s);
        SkipOwned(p, t, ws, we, s, shift);
        s := s + shift;
      }
    }
    BeforeAll(p, t, ws, we, s);
  }

  /** Reads the bytes `[pf, ws)` into a fresh Shift-Or state. */
  method PrimeShiftOr(p: Bytes, B: seq<Word>, t: Bytes, pf: nat, ws: nat) returns (state: Word)
    requires MaskTable(p, B) && pf <= ws
    ensures ws <= |t| ==> StateInv(t, pf, ws, p, state)
  {
    ghost var tx := if ws <= |t| then t else t + seq(ws - |t|, _ => '\0');
    state := Ones();
    StateInit(tx, pf, p);
    var k := pf;
    while k < ws
      invariant pf <= k <= ws && StateInv(tx, pf, k, p, state)
    {
      StateStep(tx, pf, k, p, B, state);
      state := Or(Shl(state), B[Code(At(t, k))]);
      k := k + 1;
    }
  }

  /**
   * Shift-Or over the alignments `[ws, we)`. The state is first primed
   * with the `m - 1` bytes before `ws`; the scan then runs to `we + m - 1`
   * so that matches starting before `we` are completed. Priming reads
   * `At(t, k)`: past the end of the text it sees NUL bytes, which only
   * happens when `ws > n` and then nothing is counted.
   */
  method ShiftOrWorker(p: Bytes, t: Bytes, B: seq<Word>, ws: nat, we: nat) returns (local: nat)
    requires MaskTable(p, B) && 1 <= |p| <= |t| && we <= |t|
    ensures local == |MatchesIn(p, t, ws, we)|
  {
    var n, m := |t|, |p|;
    var pf := if ws >= m - 1 then ws - (m - 1) else 0;
    var state := PrimeShiftOr(p, B, t, pf, ws);
    local := 0;
    var hi := Min(n, we + (m - 1));
    var i := ws;
    while i < hi
      invariant ws <= i && (i <= hi || i == ws)
      invariant i < hi ==> StateInv(t, pf, i, p, state)
      invariant local == |Completed(p, t, ws, we, i)|
    {
      var clear;
      state, clear := Step(p, B, state, t[i], t, pf, i);
      CountNext(p, t, ws, we, i, i >= m - 1 && clear);
      if i >= m - 1 {
        var pos := i - (m - 1);
        if clear {
          if pos >= ws && pos < we {
            local := local + 1;
          }
        }
      }
      i := i + 1;
    }
    CompletedAll(p, t, ws, we, i);
  }

  /**
   * Reads the bytes `[pf, ws)` (at most `m - 1` of them) into a fresh KMP
   * state, so that a worker starting at `ws` knows the prefixes that end
   * just before it.
   */
  method PrimeKmp(p: Bytes, lps: seq<int>, t: Bytes, pf: nat, ws: nat) returns (j: nat)
    requires LpsTable(p, lps) && pf <= ws < pf + |p|
    ensures ws <= |t| ==> LongestBelow(t, pf, ws, p, j)
  {
    ghost var tx := if ws <= |t| then t else t + seq(ws - |t|, _ => '\0');
    j := 0;
    var k := pf;
    while k < ws
      invariant pf <= k <= ws && LongestBelow(tx, pf, k, p, j)
    {
      LpsPrefix(p, lps, |p|, j);
      j := KmpScan.Advance(p, lps, j, At(t, k), tx, pf, k);
      k := k + 1;
    }
  }

  /** KMP over the alignments `[ws, we)`, primed like the Shift-Or worker. */
  method KmpWorker(p: Bytes, lps: seq<int>, t: Bytes, ws: nat, we: nat) returns (local: nat)
    requires LpsTable(p, lps) && 1 <= |p| <= |t| && we <= |t|
    ensures local == |MatchesIn(p, t, ws, we)|
  {
    var n, m := |t|, |p|;
    var pf := if ws >= m - 1 then ws - (m - 1) else 0;
    var j := PrimeKmp(p, lps, t, pf, ws);
    local := 0;
    var hi := Min(n, we + (m - 1));
    var i := ws;
    while i < hi
      invariant ws <= i && (i <= hi || i == ws)
      invariant ws <= n ==> LongestBelow(t, pf, i, p, j)
      invariant local == |Completed(p, t, ws, we, i)|
    {
      var found;
      j, found := KmpScan.Step(p, lps, j, t[i], t, pf, i);
      CountNext(p, t, ws, we, i, found);
      if found {
        var pos := i + 1 - m;
        if pos >= ws && pos < we {
          local := local + 1;
        }
      }
      i := i + 1;
    }
    CompletedAll(p, t, ws, we, i);
  }

  // ---------------------------------------------------------------- sequential

  /** Sequential Horspool: the worker that owns every alignment. */
  method BmhSequential(p: Bytes, t: Bytes) returns (count: nat)
    ensures count == Expected(p, t)
  {
    var n, m := |t|, |p|;
    if m == 0 || n < m {
      return 0;
    }
    var table := CreateBadCharTable(p);
    count := BmhWorker(p, t, table, 0, n);
    MatchesInToEnd(p, t, 0, n);
  }

  /** Sequential Shift-Or; patterns longer than one 64-bit word give 0. */
  method ShiftOrSequential(p: Bytes, t: Bytes) returns (count: nat)
    ensures count == if |p| > 64 then 0 else Expected(p, t)
  {
    var n, m := |t|, |p|;
    if m == 0 || n < m || m > 64 {
      return 0;
    }
    var B := BuildMasks(p);
    var state := Ones();
    StateInit(t, 0, p);
    count := 0;
    var i := 0;
    while i < n
      invariant i <= n && StateInv(t, 0, i, p, state)
      invariant count == |Completed(p, t, 0, n, i)|
    {
      var clear;
      state, clear := ShiftOrBits.Step(p, B, state, t[i], t, 0, i);
      CountNext(p, t, 0, n, i, i >= m - 1 && clear);
      if i >= m - 1 && clear {
        count := count + 1;
      }
      i := i + 1;
    }
    CompletedAll(p, t, 0, n, n);
    MatchesInToEnd(p, t, 0, n);
  }

  /** Sequential KMP. */
  method KmpSequential(p: Bytes, t: Bytes) returns (count: nat)
    ensures count == Expected(p, t)
  {
    var n, m := |t|, |p|;
    if m == 0 || n < m {
      return 0;
    }
    var lps := ComputeLps(p);
    var j := 0;
    count := 0;
    var i := 0;
    while i < n
      invariant i <= n && LongestBelow(t, 0, i, p, j)
      invariant count == |Completed(p, t, 0, n, i)|
    {
      var found;
      j, found := KmpScan.Step(p, lps, j, t[i], t, 0, i);
      CountNext(p, t, 0, n, i, found);
      if found {
        count := count + 1;
      }
      i := i + 1;
    }
    CompletedAll(p, t, 0, n, n);
    MatchesInToEnd(p, t, 0, n);
  }

  // ---------------------------------------------------------------- parallel

  /**
   * The number of workers: a non-positive request means one, and so does a
   * text with fewer than `MIN_PER_THREAD` bytes per requested worker.
   */
  function EffectiveThreads(n: nat, requested: int): (T: nat)
    ensures T >= 1
    ensures T == 1 || (T == requested && n >= T * MIN_PER_THREAD)
    ensures requested >= 1 && n >= requested * MIN_PER_THREAD ==> T == requested
  {
    var T := if requested <= 0 then 1 else requested;
    if n < T * MIN_PER_THREAD then 1 else T
  }

  /** With more than one worker, every worker's range spans at least `MIN_PER_THREAD` alignments. */
  lemma ChunksAreLarge(n: nat, requested: int)
    requires EffectiveThreads(n, requested) > 1
    ensures CeilDiv(n, EffectiveThreads(n, requested)) >= MIN_PER_THREAD
  {
    var T := EffectiveThreads(n, requested);
    var c := CeilDiv(n, T);
    if c < MIN_PER_THREAD {
      MulMono(c, MIN_PER_THREAD - 1, T);
    }
  }

  /**
   * Parallel Horspool: each worker counts the matches that start in its
   * range, and the counts add up to the sequential count.
   */
  method BmhParallel(p: Bytes, t: Bytes, requested: int) returns (total: nat)
    ensures total == Expected(p, t)
  {
    var n, m := |t|, |p|;
    if m == 0 || n < m {
      return 0;
    }
    var T := EffectiveThreads(n, requested);
    var table := CreateBadCharTable(p);
    var chunk := CeilDiv(n, T);
    total := 0;
    var tid := 0;
    while tid < T
      invariant tid <= T
      invariant total == |MatchesIn(p, t, 0, Min(n, tid * chunk))|
    {
      var local := BmhWorker(p, t, table, tid * chunk, Min(n, (tid + 1) * chunk));
      ShardsAdd(p, t, n, chunk, tid);
      total := total + local;
      tid := tid + 1;
    }
    ShardsDone(p, t, T);
  }

  /** Parallel Shift-Or; patterns longer than 64 give 0. */
  method ShiftOrParallel(p: Bytes, t: Bytes, requested: int) returns (total: nat)
    ensures total == if |p| > 64 then 0 else Expected(p, t)
  {
    var n, m := |t|, |p|;
    if m == 0 || n < m || m > 64 {
      return 0;
    }
    var T := EffectiveThreads(n, requested);
    var B := BuildMasks(p);
    var chunk := CeilDiv(n, T);
    total := 0;
    var tid := 0;
    while tid < T
      invariant tid <= T
      invariant total == |MatchesIn(p, t, 0, Min(n, tid * chunk))|
    {
      var local := ShiftOrWorker(p, t, B, tid * chunk, Min(n, (tid + 1) * chunk));
      ShardsAdd(p, t, n, chunk, tid);
      total := total + local;
      tid := tid + 1;
    }
    ShardsDone(p, t, T);
  }

  /** Parallel KMP. */
  method KmpParallel(p: Bytes, t: Bytes, requested: int) returns (total: nat)
    ensures total == Expected(p, t)
  {
    var n, m := |t|, |p|;
    if m == 0 || n < m {
      return 0;
    }
    var T := EffectiveThreads(n, requested);
    var lps := ComputeLps(p);
    var chunk := CeilDiv(n, T);
    total := 0;
    var tid := 0;
    while tid < T
      invariant tid <= T
      invariant total == |MatchesIn(p, t, 0, Min(n, tid * chunk))|
    {
      var local := KmpWorker(p, lps, t, tid * chunk, Min(n, (tid + 1) * chunk));
      ShardsAdd(p, t, n, chunk, tid);
      total := total + local;
      tid := tid + 1;
    }
    ShardsDone(p, t, T);
  }
}
