/**
 * `openmp/BP.cpp`: Shift-Or counting, serial and split over OpenMP
 * workers. Worker `tid` owns the alignments from `tid * c` on, with
 * `c = ceil(n / T)`, but reads only up to the end of its own chunk: a match
 * that starts in one chunk and ends in the next is counted by no worker.
 * `ShiftOrSearchParallel` models that as written; `ShiftOrSearchParallelFixed`
 * lets each worker read `m - 1` bytes past its chunk, which makes the sum
 * the serial count.
 */
module OmpBp {
  import opened Text
  import opened Occurrences
  import opened Bits
  import opened ShiftOrBits
  import opened Chunks
  import opened Shards
  import Masks = SearchParallel

  /**
   * A fresh all-ones state run over `[start, end)`, counting the matches
   * it completes that start at `own` or later (`own >= start`, so each
   * such match is read whole): the matches that start in `[own, end - m]`.
   */
  method Worker(p: Bytes, t: Bytes, B: seq<Word>, start: nat, end: nat, own: nat) returns (local: nat)
    requires MaskTable(p, B) && 1 <= |p| && end <= |t| && start <= own
    ensures local == |MatchesIn(p, t, own, end - |p| + 1)|
  {
    var m := |p|;
    var state := Ones();
    if start <= |t| {
      StateInit(t, start, p);
    }
    local := 0;
    var i := start;
    while i < end
      invariant start <= i && (i <= end || i == start)
      invariant i < end ==> StateInv(t, start, i, p, state)
      invariant local == |Completed(p, t, own, end - m + 1, i)|
    {
      var clear;
      state, clear := Step(p, B, state, t[i], t, start, i);
      CountNext(p, t, own, end - m + 1, i, i >= m - 1 && clear);
      if i >= m - 1 && i - (m - 1) >= own && clear {
        local := local + 1;
      }
      i := i + 1;
    }
    CompletedAll(p, t, own, end - m + 1, i);
  }

  /** `shiftOrSearchSerial`: the number of occurrences; 0 for an empty pattern, a short text or `m > 64`. */
  method ShiftOrSearchSerial(t: Bytes, p: Bytes) returns (count: nat)
    ensures count == if |p| == 0 || |p| > 64 then 0 else |Occ(p, t)|
  {
    var n, m := |t|, |p|;
    if m == 0 || n < m {
      return 0;
    }
    if m > 64 {
      return 0;
    }
    var B := Masks.BuildMasks(p);
    count := Worker(p, t, B, 0, n, 0);
  }

  /**
   * What a worker of `shiftOrSearchParallel` counts when its chunk starts
   * at `lo` and is `c` long: the matches that lie wholly in the chunk.
   */
  function ChunkCount(p: Bytes, t: Bytes, lo: nat, c: nat): nat
  {
    |MatchesIn(p, t, lo, Min(|t|, lo + c) - |p| + 1)|
  }

  /** The sum of the counts of workers `0 .. k - 1` with chunk length `c`. */
  function ParallelCount(p: Bytes, t: Bytes, c: nat, k: nat): nat
  {
    if k == 0 then 0 else ParallelCount(p, t, c, k - 1) + ChunkCount(p, t, ChunkStart(c, k - 1), c)
  }

  /**
   * `shiftOrSearchParallel` as written, with the OpenMP region run as a
   * loop over worker ids; `T` must be positive. The result is the sum of
   * the workers' in-chunk counts, which `ParallelAtMostSerial` and
   * `StraddleLost` compare with the serial count.
   */
  method ShiftOrSearchParallel(t: Bytes, p: Bytes, T: int) returns (total: nat)
    requires T >= 1
    ensures total == if |p| == 0 || |t| < |p| || |p| > 64 then 0 else ParallelCount(p, t, CeilDiv(|t|, T), T)
  {
    var n, m := |t|, |p|;
    if m == 0 || n < m {
      return 0;
    }
    if m > 64 {
      return 0;
    }
    var B := Masks.BuildMasks(p);
    total := 0;
    var chunk := CeilDiv(n, T);
    var tid := 0;
    while tid < T
      invariant tid <= T
      invariant total == ParallelCount(p, t, chunk, tid)
    {
      ChunkStartIs(chunk, tid);
      var local := ChunkWorker(p, t, B, tid * chunk, chunk);
      total := total + local;
      tid := tid + 1;
    }
  }

  /**
   * The body of the parallel region for the worker whose chunk starts at
   * `lo = tid * c`: it reads from `m - 1` bytes before `lo` (clipped at 0)
   * to `(tid + 1) * c = lo + c` (clipped at `n`).
   */
  method ChunkWorker(p: Bytes, t: Bytes, B: seq<Word>, lo: nat, c: nat) returns (local: nat)
    requires MaskTable(p, B) && 1 <= |p|
    ensures local == ChunkCount(p, t, lo, c)
  {
    var n, m := |t|, |p|;
    var start := if lo - (m - 1) > 0 then lo - (m - 1) else 0;
    var end := Min(n, lo + c);
    local := Worker(p, t, B, start, end, lo);
  }

  /** Each worker counts only genuine matches of its chunk, so the sum never exceeds the serial count. */
  lemma {:induction false} ParallelAtMostSerial(p: Bytes, t: Bytes, c: nat, k: nat)
    requires 1 <= |p|
    ensures ParallelCount(p, t, c, k) <= |MatchesIn(p, t, 0, Min(|t|, ChunkStart(c, k)))|
  {
    if k > 0 {
      var lo := ChunkStart(c, k - 1);
      ParallelAtMostSerial(p, t, c, k - 1);
      ChunkAtMost(p, t, lo, c);
      assert ParallelCount(p, t, c, k) == ParallelCount(p, t, c, k - 1) + ChunkCount(p, t, lo, c);
    }
  }

  /** A chunk's count adds at most the matches that start in the chunk. */
  lemma ChunkAtMost(p: Bytes, t: Bytes, lo: nat, c: nat)
    requires 1 <= |p|
    ensures |MatchesIn(p, t, 0, Min(|t|, lo))| + ChunkCount(p, t, lo, c) <= |MatchesIn(p, t, 0, Min(|t|, lo + c))|
  {
    var n, m := |t|, |p|;
    var e := Min(n, lo + c);
    ShardStep(p, t, lo, c);
    if lo <= e - m + 1 {
      MatchesInSplit(p, t, lo, e - m + 1, e);
    }
  }

  /** The matches below the end of a chunk are those below its start and those in it. */
  lemma ShardStep(p: Bytes, t: Bytes, lo: nat, c: nat)
    ensures |MatchesIn(p, t, 0, Min(|t|, lo + c))| == |MatchesIn(p, t, 0, Min(|t|, lo))| + |MatchesIn(p, t, lo, Min(|t|, lo + c))|
  {
    var n := |t|;
    if lo <= n {
      MatchesInSplit(p, t, 0, lo, Min(n, lo + c));
    }
  }

  /** A match at `x`, if there is one, lies in one chunk of length `c`. */
  ghost predicate InOneChunk(p: Bytes, t: Bytes, c: nat, x: int)
    requires c > 0
  {
    MatchAt(p, t, x) ==> x / c == (x + |p| - 1) / c
  }

  /** Every match of `p` lies in one chunk of length `c`. */
  ghost predicate NoStraddle(p: Bytes, t: Bytes, c: nat)
    requires c > 0
  {
    forall x :: InOneChunk(p, t, c, x)
  }

  /** A match that starts in chunk `k` and lies in one chunk ends in chunk `k`. */
  lemma StaysInChunk(p: Bytes, t: Bytes, c: nat, k: nat, x: int)
    requires c > 0 && 1 <= |p| && NoStraddle(p, t, c) && MatchAt(p, t, x) && k * c <= x < k * c + c
    ensures x + |p| <= k * c + c
  {
    assert InOneChunk(p, t, c, x);
    DivUnique(x, c, k);
    DivBounds(x + |p| - 1, c);
  }

  /** When no match crosses a chunk boundary, the worker of chunk `k` misses nothing of it. */
  lemma ChunkExact(p: Bytes, t: Bytes, c: nat, k: nat)
    requires c > 0 && 1 <= |p| && NoStraddle(p, t, c)
    ensures ChunkCount(p, t, ChunkStart(c, k), c) == |MatchesIn(p, t, ChunkStart(c, k), Min(|t|, ChunkStart(c, k) + c))|
  {
    var n, m := |t|, |p|;
    ChunkStartIs(c, k);
    var lo := k * c;
    var e := Min(n, lo + c);
    forall x | (if lo > e - m + 1 then lo else e - m + 1) <= x < e
      ensures !MatchAt(p, t, x)
    {
      if MatchAt(p, t, x) {
        StaysInChunk(p, t, c, k, x);
      }
    }
    if lo <= e - m + 1 {
      MatchesInExtend(p, t, lo, e - m + 1, e);
    } else {
      MatchesInNone(p, t, lo, e);
    }
  }

  /** When no match crosses a chunk boundary, the parallel sum is the serial count. */
  lemma {:induction false} ParallelExactWithoutStraddle(p: Bytes, t: Bytes, c: nat, k: nat)
    requires c > 0 && 1 <= |p| && NoStraddle(p, t, c)
    ensures ParallelCount(p, t, c, k) == |MatchesIn(p, t, 0, Min(|t|, ChunkStart(c, k)))|
  {
    if k > 0 {
      ParallelExactWithoutStraddle(p, t, c, k - 1);
      ExactStep(p, t, c, k);
    }
  }

  /** Without straddling matches, worker `k - 1` adds what its chunk adds to the serial count. */
  lemma ExactStep(p: Bytes, t: Bytes, c: nat, k: nat)
    requires c > 0 && 1 <= |p| && NoStraddle(p, t, c) && k > 0
    ensures ParallelCount(p, t, c, k) - ParallelCount(p, t, c, k - 1)
         == |MatchesIn(p, t, 0, Min(|t|, ChunkStart(c, k)))| - |MatchesIn(p, t, 0, Min(|t|, ChunkStart(c, k - 1)))|
  {
    var lo := ChunkStart(c, k - 1);
    ChunkExact(p, t, c, k - 1);
    ShardStep(p, t, lo, c);
  }

  /** A one-byte pattern cannot cross a boundary: for `m == 1` the parallel count is the serial count. */
  lemma OneByteExact(p: Bytes, t: Bytes, T: nat)
    requires T > 0 && |p| == 1 && 1 <= |t|
    ensures ParallelCount(p, t, CeilDiv(|t|, T), T) == |Occ(p, t)|
  {
    var c := CeilDiv(|t|, T);
    ParallelExactWithoutStraddle(p, t, c, T);
    ChunkStartIs(c, T);
    ShardsDone(p, t, T);
  }

  /** "AA" in "AAAA" with two workers: the serial count is 3, the parallel count 2 (offset 1 straddles). */
  lemma StraddleLost()
    ensures |Occ("AA", "AAAA")| == 3
    ensures ParallelCount("AA", "AAAA", 2, 2) == 2
  {
    var p: Bytes, t: Bytes := "AA", "AAAA";
    assert MatchAt(p, t, 0) && MatchAt(p, t, 1) && MatchAt(p, t, 2);
    assert MatchesIn(p, t, 0, 1) == [0];
    assert MatchesIn(p, t, 2, 3) == [2];
  }

  /**
   * `shiftOrSearchParallel` with each worker's window stretched to
   * `min(n, (tid + 1) * c + m - 1)`: worker `tid` then counts exactly the
   * matches that start in its chunk, and the sum is the serial count.
   */
  method ShiftOrSearchParallelFixed(t: Bytes, p: Bytes, T: int) returns (total: nat)
    requires T >= 1
    ensures total == if |p| == 0 || |p| > 64 then 0 else |Occ(p, t)|
  {
    var n, m := |t|, |p|;
    if m == 0 || n < m {
      return 0;
    }
    if m > 64 {
      return 0;
    }
    var B := Masks.BuildMasks(p);
    total := 0;
    var chunk := CeilDiv(n, T);
    var tid := 0;
    while tid < T
      invariant tid <= T
      invariant total == |MatchesIn(p, t, 0, Min(n - m + 1, ChunkStart(chunk, tid)))|
    {
      ChunkStartIs(chunk, tid);
      var local := FixedChunkWorker(p, t, B, tid * chunk, chunk);
      AlignmentsAdd(p, t, ChunkStart(chunk, tid), chunk);
      total := total + local;
      tid := tid + 1;
    }
    AlignmentsDone(p, t, T);
  }

  /** The worker of the chunk at `lo` with the stretched window: the matches that start in its chunk. */
  method FixedChunkWorker(p: Bytes, t: Bytes, B: seq<Word>, lo: nat, c: nat) returns (local: nat)
    requires MaskTable(p, B) && 1 <= |p|
    ensures local == |MatchesIn(p, t, lo, Min(lo + c + |p| - 1, |t|) - |p| + 1)|
  {
    var n, m := |t|, |p|;
    var start := if lo - (m - 1) > 0 then lo - (m - 1) else 0;
    var end := Min(lo + c + m - 1, n);
    local := Worker(p, t, B, start, end, lo);
  }
}
