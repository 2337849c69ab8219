/**
 * `openmp/BM.cpp` (and its copy in `openmp/algorithms/BM.cpp`): Horspool
 * counting, serial and split over OpenMP workers. After every window,
 * matched or not, the scan moves by the table entry of the text byte under
 * the pattern's last cell. Worker `tid` starts at `tid * c` with
 * `c = ceil(n / T)` and reads up to `m - 1` bytes past its chunk, so it
 * tries the alignments `[tid * c, min(tid * c + c - 1, n - m)]`.
 */
module OmpBm {
  import opened Text
  import opened Occurrences
  import opened BadChar
  import opened Chunks
  import opened Shards

  /**
   * The Horspool scan of the alignments that fit in the window `[ws, we)`:
   * the count is the number of matches that start in `[ws, we - m]`.
   */
  method ScanWindow(p: Bytes, t: Bytes, table: seq<int>, ws: nat, we: nat) returns (local: nat)
    requires HorspoolTable(p, table) && we <= |t|
    ensures local == |MatchesIn(p, t, ws, we - |p| + 1)|
  {
    var m := |p|;
    local := 0;
    var s := ws;
    while s + m <= we
      invariant ws <= s
      invariant local == |Before(p, t, ws, we - m + 1, s)|
      decreases we - s
    {
      var j := MismatchFromRight(p, t, s);
      if j == 0 {
        local := local + 1;
      }
      var shift := table[Code(t[s + m - 1])];
      HorspoolSkip(p, t, s);
      SkipOwned(p, t, ws, we - m + 1, s, shift);
      s := s + shift;
    }
    BeforeAll(p, t, ws, we - m + 1, s);
  }

  /** `bmhSearchSerial`: the number of occurrences; 0 for an empty pattern or a short text. */
  method BmhSearchSerial(t: Bytes, p: Bytes) returns (count: nat)
    ensures count == if |p| == 0 then 0 else |Occ(p, t)|
  {
    var n, m := |t|, |p|;
    if m == 0 || n < m {
      return 0;
    }
    var badChar := CreateBadCharTable(p);
    count := ScanWindow(p, t, badChar, 0, n);
  }

  /** The first alignment worker `tid` of `T` tries. */
  function FirstAlignment(n: nat, T: nat, tid: nat): nat
    requires T > 0
  {
    tid * CeilDiv(n, T)
  }

  /** One past the last alignment worker `tid` of `T` tries: its window ends at `min(start + c + m - 1, n)`. */
  function AlignmentLimit(n: nat, m: nat, T: nat, tid: nat): int
    requires T > 0
  {
    Min(tid * CeilDiv(n, T) + CeilDiv(n, T) + m - 1, n) - m + 1
  }

  /**
   * The workers' alignment ranges partition `[0, n - m]`: alignment `x`
   * lies in the range of worker `x / c`, which exists, and of no other.
   */
  lemma AlignmentsPartition(n: nat, m: nat, T: nat, x: nat)
    requires T > 0 && 1 <= m && x + m <= n
    ensures x / CeilDiv(n, T) < T
    ensures FirstAlignment(n, T, x / CeilDiv(n, T)) <= x < AlignmentLimit(n, m, T, x / CeilDiv(n, T))
    ensures forall tid: nat :: FirstAlignment(n, T, tid) <= x < AlignmentLimit(n, m, T, tid) ==> tid == x / CeilDiv(n, T)
  {
    var c := CeilDiv(n, T);
    WorkersPartition(n, T, x);
    forall tid: nat
      ensures (FirstAlignment(n, T, tid) <= x < AlignmentLimit(n, m, T, tid))
          <==> (WorkerStart(n, T, tid) <= x < WorkerEnd(n, T, tid))
    {
      assert (tid + 1) * c == tid * c + c;
    }
  }

  /**
   * `bmhSearchParallel` with the OpenMP region run as a loop over worker
   * ids. `T` must be positive: the chunk length divides by it and nothing
   * guards it. The sum equals the serial count.
   */
  method BmhSearchParallel(t: Bytes, p: Bytes, T: int) returns (total: nat)
    requires T >= 1
    ensures total == if |p| == 0 then 0 else |Occ(p, t)|
  {
    var n, m := |t|, |p|;
    if m == 0 || n < m {
      return 0;
    }
    var badChar := CreateBadCharTable(p);
    total := 0;
    var chunk := CeilDiv(n, T);
    var tid := 0;
    while tid < T
      invariant tid <= T
      invariant total == |MatchesIn(p, t, 0, Min(n - m + 1, ChunkStart(chunk, tid)))|
    {
      ChunkStartIs(chunk, tid);
      var start := tid * chunk;
      var end := Min(start + chunk + m - 1, n);
      var local := ScanWindow(p, t, badChar, start, end);
      AlignmentsAdd(p, t, ChunkStart(chunk, tid), chunk);
      total := total + local;
      tid := tid + 1;
    }
    AlignmentsDone(p, t, T);
  }
}
