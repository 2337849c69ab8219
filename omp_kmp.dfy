/**
 * `openmp/KMP.cpp`: KMP counting, serial and over `T` OpenMP workers. The
 * text is cut into `T` chunks of `n / T` bytes (the last one takes the
 * rest); every worker but the first starts `m - 1` bytes early, so the
 * windows overlap by exactly enough for every occurrence to lie wholly
 * inside exactly one window. The parallel region is modelled as a loop
 * over the worker ids that adds up their counts.
 */
module OmpKmp {
  import opened Text
  import opened Occurrences
  import opened Borders
  import opened Chunks
  import opened KmpMatcher

  /**
   * The serial count. The pattern must be non-empty: with `m == 0` the
   * first full match would read `lps[-1]`.
   */
  method SearchSerial(t: Bytes, p: Bytes) returns (count: nat)
    requires |p| >= 1
    ensures count == |Occ(p, t)|
  {
    var n, m := |t|, |p|;
    var lps := ComputeLps(p);
    count := 0;
    ghost var matches: seq<int> := [];
    var i, j := 0, 0;
    ScanStart(p, t, 0, n);
    while i < n
      invariant Scanned(p, t, 0, n, i, j, matches)
      invariant count == |matches|
      decreases n - i, j
    {
      if p[j] == t[i] {
        ReadNext(p, t, 0, n, i, j, matches);
        i := i + 1;
        j := j + 1;
      }
      var found;
      i, j, found, matches := Settle(p, t, lps, 0, n, i, j, matches);
      if found {
        count := count + 1;
      }
    }
    CompletedAll(p, t, 0, n - m + 1, i);
  }

  /** One worker: the occurrences lying wholly inside the window `t[ws..we]`. */
  method Worker(p: Bytes, t: Bytes, lps: seq<int>, ws: nat, we: nat) returns (local: nat)
    requires LpsTable(p, lps) && 1 <= |p| && ws <= we <= |t|
    ensures local == |Completed(p, t, ws, we - |p| + 1, we)|
  {
    var m := |p|;
    local := 0;
    ghost var matches: seq<int> := [];
    var i, j := ws, 0;
    ScanStart(p, t, ws, we);
    while i < we
      invariant Scanned(p, t, ws, we, i, j, matches)
      invariant local == |matches|
      decreases we - i, j
    {
      if p[j] == t[i] {
        ReadNext(p, t, ws, we, i, j, matches);
        i := i + 1;
        j := j + 1;
      }
      var found;
      i, j, found, matches := Settle(p, t, lps, ws, we, i, j, matches);
      if found {
        local := local + 1;
      }
    }
  }

  /** Where worker `tid` of `T` starts reading: `m - 1` bytes before its chunk, clipped at 0; worker 0 at 0. */
  function WindowStart(n: nat, m: nat, T: nat, tid: nat): (r: nat)
    requires T >= 1 && m >= 1
    ensures r <= tid * (n / T)
    ensures tid > 0 && tid * (n / T) >= m - 1 ==> r == tid * (n / T) - (m - 1)
  {
    var start := tid * (n / T);
    MulMono(0, tid, n / T);
    if tid > 0 && start - (m - 1) >= 0 then start - (m - 1) else if tid > 0 then 0 else start
  }

  /** Where worker `tid` of `T` stops reading: the end of its chunk, or `n` for the last worker. */
  function WindowEnd(n: nat, T: nat, tid: nat): (r: nat)
    requires T >= 1
    ensures tid == T - 1 ==> r == n
    ensures tid < T - 1 ==> r == (tid + 1) * (n / T)
  {
    if tid == T - 1 then n else tid * (n / T) + n / T
  }

  /**
   * Each window lies in the text, and the alignments the windows hold whole
   * tile `[0, n - m]`: worker `tid > 0` starts with the first alignment
   * worker `tid - 1` cannot hold, or at 0 when worker `tid - 1` holds none.
   */
  lemma WindowsTile(n: nat, m: nat, T: nat, tid: nat)
    requires T >= 1 && m >= 1 && tid < T
    ensures WindowStart(n, m, T, tid) <= WindowEnd(n, T, tid) <= n
    ensures tid > 0 && WindowEnd(n, T, tid - 1) - m + 1 >= 0 ==> WindowStart(n, m, T, tid) == WindowEnd(n, T, tid - 1) - m + 1
    ensures tid > 0 && WindowEnd(n, T, tid - 1) - m + 1 < 0 ==> WindowStart(n, m, T, tid) == 0
    ensures tid > 0 ==> WindowEnd(n, T, tid - 1) <= WindowEnd(n, T, tid)
  {
    ChunkEnds(n, T, tid);
    if tid > 0 {
      ChunkEnds(n, T, tid - 1);
    }
  }

  /** Chunk `tid` ends `n / T` after it starts, and no chunk ends past `n`. */
  lemma ChunkEnds(n: nat, T: nat, tid: nat)
    requires T >= 1 && tid < T
    ensures (tid + 1) * (n / T) == tid * (n / T) + n / T
    ensures (tid + 1) * (n / T) <= n
  {
    var c := n / T;
    FloorCovered(n, T);
    MulMono(tid + 1, T, c);
  }

  /**
   * What worker `tid` counts extends the count of the workers before it to
   * every alignment up to the last one its own window holds.
   */
  lemma WindowAdds(p: Bytes, t: Bytes, T: nat, tid: nat)
    requires 1 <= |p| && T >= 1 && tid < T
    ensures var n, m := |t|, |p|;
      var done := if tid == 0 then 0 else WindowEnd(n, T, tid - 1) - m + 1;
      var start, end := WindowStart(n, m, T, tid), WindowEnd(n, T, tid);
      |MatchesIn(p, t, 0, done)| + |Completed(p, t, start, end - m + 1, end)| == |MatchesIn(p, t, 0, end - m + 1)|
  {
    var n, m := |t|, |p|;
    var start, end := WindowStart(n, m, T, tid), WindowEnd(n, T, tid);
    WindowsTile(n, m, T, tid);
    CompletedAll(p, t, start, end - m + 1, end);
    if tid > 0 && start > 0 {
      MatchesInSplit(p, t, 0, start, end - m + 1);
    }
  }

  /** The window bounds worker `tid` computes from its id. */
  method Window(n: nat, m: nat, T: nat, tid: nat) returns (start: nat, end: nat)
    requires T >= 1 && m >= 1
    ensures start == WindowStart(n, m, T, tid) && end == WindowEnd(n, T, tid)
  {
    var chunk := n / T;
    MulMono(0, tid, chunk);
    var s: int := tid * chunk;
    end := if tid == T - 1 then n else s + chunk;
    if tid > 0 {
      s := s - (m - 1);
      if s < 0 {
        s := 0;
      }
    }
    start := s;
  }

  /**
   * The parallel count. `T` must be positive (OpenMP rejects other thread
   * counts and `n / T` needs it), and so must `m`, as for the serial count.
   * There is no ownership filter: the windows alone keep every occurrence
   * counted once.
   */
  method SearchParallel(t: Bytes, p: Bytes, T: int) returns (total: nat)
    requires |p| >= 1 && T >= 1
    ensures total == |Occ(p, t)|
  {
    var n, m := |t|, |p|;
    var lps := ComputeLps(p);
    total := 0;
    var tid := 0;
    while tid < T
      invariant tid <= T
      invariant total == |MatchesIn(p, t, 0, if tid == 0 then 0 else WindowEnd(n, T, tid - 1) - m + 1)|
    {
      var start, end := Window(n, m, T, tid);
      WindowsTile(n, m, T, tid);
      var local := Worker(p, t, lps, start, end);
      WindowAdds(p, t, T, tid);
      total := total + local;
      tid := tid + 1;
    }
    assert WindowEnd(n, T, T - 1) == n;
  }
}
