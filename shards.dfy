/**
 * How the parallel searches split the alignments of a text among `T`
 * workers: worker `tid` owns `[tid * c, min(n, (tid + 1) * c))` with
 * `c = ceil(n / T)`, and the per-worker counts are added up.
 */
module Shards {
  import opened Text
  import opened Occurrences
  import opened Chunks

  function WorkerStart(n: nat, T: nat, tid: nat): nat
    requires T > 0
  {
    tid * CeilDiv(n, T)
  }

  function WorkerEnd(n: nat, T: nat, tid: nat): nat
    requires T > 0
  {
    Min(n, (tid + 1) * CeilDiv(n, T))
  }

  /**
   * The worker ranges partition `[0, n)`: every position belongs to the
   * range of worker `x / c`, which exists, and to no other.
   */
  lemma WorkersPartition(n: nat, T: nat, x: nat)
    requires T > 0 && x < n
    ensures x / CeilDiv(n, T) < T
    ensures WorkerStart(n, T, x / CeilDiv(n, T)) <= x < WorkerEnd(n, T, x / CeilDiv(n, T))
    ensures forall tid: nat :: WorkerStart(n, T, tid) <= x < WorkerEnd(n, T, tid) ==> tid == x / CeilDiv(n, T)
  {
    var c := CeilDiv(n, T);
    var w := x / c;
    DivBounds(x, c);
    if w >= T {
      MulMono(T, w, c);
    }
    assert (w + 1) * c == w * c + c;
    forall tid: nat | WorkerStart(n, T, tid) <= x < WorkerEnd(n, T, tid)
      ensures tid == w
    {
      if tid < w {
        MulMono(tid + 1, w, c);
      } else if tid > w {
        MulMono(w + 1, tid, c);
      }
    }
  }

  /** The last worker's range reaches the end of the text. */
  lemma LastWorkerEnds(n: nat, T: nat)
    requires T > 0
    ensures WorkerEnd(n, T, T - 1) == n
  {
    var c := CeilDiv(n, T);
    assert (T - 1 + 1) * c == c * T;
  }

  /**
   * Adding worker `tid`'s count to the counts of the workers before it
   * gives the matches below the end of its range.
   */
  lemma ShardsAdd(p: Bytes, t: Bytes, n: nat, c: nat, tid: nat)
    ensures MatchesIn(p, t, 0, Min(n, (tid + 1) * c))
         == MatchesIn(p, t, 0, Min(n, tid * c)) + MatchesIn(p, t, tid * c, Min(n, (tid + 1) * c))
  {
    assert (tid + 1) * c == tid * c + c;
    if tid * c <= n {
      MatchesInSplit(p, t, 0, tid * c, Min(n, (tid + 1) * c));
    }
  }

  /** After all `T` workers, the sum covers every alignment of the text. */
  lemma ShardsDone(p: Bytes, t: Bytes, T: nat)
    requires T > 0 && 1 <= |p|
    ensures MatchesIn(p, t, 0, Min(|t|, T * CeilDiv(|t|, T))) == Occ(p, t)
  {
    var c := CeilDiv(|t|, T);
    assert T * c == c * T;
    assert Min(|t|, T * c) == |t|;
    MatchesInToEnd(p, t, 0, |t|);
  }

  /**
   * For searches whose worker with chunk `[lo, lo + c)` tries the
   * alignments that fit in `[lo, min(lo + c + m - 1, n))`: its count
   * extends the count of the workers before it.
   */
  lemma AlignmentsAdd(p: Bytes, t: Bytes, lo: nat, c: nat)
    requires 1 <= |p| <= |t|
    ensures var n, m := |t|, |p|;
      |MatchesIn(p, t, 0, Min(n - m + 1, lo + c))|
      == |MatchesIn(p, t, 0, Min(n - m + 1, lo))| + |MatchesIn(p, t, lo, Min(lo + c + m - 1, n) - m + 1)|
  {
    var n, m := |t|, |p|;
    if lo <= n - m + 1 {
      MatchesInSplit(p, t, 0, lo, Min(n - m + 1, lo + c));
    }
  }

  /** With `c = ceil(n / T)`, the alignments of all `T` workers are every alignment of the text. */
  lemma AlignmentsDone(p: Bytes, t: Bytes, T: nat)
    requires T > 0 && 1 <= |p| <= |t|
    ensures MatchesIn(p, t, 0, Min(|t| - |p| + 1, ChunkStart(CeilDiv(|t|, T), T))) == Occ(p, t)
  {
    var c := CeilDiv(|t|, T);
    ChunkStartIs(c, T);
    assert T * c == c * T;
  }
}
