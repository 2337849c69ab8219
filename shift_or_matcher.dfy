/**
 * `src/imp/BPh.cpp`: the Shift-Or matcher class. Its `search` is, symbol
 * for symbol, the sequential Shift-Or count of `src/search_parallel.cpp`,
 * and its `searchParallel` runs that same serial scan whatever thread
 * count it is given.
 */
module ShiftOrMatcher {
  import opened Text
  import opened Occurrences
  import Counts = SearchParallel

  /** The number of occurrences; 0 for an empty pattern, a short text or a pattern longer than 64. */
  method Search(p: Bytes, t: Bytes) returns (count: nat)
    ensures count == if |p| == 0 || |p| > 64 then 0 else |Occ(p, t)|
  {
    count := Counts.ShiftOrSequential(p, t);
  }

  /** The thread count is ignored: the result is that of `Search`. */
  method SearchParallel(p: Bytes, t: Bytes, numThreads: int) returns (count: nat)
    ensures count == if |p| == 0 || |p| > 64 then 0 else |Occ(p, t)|
  {
    count := Search(p, t);
  }
}
