/**
 * `dna_matcher.py`: the Python-side hybrid selector. It measures the
 * pattern (GC content and `is_highly_repetitive`) and hands text and
 * pattern to one of the three matchers of `dna_matchers.cpp`, reached
 * through `ctypes` with the strings encoded to bytes.
 */
module DnaMatcherPy {
  import opened Text
  import opened Occurrences
  import opened PatternShape
  import opened PyStrings
  import KmpMatcher
  import DnaMatchers

  /** The smaller of two integers. */
  function Min(a: int, b: int): (r: int)
    ensures r <= a && r <= b && (r == a || r == b)
  {
    if a < b then a else b
  }

  /**
   * What `is_highly_repetitive` answers: a pattern longer than 10 whose
   * longest run of one repeated character exceeds a third of its length,
   * or that has a period `q` with `2 <= q < min(20, len // 2)`.
   */
  predicate HighlyRepetitive(s: string)
  {
    |s| > 10 &&
    (3 * LongestRun(s) > |s| || exists q :: 2 <= q < Min(20, |s| / 2) && HasPeriod(s, q))
  }

  /**
   * `is_highly_repetitive`: the run counters `max_repeat` and
   * `current_repeat`, then the trial periods with an early `break`.
   * `max_repeat > len / 3` is a float comparison, exact here as `3 * max_repeat > len`.
   */
  method IsHighlyRepetitive(pattern: string) returns (r: bool)
    ensures r == HighlyRepetitive(pattern)
  {
    var n := |pattern|;
    if n <= 10 {
      return false;
    }
    var maxRepeat := MaxRepeat(pattern);
    if 3 * maxRepeat > n {
      return true;
    }
    var period := 2;
    var bound := Min(20, n / 2);
    while period < bound
      invariant 2 <= period
      invariant forall q :: 2 <= q < period ==> !HasPeriod(pattern, q)
    {
      var isPeriodic := PeriodCheck(pattern, period);
      if isPeriodic {
        return true;
      }
      period := period + 1;
    }
    return false;
  }

  /** The first loop of `is_highly_repetitive`: the longest run of one repeated character. */
  method MaxRepeat(pattern: string) returns (maxRepeat: int)
    requires |pattern| >= 1
    ensures maxRepeat == LongestRun(pattern)
  {
    maxRepeat := 1;
    var currentRepeat := 1;
    var i := 1;
    while i < |pattern|
      invariant 1 <= i <= |pattern|
      invariant currentRepeat == RunEndingAt(pattern, i - 1)
      invariant maxRepeat == LongestRunUpTo(pattern, i)
    {
      if pattern[i] == pattern[i - 1] {
        currentRepeat := currentRepeat + 1;
        maxRepeat := if maxRepeat < currentRepeat then currentRepeat else maxRepeat;
      } else {
        currentRepeat := 1;
      }
      i := i + 1;
    }
  }

  /** The inner loop of the period trial: does `pattern[i] == pattern[i % period]` hold for every `i >= period`? */
  method PeriodCheck(pattern: string, period: int) returns (isPeriodic: bool)
    requires period >= 1
    ensures isPeriodic == HasPeriod(pattern, period)
  {
    isPeriodic := true;
    var k := period;
    while k < |pattern|
      invariant period <= k
      invariant forall j :: period <= j < k && j < |pattern| ==> pattern[j] == pattern[j % period]
    {
      if pattern[k] != pattern[k % period] {
        isPeriodic := false;
        break;
      }
      k := k + 1;
    }
  }

  /**
   * The meaning of the run criterion: a pattern longer than 10 with a
   * block of one repeated character longer than a third of it is highly
   * repetitive; one that is highly repetitive without a short period has
   * such a block.
   */
  lemma RunCriterion(s: string)
    ensures |s| > 10 && (exists a, b :: Uniform(s, a, b) && 3 * (b - a) > |s|) ==> HighlyRepetitive(s)
    ensures HighlyRepetitive(s) && !(exists q :: 2 <= q < Min(20, |s| / 2) && HasPeriod(s, q)) ==>
              exists a, b :: Uniform(s, a, b) && 3 * (b - a) > |s|
  {
    LongestRunIsLongest(s);
  }

  /** A dinucleotide repeat of length 12 is highly repetitive, through its period 2. */
  lemma DinucleotideRepeat()
    ensures HighlyRepetitive("ACACACACACAC")
  {
    var s := "ACACACACACAC";
    assert HasPeriod(s, 2);
  }

  /** The matcher `hybrid_search_python` hands a non-empty pattern to. */
  datatype Matcher = BitParallel | Kmp | BoyerMoore

  /**
   * The selection: bit-parallel for a pattern of at most 64 characters
   * that is not repetitive; otherwise KMP when repetitive or more than 60%
   * G/C; otherwise Boyer–Moore.
   */
  function Select(pattern: string): (r: Matcher)
    requires |pattern| > 0
    ensures r == BitParallel <==> |pattern| <= 64 && !HighlyRepetitive(pattern)
    ensures r == Kmp <==> (|pattern| > 64 || HighlyRepetitive(pattern)) && (HighlyRepetitive(pattern) || 5 * GcCount(pattern) > 3 * |pattern|)
  {
    GcAboveThreeFifths(pattern);
    var repetitive := HighlyRepetitive(pattern);
    if |pattern| <= 64 && !repetitive then BitParallel
    else if repetitive || GcContent(pattern) > 0.6 then Kmp
    else BoyerMoore
  }

  /**
   * The bit-parallel matcher is only chosen where it accepts the pattern
   * (at most 64 characters), and a highly repetitive pattern always goes
   * to KMP.
   */
  lemma SelectFitsMatcher(pattern: string)
    requires |pattern| > 0
    ensures Select(pattern) == BitParallel ==> |pattern| <= 64
    ensures HighlyRepetitive(pattern) ==> Select(pattern) == Kmp
  {
  }

  /**
   * `hybrid_search_python`: nothing for an empty pattern, otherwise the
   * result of the selected matcher of `dna_matchers.cpp` as written: every
   * occurrence from KMP, the `BmScan` offsets from Boyer–Moore, and every
   * offset from bit-parallel on a text without NUL bytes.
   */
  method HybridSearchPython(text: Bytes, pattern: Bytes) returns (matches: seq<int>)
    ensures |pattern| == 0 ==> matches == []
    ensures |pattern| > 0 && Select(pattern) == Kmp ==> matches == Occ(pattern, text)
    ensures |pattern| > 0 && Select(pattern) == BoyerMoore ==> matches == DnaMatchers.BmScan(pattern, text, 0)
    ensures |pattern| > 0 && Select(pattern) == BitParallel && '\0' !in text ==>
              matches == DnaMatchers.EveryOffset(|text|, |pattern|)
  {
    var length := |pattern|;
    if length == 0 {
      return [];
    }
    var gcContent := GcContent(pattern);
    var repetitive := IsHighlyRepetitive(pattern);
    if length <= 64 && !repetitive {
      matches := DnaMatchers.BitParallelSearch(text, pattern);
    } else if repetitive || gcContent > 0.6 {
      matches := KmpMatcher.SearchAll(pattern, text);
    } else {
      matches := DnaMatchers.BoyerMooreSearch(text, pattern);
    }
  }
}
