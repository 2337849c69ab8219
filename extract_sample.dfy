/**
 * `sample/extract_sample.py`: picks snippet start positions spread over a
 * genome, keeps them apart by at least the snippet length, and describes
 * each snippet (validity, GC content). The GC content is
 * `PyStrings.GcContent`; reading the FASTA file, the random samplers and
 * the output files are not part of this model.
 */
module ExtractSample {
  import opened Text
  import opened PyStrings

  function Max(a: int, b: int): (r: int)
    ensures r >= a && r >= b && (r == a || r == b)
  {
    if a < b then b else a
  }

  function Abs(x: int): (r: int)
    ensures r >= 0 && (r == x || r == -x)
  {
    if x < 0 then -x else x
  }

  // ------------------------------------------------------------ validity

  /** `is_valid_seq`: every character is one of A, C, G, T (so the empty string is valid). */
  predicate IsValidSeq(s: string)
  {
    forall i :: 0 <= i < |s| ==> s[i] in "ACGT"
  }

  /** A or T, the bases a valid sequence holds besides G and C. */
  predicate AorT(ch: char)
  {
    ch == 'A' || ch == 'T'
  }

  /**
   * Validity is a property of each character: the empty string is valid,
   * and a concatenation is valid exactly when both parts are.
   */
  lemma ValidConcat(s: string, t: string)
    ensures IsValidSeq([])
    ensures IsValidSeq(s + t) <==> IsValidSeq(s) && IsValidSeq(t)
  {
    if IsValidSeq(s + t) {
      forall i | 0 <= i < |s| ensures s[i] in "ACGT" {
        assert (s + t)[i] == s[i];
      }
      forall i | 0 <= i < |t| ensures t[i] in "ACGT" {
        assert (s + t)[|s| + i] == t[i];
      }
    }
    if IsValidSeq(s) && IsValidSeq(t) {
      forall i | 0 <= i < |s + t| ensures (s + t)[i] in "ACGT" {
        if i >= |s| {
          assert (s + t)[i] == t[i - |s|];
        }
      }
    }
  }

  /** In a valid sequence every character is G/C or A/T, so the two counts add up to the length. */
  lemma {:induction false} ValidCounts(s: string)
    requires IsValidSeq(s)
    ensures GcCount(s) + CountWhere(s, AorT) == |s|
    decreases |s|
  {
    if s != [] {
      var s' := s[..|s| - 1];
      assert IsValidSeq(s');
      ValidCounts(s');
    }
  }

  // ------------------------------------------------------------ systematic sampling

  /**
   * Start number `i` of `systematic_positions(genome_len, L, k)` before
   * deduplication: `step // 2 + i * step` with `step = max(1, (genome_len -
   * L) // k)`, clamped to `max(0, genome_len - L)`. Python's `//` floors
   * and `k` is positive, so it is Dafny's `/` here.
   */
  function Start(genomeLen: int, L: int, k: int, i: int): (s: int)
    requires k > 0 && i >= 0
    ensures 0 <= s <= Max(0, genomeLen - L)
  {
    var step := Max(1, (genomeLen - L) / k);
    var s0 := step / 2 + i * step;
    var s1 := if s0 < 0 then 0 else s0;
    if s1 > genomeLen - L then Max(0, genomeLen - L) else s1
  }

  /** Later samples never start earlier. */
  lemma StartMonotone(genomeLen: int, L: int, k: int, i: int, j: int)
    requires k > 0 && 0 <= i <= j
    ensures Start(genomeLen, L, k, i) <= Start(genomeLen, L, k, j)
  {
    var step := Max(1, (genomeLen - L) / k);
    assert j * step == i * step + (j - i) * step;
  }

  /** Strictly increasing. */
  predicate StrictlyAscending(s: seq<int>)
  {
    forall a, b :: 0 <= a < b < |s| ==> s[a] < s[b]
  }

  /**
   * `list(dict.fromkeys(xs))` on a non-decreasing list: the first copy of
   * each value, in order, which makes the result strictly increasing with
   * the same values.
   */
  method FirstCopies(xs: seq<int>) returns (r: seq<int>)
    requires forall a, b :: 0 <= a <= b < |xs| ==> xs[a] <= xs[b]
    ensures StrictlyAscending(r) && |r| <= |xs|
    ensures forall x :: x in r <==> x in xs
    ensures |xs| > 0 ==> |r| > 0 && r[0] == xs[0]
  {
    r := [];
    var i := 0;
    while i < |xs|
      invariant 0 <= i <= |xs| && |r| <= i
      invariant StrictlyAscending(r)
      invariant forall x :: x in r <==> x in xs[..i]
      invariant i > 0 ==> |r| > 0 && r[0] == xs[0] && r[|r| - 1] == xs[i - 1]
    {
      assert xs[..i + 1] == xs[..i] + [xs[i]];
      if xs[i] !in r {
        r := r + [xs[i]];
      }
      i := i + 1;
    }
    assert xs[..i] == xs;
  }

  /**
   * `systematic_positions`: nothing for `k <= 0`; otherwise the distinct
   * starts `Start(.., i)` for `i < k`, at most `k` of them, in strictly
   * increasing order, each within `[0, max(0, genome_len - L)]`.
   */
  method SystematicPositions(genomeLen: int, L: int, k: int) returns (positions: seq<int>)
    ensures k <= 0 ==> positions == []
    ensures |positions| <= Max(0, k)
    ensures k > 0 ==> |positions| >= 1 && positions[0] == Start(genomeLen, L, k, 0)
    ensures StrictlyAscending(positions)
    ensures forall x :: x in positions ==> 0 <= x <= Max(0, genomeLen - L)
    ensures k > 0 ==> forall x :: x in positions <==> exists i :: 0 <= i < k && x == Start(genomeLen, L, k, i)
  {
    if k <= 0 {
      return [];
    }
    var step := Max(1, (genomeLen - L) / k);
    var raw: seq<int> := [];
    var offset := step / 2;
    var i := 0;
    while i < k
      invariant 0 <= i <= k && |raw| == i
      invariant forall j :: 0 <= j < i ==> raw[j] == Start(genomeLen, L, k, j)
    {
      var s := offset + i * step;
      if s < 0 {
        s := 0;
      }
      if s > genomeLen - L {
        s := Max(0, genomeLen - L);
      }
      raw := raw + [s];
      i := i + 1;
    }
    forall a, b | 0 <= a <= b < |raw| ensures raw[a] <= raw[b] {
      StartMonotone(genomeLen, L, k, a, b);
    }
    positions := FirstCopies(raw);
    forall j | 0 <= j < k ensures Start(genomeLen, L, k, j) in positions {
      assert raw[j] in raw;
    }
    forall x | x in positions ensures exists j :: 0 <= j < k && x == Start(genomeLen, L, k, j) {
      var j :| 0 <= j < |raw| && raw[j] == x;
    }
    // `sorted` leaves the strictly increasing list as it is; `[:k]` keeps all of it
    assert positions[..if |positions| < k then |positions| else k] == positions;
    positions := positions[..if |positions| < k then |positions| else k];
  }

  // ------------------------------------------------------------ non-overlap filter

  /** Every two entries of `s` are at least `L` apart. */
  predicate Spaced(s: seq<int>, L: int)
  {
    forall a, b :: 0 <= a < b < |s| ==> Abs(s[a] - s[b]) >= L
  }

  /** `all(abs(s - t) >= L for t in filtered)`. */
  predicate FarFromAll(x: int, filtered: seq<int>, L: int)
  {
    forall t :: t in filtered ==> Abs(x - t) >= L
  }

  /** `x` was kept, or a kept start lies closer than `L` to it. */
  predicate Covered(x: int, filtered: seq<int>, L: int)
  {
    x in filtered || exists y :: y in filtered && Abs(x - y) < L
  }

  /** What is covered stays covered when the kept list grows. */
  lemma CoveredStays(filtered: seq<int>, e: int, L: int)
    ensures forall x :: Covered(x, filtered, L) ==> Covered(x, filtered + [e], L)
  {
    forall x | Covered(x, filtered, L) ensures Covered(x, filtered + [e], L) {
      if x !in filtered {
        var y :| y in filtered && Abs(x - y) < L;
        assert y in filtered + [e];
      }
    }
  }

  /** Keeping `x` when it is far from every kept start, in either case leaving it covered. */
  lemma KeepOrSkip(x: int, filtered: seq<int>, L: int)
    requires Spaced(filtered, L)
    ensures FarFromAll(x, filtered, L) ==> Spaced(filtered + [x], L) && Covered(x, filtered + [x], L)
    ensures !FarFromAll(x, filtered, L) ==> Covered(x, filtered, L)
  {
    if FarFromAll(x, filtered, L) {
      var f := filtered + [x];
      forall a, b | 0 <= a < b < |f| ensures Abs(f[a] - f[b]) >= L {
        if b == |filtered| {
          assert f[a] in filtered;
          assert Abs(x - f[a]) >= L;
        }
      }
    }
  }

  /** A longer kept list covers at least what its prefix covered. */
  lemma CoveredPrefix(x: int, f: seq<int>, g: seq<int>, L: int)
    requires f <= g && Covered(x, f, L)
    ensures Covered(x, g, L)
  {
    if x !in f {
      var y :| y in f && Abs(x - y) < L;
      assert y in g;
    }
  }

  /**
   * One greedy pass over `candidates`, extending `kept`: each candidate far
   * from every kept start is kept; with `limit` reached the pass stops.
   * What was kept stays (a prefix), the list stays spaced, and unless the
   * limit was reached every candidate ends up covered.
   */
  method GreedyPass(candidates: seq<int>, kept: seq<int>, L: int, limit: int) returns (filtered: seq<int>)
    requires Spaced(kept, L) && |kept| < limit
    ensures kept <= filtered && Spaced(filtered, L) && |filtered| <= limit && |filtered| <= |kept| + |candidates|
    ensures forall x :: x in filtered ==> x in kept || x in candidates
    ensures |filtered| < limit ==> forall x :: x in candidates ==> Covered(x, filtered, L)
  {
    filtered := kept;
    var i := 0;
    while i < |candidates|
      invariant 0 <= i <= |candidates|
      invariant kept <= filtered && Spaced(filtered, L) && |filtered| < limit && |filtered| <= |kept| + i
      invariant forall x :: x in filtered ==> x in kept || x in candidates
      invariant forall j :: 0 <= j < i ==> Covered(candidates[j], filtered, L)
    {
      var s := candidates[i];
      KeepOrSkip(s, filtered, L);
      CoveredStays(filtered, s, L);
      if FarFromAll(s, filtered, L) {
        filtered := filtered + [s];
        if |filtered| >= limit {
          return;
        }
      }
      i := i + 1;
    }
    forall x | x in candidates ensures Covered(x, filtered, L) {
      var j :| 0 <= j < |candidates| && candidates[j] == x;
    }
  }

  /**
   * The greedy filter of the sampling loop (with `ALLOW_OVERLAP` off): keep
   * each start far enough from the kept ones; when fewer than `k` remain,
   * draw more from `systematic_positions(n, L, 2k)` until `k` are kept.
   * The result has at most `k` starts, pairwise at least `L` apart, each
   * a candidate or a fallback start; when it has fewer than `k`, every
   * candidate and every fallback start was kept or lies within `L` of a
   * kept one.
   */
  method NonOverlapFilter(starts: seq<int>, genomeLen: int, L: int, k: nat) returns (result: seq<int>)
    ensures |result| <= k
    ensures Spaced(result, L)
    ensures forall x :: x in result ==> x in starts || exists i :: 0 <= i < 2 * k && x == Start(genomeLen, L, 2 * k, i)
    ensures |result| < k ==> forall x :: x in starts ==> Covered(x, result, L)
    ensures |result| < k ==> forall i :: 0 <= i < 2 * k ==> Covered(Start(genomeLen, L, 2 * k, i), result, L)
  {
    // the first pass has no limit: `starts` has fewer than `|starts| + 1` entries
    var filtered := GreedyPass(starts, [], L, |starts| + 1);
    if |filtered| >= k {
      result := filtered[..k];
      assert forall x :: x in result ==> x in filtered;
      return;
    }
    var fallback := SystematicPositions(genomeLen, L, k * 2);
    assert k * 2 == 2 * k;
    var more := GreedyPass(fallback, filtered, L, k);
    forall x | x in starts ensures Covered(x, more, L) {
      CoveredPrefix(x, filtered, more, L);
    }
    if |more| < k {
      forall q | 0 <= q < 2 * k ensures Covered(Start(genomeLen, L, 2 * k, q), more, L) {
        assert Start(genomeLen, L, 2 * k, q) in fallback;
      }
    }
    result := more[..if |more| < k then |more| else k];
    assert result == more;
  }
}
