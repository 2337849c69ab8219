/**
 * `openmp/test/controller.py`: per pattern, compute its features, choose a
 * matcher with the same rule chain as `sample/heuristics.py`, and run the
 * chosen executable (the subprocess call is not part of this model).
 */
module Controller {
  import opened Text
  import opened PyStrings
  import Heuristics

  /** The `[length, gc_content, entropy]` triple. */
  datatype Features = Features(length: nat, gcContent: real, entropy: real)

  /** `sequence.count(base)`. */
  function Count(sequence: string, base: char): (r: nat)
    ensures r <= |sequence|
  {
    CountWhere(sequence, (c: char) => c == base)
  }

  /**
   * `f * log2(f)` for one base with `f = count / len` (`plog2p` supplies
   * it), 0 for an absent base; never positive when `plog2p` is not
   * positive on `(0, 1]`.
   */
  function BaseTerm(sequence: string, base: char, plog2p: real -> real): (r: real)
    ensures (forall x :: 0.0 < x <= 1.0 ==> plog2p(x) <= 0.0) ==> r <= 0.0
  {
    var count := Count(sequence, base);
    if count > 0 then
      var f := count as real / |sequence| as real;
      assert f <= 1.0 by {
        assert f * |sequence| as real == count as real;
        assert (f - 1.0) * |sequence| as real <= 0.0;
      }
      plog2p(f)
    else 0.0
  }

  /**
   * `compute_features`: `[0, 0.0, 0.0]` for an empty sequence, otherwise
   * its length, its GC content and the entropy of A/C/G/T frequencies
   * (`plog2p` supplies `f * log2(f)`).
   */
  function ComputeFeatures(sequence: string, plog2p: real -> real): (f: Features)
    ensures |sequence| == 0 ==> f == Features(0, 0.0, 0.0)
    ensures f.length == |sequence| && f.gcContent == GcContent(sequence)
    ensures 0.0 <= f.gcContent <= 1.0
    ensures (forall x :: 0.0 < x <= 1.0 ==> plog2p(x) <= 0.0) ==> f.entropy >= 0.0
  {
    if |sequence| == 0 then Features(0, 0.0, 0.0)
    else
      var entropy := -(BaseTerm(sequence, 'A', plog2p) + BaseTerm(sequence, 'C', plog2p)
                       + BaseTerm(sequence, 'G', plog2p) + BaseTerm(sequence, 'T', plog2p));
      Features(|sequence|, GcContent(sequence), entropy)
  }

  /** `choose_algorithm` of the controller, a copy of the sampler's rule chain. */
  function ChooseAlgorithm(length: int, gcContent: real, entropy: real): (r: string)
    ensures r == "BP" || r == "KMP" || r == "BMH"
    ensures r == "BP" <==> length <= 64
  {
    if length <= 64 then "BP"
    else if length <= 256 then (if entropy <= 1.1 then "KMP" else "BMH")
    else if length >= 512 then (if entropy >= 1.1 then "BMH" else "KMP")
    else if gcContent <= 0.2 || gcContent >= 0.8 then "KMP"
    else "BMH"
  }

  /** The controller and the sampler choose alike on every input. */
  lemma SameAsHeuristics(length: int, gcContent: real, entropy: real)
    ensures ChooseAlgorithm(length, gcContent, entropy) == Heuristics.ChooseAlgorithm(length, gcContent, entropy)
  {
  }

  /** At entropy exactly 1.1 a medium pattern goes to KMP but a long one to BMH. */
  lemma EntropyBoundary(length: int, gcContent: real)
    ensures 65 <= length <= 256 ==> ChooseAlgorithm(length, gcContent, 1.1) == "KMP"
    ensures length >= 512 ==> ChooseAlgorithm(length, gcContent, 1.1) == "BMH"
  {
  }

  /** The choice for one line of the patterns file: its features, then the rule chain. */
  function ChooseFor(sequence: string, plog2p: real -> real): (r: string)
    ensures r == "BP" <==> |sequence| <= 64
  {
    var f := ComputeFeatures(sequence, plog2p);
    ChooseAlgorithm(f.length, f.gcContent, f.entropy)
  }
}
