/**
 * `sample/heuristics.py`: the rule chain that names a matcher ("BP",
 * "KMP" or "BMH") from a pattern's length, GC content and entropy.
 */
module Heuristics {

  /**
   * `choose_algorithm`: short patterns go to bit-parallel; medium ones
   * (65..256) to KMP when the entropy is at most 1.1; long ones (512 and
   * up) to BMH when the entropy is at least 1.1; in between (257..511)
   * only the GC content counts, and an extreme one (at most 0.2 or at
   * least 0.8) means KMP.
   */
  function ChooseAlgorithm(length: int, gcContent: real, entropy: real): (r: string)
    ensures r == "BP" || r == "KMP" || r == "BMH"
    ensures r == "BP" <==> length <= 64
    ensures 65 <= length <= 256 ==> (r == "KMP" <==> entropy <= 1.1)
    ensures length >= 512 ==> (r == "BMH" <==> entropy >= 1.1)
    ensures 257 <= length <= 511 ==> (r == "KMP" <==> gcContent <= 0.2 || gcContent >= 0.8)
  {
    if length <= 64 then "BP"
    else if length <= 256 then (if entropy <= 1.1 then "KMP" else "BMH")
    else if length >= 512 then (if entropy >= 1.1 then "BMH" else "KMP")
    else if gcContent <= 0.2 || gcContent >= 0.8 then "KMP"
    else "BMH"
  }

  /**
   * More entropy never turns a BMH choice into KMP: for every length and
   * GC content the choice is monotone in the entropy.
   */
  lemma EntropyMonotone(length: int, gcContent: real, e1: real, e2: real)
    requires e1 <= e2 && ChooseAlgorithm(length, gcContent, e1) == "BMH"
    ensures ChooseAlgorithm(length, gcContent, e2) == "BMH"
  {
  }

  /**
   * Swapping the roles of G/C and A/T (GC content `g` against `1 - g`)
   * never changes the choice.
   */
  lemma GcSymmetric(length: int, gcContent: real, entropy: real)
    ensures ChooseAlgorithm(length, gcContent, entropy) == ChooseAlgorithm(length, 1.0 - gcContent, entropy)
  {
  }

  /** Only lengths 257..511 look at the GC content; only lengths above 64 outside that range look at the entropy. */
  lemma InputsThatMatter(length: int, g1: real, g2: real, e1: real, e2: real)
    ensures !(257 <= length <= 511) ==> ChooseAlgorithm(length, g1, e1) == ChooseAlgorithm(length, g2, e1)
    ensures 257 <= length <= 511 || length <= 64 ==> ChooseAlgorithm(length, g1, e1) == ChooseAlgorithm(length, g1, e2)
  {
  }
}
