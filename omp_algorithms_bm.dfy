/**
 * `openmp/algorithms/BM.cpp`: the benchmark variant of the OpenMP Horspool
 * search. Its `computeBadChar`, `bmhSearchSerial` and `bmhSearchParallel`
 * are those of `openmp/BM.cpp` (module `OmpBm`); what it adds is the way
 * `main` labels the `idx`-th pattern with a length, a GC content and an
 * entropy from three fixed lists.
 */
module OmpAlgorithmsBm {

  const Lengths: seq<int> := [64, 128, 256, 512, 1000, 2000]
  const GcContents: seq<real> := [0.2, 0.5, 0.8]
  const Entropies: seq<real> := [0.3, 1.1, 1.9]

  /**
   * The label lists: 54 combinations, lengths strictly ascending, GC
   * contents that are fractions and entropies within the 2 bits of a
   * four-letter alphabet.
   */
  lemma LabelLists()
    ensures |Lengths| * |GcContents| * |Entropies| == 54
    ensures forall i, j :: 0 <= i < j < |Lengths| ==> Lengths[i] < Lengths[j]
    ensures forall g :: g in GcContents ==> 0.0 < g < 1.0
    ensures forall h :: h in Entropies ==> 0.0 < h < 2.0
  {
  }

  /**
   * The three list indices for pattern `idx`: `(idx / 9) % 6`,
   * `(idx / 3) % 3`, `idx % 3`, 9 being `|GcContents| * |Entropies|`.
   */
  function MetadataIndex(idx: nat): (r: (nat, nat, nat))
    ensures r.0 < |Lengths| && r.1 < |GcContents| && r.2 < |Entropies|
  {
    ((idx / 9) % 6, (idx / 3) % 3, idx % 3)
  }

  /** The 54 first patterns get 54 different label triples: the triple is `idx` written in mixed radix. */
  lemma MetadataDigits(idx: nat)
    requires idx < |Lengths| * |GcContents| * |Entropies|
    ensures idx == 9 * MetadataIndex(idx).0 + 3 * MetadataIndex(idx).1 + MetadataIndex(idx).2
  {
    var q := idx / 3;
    assert idx == 3 * q + idx % 3;
    assert q == 3 * (q / 3) + q % 3;
    assert q / 3 == idx / 9;
  }

  /** Different patterns among the first 54 get different label triples. */
  lemma MetadataInjective(a: nat, b: nat)
    requires a < 54 && b < 54 && MetadataIndex(a) == MetadataIndex(b)
    ensures a == b
  {
    MetadataDigits(a);
    MetadataDigits(b);
  }

  /** Labels repeat with period 54. */
  lemma MetadataPeriodic(idx: nat)
    ensures MetadataIndex(idx + 54) == MetadataIndex(idx)
  {
    assert (idx + 54) / 9 == idx / 9 + 6;
    assert (idx + 54) / 3 == idx / 3 + 18;
  }

  /** The length, GC content and entropy `main` writes for pattern `idx`. */
  function Metadata(idx: nat): (r: (int, real, real))
    ensures r.0 in Lengths && r.1 in GcContents && r.2 in Entropies
  {
    var (l, g, h) := MetadataIndex(idx);
    (Lengths[l], GcContents[g], Entropies[h])
  }
}
