/**
 * `src/imp/HybridPicker.cpp`: picks one of the three matchers by name, or
 * by a decision tree over the pattern's length, base entropy and GC
 * content, and runs it over the sequence of a FASTA file. The file is
 * given as its lines; `log2` is supplied through `plog2p`.
 */
module HybridPicker {
  import opened Text
  import opened Occurrences
  import opened Rules
  import BioUtils
  import FastaReader
  import KmpMatcher
  import BmhMatcher
  import ShiftOrMatcher

  datatype Matcher = Bmh | Kmp | ShiftOr

  datatype Option<T> = None | Some(value: T)

  /** A value, or the message of the `invalid_argument` that was thrown. */
  datatype Result<T> = Success(value: T) | Failure(error: Bytes)

  /** The name under which each matcher is requested. */
  function Name(m: Matcher): Bytes
  {
    match m
    case Bmh => "bmh"
    case Kmp => "kmp"
    case ShiftOr => "bithiftor"
  }

  /** `getAvailableAlgorithms`: one name per matcher, each exactly once. */
  function GetAvailableAlgorithms(): (r: seq<Bytes>)
    ensures |r| == 3
    ensures forall m :: Name(m) in r
    ensures forall i, j :: 0 <= i < j < |r| ==> r[i] != r[j]
  {
    [Name(Bmh), Name(Kmp), Name(ShiftOr)]
  }

  /** `createMatcher`: the matcher a name stands for, or null for any other name. */
  function CreateMatcher(name: Bytes): (r: Option<Matcher>)
    ensures r.Some? <==> name in GetAvailableAlgorithms()
    ensures r.Some? ==> Name(r.value) == name
  {
    if name == "bmh" then Some(Bmh)
    else if name == "kmp" then Some(Kmp)
    else if name == "bithiftor" then Some(ShiftOr)
    else None
  }

  /** Every matcher is created from its own name. */
  lemma CreateMatcherName(m: Matcher)
    ensures CreateMatcher(Name(m)) == Some(m)
  {
  }

  function UnknownAlgorithm(name: Bytes): Bytes
  {
    "Unknown algorithm: " + name + ". Available: bmh, kmp, bithiftor"
  }

  /**
   * The check `pickAndSearch`, `pickAndSearchParallel` and
   * `searchWithReverseComplementHybrid` make before any search: the
   * matcher, or the error for an unknown name.
   */
  function Pick(name: Bytes): (r: Result<Matcher>)
    ensures r.Success? <==> name in GetAvailableAlgorithms()
    ensures r.Success? ==> Name(r.value) == name
    ensures r.Failure? ==> r.error == UnknownAlgorithm(name)
  {
    match CreateMatcher(name)
    case Some(m) => Success(m)
    case None => Failure(UnknownAlgorithm(name))
  }

  /**
   * What each matcher's `search` counts: every occurrence, overlapping ones
   * included; nothing for an empty pattern, and nothing from Shift-Or for a
   * pattern longer than its 64-bit register.
   */
  function MatchCount(m: Matcher, p: Bytes, t: Bytes): nat
  {
    if |p| == 0 || (m == ShiftOr && |p| > 64) then 0 else |Occ(p, t)|
  }

  /**
   * `pickAndSearch`: reads the sequence of the file and runs the named
   * matcher's `search` on it, or fails before reading for an unknown name.
   */
  method PickAndSearch(name: Bytes, pattern: Bytes, lines: seq<Bytes>) returns (r: Result<nat>)
    ensures r.Failure? <==> name !in GetAvailableAlgorithms()
    ensures r.Failure? ==> r.error == UnknownAlgorithm(name)
    ensures r.Success? ==> r.value == MatchCount(Pick(name).value, pattern, FastaReader.FastaSeq(lines))
  {
    var matcher := CreateMatcher(name);
    if matcher.None? {
      return Failure(UnknownAlgorithm(name));
    }
    var dna := FastaReader.ReadSequence(lines);
    match matcher.value
    case Bmh =>
      var positions := BmhMatcher.Search(pattern, dna);
      r := Success(|positions|);
    case Kmp =>
      var positions := KmpMatcher.Search(pattern, dna);
      r := Success(|positions|);
    case ShiftOr =>
      var count := ShiftOrMatcher.Search(pattern, dna);
      r := Success(count);
  }

  /** The decision tree of `recommendAlgorithm`, as a chain of rules; repetitiveness is `2 - entropy`. */
  function RecommendRules(length: nat, entropy: real, gc: real): seq<Rule<Bytes>>
  {
    var repetitiveness := 2.0 - entropy;
    [ Rule(length <= 64, "bithiftor"),
      Rule(repetitiveness >= 1.5, "kmp"),
      Rule(length > 1000 && entropy >= 1.2, "bmh"),
      Rule(gc >= 0.65 && length <= 500, "bmh"),
      Rule(length > 2000, "kmp"),
      Rule(repetitiveness >= 1.0, "kmp") ]
  }

  /**
   * `recommendAlgorithm` on the pattern's length, entropy and GC content:
   * always an available name, and Shift-Or exactly for patterns of at most 64.
   */
  function Recommend(length: nat, entropy: real, gc: real): (r: Bytes)
    ensures r in GetAvailableAlgorithms()
    ensures r == "bithiftor" <==> length <= 64
  {
    var repetitiveness := 2.0 - entropy;
    if length <= 64 then "bithiftor"
    else if repetitiveness >= 1.5 then "kmp"
    else if length > 1000 && entropy >= 1.2 then "bmh"
    else if gc >= 0.65 && length <= 500 then "bmh"
    else if length > 2000 then "kmp"
    else if repetitiveness >= 1.0 then "kmp"
    else "bmh"
  }

  /** The if-chain decides as its first applicable rule does. */
  lemma RecommendFirstMatch(length: nat, entropy: real, gc: real)
    ensures Recommend(length, entropy, gc) == FirstMatch(RecommendRules(length, entropy, gc), "bmh")
  {
    var rules := RecommendRules(length, entropy, gc);
    var i := 0;
    while i < |rules| && !rules[i].guard
      invariant 0 <= i <= |rules|
      invariant forall j :: 0 <= j < i ==> !rules[j].guard
    {
      i := i + 1;
    }
    assert i < |rules| ==> FirstMatch(rules, "bmh") == rules[i].pick;
    assert i == |rules| ==> FirstMatch(rules, "bmh") == "bmh";
    assert |rules| == 6;
    if i == 0 { assert Recommend(length, entropy, gc) == rules[0].pick; }
    else if i == 1 { assert Recommend(length, entropy, gc) == rules[1].pick; }
    else if i == 2 { assert Recommend(length, entropy, gc) == rules[2].pick; }
    else if i == 3 { assert Recommend(length, entropy, gc) == rules[3].pick; }
    else {
      assert !rules[0].guard && !rules[1].guard && !rules[2].guard && !rules[3].guard;
      if i == 5 {
        assert !rules[4].guard;
      } else if i == 6 {
        assert !rules[4].guard && !rules[5].guard;
      }
    }
  }

  /**
   * Past 64, low entropy (below 0.5) always gives KMP, and between 0.5 and
   * 1 it gives KMP unless GC content or length select BMH first.
   */
  lemma RecommendRepetitive(length: nat, entropy: real, gc: real)
    requires length > 64
    ensures entropy <= 0.5 ==> Recommend(length, entropy, gc) == "kmp"
    ensures entropy <= 1.0 && !(gc >= 0.65 && length <= 500) ==> Recommend(length, entropy, gc) == "kmp"
    ensures entropy > 1.0 && length <= 2000 ==> Recommend(length, entropy, gc) == "bmh"
  {
  }

  /** `recommendAlgorithm`: computes entropy and GC content, then decides. */
  method RecommendAlgorithm(pattern: Bytes, plog2p: real -> real) returns (r: Bytes)
    ensures r == Recommend(|pattern|, BioUtils.Entropy(pattern, plog2p), BioUtils.GCRatio(pattern))
    ensures r in GetAvailableAlgorithms()
  {
    var entropy := BioUtils.CalculateShannonEntropy(pattern, plog2p);
    var gc := BioUtils.CalculateGCContent(pattern);
    r := Recommend(|pattern|, entropy, gc);
  }

  /**
   * `autoPickAndSearch` never meets the unknown-name error, and the count it
   * returns is that of every occurrence, whichever matcher was picked.
   */
  method AutoPickAndSearch(pattern: Bytes, lines: seq<Bytes>, plog2p: real -> real) returns (r: Result<nat>)
    ensures r == Success(if |pattern| == 0 then 0 else |Occ(pattern, FastaReader.FastaSeq(lines))|)
  {
    var best := RecommendAlgorithm(pattern, plog2p);
    r := PickAndSearch(best, pattern, lines);
  }

  /** `autoPickAndSearchParallel` never meets the unknown-name error. */
  method AutoPickAndSearchParallel(pattern: Bytes, plog2p: real -> real) returns (r: Result<Matcher>)
    ensures r.Success? && Name(r.value) == Recommend(|pattern|, BioUtils.Entropy(pattern, plog2p), BioUtils.GCRatio(pattern))
  {
    var best := RecommendAlgorithm(pattern, plog2p);
    r := Pick(best);
  }
}
