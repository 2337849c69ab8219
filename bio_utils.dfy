/**
 * `include/BioUtils.hpp`: reverse complement, GC content, Shannon entropy
 * and upper-casing of DNA strings. Doubles are modelled as exact reals;
 * the `log2` the entropy needs is a parameter.
 */
module BioUtils {
  import opened Text

  /** The base pairing used by `reverseComplement`; any other byte is kept. */
  function Complement(c: Byte): (r: Byte)
    ensures c in "ATGCatgcNn" <==> r in "ATGCatgcNn"
    ensures c !in "ATGCatgc" ==> r == c
    ensures 'A' <= c <= 'Z' <==> 'A' <= r <= 'Z'
  {
    match c
    case 'A' => 'T'
    case 'T' => 'A'
    case 'G' => 'C'
    case 'C' => 'G'
    case 'a' => 't'
    case 't' => 'a'
    case 'g' => 'c'
    case 'c' => 'g'
    case _ => c
  }

  /** Complementing twice gives the byte back. */
  lemma ComplementTwice(c: Byte)
    ensures Complement(Complement(c)) == c
  {
    if c in "ATGCatgc" {
      assert Complement(c) in "ATGCatgc";
    }
  }

  /** The reverse complement: complement of the last byte first. */
  function RevComp(s: Bytes): (r: Bytes)
    ensures |r| == |s|
    ensures forall k :: 0 <= k < |s| ==> r[k] == Complement(s[|s| - 1 - k])
    decreases |s|
  {
    if |s| == 0 then [] else [Complement(s[|s| - 1])] + RevComp(s[..|s| - 1])
  }

  /** The reverse complement is an involution. */
  lemma RevCompTwice(s: Bytes)
    ensures RevComp(RevComp(s)) == s
  {
    var r := RevComp(s);
    forall k | 0 <= k < |s|
      ensures RevComp(r)[k] == s[k]
    {
      ComplementTwice(s[k]);
    }
  }

  lemma RevCompExample()
    ensures RevComp("ATGC") == "GCAT"
  {
  }

  /** Appends the complement of each byte, walking the input backwards. */
  method ReverseComplement(dna: Bytes) returns (rc: Bytes)
    ensures rc == RevComp(dna)
  {
    rc := [];
    var i := |dna| - 1;
    while i >= 0
      invariant -1 <= i < |dna| && |rc| == |dna| - 1 - i
      invariant forall k :: 0 <= k < |rc| ==> rc[k] == Complement(dna[|dna| - 1 - k])
    {
      rc := rc + [Complement(dna[i])];
      i := i - 1;
    }
  }

  /** One of A, C, G, T in either case. */
  predicate IsBase(c: Byte)
  {
    ToUpper(c) in "ACGT"
  }

  /** G or C in either case. */
  predicate IsGC(c: Byte)
  {
    ToUpper(c) in "GC"
  }

  /** A string never holds more G/C bytes than A/C/G/T bytes. */
  lemma {:induction false} GCAtMostBases(s: Bytes)
    ensures CountWhere(s, IsGC) <= CountWhere(s, IsBase)
    decreases |s|
  {
    if s != [] {
      GCAtMostBases(s[..|s| - 1]);
    }
  }

  /**
   * GC content as `calculateGCContent` defines it: G/C bytes over A/C/G/T
   * bytes, case-insensitively; 0 when there is no A/C/G/T byte.
   */
  function GCRatio(s: Bytes): (r: real)
    ensures 0.0 <= r <= 1.0
    ensures CountWhere(s, IsBase) == 0 ==> r == 0.0
  {
    var bases := CountWhere(s, IsBase);
    GCAtMostBases(s);
    if bases == 0 then 0.0 else CountWhere(s, IsGC) as real / bases as real
  }

  /** Counting one more byte of a prefix. */
  lemma CountPrefix(s: Bytes, i: int, f: Byte -> bool)
    requires 0 <= i < |s|
    ensures CountWhere(s[..i + 1], f) == CountWhere(s[..i], f) + (if f(s[i]) then 1 else 0)
  {
    assert s[..i + 1][..i] == s[..i];
  }

  /** Counts G/C bytes and A/C/G/T bytes in one pass. */
  method CalculateGCContent(pattern: Bytes) returns (r: real)
    ensures r == GCRatio(pattern)
  {
    if |pattern| == 0 {
      return 0.0;
    }
    var gcCount, totalBases := 0, 0;
    var i := 0;
    while i < |pattern|
      invariant 0 <= i <= |pattern|
      invariant gcCount == CountWhere(pattern[..i], IsGC)
      invariant totalBases == CountWhere(pattern[..i], IsBase)
    {
      var upper := ToUpper(pattern[i]);
      CountPrefix(pattern, i, IsGC);
      CountPrefix(pattern, i, IsBase);
      if upper == 'G' || upper == 'C' {
        gcCount := gcCount + 1;
      }
      if upper == 'A' || upper == 'T' || upper == 'G' || upper == 'C' {
        totalBases := totalBases + 1;
      }
      i := i + 1;
    }
    assert pattern[..i] == pattern;
    if totalBases == 0 {
      return 0.0;
    }
    r := gcCount as real / totalBases as real;
  }

  /** The number of bytes of `s` that are the base with upper-case code `c`. */
  function BaseCount(s: Bytes, c: int): nat
  {
    CountWhere(s, (x: Byte) => IsBase(x) && Code(ToUpper(x)) == c)
  }

  lemma BaseCountPrefix(s: Bytes, i: int, c: int)
    requires 0 <= i < |s|
    ensures BaseCount(s[..i + 1], c) == BaseCount(s[..i], c) + (if IsBase(s[i]) && Code(ToUpper(s[i])) == c then 1 else 0)
  {
    CountPrefix(s, i, (x: Byte) => IsBase(x) && Code(ToUpper(x)) == c);
  }

  /**
   * `- sum p * log2 p` over the codes below `k` with a non-zero count,
   * `p` being count / total and `plog2p` supplying `p * log2(p)`.
   */
  function EntropyBelow(s: Bytes, total: nat, plog2p: real -> real, k: int): real
    requires total > 0
    decreases k
  {
    if k <= 0 then 0.0
    else
      var n := BaseCount(s, k - 1);
      EntropyBelow(s, total, plog2p, k - 1) - (if n > 0 then plog2p(n as real / total as real) else 0.0)
  }

  /** Only the four bases contribute to the entropy sum. */
  lemma {:induction false} OnlyBasesCount(s: Bytes, c: int)
    requires c != 'A' as int && c != 'C' as int && c != 'G' as int && c != 'T' as int
    ensures BaseCount(s, c) == 0
    decreases |s|
  {
    if s != [] {
      OnlyBasesCount(s[..|s| - 1], c);
    }
  }

  /**
   * The value `calculateShannonEntropy` returns: 0 without any A/C/G/T
   * byte, otherwise the entropy of the distribution of the four bases.
   */
  function Entropy(s: Bytes, plog2p: real -> real): (e: real)
    ensures CountWhere(s, IsBase) == 0 ==> e == 0.0
  {
    var total := CountWhere(s, IsBase);
    if total == 0 then 0.0 else EntropyBelow(s, total, plog2p, 256)
  }

  /**
   * The counting pass of `calculateShannonEntropy`: `counts[c]` is the
   * number of bytes whose upper case is the base with code `c`, and
   * `total` the number of A/C/G/T bytes.
   */
  method CountBases(pattern: Bytes) returns (counts: seq<nat>, total: nat)
    ensures |counts| == 256 && total == CountWhere(pattern, IsBase)
    ensures forall c :: 0 <= c < 256 ==> counts[c] == BaseCount(pattern, c)
    ensures forall c :: 0 <= c < 256 && c !in {'A' as int, 'C' as int, 'G' as int, 'T' as int} ==> counts[c] == 0
  {
    var a := new nat[256](_ => 0);
    total := 0;
    var i := 0;
    while i < |pattern|
      invariant 0 <= i <= |pattern|
      invariant total == CountWhere(pattern[..i], IsBase)
      invariant forall c :: 0 <= c < 256 ==> a[c] == BaseCount(pattern[..i], c)
    {
      var upper := ToUpper(pattern[i]);
      CountPrefix(pattern, i, IsBase);
      forall c | 0 <= c < 256
        ensures BaseCount(pattern[..i + 1], c) == BaseCount(pattern[..i], c) + (if IsBase(pattern[i]) && Code(upper) == c then 1 else 0)
      {
        BaseCountPrefix(pattern, i, c);
      }
      if upper == 'A' || upper == 'T' || upper == 'G' || upper == 'C' {
        a[Code(upper)] := a[Code(upper)] + 1;
        total := total + 1;
      }
      i := i + 1;
    }
    assert pattern[..i] == pattern;
    counts := a[..];
    forall c | 0 <= c < 256 && c !in {'A' as int, 'C' as int, 'G' as int, 'T' as int}
      ensures counts[c] == 0
    {
      OnlyBasesCount(pattern, c);
    }
  }

  /**
   * `calculateShannonEntropy`: 0 for an input with no A/C/G/T byte (the
   * empty input included); otherwise the entropy of the base distribution.
   */
  method CalculateShannonEntropy(pattern: Bytes, plog2p: real -> real) returns (e: real)
    ensures CountWhere(pattern, IsBase) == 0 ==> e == 0.0
    ensures e == Entropy(pattern, plog2p)
  {
    if |pattern| == 0 {
      return 0.0;
    }
    var counts, total := CountBases(pattern);
    if total == 0 {
      return 0.0;
    }
    e := 0.0;
    var k := 0;
    while k < 256
      invariant 0 <= k <= 256
      invariant e == EntropyBelow(pattern, total, plog2p, k)
    {
      if counts[k] > 0 {
        var p := counts[k] as real / total as real;
        e := e - plog2p(p);
      }
      k := k + 1;
    }
  }

  /** Upper-cases every byte. */
  function UpperAll(s: Bytes): (r: Bytes)
    ensures |r| == |s|
  {
    seq(|s|, k requires 0 <= k < |s| => ToUpper(s[k]))
  }

  /** Upper-casing is idempotent. */
  lemma UpperAllTwice(s: Bytes)
    ensures UpperAll(UpperAll(s)) == UpperAll(s)
  {
    var u := UpperAll(s);
    forall k | 0 <= k < |s|
      ensures UpperAll(u)[k] == u[k]
    {
      assert ToUpper(ToUpper(s[k])) == ToUpper(s[k]);
    }
  }

  /** `toUpperCaseDNA`: a copy of the input, upper-cased in place. */
  method ToUpperCaseDna(dna: Bytes) returns (result: Bytes)
    ensures |result| == |dna|
    ensures forall k :: 0 <= k < |dna| ==> result[k] == ToUpper(dna[k])
    ensures result == UpperAll(dna)
  {
    var a := new Byte[|dna|](k requires 0 <= k < |dna| => dna[k]);
    var k := 0;
    while k < a.Length
      invariant 0 <= k <= a.Length
      invariant forall q :: 0 <= q < k ==> a[q] == ToUpper(dna[q])
      invariant forall q :: k <= q < a.Length ==> a[q] == dna[q]
    {
      a[k] := ToUpper(a[k]);
      k := k + 1;
    }
    result := a[..];
  }
}
