/**
 * Bad-character shifts (Boyer–Moore, Horspool) and why they are safe: a
 * shift may jump over an alignment only if, at that alignment, the pattern
 * would put a different symbol against a text symbol already read.
 */
module BadChar {
  import opened Text
  import opened Occurrences

  /** The largest index `q < j` with `p[q] == c`, or -1 when there is none. */
  function LastBefore(p: Bytes, c: Byte, j: int): (r: int)
    requires j <= |p|
    ensures r == -1 || (0 <= r < j && p[r] == c)
    ensures forall q :: r < q < j && 0 <= q ==> p[q] != c
    decreases j
  {
    if j <= 0 then -1 else if p[j - 1] == c then j - 1 else LastBefore(p, c, j - 1)
  }

  /**
   * Horspool's shift for byte `c` of the text under the pattern's last cell:
   * `m - 1 - i` for the last `i < m - 1` with `p[i] == c`, and `m` when `c`
   * does not occur in `p[..m-1]`.
   */
  function HorspoolShift(p: Bytes, c: Byte): (r: int)
    requires 1 <= |p|
    ensures 1 <= r <= |p|
    ensures r == |p| <==> forall q :: 0 <= q < |p| - 1 ==> p[q] != c
  {
    |p| - 1 - LastBefore(p, c, |p| - 1)
  }

  /** `table` holds Horspool's shift for every byte code. */
  ghost predicate HorspoolTable(p: Bytes, table: seq<int>)
  {
    1 <= |p| && |table| == 256 &&
    forall c :: 0 <= c < 256 ==> table[c] == HorspoolShift(p, c as char)
  }

  /**
   * If no pattern cell strictly between `a` and `b` holds the text byte at
   * `q`, then no alignment that puts one of those cells over `q` matches.
   */
  lemma Blocked(p: Bytes, t: Bytes, q: int, a: int, b: int)
    requires 0 <= q < |t| && -1 <= a && b <= |p|
    requires forall r :: a < r < b && 0 <= r ==> p[r] != t[q]
    ensures forall x :: q - b < x < q - a ==> !MatchAt(p, t, x)
  {
    forall x | q - b < x < q - a
      ensures !MatchAt(p, t, x)
    {
      if MatchAt(p, t, x) {
        MatchForces(p, t, x, q);
        assert false;
      }
    }
  }

  /** Horspool's shift on the byte under the last cell jumps over no match. */
  lemma HorspoolSkip(p: Bytes, t: Bytes, s: int)
    requires 1 <= |p| && 0 <= s && s + |p| <= |t|
    ensures forall x :: s < x < s + HorspoolShift(p, t[s + |p| - 1]) ==> !MatchAt(p, t, x)
  {
    var q := s + |p| - 1;
    Blocked(p, t, q, LastBefore(p, t[q], |p| - 1), |p| - 1);
  }

  /**
   * After a mismatch at pattern cell `j`, a shift that brings the last
   * occurrence of the text byte (below `j`) under it jumps over no match.
   */
  lemma MismatchSkip(p: Bytes, t: Bytes, s: int, j: int, bound: int)
    requires 0 <= j <= bound <= |p| && j < |p| && 0 <= s && s + j < |t|
    requires LastBefore(p, t[s + j], bound) < j
    ensures forall x :: s < x < s + j - LastBefore(p, t[s + j], bound) ==> !MatchAt(p, t, x)
  {
    var L := LastBefore(p, t[s + j], bound);
    Blocked(p, t, s + j, L, j);
  }

  /**
   * The Horspool table: `m` for every byte, then `m - 1 - i` for each
   * `p[i]` with `i < m - 1`, later cells overriding earlier ones.
   */
  method CreateBadCharTable(p: Bytes) returns (table: seq<int>)
    ensures |table| == 256
    ensures |p| >= 1 ==> HorspoolTable(p, table)
    ensures |p| == 0 ==> forall c :: 0 <= c < 256 ==> table[c] == 0
  {
    var m := |p|;
    var a := new int[256](_ => m);
    var i := 0;
    while i + 1 < m
      invariant 0 <= i && (m >= 1 ==> i <= m - 1) && (m == 0 ==> i == 0)
      invariant forall c :: 0 <= c < 256 ==> a[c] == m - 1 - LastBefore(p, c as char, i)
      // with m == 0 the loop does not run and every entry stays m == 0
      invariant m == 0 ==> forall c :: 0 <= c < 256 ==> a[c] == 0
    {
      a[Code(p[i])] := m - 1 - i;
      i := i + 1;
    }
    table := a[..];
  }
}
