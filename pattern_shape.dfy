/**
 * The shape measures the pattern analysers look at: runs of one repeated
 * symbol, periods, and the set of symbols used. They are generic in the
 * symbol type because the C++ analysers read bytes and the Python one reads
 * characters.
 */
module PatternShape {

  /** `s[a..b]` is one symbol repeated (an empty block counts). */
  ghost predicate Uniform<T>(s: seq<T>, a: int, b: int)
  {
    0 <= a <= b <= |s| && forall k :: a <= k < b ==> s[k] == s[a]
  }

  /** The length of the block of equal neighbours that ends at `s[i]`. */
  function RunEndingAt<T(==)>(s: seq<T>, i: int): (r: int)
    requires 0 <= i < |s|
    ensures 1 <= r <= i + 1
    ensures Uniform(s, i + 1 - r, i + 1)
    ensures i + 1 - r == 0 || s[i - r] != s[i]
    decreases i
  {
    if i == 0 || s[i] != s[i - 1] then 1 else RunEndingAt(s, i - 1) + 1
  }

  /** No block of equal neighbours ending at `s[i]` is longer than `RunEndingAt(s, i)`. */
  lemma RunEndingAtLongest<T>(s: seq<T>, i: int, a: int)
    requires 0 <= i < |s| && Uniform(s, a, i + 1)
    ensures i + 1 - a <= RunEndingAt(s, i)
  {
    var r := RunEndingAt(s, i);
  }

  /**
   * The longest block of equal neighbours in `s[..n]`, starting from 1 as
   * the analysers do (so the empty sequence gets 1 as well).
   */
  function LongestRunUpTo<T(==)>(s: seq<T>, n: int): (r: int)
    requires 0 <= n <= |s|
    ensures 1 <= r && (n >= 1 ==> r <= n)
    decreases n
  {
    if n == 0 then 1
    else
      var prev := LongestRunUpTo(s, n - 1);
      var here := RunEndingAt(s, n - 1);
      if prev < here then here else prev
  }

  /** The longest block of equal neighbours in `s` (1 for the empty sequence). */
  function LongestRun<T(==)>(s: seq<T>): int
  {
    LongestRunUpTo(s, |s|)
  }

  /** Every block of equal neighbours in `s[..n]` is at most `LongestRunUpTo(s, n)` long. */
  lemma {:induction false} LongestRunUpToBounds<T>(s: seq<T>, n: int, a: int, b: int)
    requires 0 <= n <= |s| && b <= n && Uniform(s, a, b)
    ensures b - a <= LongestRunUpTo(s, n)
    decreases n
  {
    if b < n {
      LongestRunUpToBounds(s, n - 1, a, b);
    } else if a < b {
      RunEndingAtLongest(s, n - 1, a);
    }
  }

  /** Some block of equal neighbours in a non-empty `s[..n]` is exactly `LongestRunUpTo(s, n)` long. */
  lemma {:induction false} LongestRunUpToAttained<T>(s: seq<T>, n: int) returns (a: int)
    requires 1 <= n <= |s|
    ensures Uniform(s, a, a + LongestRunUpTo(s, n)) && a + LongestRunUpTo(s, n) <= n
    decreases n
  {
    var here := RunEndingAt(s, n - 1);
    if n == 1 || LongestRunUpTo(s, n - 1) < here {
      a := n - here;
    } else {
      a := LongestRunUpToAttained(s, n - 1);
    }
  }

  /**
   * `LongestRun` is what its name says: between 1 and `max(1, |s|)`, no
   * block of equal neighbours is longer, and a non-empty `s` has one that
   * long.
   */
  lemma LongestRunIsLongest<T>(s: seq<T>)
    ensures 1 <= LongestRun(s) && (|s| >= 1 ==> LongestRun(s) <= |s|)
    ensures forall a, b :: Uniform(s, a, b) ==> b - a <= LongestRun(s)
    ensures |s| >= 1 ==> exists a, b :: Uniform(s, a, b) && b - a == LongestRun(s)
  {
    forall a, b | Uniform(s, a, b)
      ensures b - a <= LongestRun(s)
    {
      LongestRunUpToBounds(s, |s|, a, b);
    }
    if |s| >= 1 {
      var a := LongestRunUpToAttained(s, |s|);
      assert Uniform(s, a, a + LongestRun(s));
    }
  }

  /** `s` repeats with period `q`: every symbol equals the one `q` before it, i.e. `s[i] == s[i % q]`. */
  predicate HasPeriod<T(==)>(s: seq<T>, q: int)
  {
    1 <= q && forall i :: q <= i < |s| ==> s[i] == s[i % q]
  }

  /** No `q` strictly between `m / 2` and `m` divides `m`. */
  lemma NoDivisorAboveHalf(m: int, q: int)
    requires 0 < m / 2 < q < m
    ensures m % q != 0
  {
    var d := m / q;
    assert m == d * q + m % q;
    if d < 2 {
      assert d * q <= q;
    }
  }

  /**
   * The smallest `q >= from` that divides `|s|` and is a period of `s`,
   * trying `q` up to `|s| / 2` and answering `|s|` when none qualifies.
   */
  function PeriodFrom<T(==)>(s: seq<T>, from: int): (r: int)
    requires 1 <= from && 1 <= |s|
    requires forall d :: 1 <= d < from && |s| % d == 0 ==> !HasPeriod(s, d)
    ensures 1 <= r <= |s|
    ensures |s| % r == 0 && HasPeriod(s, r)
    ensures r == |s| || r <= |s| / 2
    ensures forall d :: 1 <= d < r && |s| % d == 0 ==> !HasPeriod(s, d)
    decreases |s| - from
  {
    if from > |s| / 2 then
      assert forall d :: from <= d < |s| ==> |s| % d != 0 by {
        forall d | from <= d < |s| ensures |s| % d != 0 {
          NoDivisorAboveHalf(|s|, d);
        }
      }
      |s|
    else if |s| % from == 0 && HasPeriod(s, from) then from
    else PeriodFrom(s, from + 1)
  }

  /**
   * The smallest period of `s` that divides `|s|` (0 for the empty
   * sequence): `s` is `|s| / r` copies of `s[..r]`, and no shorter block
   * repeated a whole number of times gives `s`.
   */
  function SmallestPeriod<T(==)>(s: seq<T>): (r: int)
    ensures |s| == 0 ==> r == 0
    ensures |s| >= 1 ==> 1 <= r <= |s| && |s| % r == 0 && HasPeriod(s, r)
    ensures |s| >= 1 ==> forall d :: 1 <= d < r && |s| % d == 0 ==> !HasPeriod(s, d)
  {
    if |s| == 0 then 0 else PeriodFrom(s, 1)
  }

  /** The symbols that occur in `s`. */
  function Symbols<T(==)>(s: seq<T>): set<T>
  {
    set x | x in s
  }

  /** One more symbol adds itself to the symbols seen so far. */
  lemma SymbolsPrefix<T>(s: seq<T>, i: int)
    requires 0 <= i < |s|
    ensures Symbols(s[..i + 1]) == Symbols(s[..i]) + {s[i]}
  {
    assert s[..i + 1] == s[..i] + [s[i]];
  }

  /** One more symbol adds one to the count of symbols seen exactly when it is new. */
  lemma SymbolsPrefixCount<T>(s: seq<T>, i: int)
    requires 0 <= i < |s|
    ensures |Symbols(s[..i + 1])| == |Symbols(s[..i])| + (if s[i] in Symbols(s[..i]) then 0 else 1)
  {
    SymbolsPrefix(s, i);
  }

  /** A sequence uses at least one and at most `|s|` symbols. */
  lemma {:induction false} SymbolsBounds<T>(s: seq<T>)
    ensures |Symbols(s)| <= |s|
    ensures |s| >= 1 ==> 1 <= |Symbols(s)|
    decreases |s|
  {
    if |s| >= 1 {
      var i := |s| - 1;
      SymbolsBounds(s[..i]);
      SymbolsPrefix(s, i);
      assert s[..i + 1] == s;
      assert s[i] in Symbols(s);
    }
  }
}
