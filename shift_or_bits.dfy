/**
 * Shift-Or (bit-parallel, Baeza-Yates–Gonnet) over one 64-bit word.
 * Bit k of the state is 0 exactly when p[..k+1] ends the text read so far;
 * bit k of the mask of byte c is 0 exactly when p[k] == c.
 */
module ShiftOrBits {
  import opened Text
  import opened Occurrences
  import opened Borders
  import opened Bits

  /**
   * `B` is the mask table of `p`: bit `k` of `B[c]` is clear exactly when
   * `k < |p|` and `p[k]` is the byte with code `c`.
   */
  ghost predicate MaskTable(p: Bytes, B: seq<Word>)
  {
    |B| == 256 && |p| <= 64 &&
    forall c, k :: 0 <= c < 256 && 0 <= k < 64 ==> (B[c][k] <==> !(k < |p| && Code(p[k]) == c))
  }

  /** The mask of code `c` after the first `n` pattern cells have been entered. */
  function MaskOf(p: Bytes, n: int, c: int): Word
  {
    seq(64, k => !(0 <= k < n && k < |p| && Code(p[k]) == c))
  }

  /** Entering cell `i` clears bit `i` of the mask of `p[i]` and of no other mask. */
  lemma MaskOfStep(p: Bytes, i: int, d: int)
    requires 0 <= i < |p|
    ensures MaskOf(p, i + 1, d) == if d == Code(p[i]) then And(MaskOf(p, i, d), Not(Pow2(i))) else MaskOf(p, i, d)
  {
  }

  /** Bit `k` of `D` is clear exactly when `p[..k+1]` ends the window `t[lo..i]`. */
  ghost predicate StateInv(t: Bytes, lo: int, i: int, p: Bytes, D: Word)
  {
    |p| <= 64 && forall k :: 0 <= k < |p| ==> (!D[k] <==> EndsWith(t, lo, i, p, k + 1))
  }

  /** The all-ones state describes the empty window. */
  lemma StateInit(t: Bytes, lo: int, p: Bytes)
    requires 0 <= lo <= |t| && |p| <= 64
    ensures StateInv(t, lo, lo, p, Ones())
  {
  }

  /** One Shift-Or step `D = (D << 1) | B[t[i]]` reads `t[i]` into the state. */
  lemma StateStep(t: Bytes, lo: int, i: int, p: Bytes, B: seq<Word>, D: Word)
    requires MaskTable(p, B) && 0 <= lo <= i < |t|
    requires StateInv(t, lo, i, p, D)
    ensures StateInv(t, lo, i + 1, p, Or(Shl(D), B[Code(t[i])]))
  {
    var b := B[Code(t[i])];
    var next := i + 1;
    forall k | 0 <= k < |p|
      ensures !Or(Shl(D), b)[k] <==> EndsWith(t, lo, next, p, k + 1)
    {
      assert b[k] == (p[k] != t[i]);
      if k > 0 {
        assert !D[k - 1] <==> EndsWith(t, lo, i, p, k - 1 + 1);
      }
      EndsWithStep(t, lo, i, p, k);
    }
  }

  /** After the step that reads `t[i - 1]`, bit `|p| - 1` is clear exactly when `p` ends at `i`. */
  lemma StateMatch(t: Bytes, lo: int, i: int, p: Bytes, D: Word)
    requires StateInv(t, lo, i, p, D) && 1 <= |p| && 0 <= lo <= i - |p| && i <= |t|
    ensures !D[|p| - 1] <==> MatchAt(p, t, i - |p|)
  {
    EndsWithMatch(t, lo, i, p);
  }

  /** Before `|p|` symbols of the window have been read, no bit |p| - 1 is clear. */
  lemma StateShort(t: Bytes, lo: int, i: int, p: Bytes, D: Word)
    requires StateInv(t, lo, i, p, D) && 1 <= |p| && i - |p| < lo <= i
    ensures D[|p| - 1]
  {
  }

  /**
   * The test the searches make after reading `i` bytes: at least `|p|`
   * bytes read and bit `|p| - 1` clear. It reports exactly the matches
   * ending at `i` that lie inside the window.
   */
  lemma Report(t: Bytes, lo: int, i: int, p: Bytes, D: Word)
    requires StateInv(t, lo, i, p, D) && 1 <= |p| && 0 <= lo <= i <= |t|
    ensures (i >= |p| && And(D, Pow2(|p| - 1)) == Zero()) <==> lo <= i - |p| && MatchAt(p, t, i - |p|)
  {
    TestBit(D, |p| - 1);
    if lo <= i - |p| {
      StateMatch(t, lo, i, p, D);
    } else if i >= |p| {
      StateShort(t, lo, i, p, D);
    }
  }

  /**
   * One step of a search loop at 0-based index `i`: the new state again
   * describes the window, and the loop's test (`i >= |p| - 1` and bit
   * `|p| - 1` clear) reports exactly the in-window match ending at `i`.
   */
  lemma ReadAndReport(t: Bytes, lo: int, i: int, p: Bytes, B: seq<Word>, D: Word)
    requires MaskTable(p, B) && 0 <= lo <= i < |t| && 1 <= |p|
    requires StateInv(t, lo, i, p, D)
    ensures StateInv(t, lo, i + 1, p, Or(Shl(D), B[Code(t[i])]))
    ensures (i >= |p| - 1 && And(Or(Shl(D), B[Code(t[i])]), Pow2(|p| - 1)) == Zero())
        <==> lo <= i + 1 - |p| && MatchAt(p, t, i + 1 - |p|)
  {
    StateStep(t, lo, i, p, B, D);
    Report(t, lo, i + 1, p, Or(Shl(D), B[Code(t[i])]));
  }

  /**
   * The statement every Shift-Or loop performs on reading byte `c` at
   * 0-based index `i`, `D = (D << 1) | B[c]`, together with the test of
   * bit `|p| - 1` that the loops make afterwards: with `i >= |p| - 1`, a
   * clear bit reports exactly the in-window match ending at `i`.
   */
  method Step(p: Bytes, B: seq<Word>, D: Word, c: Byte, ghost t: Bytes, ghost lo: int, ghost i: int)
    returns (D': Word, clear: bool)
    requires MaskTable(p, B) && 0 <= lo <= i < |t| && t[i] == c && 1 <= |p|
    requires StateInv(t, lo, i, p, D)
    ensures StateInv(t, lo, i + 1, p, D')
    ensures (i >= |p| - 1 && clear) <==> lo <= i + 1 - |p| && MatchAt(p, t, i + 1 - |p|)
  {
    ReadAndReport(t, lo, i, p, B, D);
    D' := Or(Shl(D), B[Code(c)]);
    clear := And(D', Pow2(|p| - 1)) == Zero();
  }
}
