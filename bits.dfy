/**
 * A `uint64_t` as its 64 bits, least significant first, with the handful of
 * operations the Shift-Or matchers apply to it. Shifting left drops bit 63,
 * as the machine does; `1ULL << 64` (undefined in C++) is the zero word here.
 */
module Bits {

  type Word = w: seq<bool> | |w| == 64 witness seq(64, _ => false)

  /** `0` */
  function Zero(): (r: Word)
    ensures forall k :: 0 <= k < 64 ==> !r[k]
  {
    seq(64, _ => false)
  }

  /** `~0ULL` */
  function Ones(): (r: Word)
    ensures forall k :: 0 <= k < 64 ==> r[k]
  {
    seq(64, _ => true)
  }

  /** `1ULL << i`: only bit `i` set; no bit at all when `i >= 64`. */
  function Pow2(i: nat): (r: Word)
    ensures forall k :: 0 <= k < 64 ==> (r[k] <==> k == i)
  {
    seq(64, k => k == i)
  }

  /** `w << 1`: every bit moves up one place, bit 63 is lost and bit 0 becomes 0. */
  function Shl(w: Word): (r: Word)
    ensures forall k :: 0 <= k < 64 ==> (r[k] <==> k > 0 && w[k - 1])
  {
    seq(64, k requires 0 <= k < 64 => k > 0 && w[k - 1])
  }

  /** `a | b` */
  function Or(a: Word, b: Word): (r: Word)
    ensures forall k :: 0 <= k < 64 ==> (r[k] <==> a[k] || b[k])
  {
    seq(64, k requires 0 <= k < 64 => a[k] || b[k])
  }

  /** `a & b` */
  function And(a: Word, b: Word): (r: Word)
    ensures forall k :: 0 <= k < 64 ==> (r[k] <==> a[k] && b[k])
  {
    seq(64, k requires 0 <= k < 64 => a[k] && b[k])
  }

  /** `~a` */
  function Not(a: Word): (r: Word)
    ensures forall k :: 0 <= k < 64 ==> (r[k] <==> !a[k])
  {
    seq(64, k requires 0 <= k < 64 => !a[k])
  }

  /** `(x & (1ULL << k)) == 0` tests bit `k`; for `k >= 64` it never sees a set bit. */
  lemma TestBit(x: Word, k: nat)
    ensures (And(x, Pow2(k)) == Zero()) == (k >= 64 || !x[k])
  {
    if k < 64 && x[k] {
      assert And(x, Pow2(k))[k];
    }
    if k >= 64 || !x[k] {
      assert And(x, Pow2(k)) == Zero();
    }
  }

  /** `x & ~(1ULL << i)` clears bit `i` and keeps the others. */
  lemma ClearBit(x: Word, i: nat, k: nat)
    requires k < 64
    ensures And(x, Not(Pow2(i)))[k] == (x[k] && k != i)
  {
  }
}
