/** Integer facts behind the way the parallel searches cut a text into chunks. */
module Chunks {

  /** `(n + T - 1) / T`, the chunk length that covers `n` with `T` chunks. */
  function CeilDiv(n: nat, T: nat): (c: nat)
    requires T > 0
    ensures c * T >= n
    ensures n > 0 ==> (c - 1) * T < n
  {
    var c := (n + T - 1) / T;
    DivBounds(n + T - 1, T);
    c
  }

  lemma DivBounds(a: nat, T: nat)
    requires T > 0
    ensures (a / T) * T <= a < (a / T) * T + T
  {
  }

  /** `(n / T) * T` does not pass `n`. */
  lemma FloorCovered(n: nat, T: nat)
    requires T > 0
    ensures (n / T) * T <= n
  {
    DivBounds(n, T);
  }

  lemma {:induction false} MulMono(a: nat, b: nat, c: nat)
    requires a <= b
    ensures a * c <= b * c
    decreases b - a
  {
    if a < b {
      MulMono(a + 1, b, c);
    }
  }

  /** The quotient is the one `k` with `k * c <= x < k * c + c`. */
  lemma DivUnique(x: int, c: nat, k: nat)
    requires c > 0 && k * c <= x < k * c + c
    ensures x / c == k
  {
    var q := x / c;
    DivBounds(x, c);
    if q < k {
      MulMono(q + 1, k, c);
    } else if q > k {
      MulMono(k + 1, q, c);
    }
  }

  /** `k * c`, built by adding `c` `k` times, so that sums over chunks stay linear. */
  function ChunkStart(c: nat, k: nat): nat
  {
    if k == 0 then 0 else ChunkStart(c, k - 1) + c
  }

  lemma {:induction false} ChunkStartIs(c: nat, k: nat)
    ensures ChunkStart(c, k) == k * c
  {
    if k > 0 {
      ChunkStartIs(c, k - 1);
      assert k * c == (k - 1) * c + c;
    }
  }

  function Min(a: int, b: int): int
  {
    if a < b then a else b
  }
}
