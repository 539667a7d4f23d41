/**
 * The slice operations of the Rust standard library that the views are built
 * from: `chunks_exact`, `get(lo..hi).unwrap_or(&[])` and `min`.
 */
module Slices {

  function Min(a: nat, b: nat): nat {
    if a <= b then a else b
  }

  /** `s.get(lo..hi).unwrap_or(&[])`: the sub-slice, or nothing when the range is not inside `s`. */
  function Window<T>(s: seq<T>, lo: nat, hi: nat): seq<T> {
    if lo <= hi <= |s| then s[lo..hi] else []
  }

  lemma MulMonotone(a: nat, b: nat, n: nat)
    requires a <= b
    ensures a * n <= b * n
  {
  }

  lemma MulSucc(a: nat, n: nat)
    ensures (a + 1) * n == a * n + n
  {
  }

  /** Chunk `k` of `q` whole chunks of size `n` ends inside the slice. */
  lemma ChunkFits(len: nat, n: nat, q: nat, k: nat)
    requires q * n <= len && k < q
    ensures k * n + n <= len
  {
    MulMonotone(k + 1, q, n);
    MulSucc(k, n);
  }

  /** How many whole pieces of `n` fit in `len`. */
  function WholeChunks(len: nat, n: nat): (q: nat)
    requires n > 0
    ensures q * n <= len < q * n + n
    decreases len
  {
    if len < n then 0 else MulSucc(WholeChunks(len - n, n), n); 1 + WholeChunks(len - n, n)
  }

  /** The first `q` whole chunks of size `n` of `s`. */
  function FirstChunks<T>(s: seq<T>, n: nat, q: nat): (chunks: seq<seq<T>>)
    requires q * n <= |s|
    ensures |chunks| == q
    ensures forall k | 0 <= k < q :: k * n + n <= |s| && chunks[k] == s[k * n .. k * n + n]
  {
    if q == 0 then []
    else
      MulSucc(q - 1, n);
      FirstChunks(s, n, q - 1) + [s[(q - 1) * n .. q * n]]
  }

  /**
   * `s.chunks_exact(n)`: the consecutive pieces of exactly `n` elements, in
   * order; the remainder (fewer than `n` elements) is not yielded.
   */
  function ChunksExact<T>(s: seq<T>, n: nat): (chunks: seq<seq<T>>)
    requires n > 0
    ensures |chunks| * n <= |s| < |chunks| * n + n
    ensures forall k | 0 <= k < |chunks| :: k * n + n <= |s| && chunks[k] == s[k * n .. k * n + n]
  {
    FirstChunks(s, n, WholeChunks(|s|, n))
  }

  /** The number of chunks is the length divided by the chunk size, rounded down. */
  lemma ChunkCount<T>(s: seq<T>, n: nat)
    requires n > 0
    ensures |ChunksExact(s, n)| == |s| / n
  {
    QuotientIsDiv(|s|, n, |ChunksExact(s, n)|);
  }

  lemma QuotientIsDiv(a: nat, n: nat, q: nat)
    requires q * n <= a < q * n + n
    ensures q == a / n
  {
    DivBounds(a, n);
    QuotientUnique(a, n, q, a / n);
  }

  lemma QuotientUnique(a: nat, n: nat, q: nat, d: nat)
    requires q * n <= a < q * n + n
    requires d * n <= a < d * n + n
    ensures q == d
  {
    if q < d {
      MulMonotone(q + 1, d, n);
      MulSucc(q, n);
    } else if d < q {
      MulMonotone(d + 1, q, n);
      MulSucc(d, n);
    }
  }

  lemma DivBounds(a: nat, n: nat)
    requires n > 0
    ensures (a / n) * n <= a < (a / n) * n + n
  {
  }

  /** A slice of at least `n * h` elements has at least `h` whole chunks. */
  lemma ChunksCover<T>(s: seq<T>, n: nat, h: nat)
    requires n > 0 && |s| >= n * h
    ensures |ChunksExact(s, n)| >= h
  {
    var q := |ChunksExact(s, n)|;
    if q < h {
      MulMonotone(q + 1, h, n);
      MulSucc(q, n);
    }
  }
}
