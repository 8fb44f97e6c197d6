/**
 * Reference definitions for the elementwise binary-operation engine:
 * the sequential result every variant must reproduce, and the shape of
 * the recursion tree the midpoint splitter builds.
 */
module BinOpSpec {

  function Min(a: nat, b: nat): nat {
    if a <= b then a else b
  }

  function Max(a: nat, b: nat): nat {
    if a <= b then b else a
  }

  function Pow2(k: nat): (p: nat)
    ensures 1 <= p
  {
    if k == 0 then 1 else 2 * Pow2(k - 1)
  }

  /**
   * The sequential reference: `f` applied to corresponding elements of
   * `u` and `v`, truncated to the shorter input.
   */
  function Map2<T>(u: seq<T>, v: seq<T>, f: (T, T) -> T): (r: seq<T>)
    ensures |r| == Min(|u|, |v|)
    ensures forall i :: 0 <= i < |r| ==> r[i] == f(u[i], v[i])
  {
    seq(Min(|u|, |v|), i requires 0 <= i < Min(|u|, |v|) => f(u[i], v[i]))
  }

  /** Elements of the longer input past the shorter one's length play no part. */
  lemma {:induction false} Map2IgnoresExcess<T>(u: seq<T>, v: seq<T>, f: (T, T) -> T)
    ensures Map2(u, v, f) == Map2(u[..Min(|u|, |v|)], v[..Min(|u|, |v|)], f)
  {
    var n := Min(|u|, |v|);
    var a, b := Map2(u, v, f), Map2(u[..n], v[..n], f);
    assert |a| == |b| == n;
    forall i | 0 <= i < n ensures a[i] == b[i] {
      assert u[..n][i] == u[i] && v[..n][i] == v[i];
    }
  }

  /**
   * Splitting both inputs at `mid` and concatenating the two partial
   * results gives the whole result: the halves `[0, mid)` and `[mid, n)`
   * are disjoint and together cover `[0, n)`.
   */
  lemma {:induction false} Map2Split<T>(u: seq<T>, v: seq<T>, f: (T, T) -> T, mid: nat)
    requires mid <= Min(|u|, |v|)
    ensures Map2(u, v, f)
         == Map2(u[..mid], v[..mid], f) + Map2(u[mid..Min(|u|, |v|)], v[mid..Min(|u|, |v|)], f)
  {
    var n := Min(|u|, |v|);
    var whole := Map2(u, v, f);
    var left, right := Map2(u[..mid], v[..mid], f), Map2(u[mid..n], v[mid..n], f);
    assert |left| == mid && |right| == n - mid;
    forall i | 0 <= i < mid ensures whole[i] == (left + right)[i] {
      assert (left + right)[i] == left[i] == f(u[..mid][i], v[..mid][i]);
    }
    forall i | mid <= i < n ensures whole[i] == (left + right)[i] {
      assert (left + right)[i] == right[i - mid] == f(u[mid..n][i - mid], v[mid..n][i - mid]);
    }
  }

  /**
   * The splitter's cut: a range of `n` elements becomes a left half of
   * `LeftLen(n)` elements and a right half of the remaining `RightLen(n)`.
   */
  function LeftLen(n: nat): nat {
    n / 2
  }

  function RightLen(n: nat): nat {
    n - n / 2
  }

  /**
   * Number of leaf-kernel calls the midpoint splitter makes on a range of
   * length `n`: a range longer than `chunk` is split at `n / 2`, anything
   * else is one leaf. The recursion ends only when `chunk >= 1` (or the
   * range is empty): with `chunk == 0` a range of length 1 splits into
   * itself.
   */
  ghost function LeafCount(n: nat, chunk: nat): (c: nat)
    requires 1 <= chunk || n == 0
    ensures 1 <= c
    decreases n
  {
    if n <= chunk then 1 else LeafCount(LeftLen(n), chunk) + LeafCount(RightLen(n), chunk)
  }

  /** Number of splitting levels above the deepest leaf. */
  ghost function SplitDepth(n: nat, chunk: nat): (d: nat)
    requires 1 <= chunk || n == 0
    ensures d == 0 <==> n <= chunk
    decreases n
  {
    if n <= chunk then 0 else 1 + Max(SplitDepth(LeftLen(n), chunk), SplitDepth(RightLen(n), chunk))
  }

  lemma Distributes(x: nat, y: nat, c: nat)
    ensures (x + y) * c == x * c + y * c
  {
  }

  lemma DoubleTimes(a: nat, b: nat)
    ensures a * (2 * b) == 2 * (a * b)
    ensures b >= 1 ==> a * b >= a
  {
  }

  /** A range of `chunk * 2^k` elements is split exactly `k` levels deep. */
  lemma {:induction false} SplitDepthOfPowerOfTwo(chunk: nat, k: nat)
    requires 1 <= chunk
    ensures SplitDepth(chunk * Pow2(k), chunk) == k
  {
    if k > 0 {
      var half := chunk * Pow2(k - 1);
      DoubleTimes(chunk, Pow2(k - 1));
      assert half >= chunk;
      assert LeftLen(2 * half) == half && RightLen(2 * half) == half;
      SplitDepthOfPowerOfTwo(chunk, k - 1);
    }
  }

  /** ... into `2^k` leaves of exactly `chunk` elements each. */
  lemma {:induction false} LeafCountOfPowerOfTwo(chunk: nat, k: nat)
    requires 1 <= chunk
    ensures LeafCount(chunk * Pow2(k), chunk) == Pow2(k)
  {
    if k > 0 {
      var half := chunk * Pow2(k - 1);
      DoubleTimes(chunk, Pow2(k - 1));
      assert half >= chunk;
      assert LeftLen(2 * half) == half && RightLen(2 * half) == half;
      LeafCountOfPowerOfTwo(chunk, k - 1);
    }
  }

  /** A longer range is never split into fewer levels than a shorter one. */
  lemma {:induction false} SplitDepthMono(a: nat, b: nat, chunk: nat)
    requires 1 <= chunk && a <= b
    ensures SplitDepth(a, chunk) <= SplitDepth(b, chunk)
    decreases b
  {
    if a > chunk {
      SplitDepthMono(LeftLen(a), LeftLen(b), chunk);
      SplitDepthMono(RightLen(a), RightLen(b), chunk);
    }
  }

  /**
   * The splitting depth is logarithmic in `n / chunk`: a range of `n > chunk`
   * elements is split `d >= 1` levels deep with `chunk * 2^(d - 1) < n`.
   * The right half is never the shorter one, so it carries the depth.
   */
  lemma {:induction false} SplitDepthBound(n: nat, chunk: nat)
    requires 1 <= chunk < n
    ensures 1 <= SplitDepth(n, chunk) && chunk * Pow2(SplitDepth(n, chunk) - 1) < n
    decreases n
  {
    var right := RightLen(n);
    SplitDepthMono(LeftLen(n), right, chunk);
    if right > chunk {
      SplitDepthBound(right, chunk);
      var p := Pow2(SplitDepth(right, chunk) - 1);
      assert Pow2(SplitDepth(n, chunk) - 1) == 2 * p;
      DoubleTimes(chunk, p);
    }
  }

  /**
   * Every leaf produced from a range of at least `chunk / 2` elements holds
   * at least `chunk / 2` elements, so the leaves of a range of `n` elements
   * number at most `2 * n / chunk`.
   */
  lemma {:induction false} LeafCountBound(n: nat, chunk: nat)
    requires 1 <= chunk <= 2 * n
    ensures LeafCount(n, chunk) * chunk <= 2 * n
    decreases n
  {
    if n > chunk {
      var left, right := LeftLen(n), RightLen(n);
      assert chunk <= 2 * left && left + right == n;
      LeafCountBound(left, chunk);
      LeafCountBound(right, chunk);
      Distributes(LeafCount(left, chunk), LeafCount(right, chunk), chunk);
    }
  }
}
