/**
 * The elementwise binary-operation engine: a sequential leaf kernel, the
 * allocating wrappers around it, the chunk-size advisor, and the recursive
 * midpoint splitter with its entry point.
 *
 * The read-only inputs are sequences; the destination is an array with a
 * window `[lo, hi)` standing for a mutable sub-slice of it. The element
 * type `T` and the operation `f` are left abstract.
 */
module VecBinOp {
  import opened BinOpSpec

  /** Chunk sizes at or below this run the leaf kernel without splitting. */
  const SplitSize: nat := 10000

  /**
   * Leaf kernel: writes `f(u[i], v[i])` into `dst[lo + i]` for every
   * `i < min(|u|, |v|)`, and touches nothing else. The window must be
   * long enough for the output.
   */
  method BinOpMut<T>(u: seq<T>, v: seq<T>, dst: array<T>, lo: nat, hi: nat, f: (T, T) -> T)
    requires lo <= hi <= dst.Length
    requires Min(|u|, |v|) <= hi - lo
    modifies dst
    ensures dst[..] == old(dst[..])[..lo] + Map2(u, v, f) + old(dst[..])[lo + Min(|u|, |v|)..]
  {
    var len := Min(|u|, |v|);
    ghost var before := dst[..];
    for i := 0 to len
      invariant forall k :: 0 <= k < i ==> dst[lo + k] == f(u[k], v[k])
      invariant forall j :: 0 <= j < dst.Length && !(lo <= j < lo + i) ==> dst[j] == before[j]
    {
      dst[lo + i] := f(u[i], v[i]);
    }
    ghost var expected := before[..lo] + Map2(u, v, f) + before[lo + len..];
    forall j | 0 <= j < dst.Length ensures dst[j] == expected[j] {
      if lo <= j < lo + len {
        assert dst[lo + (j - lo)] == f(u[j - lo], v[j - lo]);
      }
    }
    assert dst[..] == expected;
  }

  /**
   * Allocates an output of length `min(|u|, |v|)` and fills it with its own
   * loop. The buffer starts with `T`'s default value in every cell and every
   * cell is overwritten.
   */
  method BinOp<T(0)>(u: seq<T>, v: seq<T>, f: (T, T) -> T) returns (out: seq<T>)
    ensures |out| == Min(|u|, |v|)
    ensures forall i :: 0 <= i < |out| ==> out[i] == f(u[i], v[i])
    ensures out == Map2(u, v, f)
  {
    var len := Min(|u|, |v|);
    var buf := new T[len];
    for i := 0 to len
      invariant forall k :: 0 <= k < i ==> buf[k] == f(u[k], v[k])
    {
      buf[i] := f(u[i], v[i]);
    }
    out := buf[..];
  }

  /**
   * Allocates an output of length `|u|` and fills it with the leaf kernel;
   * when `v` is at least as long as `u` every cell is written and this is
   * the reference result.
   */
  method BinOp2<T(0)>(u: seq<T>, v: seq<T>, f: (T, T) -> T) returns (out: seq<T>)
    requires |u| <= |v|
    ensures |out| == |u|
    ensures out == Map2(u, v, f)
  {
    var len := |u|;
    var buf := new T[len];
    BinOpMut(u, v, buf, 0, len, f);
    out := buf[..];
  }

  /**
   * Chunk-size advisor: the effective length when it does not exceed the
   * number of CPUs, and otherwise the effective length divided by the
   * number of CPUs, rounded down.
   */
  function ChunkSize<T>(u: seq<T>, v: seq<T>, cpus: nat): (r: nat)
    requires 1 <= cpus
    ensures r <= Min(|u|, |v|)
    ensures 1 <= Min(|u|, |v|) ==> 1 <= r
    ensures Min(|u|, |v|) <= cpus ==> r == Min(|u|, |v|)
    ensures cpus < Min(|u|, |v|) ==> r * cpus <= Min(|u|, |v|) < (r + 1) * cpus
  {
    var len := Min(|u|, |v|);
    if len <= cpus then len
    else
      var q := len / cpus;
      assert len == q * cpus + len % cpus;
      assert (q + 1) * cpus == q * cpus + cpus;
      q
  }

  /**
   * Recursive midpoint splitter over the window `[lo, hi)` of `dst`. A range
   * longer than `chunkSize` is cut at `len / 2`; the two halves write
   * disjoint parts of the window and are run left, then right. The ghost
   * results count the leaf-kernel calls and the levels of splitting.
   */
  method BinOpSplit<T>(u: seq<T>, v: seq<T>, dst: array<T>, lo: nat, hi: nat, chunkSize: nat, f: (T, T) -> T)
    returns (ghost leaves: nat, ghost depth: nat)
    requires lo <= hi <= dst.Length
    requires Min(|u|, |v|) <= hi - lo
    requires 1 <= chunkSize || Min(|u|, |v|) == 0
    modifies dst
    ensures dst[..] == old(dst[..])[..lo] + Map2(u, v, f) + old(dst[..])[lo + Min(|u|, |v|)..]
    ensures leaves == LeafCount(Min(|u|, |v|), chunkSize)
    ensures depth == SplitDepth(Min(|u|, |v|), chunkSize)
    decreases Min(|u|, |v|)
  {
    var len := Min(|u|, |v|);
    if len > chunkSize {
      var mid := len / 2;
      var uLeft, uRight := u[..mid], u[mid..len];
      var vLeft, vRight := v[..mid], v[mid..len];
      assert Min(|uLeft|, |vLeft|) == mid == LeftLen(len);
      assert Min(|uRight|, |vRight|) == RightLen(len);
      ghost var leftLeaves, leftDepth := BinOpSplit(uLeft, vLeft, dst, lo, lo + mid, chunkSize, f);
      ghost var afterLeft := dst[..];
      ghost var rightLeaves, rightDepth := BinOpSplit(uRight, vRight, dst, lo + mid, hi, chunkSize, f);
      SplitStep(u, v, f, mid, lo, old(dst[..]), afterLeft, dst[..]);
      leaves, depth := leftLeaves + rightLeaves, 1 + Max(leftDepth, rightDepth);
    } else {
      BinOpMut(u, v, dst, lo, hi, f);
      leaves, depth := 1, 0;
    }
  }

  /**
   * Writing the left half's result at `lo` and then the right half's just
   * after it leaves the same array as writing the whole result at `lo`.
   */
  lemma SplitStep<T>(u: seq<T>, v: seq<T>, f: (T, T) -> T, mid: nat, lo: nat, before: seq<T>, middle: seq<T>, after: seq<T>)
    requires mid <= Min(|u|, |v|)
    requires lo + Min(|u|, |v|) <= |before|
    requires middle == before[..lo] + Map2(u[..mid], v[..mid], f)
                       + before[lo + Min(|u[..mid]|, |v[..mid]|)..]
    requires after == middle[..lo + mid] + Map2(u[mid..Min(|u|, |v|)], v[mid..Min(|u|, |v|)], f)
                      + middle[lo + mid + Min(|u[mid..Min(|u|, |v|)]|, |v[mid..Min(|u|, |v|)]|)..]
    ensures after == before[..lo] + Map2(u, v, f) + before[lo + Min(|u|, |v|)..]
  {
    var n := Min(|u|, |v|);
    var left, right := Map2(u[..mid], v[..mid], f), Map2(u[mid..n], v[mid..n], f);
    Map2Split(u, v, f, mid);
    var expected := before[..lo] + (left + right) + before[lo + n..];
    assert |after| == |expected|;
    forall j | 0 <= j < |after| ensures after[j] == expected[j] {
      if j < lo + mid {
        assert after[j] == middle[j];
      }
    }
  }

  /**
   * Entry point: allocates the output and runs the splitter when the chunk
   * size exceeds `SplitSize`, the leaf kernel directly otherwise. Either
   * way the output is the sequential result, whatever the chunk size.
   */
  method BinOpThreaded<T(0)>(u: seq<T>, v: seq<T>, chunkSize: nat, f: (T, T) -> T) returns (out: seq<T>)
    ensures out == Map2(u, v, f)
  {
    var len := Min(|u|, |v|);
    var buf := new T[len];
    if chunkSize > SplitSize {
      ghost var leaves, depth := BinOpSplit(u, v, buf, 0, len, chunkSize, f);
    } else {
      BinOpMut(u, v, buf, 0, len, f);
    }
    out := buf[..];
  }

  /**
   * The agreement check of the demonstration program: the threaded result
   * with the advised chunk size is compared with the plain sequential result,
   * element by element, using the element comparison `eq` (for `f64`, IEEE
   * equality, under which NaN differs from itself). The two results are the
   * same sequence, so the check passes exactly when every output element is
   * equal to itself under `eq`.
   */
  method ThreadedMatchesSequential<T(0)>(u: seq<T>, v: seq<T>, cpus: nat, f: (T, T) -> T, eq: (T, T) -> bool)
    returns (agree: bool)
    requires 1 <= cpus
    ensures agree <==> forall i :: 0 <= i < Min(|u|, |v|) ==> eq(Map2(u, v, f)[i], Map2(u, v, f)[i])
    ensures (forall x :: eq(x, x)) ==> agree
  {
    var threaded := BinOpThreaded(u, v, ChunkSize(u, v, cpus), f);
    var sequential := BinOp(u, v, f);
    agree := |sequential| == |threaded|;
    for i := 0 to |sequential|
      invariant agree <==> forall k :: 0 <= k < i ==> eq(sequential[k], threaded[k])
    {
      agree := agree && eq(sequential[i], threaded[i]);
    }
  }

  /**
   * With the advised chunk size the splitter makes fewer than `4 * cpus`
   * leaf-kernel calls, whatever the input length.
   */
  lemma LeafCountBoundedByCpus<T>(u: seq<T>, v: seq<T>, cpus: nat)
    requires 1 <= cpus
    ensures LeafCount(Min(|u|, |v|), ChunkSize(u, v, cpus)) < 4 * cpus
  {
    var len, chunk := Min(|u|, |v|), ChunkSize(u, v, cpus);
    if cpus < len {
      var leaves := LeafCount(len, chunk);
      LeafCountBound(len, chunk);
      LeafCountFromProducts(leaves, chunk, cpus, len);
    }
  }

  /** Integer step of the bound above: `L * C <= 2N < 2(C + 1)P` forces `L < 4P`. */
  lemma LeafCountFromProducts(leaves: nat, chunk: nat, cpus: nat, len: nat)
    requires 1 <= chunk
    requires leaves * chunk <= 2 * len
    requires len < (chunk + 1) * cpus
    ensures leaves < 4 * cpus
  {
    if leaves >= 4 * cpus {
      MulMonotone(4 * cpus, leaves, chunk);
      MulMonotone(chunk + 1, 2 * chunk, cpus);
    }
  }

  lemma MulMonotone(a: nat, b: nat, c: nat)
    requires a <= b
    ensures a * c <= b * c
  {
  }

  /** When there are no more elements than CPUs, one leaf covers everything. */
  lemma SingleLeafForShortInput<T>(u: seq<T>, v: seq<T>, cpus: nat)
    requires 1 <= cpus
    requires Min(|u|, |v|) <= cpus
    ensures LeafCount(Min(|u|, |v|), ChunkSize(u, v, cpus)) == 1
  {
  }

  /**
   * Sixteen thousand elements on four CPUs: the advised chunk is 4000, which
   * is not above `SplitSize`, so the entry point runs the leaf kernel once.
   * The splitter called directly with chunk 4000 makes two levels of
   * splitting and four leaves.
   */
  lemma FourCpuExample<T>(u: seq<T>, v: seq<T>)
    requires |u| == |v| == 16000
    ensures ChunkSize(u, v, 4) == 4000 && ChunkSize(u, v, 4) <= SplitSize
    ensures LeafCount(16000, 4000) == 4 && SplitDepth(16000, 4000) == 2
  {
    assert Min(|u|, |v|) == 16000 && 16000 / 4 == 4000;
    assert ChunkSize(u, v, 4) == 4000;
    assert Pow2(2) == 4;
    assert 4000 * Pow2(2) == 16000;
    LeafCountOfPowerOfTwo(4000, 2);
    SplitDepthOfPowerOfTwo(4000, 2);
  }
}
