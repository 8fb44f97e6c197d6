# Elementwise binary-operation engine, modelled in Dafny

This project models the core of `test_vec_bin_op`, a small Rust program that
applies a binary function `f` to corresponding elements of two vectors. The
core has four parts:

- **The leaf kernel** (`vec_bin_op_mut`). It writes `f(u[i], v[i])` into a
  destination slice for every `i` below `min(|u|, |v|)`.
- **The allocating wrappers** (`vec_bin_op`, `vec_bin_op_2`). They allocate
  the output vector and fill it.
- **The chunk-size advisor** (`get_chunk_size`). It picks the length below
  which the splitter stops splitting.
- **The recursive midpoint splitter** (`vec_bin_op_split`) and its entry
  point (`vec_bin_op_threaded`). The splitter cuts the range at `len / 2`
  and runs the two halves as a fork-join pair.

The central property is that splitting changes nothing. Every way the output
can be produced equals `Map2(u, v, f)`, the sequential reference
(`BinOpSpec.Map2`). This holds for every chunk size and both branches of the
entry point. The demonstration program compares the two results at run time;
that comparison uses `f64` equality, so it passes exactly when no output
element is NaN.

Layout:

- `bin_op_spec.dfy` holds module `BinOpSpec`, the reference definitions:
  - `Map2`, the sequential result;
  - `LeftLen` and `RightLen`, the lengths of the two halves at the
    splitter's cut (`len / 2` and the rest);
  - `LeafCount` and `SplitDepth`, the shape of the splitter's recursion
    tree;
  - lemmas about `Map2`, `LeafCount` and `SplitDepth`.
- `vec_bin_op.dfy` holds module `VecBinOp`, the operations of `src/main.rs`.

How the source is represented:

- The element type is an abstract type parameter `T`.
- `f` is a total function `(T, T) -> T`.
- The read-only input slices `u` and `v` are `seq<T>`. Rust's borrow rules
  already stop them aliasing the destination, and sequences keep that true
  in the model.
- A mutable destination slice is an `array<T>` plus a window `[lo, hi)`.
  `split_at_mut(mid)` becomes the two windows `[lo, lo + mid)` and
  `[lo + mid, hi)`.
- The methods state the whole new content of the array as one equation. It
  says the window's first `min(|u|, |v|)` cells hold `Map2(u, v, f)` and
  every other cell is unchanged.
- The allocating operations return the finished vector as a `seq<T>`.

Three details of the code that the model keeps:

- On an empty input the code still calls the leaf kernel once, on an empty
  range, so `LeafCount(0, c) == 1`.
- The splitter does not require `u`, `v` and `dst` to have equal lengths. It
  works on `min(|u|, |v|)` elements and accepts any destination at least that
  long.
- The advisor compares with `len <= cpus`, not `len < cpus`.

## Model

| member | source | states |
|---|---|---|
| `BinOpSpec.Map2` | src/main.rs:58-81 | the reference result has length `min(|u|, |v|)` and holds `f(u[i], v[i])` at each index `i` |
| `BinOpSpec.Map2IgnoresExcess` | src/main.rs:29-32 | elements of the longer input past `min(|u|, |v|)` do not affect the result |
| `BinOpSpec.Map2Split` | src/main.rs:138-142 | cutting both inputs at any `mid <= len` into `[0, mid)` and `[mid, len)` and concatenating the two results gives the whole result |
| `BinOpSpec.LeafCount` | src/main.rs:137-149 | the splitter makes at least one leaf-kernel call on any range, including an empty one |
| `BinOpSpec.SplitDepth` | src/main.rs:137-145 | the number of splitting levels above the deepest leaf; it is 0 exactly when the range is at most one chunk |
| `BinOpSpec.SplitDepthMono` | src/main.rs:137-145 | a longer range is never split into fewer levels than a shorter one |
| `BinOpSpec.SplitDepthBound` | src/main.rs:137-145 | a range of `n > chunk` elements is split `d >= 1` levels deep with `chunk * 2^(d - 1) < n`, so the depth is at most `1 + log2(n / chunk)` for every length |
| `BinOpSpec.SplitDepthOfPowerOfTwo` | src/main.rs:137-145 | a range of `chunk * 2^k` elements is split exactly `k` levels deep |
| `BinOpSpec.LeafCountOfPowerOfTwo` | src/main.rs:137-145 | a range of `chunk * 2^k` elements ends in exactly `2^k` leaf-kernel calls |
| `BinOpSpec.LeafCountBound` | src/main.rs:137-149 | a range of `n >= chunk / 2` elements ends in at most `2n / chunk` leaf-kernel calls |
| `VecBinOp.BinOpMut` | src/main.rs:25-41 | the first `min(|u|, |v|)` cells of the destination window become `Map2(u, v, f)` and every other array cell is unchanged; the window must be at least that long |
| `VecBinOp.BinOp` | src/main.rs:58-81 | the freshly filled output has length `min(|u|, |v|)`, holds `f(u[i], v[i])` at every index and equals `Map2(u, v, f)` |
| `VecBinOp.BinOp2` | src/main.rs:42-56 | when `|u| <= |v|`, the output has length `|u|` and equals `Map2(u, v, f)` |
| `VecBinOp.ChunkSize` | src/main.rs:84-92 | the result is `len` when `len <= cpus` and otherwise the floor of `len / cpus`, i.e. `r * cpus <= len < (r + 1) * cpus`; it never exceeds `len` and is at least 1 on a non-empty input |
| `VecBinOp.BinOpSplit` | src/main.rs:132-151 | for a chunk size of at least 1, the splitter leaves the destination exactly as the leaf kernel does; its leaf calls and levels are `LeafCount` and `SplitDepth` of the length; it terminates |
| `VecBinOp.SplitStep` | src/main.rs:138-145 | running the left half into `[lo, lo + mid)` and then the right half just after it has the same effect as writing the whole result at `lo` |
| `VecBinOp.BinOpThreaded` | src/main.rs:155-173 | for every chunk size, whichever branch it takes, the output equals `Map2(u, v, f)` |
| `VecBinOp.ThreadedMatchesSequential` | src/main.rs:235-247 | the threaded result with the advised chunk size and the sequential result are the same sequence; comparing them element by element with `eq` succeeds exactly when every output element is `eq` to itself, and always when `eq` is reflexive |
| `VecBinOp.LeafCountBoundedByCpus` | src/main.rs:84-92 | with the advised chunk size the splitter makes fewer than `4 * cpus` leaf-kernel calls, whatever the length |
| `VecBinOp.SingleLeafForShortInput` | src/main.rs:88-89 | with no more elements than CPUs, one leaf-kernel call covers the whole input |
| `VecBinOp.FourCpuExample` | src/main.rs:84-92 | 16000 elements on 4 CPUs give an advised chunk of 4000, which is not above `SplitSize`, so the entry point runs the leaf kernel once; the splitter called directly with chunk 4000 makes two levels of splitting and four leaves |

## Left out

- Concurrency: `rayon::join` (src/main.rs:144) is modelled as the left half followed by the right half. The two halves write disjoint windows of the destination, so their order does not change the result.
- Host CPU count: `num_cpus::get()` (src/main.rs:87) becomes the parameter `cpus`, which must be at least 1. The real call always returns at least 1.
- ChunkSize: uses natural-number division where the source divides as `f64` and calls `floor` (src/main.rs:91). The two agree whenever the length is below 2^53.
- Element arithmetic: the `f64` operations inside callers' closures are not modelled. `f` is an abstract total function, and no floating-point arithmetic happens in the core itself.
- Uninitialised output buffers: the `Vec::with_capacity` plus `set_len` pattern is modelled as a buffer pre-filled with `T`'s default value. Every cell below the output length is overwritten before the buffer is returned.
- BinOp2: requires `|u| <= |v|`. When `|v| < |u|` the source returns a vector of length `|u|` whose last `|u| - |v|` cells were never written; the model does not represent that uninitialised tail.
- BinOpSplit: requires a chunk size of at least 1 unless the input is empty. With chunk size 0 and a non-empty input the source's recursion never ends, because a range of length 1 splits into itself. The entry point only calls the splitter with chunk sizes above 10000.
- Debug assertions on equal lengths (`debug_assert_eq!`, `debug_assert!`) are not modelled. The model follows release builds, which truncate to the shorter input.
- ThreadedMatchesSequential: the element comparison behind `Vec<f64>`'s `==` (src/main.rs:247) is the parameter `eq`, not IEEE `f64` equality itself. The contract says the check passes exactly when every output element is `eq` to itself; which `f64` values are NaN is not modelled.
- Panics on a destination shorter than the output are preconditions, not modelled error paths.
- Benchmarks, timing and printing in `main` (src/main.rs:177-249 apart from the equality check), the unused `unroll_by_4` macro (src/main.rs:13-23) and all commented-out variants (src/main.rs:94-130 and 185-226) are not modelled.
