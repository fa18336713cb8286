# prefix_sum_bench: the two sequential scan kernels

The benchmark times two ways of computing the prefix sum (running total) of a
vector of `i32`:

- `prefix_sum` builds a fresh vector. For each input element it pushes the
  element itself (index 0) or the element plus the previous total, which it
  reads back from the vector being built.
- `prefix_sum2` writes into an output slice the caller supplies. A running
  accumulator starts at 0 and advances by each input value, and each new
  total goes into the matching output slot. It zips input and output, so it
  writes only `min(|input|, |output|)` slots and leaves the rest untouched.

The model is two Dafny modules:

- `I32` (`i32.dfy`) is Rust's `i32` and its `+`. The source adds in `i32`.
  That addition panics on overflow in a debug build and wraps modulo 2^32 in
  a release build. The model takes the release semantics (`WrappingAdd`) and
  uses it the same way in both kernels.
- `Scan` (`scan.dfy`) holds the reference definitions and both kernels.
  - `Sum` is the exact mathematical sum.
  - `PrefixSums(s)[i]` is `Sum(s[0..=i])` truncated to `i32`.
  - `ScanInto(input, out)` is the buffer as `prefix_sum2` leaves it.
  - `prefix_sum` is a method whose loop grows a `seq`.
  - `prefix_sum2` is a method whose loop keeps the accumulator and writes an
    `array<i32>` in place.

The debug-build behaviour is described by `NoOverflow`, a predicate saying
that no running total leaves the `i32` range. `PrefixSumsExactIff` proves
that the wrapped outputs equal the exact sums exactly when `NoOverflow`
holds.

`prefix_sum2` returns nothing, so `PrefixSum2` has no result.

## Model

| member | source | states |
|---|---|---|
| `I32.Wrap` | src/main.rs:40 | truncation to 32 bits: leaves an in-range value unchanged and always differs from its argument by a multiple of 2^32 |
| `I32.WrappingAdd` | src/main.rs:49 | release-build `i32` addition: equals the exact sum whenever that fits in `i32`, and is congruent to it modulo 2^32 otherwise |
| `Scan.WrappedSumStep` | src/main.rs:49-50 | the accumulator after `i+1` steps is the accumulator after `i` steps plus input `i`, in wrapping `i32` addition |
| `Scan.PrefixSumsRecurrence` | src/main.rs:36-40 | the scan has the input's length, its element 0 is the first input value, and every later element is the input value plus the element before it |
| `Scan.PrefixSumsExactIff` | src/main.rs:40 | the outputs equal the exact sums `sum(in[0..=i])` if and only if no running total overflows `i32`, which is when a debug build does not panic |
| `Scan.PrefixSumsDifference` | src/main.rs:39-40 | without overflow, consecutive outputs differ by exactly the input value at that position |
| `Scan.KernelsAgree` | src/main.rs:34-52 | with an output buffer as long as the input, the buffer described by `PrefixSum2`'s contract is the scan described by `PrefixSum`'s contract; the agreement itself comes from those two contracts naming the same reference `PrefixSums` |
| `Scan.PrefixSum` | src/main.rs:34-44 | returns one element per input element (so empty in, empty out), element 0 is `array[0]`, each later element is the input plus the previous output, and the whole result is the `i32` scan of the input |
| `Scan.PrefixSum2` | src/main.rs:46-52 | slot `i` holds `sum(in[0..=i])` in `i32` for every `i < min(|in|, |out|)`, every slot at or past `|in|` keeps its old value, and nothing is written outside the buffer |
| `Scan.ScanBothWays` | src/main.rs:62-71 | `main`'s two uses of the kernels on `v` (into a zeroed buffer of the same length, and as a fresh vector) yield the same sequence, the `i32` scan of `v` |

## Left out

- `benchmark`, `TimeResult` and its `Display` impl (src/main.rs:4-32): wall-clock timing and `f32` mean and standard deviation. This is I/O and floating point.
- `make_random_vector` (src/main.rs:54-57): a wrapper over the external `rand` crate's random number generator.
- `main` (src/main.rs:59-81): the vector size constant, the timing closures, `println!` output and the `f32` throughput figure. Only its use of the two kernels is modelled, by `Scan.ScanBothWays`.
- The debug-build panic on `i32` overflow is not modelled as a trap. The kernels use release wrap-around, and `Scan.PrefixSumsExactIff` says when the two builds agree.
- Rust's iterator adaptors (`enumerate`, `zip`, `iter_mut`) become index loops over the same positions. The `usize` index cannot overflow for a slice in memory, so it is an unbounded `nat`.
