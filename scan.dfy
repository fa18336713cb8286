/**
 The two sequential prefix-sum (running total) kernels of the benchmark:
 `prefix_sum`, which builds a fresh vector, and `prefix_sum2`, which writes
 into a caller-supplied output buffer. Both add in `i32`; the model takes
 the release-build semantics, where that addition wraps around.
 */
module Scan {
  import opened I32

  /** The mathematical sum of `s`, with no bound on its size. */
  function Sum(s: seq<int>): int {
    if s == [] then 0 else Sum(s[..|s| - 1]) + s[|s| - 1]
  }

  /** Element `i` of the scan of `s` is the sum of `s[0..=i]`, truncated to `i32`. */
  function PrefixSums(s: seq<i32>): seq<i32> {
    seq(|s|, i requires 0 <= i < |s| => Wrap(Sum(s[..i + 1])))
  }

  /** No running total of `s` leaves the `i32` range: a debug build does not panic. */
  predicate NoOverflow(s: seq<i32>) {
    forall k :: 0 < k <= |s| ==> InRange(Sum(s[..k]))
  }

  /** The buffer `out` after `prefix_sum2(input, out)`: the zip of the two
      stops at the shorter one, so only the first `min(|input|, |out|)`
      slots hold running totals and the rest keep their old values. */
  function ScanInto(input: seq<i32>, out: seq<i32>): seq<i32> {
    var n := if |input| < |out| then |input| else |out|;
    PrefixSums(input)[..n] + out[n..]
  }

  lemma SumStep(s: seq<int>, i: nat)
    requires i < |s|
    ensures Sum(s[..i + 1]) == Sum(s[..i]) + s[i]
  {
    assert s[..i + 1][..i] == s[..i];
  }

  /** One more input element advances the truncated running total by one
      wrapping addition. */
  lemma WrappedSumStep(s: seq<i32>, i: nat)
    requires i < |s|
    ensures Wrap(Sum(s[..i + 1])) == WrappingAdd(Wrap(Sum(s[..i])), s[i])
  {
    SumStep(s, i);
    WrapAddLeft(Sum(s[..i]), s[i]);
  }

  /** The scan starts with the first input value, and every later element is
      the input value plus the element before it, as `prefix_sum` computes it. */
  lemma PrefixSumsRecurrence(s: seq<i32>)
    ensures |PrefixSums(s)| == |s|
    ensures |s| > 0 ==> PrefixSums(s)[0] == s[0]
    ensures forall i :: 0 < i < |s| ==> PrefixSums(s)[i] == WrappingAdd(s[i], PrefixSums(s)[i - 1])
  {
    if |s| > 0 {
      WrappedSumStep(s, 0);
    }
    forall i | 0 < i < |s|
      ensures PrefixSums(s)[i] == WrappingAdd(s[i], PrefixSums(s)[i - 1])
    {
      WrappedSumStep(s, i);
    }
  }

  /** The scan holds the exact sums `sum(s[0..=i])` exactly when no running
      total overflows, which is when a debug build finishes without panicking. */
  lemma PrefixSumsExactIff(s: seq<i32>)
    ensures NoOverflow(s) <==> forall i :: 0 <= i < |s| ==> PrefixSums(s)[i] == Sum(s[..i + 1])
  {
    if NoOverflow(s) {
      forall i | 0 <= i < |s| ensures PrefixSums(s)[i] == Sum(s[..i + 1]) {
        assert InRange(Sum(s[..i + 1]));
      }
    }
    if forall i :: 0 <= i < |s| ==> PrefixSums(s)[i] == Sum(s[..i + 1]) {
      forall k | 0 < k <= |s| ensures InRange(Sum(s[..k])) {
        assert PrefixSums(s)[k - 1] == Sum(s[..k]);
      }
    }
  }

  /** Without overflow, consecutive outputs differ by exactly the input value. */
  lemma PrefixSumsDifference(s: seq<i32>, i: nat)
    requires NoOverflow(s)
    requires 0 < i < |s|
    ensures PrefixSums(s)[i] as int - PrefixSums(s)[i - 1] == s[i]
  {
    PrefixSumsExactIff(s);
    assert PrefixSums(s)[i] == Sum(s[..i + 1]);
    assert PrefixSums(s)[i - 1] == Sum(s[..i]);
    SumStep(s, i);
  }

  /** With an output buffer as long as the input, the buffer that the contract
      of `PrefixSum2` describes is the scan that the contract of `PrefixSum`
      describes. The kernels' agreement rests on those two contracts, which
      name the same reference `PrefixSums`; this lemma only unfolds `ScanInto`
      for equal lengths. */
  lemma KernelsAgree(input: seq<i32>, out: seq<i32>)
    requires |out| == |input|
    ensures ScanInto(input, out) == PrefixSums(input)
  {
  }

  /** `prefix_sum`: pushes one running total per input element, reading the
      previous total back from the vector under construction. */
  method PrefixSum(values: seq<i32>) returns (sums: seq<i32>)
    ensures |sums| == |values|
    ensures |values| > 0 ==> sums[0] == values[0]
    ensures forall i :: 0 < i < |values| ==> sums[i] == WrappingAdd(values[i], sums[i - 1])
    ensures sums == PrefixSums(values)
  {
    sums := [];
    for i := 0 to |values|
      invariant |sums| == i
      invariant forall k :: 0 <= k < i ==> sums[k] == Wrap(Sum(values[..k + 1]))
    {
      var val := values[i];
      WrappedSumStep(values, i);
      if i == 0 {
        sums := sums + [val];
      } else {
        sums := sums + [WrappingAdd(val, sums[i - 1])];
      }
    }
    assert sums == PrefixSums(values);
    PrefixSumsRecurrence(values);
  }

  /** `prefix_sum2`: a running accumulator `acc`, starting at 0, is advanced
      by each input value and stored in the matching output slot; the zip of
      input and output ends at the shorter of the two. */
  method PrefixSum2(arrayIn: seq<i32>, arrayOut: array<i32>)
    modifies arrayOut
    ensures forall i :: 0 <= i < |arrayIn| && i < arrayOut.Length ==> arrayOut[i] == PrefixSums(arrayIn)[i]
    ensures forall i :: |arrayIn| <= i < arrayOut.Length ==> arrayOut[i] == old(arrayOut[i])
    ensures arrayOut[..] == ScanInto(arrayIn, old(arrayOut[..]))
  {
    var n := if |arrayIn| < arrayOut.Length then |arrayIn| else arrayOut.Length;
    var acc: i32 := 0;
    for i := 0 to n
      invariant acc == Wrap(Sum(arrayIn[..i]))
      invariant forall k :: 0 <= k < i ==> arrayOut[k] == Wrap(Sum(arrayIn[..k + 1]))
      invariant forall k :: i <= k < arrayOut.Length ==> arrayOut[k] == old(arrayOut[k])
    {
      WrappedSumStep(arrayIn, i);
      acc := WrappingAdd(acc, arrayIn[i]);
      arrayOut[i] := acc;
    }
    assert arrayOut[..] == ScanInto(arrayIn, old(arrayOut[..]));
  }

  /** What `main` does with the two kernels: scan `v` into a zeroed buffer of
      the same length with `prefix_sum2`, and scan it again with `prefix_sum`;
      the two results are the same scan. */
  method ScanBothWays(v: seq<i32>) returns (sums: seq<i32>, out: seq<i32>)
    ensures sums == out
    ensures sums == PrefixSums(v)
  {
    var v1 := new i32[|v|](_ => 0);
    ghost var zeroed := v1[..];
    PrefixSum2(v, v1);
    sums := PrefixSum(v);
    out := v1[..];
    KernelsAgree(v, zeroed);
  }
}
