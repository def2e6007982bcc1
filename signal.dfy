/**
 The signal abstraction: a finite sequence of samples read through an
 infinite zero-padding, the sample-wise `+` of two signals and the direct
 discrete convolution ("fold").

 Samples are exact integers; the two index types of the library (an unsigned
 `usize` and a signed 32-bit `i32`) are modelled as `nat` and `I32`.
 */
module Signal {

  const I32Min: int := -0x8000_0000
  const I32Max: int := 0x7fff_ffff

  /** A signed 32-bit integer. */
  type I32 = x: int | I32Min <= x <= I32Max

  /** The cast `n as i32` of an unsigned length: the low 32 bits, read as two's complement. */
  function AsI32(n: nat): (r: I32)
    ensures r <= n
    ensures n <= I32Max ==> r == n
  {
    var low := n % 0x1_0000_0000;
    if low <= I32Max then low else low - 0x1_0000_0000
  }

  /** A finite signal; immutable once built. */
  datatype AperiodicSignal = AperiodicSignal(values: seq<int>)

  function New(values: seq<int>): AperiodicSignal
  {
    AperiodicSignal(values)
  }

  function Len(s: AperiodicSignal): nat
  {
    |s.values|
  }

  /** The reference zero-padded read: the stored sample inside 0..len, zero at every other integer. */
  function Sample(s: seq<int>, i: int): int
  {
    if 0 <= i < |s| then s[i] else 0
  }

  /** Reading at an unsigned index: the stored sample below the length, zero at or beyond it. */
  function At(s: AperiodicSignal, index: nat): (r: int)
    ensures index < |s.values| ==> r == s.values[index]
    ensures index >= |s.values| ==> r == 0
  {
    if index >= Len(s) then 0 else s.values[index]
  }

  /**
   Reading at a signed 32-bit index. The length is compared after its own
   cast to 32 bits, so the read never leaves the stored samples, and it is
   the zero-padded read whenever the length fits in an `i32`.
   */
  function AtI32(s: AperiodicSignal, index: I32): (r: int)
    ensures r != 0 ==> 0 <= index < |s.values| && r == s.values[index]
    ensures |s.values| <= I32Max && 0 <= index < |s.values| ==> r == s.values[index]
    ensures |s.values| <= I32Max && (index < 0 || index >= |s.values|) ==> r == 0
  {
    if index < 0 || index >= AsI32(Len(s)) then 0 else s.values[index]
  }

  /** Both index types agree with the reference zero-padded read wherever they apply. */
  lemma ReadsAreZeroPadded(s: AperiodicSignal, u: nat, k: I32)
    ensures At(s, u) == Sample(s.values, u)
    ensures |s.values| <= I32Max ==> AtI32(s, k) == Sample(s.values, k)
    ensures |s.values| <= I32Max && k >= 0 ==> AtI32(s, k) == At(s, k)
  {
  }

  /** Building a signal from a sample list and reading it back returns that list, padded with zeros. */
  lemma NewRoundTrip(values: seq<int>, u: nat)
    ensures Len(New(values)) == |values|
    ensures New(values).values == values
    ensures At(New(values), u) == if u < |values| then values[u] else 0
  {
  }

  // ---------------------------------------------------------------------
  // Addition

  /** Sample-wise sum with the length of the left operand; the right one is zero-padded. */
  function Plus(a: AperiodicSignal, b: AperiodicSignal): AperiodicSignal
  {
    AperiodicSignal(seq(|a.values|, i requires 0 <= i < |a.values| => a.values[i] + Sample(b.values, i)))
  }

  /** The `+` operator: pushes `a[i] + b[i]` for every index of the left operand. */
  method Add(a: AperiodicSignal, b: AperiodicSignal) returns (c: AperiodicSignal)
    ensures |c.values| == |a.values|
    ensures forall i :: 0 <= i < |a.values| ==> c.values[i] == a.values[i] + Sample(b.values, i)
    ensures c == Plus(a, b)
  {
    var newSignal: seq<int> := [];
    var i := 0;
    while i < Len(a)
      invariant 0 <= i <= |a.values|
      invariant |newSignal| == i
      invariant forall k :: 0 <= k < i ==> newSignal[k] == a.values[k] + Sample(b.values, k)
    {
      newSignal := newSignal + [At(a, i) + At(b, i)];
      i := i + 1;
    }
    c := New(newSignal);
  }

  /** A zero-padded right operand no longer than the left one is added exactly; a longer one loses its tail. */
  lemma PlusZeroExtends(a: AperiodicSignal, b: AperiodicSignal)
    ensures |Plus(a, b).values| == |a.values|
    ensures |b.values| <= |a.values| ==>
      forall i :: 0 <= i < |b.values| ==> Plus(a, b).values[i] == a.values[i] + b.values[i]
    ensures forall i :: |b.values| <= i < |a.values| ==> Plus(a, b).values[i] == a.values[i]
  {
  }

  lemma AddExamples()
    ensures Plus(New([1, 4, 8, 3]), New([2, 3, 8, -1])) == New([3, 7, 16, 2])
    ensures Plus(New([1, 4, 8, 3]), New([2, 3])) == New([3, 7, 8, 3])
    ensures Plus(New([1]), New([2, 3])) == New([3])
  {
  }

  // ---------------------------------------------------------------------
  // Convolution

  /** The partial convolution sum `h[0]*x[i] + ... + h[k-1]*x[i-k+1]`, both operands zero-padded. */
  function ConvSum(x: seq<int>, h: seq<int>, i: int, k: nat): int
  {
    if k == 0 then 0 else ConvSum(x, h, i, k - 1) + Sample(h, k - 1) * Sample(x, i - (k - 1))
  }

  /** The discrete convolution of `x` with the kernel `h`: `|x| + |h| - 1` samples. */
  function Convolution(x: seq<int>, h: seq<int>): seq<int>
    requires |x| + |h| >= 1
  {
    seq(|x| + |h| - 1, i => ConvSum(x, h, i, |h|))
  }

  /**
   `fold`: for every output index, accumulates `rhs[j] * self[i - j]` over
   the kernel with both reads at 32-bit indices. The casts of both loop
   bounds, `(n + m - 1) as i32` and `m as i32`, must be exact, and not both
   operands may be empty.
   */
  method Fold(x: AperiodicSignal, rhs: AperiodicSignal) returns (y: AperiodicSignal)
    requires 1 <= |x.values| + |rhs.values| <= I32Max + 1
    requires |rhs.values| <= I32Max
    ensures |y.values| == |x.values| + |rhs.values| - 1
    ensures forall i :: 0 <= i < |y.values| ==> y.values[i] == ConvSum(x.values, rhs.values, i, |rhs.values|)
    ensures y.values == Convolution(x.values, rhs.values)
  {
    var n := Len(x);
    var m := Len(rhs);
    var output: seq<int> := [];
    var i: I32 := 0;
    while i < AsI32(n + m - 1)
      invariant 0 <= i <= n + m - 1
      invariant |output| == i
      invariant forall k :: 0 <= k < i ==> output[k] == ConvSum(x.values, rhs.values, k, m)
    {
      var sum := 0;
      var j: I32 := 0;
      while j < AsI32(m)
        invariant 0 <= j <= m
        invariant sum == ConvSum(x.values, rhs.values, i, j)
      {
        sum := sum + AtI32(rhs, j) * AtI32(x, i - j);
        j := j + 1;
      }
      output := output + [sum];
      i := i + 1;
    }
    y := New(output);
  }

  /** A kernel whose first `k` samples are zero contributes nothing to the first `k` terms of the sum. */
  lemma {:induction false} ConvSumOverZeros(x: seq<int>, h: seq<int>, i: int, k: nat)
    requires k <= |h|
    requires forall j :: 0 <= j < k ==> h[j] == 0
    ensures ConvSum(x, h, i, k) == 0
  {
    if k > 0 {
      ConvSumOverZeros(x, h, i, k - 1);
    }
  }

  /** The unit impulse delayed by `k`: `k` zeros followed by a one. */
  function Delta(k: nat): (d: seq<int>)
    ensures |d| == k + 1 && d[k] == 1
    ensures forall j :: 0 <= j < k ==> d[j] == 0
  {
    seq(k, _ => 0) + [1]
  }

  /** Folding with the delayed unit impulse shifts the signal right by `k`, behind `k` leading zeros. */
  lemma {:induction false} FoldDelay(x: seq<int>, k: nat)
    ensures Convolution(x, Delta(k)) == seq(k, _ => 0) + x
  {
    var d := Delta(k);
    var r := Convolution(x, d);
    var e := seq(k, _ => 0) + x;
    assert |r| == |e|;
    forall i | 0 <= i < |r|
      ensures r[i] == e[i]
    {
      ConvSumOverZeros(x, d, i, k);
      assert r[i] == Sample(x, i - k);
    }
  }

  /** Folding with the one-sample kernel `[c]` scales every sample by `c`. */
  lemma FoldScale(x: seq<int>, c: int)
    ensures Convolution(x, [c]) == seq(|x|, i requires 0 <= i < |x| => c * x[i])
  {
    var r := Convolution(x, [c]);
    forall i | 0 <= i < |x|
      ensures r[i] == c * x[i]
    {
      assert r[i] == ConvSum(x, [c], i, 1);
    }
  }

  /** Folding with the kernel `[1]` returns the signal unchanged. */
  lemma FoldIdentity(x: seq<int>)
    ensures Convolution(x, [1]) == x
  {
    FoldDelay(x, 0);
    assert Delta(0) == [1];
    assert seq(0, _ => 0) + x == x;
  }

  lemma FoldExamples()
    ensures Convolution([1, 2, 3, 4, 5], [1]) == [1, 2, 3, 4, 5]
    ensures Convolution([1, 2, 3, 4, 5], [0, 0, 1]) == [0, 0, 1, 2, 3, 4, 5]
    ensures Convolution([1, 2, -3, 4, 5], [2]) == [2, 4, -6, 8, 10]
  {
    FoldIdentity([1, 2, 3, 4, 5]);
    FoldDelay([1, 2, 3, 4, 5], 2);
    assert Delta(2) == [0, 0, 1];
    assert seq(2, _ => 0) + [1, 2, 3, 4, 5] == [0, 0, 1, 2, 3, 4, 5];
    FoldScale([1, 2, -3, 4, 5], 2);
  }
}
