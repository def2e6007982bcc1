/**
 The three decompositions of a signal into elementary components: one-hot
 impulses, right-sided steps, and an even/odd pair under the reflection
 `i ↦ n - i`. Each is a method that fills fresh sample vectors in loops,
 proved against a declarative definition of its output.
 */
module Decomposition {
  import opened Signal

  /** The sample vector `vec![0; n]`. */
  function Zeros(n: nat): seq<int>
  {
    seq(n, _ => 0)
  }

  /** Sums components with the library's `+`, starting from the all-zero signal of length `n`. */
  function AddAll(parts: seq<AperiodicSignal>, n: nat): AperiodicSignal
  {
    if parts == [] then New(Zeros(n)) else Plus(AddAll(parts[..|parts| - 1], n), parts[|parts| - 1])
  }

  // ---------------------------------------------------------------------
  // Impulse decomposition

  /** The `i`-th component holds `s[i]` at position `i` and zero elsewhere. */
  function Impulses(s: seq<int>): seq<AperiodicSignal>
  {
    seq(|s|, i requires 0 <= i < |s| => AperiodicSignal(seq(|s|, j => if j == i then s[i] else 0)))
  }

  method ImpulseDecomposition(signal: AperiodicSignal) returns (output: seq<AperiodicSignal>)
    ensures output == Impulses(signal.values)
  {
    output := [];
    var i := 0;
    while i < Len(signal)
      invariant 0 <= i <= |signal.values|
      invariant output == Impulses(signal.values)[..i]
    {
      var newValues := new int[Len(signal)](_ => 0);
      newValues[i] := At(signal, i);
      assert newValues[..] == Impulses(signal.values)[i].values;
      output := output + [New(newValues[..])];
      i := i + 1;
    }
  }

  /** There are `n` components of length `n`, each zero except on its own diagonal position. */
  lemma ImpulseShape(s: seq<int>)
    ensures |Impulses(s)| == |s|
    ensures forall i :: 0 <= i < |s| ==> |Impulses(s)[i].values| == |s|
    ensures forall i, j :: 0 <= i < |s| && 0 <= j < |s| ==>
      Impulses(s)[i].values[j] == if i == j then s[i] else 0
  {
  }

  /** Adding up the first `k` impulses gives `s` on positions below `k` and zero from `k` on. */
  lemma {:induction false} ImpulsePrefixSum(s: seq<int>, k: nat)
    requires k <= |s|
    ensures AddAll(Impulses(s)[..k], |s|).values == seq(|s|, j requires 0 <= j < |s| => if j < k then s[j] else 0)
  {
    var parts := Impulses(s)[..k];
    if k > 0 {
      ImpulsePrefixSum(s, k - 1);
      assert parts[..k - 1] == Impulses(s)[..k - 1];
    }
  }

  /** The impulse components add back up to the signal. */
  lemma ImpulseReconstruction(s: seq<int>)
    ensures AddAll(Impulses(s), |s|).values == s
  {
    ImpulsePrefixSum(s, |s|);
    assert Impulses(s)[..|s|] == Impulses(s);
  }

  lemma ImpulseExamples()
    ensures Impulses([4]) == [New([4])]
    ensures Impulses([4, 2, 5]) == [New([4, 0, 0]), New([0, 2, 0]), New([0, 0, 5])]
  {
    assert Impulses([4])[0].values == [4];
    var s := [4, 2, 5];
    assert Impulses(s)[0].values == [4, 0, 0];
    assert Impulses(s)[1].values == [0, 2, 0];
    assert Impulses(s)[2].values == [0, 0, 5];
  }

  // ---------------------------------------------------------------------
  // Step decomposition

  /**
   The first component is all zeros; for `1 <= i < n` the `i`-th is the step
   of height `s[i] - s[i-1]` starting at position `i`. An empty signal yields
   one empty component.
   */
  function Steps(s: seq<int>): seq<AperiodicSignal>
  {
    [AperiodicSignal(Zeros(|s|))] +
    seq(if |s| == 0 then 0 else |s| - 1, k requires 0 <= k < |s| - 1 =>
      AperiodicSignal(seq(|s|, j => if j >= k + 1 then s[k + 1] - s[k] else 0)))
  }

  method StepDecomposition(signal: AperiodicSignal) returns (output: seq<AperiodicSignal>)
    ensures output == Steps(signal.values)
  {
    var n := Len(signal);
    StepShape(signal.values);
    output := [New(Zeros(n))];
    var i := 1;
    while i < n
      invariant 1 <= i <= if n == 0 then 1 else n
      invariant output == Steps(signal.values)[..i]
    {
      var diff := At(signal, i) - At(signal, i - 1);
      var newValues := new int[n](_ => 0);
      var j := i;
      while j < n
        invariant i <= j <= n
        invariant forall p :: 0 <= p < n ==> newValues[p] == if i <= p < j then diff else 0
      {
        newValues[j] := diff;
        j := j + 1;
      }
      assert newValues[..] == Steps(signal.values)[i].values;
      output := output + [New(newValues[..])];
      i := i + 1;
    }
    assert Steps(signal.values)[..i] == Steps(signal.values);
  }

  /** `n` components of length `n` for a nonempty signal (one when it is empty); step `i` is zero before `i`. */
  lemma StepShape(s: seq<int>)
    ensures |Steps(s)| == if |s| == 0 then 1 else |s|
    ensures forall i :: 0 <= i < |Steps(s)| ==> |Steps(s)[i].values| == |s|
    ensures forall j :: 0 <= j < |s| ==> Steps(s)[0].values[j] == 0
    ensures forall i, j :: 1 <= i < |s| && 0 <= j < |s| ==>
      Steps(s)[i].values[j] == if j >= i then s[i] - s[i - 1] else 0
  {
  }

  /** Adding up the first `k` steps telescopes to `s[min(j, k-1)] - s[0]` at position `j`. */
  lemma {:induction false} StepPrefixSum(s: seq<int>, k: nat)
    requires 1 <= k <= |s|
    ensures AddAll(Steps(s)[..k], |s|).values ==
      seq(|s|, j requires 0 <= j < |s| => (if j < k then s[j] else s[k - 1]) - s[0])
  {
    var parts := Steps(s)[..k];
    assert parts[..k - 1] == Steps(s)[..k - 1];
    if k > 1 {
      StepPrefixSum(s, k - 1);
    } else {
      assert AddAll(parts[..0], |s|).values == Zeros(|s|);
    }
  }

  /**
   The step components add back up to the signal less its first sample: the
   first component is all zeros, so `s[0]` itself is never reproduced.
   */
  lemma StepReconstruction(s: seq<int>)
    ensures |AddAll(Steps(s), |s|).values| == |s|
    ensures forall j :: 0 <= j < |s| ==> AddAll(Steps(s), |s|).values[j] == s[j] - s[0]
  {
    if |s| > 0 {
      StepPrefixSum(s, |s|);
      assert Steps(s)[..|s|] == Steps(s);
    } else {
      assert AddAll(Steps(s)[..0], 0).values == [];
    }
  }

  lemma StepExamples()
    ensures Steps([10]) == [New([0])]
    ensures Steps([4, 2, 5]) == [New([0, 0, 0]), New([0, -2, -2]), New([0, 0, 3])]
  {
    assert Steps([10])[0].values == [0];
    var s := [4, 2, 5];
    StepShape(s);
    assert Steps(s)[0].values == [0, 0, 0];
    assert Steps(s)[1].values == [0, -2, -2];
    assert Steps(s)[2].values == [0, 0, 3];
  }

  // ---------------------------------------------------------------------
  // Even/odd decomposition

  /** Integer `a / 2` as the library computes it: the quotient truncated toward zero. */
  function Div2(a: int): (q: int)
    ensures 0 <= a ==> 0 <= a - 2 * q <= 1
    ensures a < 0 ==> -1 <= a - 2 * q <= 0
  {
    if a >= 0 then a / 2 else -((-a) / 2)
  }

  /** Truncating halving commutes with negation (Euclidean halving does not: `-1 / 2 == -1`). */
  lemma Div2Negate(a: int)
    ensures Div2(-a) == -Div2(a)
  {
  }

  /** Position `i` of the even part: `s[0]` at 0, `(s[i] + s[n-i]) / 2` after it. */
  function EvenSample(s: seq<int>, i: nat): int
    requires i < |s| || i == 0
  {
    if i == 0 then Sample(s, 0) else Div2(s[i] + s[|s| - i])
  }

  /** Position `i` of the odd part: `0` at 0, `(s[i] - s[n-i]) / 2` after it. */
  function OddSample(s: seq<int>, i: nat): int
    requires i < |s| || i == 0
  {
    if i == 0 then 0 else Div2(s[i] - s[|s| - i])
  }

  /**
   The even and the odd part, each as long as the signal. An empty signal
   yields `[0]` twice: the first sample is a zero-padded read and the loop
   does not run.
   */
  function EvenOdd(s: seq<int>): seq<AperiodicSignal>
  {
    var len := if |s| == 0 then 1 else |s|;
    [ AperiodicSignal(seq(len, i requires 0 <= i < len => EvenSample(s, i))),
      AperiodicSignal(seq(len, i requires 0 <= i < len => OddSample(s, i))) ]
  }

  method EvenOddDecomposition(signal: AperiodicSignal) returns (output: seq<AperiodicSignal>)
    ensures output == EvenOdd(signal.values)
  {
    var n := Len(signal);
    var s := signal.values;
    var even := [At(signal, 0)];
    var odd := [0];
    var i := 1;
    while i < n
      invariant n == |s|
      invariant 1 <= i <= if n == 0 then 1 else n
      invariant |even| == |odd| == i
      invariant forall k :: 0 <= k < i ==> even[k] == EvenSample(s, k)
      invariant forall k :: 0 <= k < i ==> odd[k] == OddSample(s, k)
    {
      var frontIndex := i % n;
      var backIndex := (n - i) % n;
      assert frontIndex == i && backIndex == n - i by {
        ReduceBelowModulus(i, n);
        ReduceBelowModulus(n - i, n);
      }
      even := even + [Div2(At(signal, frontIndex) + At(signal, backIndex))];
      odd := odd + [Div2(At(signal, frontIndex) - At(signal, backIndex))];
      i := i + 1;
    }
    EvenOddFromSamples(s, even, odd);
    output := [New(even), New(odd)];
  }

  /** Two sample lists that agree with the even and odd formulas everywhere are the two parts. */
  lemma EvenOddFromSamples(s: seq<int>, even: seq<int>, odd: seq<int>)
    requires |even| == |odd| == if |s| == 0 then 1 else |s|
    requires forall k :: 0 <= k < |even| ==> even[k] == EvenSample(s, k) && odd[k] == OddSample(s, k)
    ensures EvenOdd(s) == [New(even), New(odd)]
  {
    var parts := EvenOdd(s);
    assert parts[0].values == even;
    assert parts[1].values == odd;
  }

  /** An index already below the modulus is its own remainder. */
  lemma ReduceBelowModulus(a: nat, n: nat)
    requires a < n
    ensures a % n == a
  {
  }

  /**
   Two components of length `n` (one sample each for an empty signal); the
   even part is symmetric and the odd part antisymmetric under `i ↦ n - i`.
   */
  lemma EvenOddSymmetry(s: seq<int>)
    ensures |EvenOdd(s)| == 2
    ensures |EvenOdd(s)[0].values| == |EvenOdd(s)[1].values| == if |s| == 0 then 1 else |s|
    ensures |s| > 0 ==> EvenOdd(s)[0].values[0] == s[0] && EvenOdd(s)[1].values[0] == 0
    ensures forall i :: 1 <= i < |s| ==> EvenOdd(s)[0].values[i] == EvenOdd(s)[0].values[|s| - i]
    ensures forall i :: 1 <= i < |s| ==> EvenOdd(s)[1].values[i] == -EvenOdd(s)[1].values[|s| - i]
  {
  }

  /**
   Adding the two parts back together is exact wherever `s[i] + s[n-i]` is
   even (always at position 0) and off by at most one elsewhere, because
   both halvings truncate.
   */
  lemma EvenOddReconstruction(s: seq<int>)
    requires |s| > 0
    ensures Plus(EvenOdd(s)[0], EvenOdd(s)[1]).values[0] == s[0]
    ensures forall i :: 1 <= i < |s| && (s[i] + s[|s| - i]) % 2 == 0 ==>
      Plus(EvenOdd(s)[0], EvenOdd(s)[1]).values[i] == s[i]
    ensures forall i :: 1 <= i < |s| ==> -1 <= Plus(EvenOdd(s)[0], EvenOdd(s)[1]).values[i] - s[i] <= 1
  {
  }

  lemma EvenOddExample()
    ensures EvenOdd([4, 1, -3, -4, 10, 5, 7]) == [New([4, 4, 1, 3, 3, 1, 4]), New([0, -3, -4, -7, 7, 4, 3])]
  {
    var s := [4, 1, -3, -4, 10, 5, 7];
    assert Div2(8) == 4 && Div2(-6) == -3;
    assert Div2(2) == 1 && Div2(-8) == -4;
    assert Div2(6) == 3 && Div2(-14) == -7;
    assert Div2(14) == 7;
    assert Div2(-2) == -1 && Div2(8) == 4;
    assert EvenOdd(s)[0].values == [4, 4, 1, 3, 3, 1, 4];
    assert EvenOdd(s)[1].values == [0, -3, -4, -7, 7, 4, 3];
  }
}
