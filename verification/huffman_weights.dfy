/**
 * `distribute_weights` and `redistribute_weights`: the weight vector that
 * `build_from_counts` hands out before any symbol is looked at.
 *
 * `distribute_weights(amount)` builds `amount` non-decreasing weights whose
 * sum of 2^(w-1) is a power of two. `redistribute_weights` then caps the
 * largest weight: it raises every weight below `last - max_weight` to that
 * floor, pays the surplus back by lowering the largest affordable weights one
 * step at a time, and finally shifts everything down so the smallest weight
 * is 1. The quantity "sum of 2^w minus the surplus still owed" never changes.
 */
module HuffmanWeights {
  import opened Bits
  import opened Results
  import opened HuffmanSpec

  predicate NonDecreasing(s: seq<nat>)
  {
    forall i, j :: 0 <= i < j < |s| ==> s[i] <= s[j]
  }

  predicate AllPositive(s: seq<nat>)
  {
    forall i :: 0 <= i < |s| ==> s[i] >= 1
  }

  /** Sum of 2^w over the weights (the `1 << weight` sum of the source's tests). */
  function PowSum(s: seq<nat>): nat
  {
    if s == [] then 0 else Pow2(s[0]) + PowSum(s[1..])
  }

  /** Each weight raised to at least `floor` (the first loop of `redistribute_weights`). */
  function Raise(s: seq<nat>, floor: nat): (r: seq<nat>)
    ensures |r| == |s|
    ensures forall i :: 0 <= i < |s| ==> r[i] == if s[i] < floor then floor else s[i]
  {
    seq(|s|, i requires 0 <= i < |s| => if s[i] < floor then floor else s[i])
  }

  /** Each weight lowered by `offset` (the final loop of `redistribute_weights`). */
  function Shifted(s: seq<nat>, offset: nat): (r: seq<nat>)
    requires forall i :: 0 <= i < |s| ==> s[i] >= offset
    ensures |r| == |s| && forall i :: 0 <= i < |s| ==> r[i] + offset == s[i]
  {
    if s == [] then [] else [s[0] - offset] + Shifted(s[1..], offset)
  }

  lemma {:induction false} WeightSumInPrefix(s: seq<nat>, t: seq<nat>, k: nat)
    requires k <= |s| && k <= |t| && s[..k] == t[..k]
    ensures WeightSumIn(s, k) == WeightSumIn(t, k)
  {
    if k > 0 {
      assert s[k - 1] == s[..k][k - 1] == t[..k][k - 1] == t[k - 1];
      assert s[..k - 1] == s[..k][..k - 1];
      assert t[..k - 1] == t[..k][..k - 1];
      WeightSumInPrefix(s, t, k - 1);
    }
  }

  /** Pushing one weight adds its 2^(w-1) to the weight sum. */
  lemma WeightSumPush(s: seq<nat>, w: nat)
    requires w >= 1
    ensures WeightSum(s + [w]) == WeightSum(s) + Pow2(w - 1)
  {
    assert (s + [w])[..|s|] == s[..|s|];
    WeightSumInPrefix(s + [w], s, |s|);
  }

  /** Changing one weight changes the power sum by the difference of the two powers. */
  lemma {:induction false} PowSumUpdate(s: seq<nat>, j: nat, v: nat)
    requires j < |s|
    ensures PowSum(s[j := v]) + Pow2(s[j]) == PowSum(s) + Pow2(v)
  {
    if j > 0 {
      assert s[j := v][1..] == s[1..][j - 1 := v];
      PowSumUpdate(s[1..], j - 1, v);
    } else {
      assert s[j := v][1..] == s[1..];
    }
  }

  /** Lowering every weight by `offset` divides the power sum by 2^offset. */
  lemma {:induction false} PowSumShift(s: seq<nat>, offset: nat)
    requires forall i :: 0 <= i < |s| ==> s[i] >= offset
    ensures PowSum(s) == PowSum(Shifted(s, offset)) * Pow2(offset)
  {
    if s != [] {
      var t := Shifted(s, offset);
      assert t[1..] == Shifted(s[1..], offset);
      PowSumShift(s[1..], offset);
      Pow2Add(t[0], offset);
      calc {
        PowSum(s);
        Pow2(s[0]) + PowSum(s[1..]);
        Pow2(t[0]) * Pow2(offset) + PowSum(t[1..]) * Pow2(offset);
        { MulAddRight(Pow2(t[0]), PowSum(t[1..]), Pow2(offset)); }
        (Pow2(t[0]) + PowSum(t[1..])) * Pow2(offset);
        PowSum(t) * Pow2(offset);
      }
    }
  }

  lemma {:induction false} ShiftedByZero(s: seq<nat>)
    ensures Shifted(s, 0) == s
  {
    if s != [] {
      ShiftedByZero(s[1..]);
    }
  }

  lemma MulAddRight(x: nat, y: nat, p: nat)
    ensures x * p + y * p == (x + y) * p
  {
  }

  lemma {:induction false} PowSumPositive(s: seq<nat>)
    requires s != []
    ensures PowSum(s) >= 1
  {
  }

  /** For positive weights the `1 << w` sum is twice the `1 << (w - 1)` sum. */
  lemma {:induction false} PowSumDouble(s: seq<nat>)
    requires AllPositive(s)
    ensures PowSum(s) == 2 * WeightSum(s)
    decreases |s|
  {
    if s != [] {
      var init := s[..|s| - 1];
      var last := s[|s| - 1];
      assert s == init + [last];
      PowSumDouble(init);
      WeightSumPush(init, last);
      PowSumAppend(init, last);
    }
  }

  lemma {:induction false} PowSumAppend(s: seq<nat>, w: nat)
    ensures PowSum(s + [w]) == PowSum(s) + Pow2(w)
  {
    if s == [] {
      assert [w][1..] == [];
    } else {
      assert (s + [w])[1..] == s[1..] + [w];
      PowSumAppend(s[1..], w);
    }
  }

  /** `n` copies of `w` (the value the inner `for _ in 0..add_new` loop pushes). */
  function Repeat(w: nat, n: nat): (r: seq<nat>)
    ensures |r| == n && forall i :: 0 <= i < n ==> r[i] == w
  {
    if n == 0 then [] else Repeat(w, n - 1) + [w]
  }

  lemma {:induction false} WeightSumRepeated(s: seq<nat>, w: nat, n: nat)
    requires w >= 1
    ensures WeightSum(s + Repeat(w, n)) == WeightSum(s) + n * Pow2(w - 1)
  {
    if n > 0 {
      var prev := s + Repeat(w, n - 1);
      var p := Pow2(w - 1);
      WeightSumRepeated(s, w, n - 1);
      assert s + Repeat(w, n) == prev + [w];
      WeightSumPush(prev, w);
      assert n * p == (n - 1) * p + p;
    } else {
      assert s + Repeat(w, 0) == s;
    }
  }

  /** Pushing copies of a weight no smaller than the last keeps the vector ordered and positive. */
  lemma RepeatKeepsOrder(s: seq<nat>, w: nat, n: nat)
    requires |s| >= 2 && NonDecreasing(s) && AllPositive(s) && s[|s| - 1] <= w && n >= 1
    ensures NonDecreasing(s + Repeat(w, n)) && AllPositive(s + Repeat(w, n))
    ensures (s + Repeat(w, n))[..2] == s[..2] && (s + Repeat(w, n))[|s| + n - 1] == w
  {
    var r := s + Repeat(w, n);
    forall i, j | 0 <= i < j < |r|
      ensures r[i] <= r[j]
    {
      if j < |s| {
        assert r[i] == s[i] && r[j] == s[j];
      } else if i < |s| {
        assert s[i] <= s[|s| - 1];
      }
    }
  }

  /** The inner loop of `distribute_weights`: push `w` onto the vector `n` times. */
  method PushRepeated(weights: seq<nat>, w: nat, n: nat) returns (r: seq<nat>)
    ensures r == weights + Repeat(w, n)
  {
    r := weights;
    var pushed := 0;
    while pushed < n
      invariant pushed <= n && r == weights + Repeat(w, pushed)
    {
      r := r + [w];
      pushed := pushed + 1;
    }
  }

  /**
   * The loop of `distribute_weights` as a value, from the vector built so far
   * and the counters `target_weight` and `weight_counter`: push
   * 2^(counter - target) copies of the target weight, or, when they do not
   * fit in what is left, one copy of the counter, which becomes the target.
   */
  function DistributeFrom(weights: seq<nat>, amount: nat, targetWeight: nat, weightCounter: nat): (r: seq<nat>)
    requires targetWeight < weightCounter
    ensures |r| >= |weights|
    decreases amount - |weights|
  {
    if |weights| >= amount then weights
    else if Pow2(weightCounter - targetWeight) > amount - |weights| then
      DistributeFrom(weights + [weightCounter], amount, weightCounter, weightCounter + 1)
    else
      DistributeFrom(weights + Repeat(targetWeight, Pow2(weightCounter - targetWeight)), amount, targetWeight, weightCounter + 1)
  }

  /** What `distribute_weights(amount)` returns when it does not panic. */
  function DistributeSpec(amount: nat): seq<nat>
  {
    DistributeFrom([1, 1], amount, 1, 2)
  }

  /**
   * The last weight `distribute_weights(amount)` makes is within the cap
   * `ilog2(amount) + 2` that `build_from_counts` passes, so
   * `redistribute_weights` leaves the vector as it is.
   */
  predicate WithinCap(amount: nat)
  {
    amount >= 1 && DistributeSpec(amount)[|DistributeSpec(amount)| - 1] <= Log2(amount) + 2
  }

  /**
   * Five and ten symbols. Both vectors skip weight levels (2 for five;
   * 2 and 3 for ten), and both are within the cap.
   */
  lemma DistributeExamples()
    ensures DistributeSpec(5) == [1, 1, 1, 1, 3] && WithinCap(5)
    ensures DistributeSpec(10) == [1, 1, 1, 1, 1, 1, 1, 1, 4, 5] && WithinCap(10)
  {
    assert Pow2(1) == 2 && Pow2(2) == 4 && Pow2(3) == 8;
    assert [1, 1] + Repeat(1, 2) == [1, 1, 1, 1];
    assert [1, 1, 1, 1] + Repeat(1, 4) == [1, 1, 1, 1, 1, 1, 1, 1];
    assert DistributeSpec(5) == DistributeFrom([1, 1, 1, 1], 5, 1, 3);
    assert DistributeSpec(10) == DistributeFrom([1, 1, 1, 1], 10, 1, 3);
    assert DistributeSpec(10) == DistributeFrom([1, 1, 1, 1, 1, 1, 1, 1], 10, 1, 4);
    assert DistributeSpec(10) == DistributeFrom([1, 1, 1, 1, 1, 1, 1, 1, 4], 10, 4, 5);
  }

  /** The loop of `distribute_weights` keeps the vector ordered and positive. */
  lemma {:induction false} DistributeFromOrdered(weights: seq<nat>, amount: nat, targetWeight: nat, weightCounter: nat)
    requires 1 <= targetWeight < weightCounter
    requires |weights| >= 2 && NonDecreasing(weights) && AllPositive(weights) && weights[|weights| - 1] == targetWeight
    ensures NonDecreasing(DistributeFrom(weights, amount, targetWeight, weightCounter))
    ensures AllPositive(DistributeFrom(weights, amount, targetWeight, weightCounter))
    decreases amount - |weights|
  {
    if |weights| < amount {
      if Pow2(weightCounter - targetWeight) > amount - |weights| {
        assert weights + Repeat(weightCounter, 1) == weights + [weightCounter];
        RepeatKeepsOrder(weights, weightCounter, 1);
        DistributeFromOrdered(weights + [weightCounter], amount, weightCounter, weightCounter + 1);
      } else {
        var n := Pow2(weightCounter - targetWeight);
        RepeatKeepsOrder(weights, targetWeight, n);
        DistributeFromOrdered(weights + Repeat(targetWeight, n), amount, targetWeight, weightCounter + 1);
      }
    }
  }

  lemma DistributeSpecOrdered(amount: nat)
    ensures NonDecreasing(DistributeSpec(amount)) && AllPositive(DistributeSpec(amount))
  {
    DistributeFromOrdered([1, 1], amount, 1, 2);
  }

  /** One pass of the loop of `distribute_weights` in terms of `DistributeFrom`. */
  lemma DistributeStep(weights: seq<nat>, amount: nat, targetWeight: nat, weightCounter: nat, nextTarget: nat, addNew: nat)
    requires targetWeight < weightCounter && |weights| < amount
    requires Pow2(weightCounter - targetWeight) > amount - |weights| ==> nextTarget == weightCounter && addNew == 1
    requires Pow2(weightCounter - targetWeight) <= amount - |weights| ==>
      nextTarget == targetWeight && addNew == Pow2(weightCounter - targetWeight)
    ensures DistributeFrom(weights, amount, targetWeight, weightCounter)
      == DistributeFrom(weights + Repeat(nextTarget, addNew), amount, nextTarget, weightCounter + 1)
  {
    assert Repeat(weightCounter, 1) == [weightCounter];
  }

  /**
   * One pass of the loop of `distribute_weights`: push 2^(counter - target)
   * copies of the target weight, or one copy of the counter (the new
   * target) when they do not fit. The sum of 2^(w-1) doubles.
   */
  method DistributeRound(weights: seq<nat>, amount: nat, targetWeight: nat, weightCounter: nat)
    returns (next: seq<nat>, nextTarget: nat)
    requires 2 <= |weights| < amount
    requires weights[0] == 1 && weights[1] == 1 && NonDecreasing(weights) && AllPositive(weights)
    requires 1 <= targetWeight < weightCounter && weights[|weights| - 1] == targetWeight
    requires WeightSum(weights) == Pow2(weightCounter - 1)
    ensures |weights| < |next| <= amount && next[0] == 1 && next[1] == 1
    ensures NonDecreasing(next) && AllPositive(next)
    ensures 1 <= nextTarget < weightCounter + 1 && next[|next| - 1] == nextTarget
    ensures WeightSum(next) == Pow2(weightCounter)
    ensures DistributeFrom(next, amount, nextTarget, weightCounter + 1) == DistributeFrom(weights, amount, targetWeight, weightCounter)
  {
    nextTarget := targetWeight;
    var addNew := Pow2(weightCounter - targetWeight);
    var availableSpace := amount - |weights|;
    if addNew > availableSpace {
      nextTarget := weightCounter;
      addNew := 1;
    } else {
      Pow2Add(weightCounter - targetWeight, targetWeight - 1);
    }
    assert addNew * Pow2(nextTarget - 1) == Pow2(weightCounter - 1);
    DistributeStep(weights, amount, targetWeight, weightCounter, nextTarget, addNew);
    next := PushRepeated(weights, nextTarget, addNew);
    WeightSumRepeated(weights, nextTarget, addNew);
    RepeatKeepsOrder(weights, nextTarget, addNew);
  }

  /**
   * `distribute_weights`: panics (here `None`) unless 2 <= amount <= 256;
   * otherwise `amount` positive, non-decreasing weights starting [1, 1]
   * whose sum of 2^(w-1) is a power of two.
   */
  method DistributeWeights(amount: nat) returns (r: Option<seq<nat>>)
    ensures r.None? <==> amount < 2 || amount > 256
    ensures r.Some? ==> |r.value| == amount && r.value[0] == 1 && r.value[1] == 1
    ensures r.Some? ==> NonDecreasing(r.value) && AllPositive(r.value)
    ensures r.Some? ==> KraftValid(r.value) && IsPowerOfTwo(PowSum(r.value))
    ensures r.Some? ==> r.value == DistributeSpec(amount)
  {
    if amount < 2 || amount > 256 {
      return None;
    }
    var weights, weightCounter := DistributeLoop(amount);
    Pow2IsPowerOfTwo(weightCounter - 1);
    PowSumDouble(weights);
    Pow2IsPowerOfTwo(weightCounter);
    return Some(weights);
  }

  /**
   * The vector and the loop of `distribute_weights` for an amount it accepts:
   * the weight sum doubles with every pass, and the vector ends as
   * `DistributeSpec(amount)`.
   */
  method DistributeLoop(amount: nat) returns (weights: seq<nat>, weightCounter: nat)
    requires amount >= 2
    ensures |weights| == amount && weights[0] == 1 && weights[1] == 1
    ensures NonDecreasing(weights) && AllPositive(weights)
    ensures weightCounter >= 1 && WeightSum(weights) == Pow2(weightCounter - 1)
    ensures weights == DistributeSpec(amount)
  {
    weights := [];
    var targetWeight := 1;
    weightCounter := 2;
    weights := weights + [1];
    weights := weights + [1];
    WeightSumPush([], 1);
    WeightSumPush([1], 1);
    assert [] + [1] == [1] && [1] + [1] == weights;
    assert weights == [1, 1];

    while |weights| < amount
      invariant 2 <= |weights| <= amount
      invariant weights[0] == 1 && weights[1] == 1
      invariant NonDecreasing(weights) && AllPositive(weights)
      invariant 1 <= targetWeight < weightCounter
      invariant weights[|weights| - 1] == targetWeight
      invariant WeightSum(weights) == Pow2(weightCounter - 1)
      invariant DistributeFrom(weights, amount, targetWeight, weightCounter) == DistributeSpec(amount)
      decreases amount - |weights|
    {
      weights, targetWeight := DistributeRound(weights, amount, targetWeight, weightCounter);
      weightCounter := weightCounter + 1;
    }
  }

  datatype Outcome = Done | Panicked

  /**
   * How many leading weights the pay-back scan accepts: each positive with
   * 2^(w-1) within `budget`. The scan breaks at the first weight past it.
   */
  function Affordable(s: seq<nat>, budget: nat): (n: nat)
    ensures n <= |s|
  {
    if s == [] || s[0] == 0 || Pow2(s[0] - 1) > budget then 0 else 1 + Affordable(s[1..], budget)
  }

  /** Every weight `Affordable` counts is positive and within budget, and the one after it is not. */
  lemma {:induction false} AffordablePrefix(s: seq<nat>, budget: nat)
    ensures forall k :: 0 <= k < Affordable(s, budget) ==> s[k] >= 1 && Pow2(s[k] - 1) <= budget
    ensures Affordable(s, budget) < |s| ==> s[Affordable(s, budget)] == 0 || Pow2(s[Affordable(s, budget)] - 1) > budget
  {
    if s != [] && s[0] >= 1 && Pow2(s[0] - 1) <= budget {
      AffordablePrefix(s[1..], budget);
    }
  }

  /** A scan that accepts exactly `s[..n]` stopped where `Affordable` says. */
  lemma AffordableAt(s: seq<nat>, budget: nat, n: nat)
    requires n <= |s|
    requires forall k :: 0 <= k < n ==> s[k] >= 1 && Pow2(s[k] - 1) <= budget
    requires n < |s| ==> s[n] == 0 || Pow2(s[n] - 1) > budget
    ensures Affordable(s, budget) == n
  {
    AffordablePrefix(s, budget);
  }

  /** The first index of the heaviest weight in `s[..n]` (a later equal weight does not replace it). */
  function HeaviestIn(s: seq<nat>, n: nat): (i: nat)
    requires 1 <= n <= |s|
    ensures i < n
  {
    if n == 1 then 0
    else
      var i := HeaviestIn(s, n - 1);
      if s[n - 1] > s[i] then n - 1 else i
  }

  /** No weight of `s[..n]` is above the one `HeaviestIn` picks, and every one before it is below. */
  lemma {:induction false} HeaviestInMax(s: seq<nat>, n: nat)
    requires 1 <= n <= |s|
    ensures forall k :: 0 <= k < n ==> s[k] <= s[HeaviestIn(s, n)]
    ensures forall k :: 0 <= k < HeaviestIn(s, n) ==> s[k] < s[HeaviestIn(s, n)]
  {
    if n > 1 {
      HeaviestInMax(s, n - 1);
    }
  }

  /**
   * The pay-back loop as a value: lower by one the first of the heaviest
   * affordable weights and pay its 2^(w-1), until nothing is owed. `None`
   * when nothing is affordable while something is still owed (the panic).
   */
  function PaidBack(s: seq<nat>, owed: nat): Option<seq<nat>>
    decreases owed
  {
    if owed == 0 then Some(s)
    else
      var n := Affordable(s, owed);
      AffordablePrefix(s, owed);
      if n == 0 then None
      else
        var i := HeaviestIn(s, n);
        PaidBack(s[i := s[i] - 1], owed - Pow2(s[i] - 1))
  }

  /** Paying back `owed` in full takes exactly `owed` off the power sum and keeps the length. */
  lemma {:induction false} PaidBackPowSum(s: seq<nat>, owed: nat)
    requires PaidBack(s, owed).Some?
    ensures |PaidBack(s, owed).value| == |s|
    ensures PowSum(PaidBack(s, owed).value) + owed == PowSum(s)
    decreases owed
  {
    if owed > 0 {
      AffordablePrefix(s, owed);
      var i := HeaviestIn(s, Affordable(s, owed));
      var t := s[i := s[i] - 1];
      PaidBackPowSum(t, owed - Pow2(s[i] - 1));
      PowSumUpdate(s, i, s[i] - 1);
      Pow2Add(s[i] - 1, 1);
    }
  }

  /**
   * Order and power sum alone do not keep the pay-back from panicking:
   * [1, 3, 3] is sorted and 18 - 2 is a power of two, yet the scan can only
   * afford the 1, lowers it to 0, and then accepts nothing.
   */
  /** A completed pay-back keeps sorted weights sorted. */
  lemma {:induction false} PaidBackKeepsOrder(s: seq<nat>, owed: nat)
    requires NonDecreasing(s) && PaidBack(s, owed).Some?
    ensures NonDecreasing(PaidBack(s, owed).value)
    decreases owed
  {
    if owed > 0 {
      AffordablePrefix(s, owed);
      var n := Affordable(s, owed);
      var i := HeaviestIn(s, n);
      HeaviestInMax(s, n);
      LowerKeepsOrder(s, i);
      var lowered, left := s[i := s[i] - 1], owed - Pow2(s[i] - 1);
      PaidBackStep(s, owed, i, lowered, left);
      PaidBackKeepsOrder(lowered, left);
    }
  }

  /** The offset of the final loop: `weights[0] - 1` when the first weight exceeds 1, else no shift. */
  function ShiftOffset(s: seq<nat>): nat
    requires s != []
  {
    if s[0] > 1 then s[0] - 1 else 0
  }

  /**
   * The capping part of `redistribute_weights` as a value: raise to `floor`,
   * pay the surplus back (`None` where that panics), shift down.
   */
  function Capped(s: seq<nat>, floor: nat): Option<seq<nat>>
    requires s != [] && NonDecreasing(s)
  {
    RaiseGrows(s, floor);
    RaiseNonDecreasing(s, floor);
    var raised := Raise(s, floor);
    var paid := PaidBack(raised, PowSum(raised) - PowSum(s));
    if paid.None? then None
    else
      PaidBackKeepsOrder(raised, PowSum(raised) - PowSum(s));
      PaidBackPowSum(raised, PowSum(raised) - PowSum(s));
      Some(Shifted(paid.value, ShiftOffset(paid.value)))
  }

  /**
   * `redistribute_weights(weights, max_weight)` as a value: `None` where it
   * panics (an empty slice, or a pay-back with nothing affordable), the
   * weights unchanged when the last is within `max_weight`, and otherwise
   * the weights capped at the floor `last - max_weight`.
   */
  function Redistributed(s: seq<nat>, maxWeight: nat): Option<seq<nat>>
    requires NonDecreasing(s)
  {
    if s == [] then None
    else if s[|s| - 1] <= maxWeight then Some(s)
    else Capped(s, s[|s| - 1] - maxWeight)
  }

  /** The weights of `k` symbols are `distribute_weights(k)` put through `redistribute_weights` at `ilog2(k) + 2`. */
  lemma CountWeightsOf(k: nat, s: seq<nat>, maxWeight: nat)
    requires k >= 1 && s == DistributeSpec(k) && maxWeight == Log2(k) + 2
    ensures NonDecreasing(s) && AllPositive(s) && CountWeights(k) == Redistributed(s, maxWeight)
  {
    DistributeSpecOrdered(k);
  }

  /** `distribute_weights(12)`: its last weight 6 is above the cap `ilog2(12) + 2 = 5`. */
  lemma DistributeTwelve()
    ensures DistributeSpec(12) == [1, 1, 1, 1, 1, 1, 1, 1, 4, 4, 4, 6] && !WithinCap(12)
  {
    assert Pow2(1) == 2 && Pow2(2) == 4 && Pow2(3) == 8;
    assert [1, 1] + Repeat(1, 2) == [1, 1, 1, 1];
    assert [1, 1, 1, 1] + Repeat(1, 4) == [1, 1, 1, 1, 1, 1, 1, 1];
    assert [1, 1, 1, 1, 1, 1, 1, 1] + [4] == [1, 1, 1, 1, 1, 1, 1, 1, 4];
    assert [1, 1, 1, 1, 1, 1, 1, 1, 4] + Repeat(4, 2) == [1, 1, 1, 1, 1, 1, 1, 1, 4, 4, 4];
    assert [1, 1, 1, 1, 1, 1, 1, 1, 4, 4, 4] + [6] == [1, 1, 1, 1, 1, 1, 1, 1, 4, 4, 4, 6];
    assert DistributeSpec(12) == DistributeFrom([1, 1, 1, 1], 12, 1, 3);
    assert DistributeSpec(12) == DistributeFrom([1, 1, 1, 1, 1, 1, 1, 1], 12, 1, 4);
    assert DistributeSpec(12) == DistributeFrom([1, 1, 1, 1, 1, 1, 1, 1, 4], 12, 4, 5);
    assert DistributeSpec(12) == DistributeFrom([1, 1, 1, 1, 1, 1, 1, 1, 4, 4, 4], 12, 4, 6);
    Log2Unique(12, 3);
  }

  /** A floor no weight is below, over weights that start at 1 or less, leaves them as they are. */
  lemma CappedUnchanged(s: seq<nat>, floor: nat)
    requires s != [] && NonDecreasing(s) && floor <= s[0] <= 1
    ensures Capped(s, floor) == Some(s)
  {
    assert Raise(s, floor) == s;
    assert PaidBack(s, 0) == Some(s);
    ShiftedByZero(s);
  }

  /**
   * Twelve symbols are over the cap, yet the floor `6 - 5` is 1: nothing is
   * raised, nothing is owed and nothing is shifted, so
   * `redistribute_weights` leaves the weights as they are.
   */
  lemma CountWeightsTwelve()
    ensures !WithinCap(12) && CountWeights(12) == Some(DistributeSpec(12))
  {
    DistributeTwelve();
    CountWeightsOneOver(12);
  }

  /** One above the cap, the floor is 1 and the distributed weights come back unchanged. */
  lemma CountWeightsOneOver(k: nat)
    requires k >= 1 && DistributeSpec(k)[0] <= 1
    requires DistributeSpec(k)[|DistributeSpec(k)| - 1] == Log2(k) + 3
    ensures CountWeights(k) == Some(DistributeSpec(k))
  {
    DistributeSpecOrdered(k);
    var s := DistributeSpec(k);
    assert CountWeights(k) == Redistributed(s, Log2(k) + 2) == Capped(s, 1);
    CappedUnchanged(s, 1);
  }

  /** Over the cap, `Redistributed` panics exactly where the pay-back of the raise's surplus does. */
  lemma RedistributedPanics(s: seq<nat>, maxWeight: nat, raised: seq<nat>, surplus: nat)
    requires s != [] && NonDecreasing(s) && s[|s| - 1] > maxWeight
    requires raised == Raise(s, s[|s| - 1] - maxWeight) && PowSum(raised) == PowSum(s) + surplus
    requires PaidBack(raised, surplus).None?
    ensures Redistributed(s, maxWeight).None?
  {
    assert Redistributed(s, maxWeight) == Capped(s, s[|s| - 1] - maxWeight);
  }

  /** Otherwise `Redistributed` is that pay-back shifted down by `ShiftOffset`. */
  lemma RedistributedValue(s: seq<nat>, maxWeight: nat, raised: seq<nat>, surplus: nat, paid: seq<nat>, offset: nat)
    requires s != [] && NonDecreasing(s) && s[|s| - 1] > maxWeight
    requires raised == Raise(s, s[|s| - 1] - maxWeight) && PowSum(raised) == PowSum(s) + surplus
    requires PaidBack(raised, surplus) == Some(paid) && paid != [] && offset == ShiftOffset(paid)
    requires forall i :: 0 <= i < |paid| ==> paid[i] >= offset
    ensures Redistributed(s, maxWeight) == Some(Shifted(paid, offset))
  {
    var floor := s[|s| - 1] - maxWeight;
    assert PowSum(raised) - PowSum(s) == surplus;
    assert PaidBack(Raise(s, floor), PowSum(Raise(s, floor)) - PowSum(s)) == Some(paid);
    assert Redistributed(s, maxWeight) == Capped(s, floor);
  }

  /** The weights `build_from_counts` hands out for `k` non-zero counts, `None` where it panics. */
  function CountWeights(k: nat): Option<seq<nat>>
    requires k >= 1
  {
    DistributeSpecOrdered(k);
    Redistributed(DistributeSpec(k), Log2(k) + 2)
  }

  lemma PayBackCanPanic()
    ensures NonDecreasing([1, 3, 3]) && PowSum([1, 3, 3]) == 18 && IsPowerOfTwo(18 - 2)
    ensures PaidBack([1, 3, 3], 2) == None
  {
    Pow2IsPowerOfTwo(4);
    assert Affordable([1, 3, 3], 2) == 1 by {
      AffordableAt([1, 3, 3], 2, 1);
    }
    assert [1, 3, 3][0 := 0] == [0, 3, 3];
    assert Affordable([0, 3, 3], 1) == 0;
  }

  /** Raising weights never lowers the sum of 2^w. */
  lemma {:induction false} RaiseGrows(s: seq<nat>, floor: nat)
    ensures PowSum(Raise(s, floor)) >= PowSum(s)
  {
    if s != [] {
      assert Raise(s, floor)[1..] == Raise(s[1..], floor);
      RaiseGrows(s[1..], floor);
      if s[0] < floor {
        Pow2Monotone(s[0], floor);
      }
    }
  }

  lemma RaiseNonDecreasing(s: seq<nat>, floor: nat)
    requires NonDecreasing(s)
    ensures NonDecreasing(Raise(s, floor))
  {
    var r := Raise(s, floor);
    forall i, j | 0 <= i < j < |s|
      ensures r[i] <= r[j]
    {
      assert s[i] <= s[j];
    }
  }

  /**
   * The first loop of `redistribute_weights`: every weight below `floor` is
   * raised to it, and `added` is what that adds to the power sum.
   */
  method RaiseWeights(a: array<nat>, floor: nat) returns (added: nat)
    modifies a
    ensures a[..] == Raise(old(a[..]), floor)
    ensures PowSum(a[..]) == PowSum(old(a[..])) + added
  {
    added := 0;
    var idx := 0;
    while idx < a.Length
      invariant idx <= a.Length
      invariant forall k :: 0 <= k < idx ==> a[k] == if old(a[k]) < floor then floor else old(a[k])
      invariant forall k :: idx <= k < a.Length ==> a[k] == old(a[k])
      invariant PowSum(a[..]) == PowSum(old(a[..])) + added
    {
      if a[idx] < floor {
        ghost var owed := added;
        var add := a[idx];
        while add < floor
          invariant a[idx] <= add <= floor
          invariant added + Pow2(a[idx]) == owed + Pow2(add)
        {
          added := added + Pow2(add);
          add := add + 1;
        }
        PowSumUpdate(a[..], idx, floor);
        a[idx] := a[idx] + (floor - a[idx]);
      }
      idx := idx + 1;
    }
    assert a[..] == Raise(old(a[..]), floor);
  }

  /**
   * The second loop of `redistribute_weights`: while surplus is owed, lower
   * by one the first of the largest weights whose 2^(w-1) still fits in it.
   * The power sum drops by exactly what is paid back, and the order stays.
   */
  method PayBack(a: array<nat>, owed: nat) returns (outcome: Outcome)
    requires a.Length > 0 && NonDecreasing(a[..])
    modifies a
    ensures outcome == Done <==> PaidBack(old(a[..]), owed).Some?
    ensures outcome == Done ==> a[..] == PaidBack(old(a[..]), owed).value
    ensures outcome == Done ==> NonDecreasing(a[..]) && PowSum(a[..]) + owed == PowSum(old(a[..]))
  {
    var addedWeights: nat := owed;
    while addedWeights > 0
      invariant NonDecreasing(a[..])
      invariant PaidBack(a[..], addedWeights) == PaidBack(old(a[..]), owed)
      decreases addedWeights
    {
      var panicked, left := PayOnce(a, addedWeights);
      if panicked {
        return Panicked;
      }
      addedWeights := left;
    }
    PaidBackPowSum(old(a[..]), owed);
    return Done;
  }

  /** One round of the pay-back loop: lower the greedy pick and pay its 2^(w-1), or panic. */
  method PayOnce(a: array<nat>, owed: nat) returns (panicked: bool, left: nat)
    requires a.Length > 0 && NonDecreasing(a[..]) && owed > 0
    modifies a
    ensures panicked ==> PaidBack(old(a[..]), owed) == None
    ensures !panicked ==> left < owed && NonDecreasing(a[..])
    ensures !panicked ==> PaidBack(a[..], left) == PaidBack(old(a[..]), owed)
  {
    var currentIdx, currentWeight;
    panicked, currentIdx, currentWeight := HeaviestAffordable(a, owed);
    if panicked {
      return true, owed;
    }
    ghost var before := a[..];
    ghost var after := before[currentIdx := currentWeight - 1];
    LowerKeepsOrder(before, currentIdx);
    left := owed - Pow2(currentWeight - 1);
    PaidBackStep(before, owed, currentIdx, after, left);
    LowerOne(a, currentIdx, currentWeight - 1);
    assert a[..] == after && old(a[..]) == before;
  }

  /** `weights[index] -= 1`, given the lowered value. */
  method LowerOne(a: array<nat>, i: nat, v: nat)
    requires i < a.Length
    modifies a
    ensures a[..] == old(a[..])[i := v]
  {
    a[i] := v;
  }

  /** One round of the pay-back: lowering the greedy pick leaves the same end result. */
  lemma PaidBackStep(s: seq<nat>, owed: nat, idx: nat, lowered: seq<nat>, left: nat)
    requires owed > 0 && Affordable(s, owed) >= 1 && idx == HeaviestIn(s, Affordable(s, owed))
    requires s[idx] >= 1 && lowered == s[idx := s[idx] - 1] && left + Pow2(s[idx] - 1) == owed
    ensures PaidBack(s, owed) == PaidBack(lowered, left)
  {
    AffordablePrefix(s, owed);
    assert PaidBack(s, owed) == PaidBack(s[idx := s[idx] - 1], owed - Pow2(s[idx] - 1));
  }

  /** Lowering the first of equal weights by one keeps the weights sorted. */
  lemma LowerKeepsOrder(s: seq<nat>, idx: nat)
    requires NonDecreasing(s) && idx < |s| && s[idx] >= 1
    requires forall k :: 0 <= k < idx ==> s[k] < s[idx]
    ensures NonDecreasing(s[idx := s[idx] - 1])
  {
    var t := s[idx := s[idx] - 1];
    forall i, k | 0 <= i < k < |t|
      ensures t[i] <= t[k]
    {
      assert s[i] <= s[k];
    }
  }

  /**
   * The scan inside the pay-back loop: the first index holding the heaviest
   * weight met before the first weight `w` with 2^(w-1) above `budget`.
   * A zero weight panics on the shift (here `panicked`), and so does
   * finding nothing, when `current_weight - 1` underflows.
   */
  method HeaviestAffordable(a: array<nat>, budget: nat) returns (panicked: bool, idx: nat, weight: nat)
    requires a.Length > 0 && NonDecreasing(a[..])
    ensures panicked <==> Affordable(a[..], budget) == 0
    ensures !panicked ==> GreedyPick(a[..], budget, idx) && weight == a[idx]
  {
    ghost var s := a[..];
    idx, weight := 0, 0;
    var j := 0;
    while j < a.Length
      invariant j <= a.Length && idx < a.Length
      invariant j == 0 ==> weight == 0
      invariant j > 0 ==> idx < j && weight == s[idx]
      invariant forall k :: 0 <= k < j ==> s[k] >= 1 && Pow2(s[k] - 1) <= budget
      invariant forall k :: 0 <= k < j ==> s[k] <= weight
      invariant forall k :: 0 <= k < idx ==> s[k] < weight
    {
      if a[j] == 0 {
        assert s[0] <= s[j];
        AffordableAt(s, budget, 0);
        return true, idx, weight;
      }
      if Pow2(a[j] - 1) > budget {
        break;
      }
      if a[j] > weight {
        weight := a[j];
        idx := j;
      }
      j := j + 1;
    }
    panicked := weight == 0;
    if j == 0 {
      AffordableAt(s, budget, 0);
    } else {
      ScanStopped(s, budget, j, idx);
    }
  }

  /**
   * `idx` is the weight the pay-back lowers: affordable, the first of the
   * heaviest affordable weights, and the index `HeaviestIn` gives for the
   * prefix `Affordable` accepts.
   */
  predicate GreedyPick(s: seq<nat>, budget: nat, idx: nat)
  {
    && idx < |s| && s[idx] >= 1 && Pow2(s[idx] - 1) <= budget
    && (forall k :: 0 <= k < idx ==> s[k] < s[idx])
    && (forall k :: idx < k < |s| && s[k] >= 1 && Pow2(s[k] - 1) <= budget ==> s[k] == s[idx])
    && Affordable(s, budget) >= 1 && idx == HeaviestIn(s, Affordable(s, budget))
  }

  /**
   * Where the scan stops on sorted weights: the accepted prefix is what
   * `Affordable` counts, the first of its heaviest weights is `HeaviestIn`,
   * and no weight past it is both affordable and heavier.
   */
  lemma ScanStopped(s: seq<nat>, budget: nat, j: nat, idx: nat)
    requires NonDecreasing(s) && idx < j <= |s|
    requires forall k :: 0 <= k < j ==> s[k] >= 1 && Pow2(s[k] - 1) <= budget
    requires j < |s| ==> s[j] >= 1 && Pow2(s[j] - 1) > budget
    requires forall k :: 0 <= k < j ==> s[k] <= s[idx]
    requires forall k :: 0 <= k < idx ==> s[k] < s[idx]
    ensures GreedyPick(s, budget, idx)
  {
    AffordableAt(s, budget, j);
    HeaviestAt(s, j, idx);
    NothingHeavierAffordable(s, budget, j, idx);
  }

  /** The first index of a maximum of `s[..n]` is the one `HeaviestIn` finds. */
  lemma HeaviestAt(s: seq<nat>, n: nat, idx: nat)
    requires idx < n <= |s|
    requires forall k :: 0 <= k < n ==> s[k] <= s[idx]
    requires forall k :: 0 <= k < idx ==> s[k] < s[idx]
    ensures HeaviestIn(s, n) == idx
  {
    HeaviestInMax(s, n);
    var h := HeaviestIn(s, n);
    assert s[idx] <= s[h] && s[h] <= s[idx];
  }

  lemma NothingHeavierAffordable(s: seq<nat>, budget: nat, j: nat, idx: nat)
    requires NonDecreasing(s) && idx < j <= |s|
    requires j < |s| ==> s[j] >= 1 && Pow2(s[j] - 1) > budget
    requires forall k :: 0 <= k < j ==> s[k] <= s[idx]
    ensures forall k :: idx < k < |s| && s[k] >= 1 && Pow2(s[k] - 1) <= budget ==> s[k] == s[idx]
  {
    forall k | idx < k < |s| && s[k] >= 1 && Pow2(s[k] - 1) <= budget
      ensures s[k] == s[idx]
    {
      assert s[idx] <= s[k];
      if k >= j {
        assert s[j] <= s[k];
        Pow2Monotone(s[j] - 1, s[k] - 1);
      }
    }
  }

  /**
   * The last step of `redistribute_weights`: when the smallest weight is
   * above 1, every weight drops by the same offset so the smallest becomes 1.
   */
  method ShiftDown(a: array<nat>) returns (ghost offset: nat)
    requires a.Length > 0 && NonDecreasing(a[..])
    modifies a
    ensures old(a[0]) > 1 ==> offset == old(a[0]) - 1 && a[0] == 1
    ensures old(a[0]) <= 1 ==> offset == 0 && a[..] == old(a[..])
    ensures a[..] == Shifted(old(a[..]), offset)
    ensures NonDecreasing(a[..]) && PowSum(a[..]) * Pow2(offset) == PowSum(old(a[..]))
  {
    offset := 0;
    if a[0] > 1 {
      var shift := a[0] - 1;
      var k := 0;
      while k < a.Length
        invariant k <= a.Length
        invariant forall m :: 0 <= m < k ==> a[m] + shift == old(a[m])
        invariant forall m :: k <= m < a.Length ==> a[m] == old(a[m])
      {
        assert old(a[0]) <= old(a[k]);
        a[k] := a[k] - shift;
        k := k + 1;
      }
      assert a[..] == Shifted(old(a[..]), shift);
      PowSumShift(old(a[..]), shift);
      offset := shift;
      assert NonDecreasing(a[..]) by {
        forall i, j | 0 <= i < j < a.Length
          ensures a[i] <= a[j]
        {
          assert old(a[i]) <= old(a[j]);
        }
      }
    }
  }

  /**
   * `redistribute_weights(weights, max_weight)` on non-decreasing positive
   * weights. Nothing changes when the last weight is within `max_weight`.
   * Otherwise the weights are raised to `last - max_weight`, the surplus is
   * paid back (`paid`, what `PaidBack` gives), and they are shifted down by
   * `offset`. The result stays
   * non-decreasing, its power sum times 2^offset is the original power sum
   * (so a power-of-two sum stays one), and the smallest weight ends at most 1.
   * A subtraction the source would panic on gives `Panicked`.
   */
  method RedistributeWeights(a: array<nat>, maxWeight: nat)
    returns (outcome: Outcome, ghost raised: seq<nat>, ghost surplus: nat, ghost paid: seq<nat>, ghost offset: nat)
    requires NonDecreasing(a[..]) && AllPositive(a[..])
    modifies a
    ensures a.Length == 0 ==> outcome == Panicked
    ensures a.Length > 0 && old(a[a.Length - 1]) <= maxWeight ==> outcome == Done && a[..] == old(a[..]) && offset == 0
    ensures a.Length > 0 && old(a[a.Length - 1]) > maxWeight ==>
      raised == Raise(old(a[..]), old(a[a.Length - 1]) - maxWeight) && PowSum(raised) == PowSum(old(a[..])) + surplus
    ensures a.Length > 0 && old(a[a.Length - 1]) > maxWeight ==> (outcome == Done <==> PaidBack(raised, surplus) == Some(paid))
    ensures outcome == Done ==> (forall i :: 0 <= i < |paid| ==> paid[i] >= offset) && a[..] == Shifted(paid, offset)
    ensures outcome == Done ==> NonDecreasing(a[..]) && PowSum(a[..]) * Pow2(offset) == PowSum(old(a[..]))
    ensures outcome == Done && old(a[a.Length - 1]) > maxWeight ==> a[0] <= 1
    ensures outcome == Done && IsPowerOfTwo(PowSum(old(a[..]))) ==> IsPowerOfTwo(PowSum(a[..]))
    ensures outcome == Done && old(a[a.Length - 1]) > maxWeight ==> |paid| > 0 && offset == ShiftOffset(paid)
    ensures outcome == Done <==> Redistributed(old(a[..]), maxWeight).Some?
    ensures outcome == Done ==> a[..] == Redistributed(old(a[..]), maxWeight).value
  {
    offset, surplus := 0, 0;
    raised := a[..];
    paid := a[..];
    if a.Length == 0 {
      return Panicked, raised, surplus, paid, offset;
    }
    if a[a.Length - 1] <= maxWeight {
      ShiftedByZero(paid);
      return Done, raised, surplus, paid, offset;
    }
    outcome, raised, surplus, paid, offset := CapWeights(a, maxWeight);
  }

  /** The first two loops of `redistribute_weights`: raise to `last - max_weight`, then pay the surplus back. */
  method RaiseAndPayBack(a: array<nat>, maxWeight: nat) returns (outcome: Outcome, ghost raised: seq<nat>, ghost surplus: nat)
    requires a.Length > 0 && NonDecreasing(a[..]) && a[a.Length - 1] > maxWeight
    modifies a
    ensures raised == Raise(old(a[..]), old(a[a.Length - 1]) - maxWeight) && PowSum(raised) == PowSum(old(a[..])) + surplus
    ensures outcome == Done <==> PaidBack(raised, surplus).Some?
    ensures outcome == Done ==> a[..] == PaidBack(raised, surplus).value
    ensures outcome == Done ==> NonDecreasing(a[..]) && PowSum(a[..]) + surplus == PowSum(raised)
  {
    var floor := a[a.Length - 1] - maxWeight;
    ghost var s := a[..];
    assert floor == s[|s| - 1] - maxWeight;
    var addedWeights := RaiseWeights(a, floor);
    raised, surplus := a[..], addedWeights;
    assert raised == Raise(s, floor);
    RaiseNonDecreasing(s, floor);
    outcome := PayBack(a, addedWeights);
  }

  /** Raise to `last - max_weight`, pay the surplus back, shift down: the part of `redistribute_weights` that caps. */
  method CapWeights(a: array<nat>, maxWeight: nat)
    returns (outcome: Outcome, ghost raised: seq<nat>, ghost surplus: nat, ghost paid: seq<nat>, ghost offset: nat)
    requires a.Length > 0 && NonDecreasing(a[..]) && a[a.Length - 1] > maxWeight
    modifies a
    ensures raised == Raise(old(a[..]), old(a[a.Length - 1]) - maxWeight) && PowSum(raised) == PowSum(old(a[..])) + surplus
    ensures outcome == Done <==> PaidBack(raised, surplus) == Some(paid)
    ensures outcome == Done ==> (forall i :: 0 <= i < |paid| ==> paid[i] >= offset) && a[..] == Shifted(paid, offset)
    ensures outcome == Done ==> NonDecreasing(a[..]) && PowSum(a[..]) * Pow2(offset) == PowSum(old(a[..]))
    ensures outcome == Done ==> a[0] <= 1
    ensures outcome == Done && IsPowerOfTwo(PowSum(old(a[..]))) ==> IsPowerOfTwo(PowSum(a[..]))
    ensures outcome == Done ==> |paid| > 0 && offset == ShiftOffset(paid)
    ensures outcome == Done <==> Redistributed(old(a[..]), maxWeight).Some?
    ensures outcome == Done ==> a[..] == Redistributed(old(a[..]), maxWeight).value
  {
    ghost var s := a[..];
    outcome, raised, surplus := RaiseAndPayBack(a, maxWeight);
    paid := a[..];
    offset := 0;
    if outcome == Panicked {
      RedistributedPanics(s, maxWeight, raised, surplus);
      paid := [];
      return;
    }
    offset := ShiftDown(a);
    RedistributedValue(s, maxWeight, raised, surplus, paid, offset);
    if IsPowerOfTwo(PowSum(s)) {
      PowerOfTwoIsPow2(PowSum(s));
      PowSumPositive(a[..]);
      PowerOfTwoFactor(PowSum(a[..]), offset, Log2(PowSum(s)));
    }
  }

}
