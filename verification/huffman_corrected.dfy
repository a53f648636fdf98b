/**
 * The canonical numbering when a weight level is skipped.
 *
 * `build_from_weights` halves `start_value` once per run it meets. When a
 * weight level between two runs holds no symbol, the value should still be
 * halved for that level: RFC 8878 section 4.2.1 assigns the prefix codes
 * level by level, from the lowest weight up. `RunStart` models the source
 * as written and `CorrectedRunStart` halves at every level. The two agree
 * whenever no level is skipped. Only the corrected numbering gives every
 * present symbol a codeword that fits in its bit length.
 */
module HuffmanCorrected {
  import opened Bits
  import opened HuffmanSpec

  /** The start of the run of weight `w` when the value is halved at every level. */
  function CorrectedRunStart(weights: seq<nat>, w: nat): nat
  {
    if w <= 1 then 0 else (CorrectedRunStart(weights, w - 1) + Count(weights, w - 1)) / 2
  }

  function CorrectedCode(weights: seq<nat>, s: nat): (c: Code)
    requires KraftValid(weights) && s < |weights|
    ensures weights[s] == 0 ==> c == Code(0, 0)
    ensures weights[s] > 0 ==> c.numBits == CanonicalCode(weights, s).numBits
  {
    if weights[s] == 0 then Code(0, 0)
    else
      PresentWeightBound(weights, s);
      Code(CorrectedRunStart(weights, weights[s]) + Rank(weights, s), MaxNumBits(weights) + 1 - weights[s])
  }

  function CorrectedTable(weights: seq<nat>): (t: seq<Code>)
    requires KraftValid(weights)
    ensures |t| == |weights| && forall s :: 0 <= s < |t| ==> t[s] == CorrectedCode(weights, s)
  {
    seq(|weights|, s requires 0 <= s < |weights| => CorrectedCode(weights, s))
  }

  /**
   * As written, the weights [1, 1, 1, 1, 3] (what `distribute_weights(5)`
   * yields) give the weight-3 symbol the value 2 in a 1-bit code: the value
   * does not fit, and its low bit 0 is a prefix of symbol 0's code 000.
   */
  lemma SkippedLevelCodeOverflows()
    ensures Buildable([1, 1, 1, 1, 3])
    ensures CanonicalTable([1, 1, 1, 1, 3])[4] == Code(2, 1)
    ensures CanonicalTable([1, 1, 1, 1, 3])[0] == Code(0, 3)
    ensures CanonicalTable([1, 1, 1, 1, 3])[4].value >= Pow2(1)
    ensures CorrectedTable([1, 1, 1, 1, 3])[4] == Code(1, 1)
  {
    var w := [1, 1, 1, 1, 3];
    assert Pow2(1) == 2 && Pow2(2) == 4 && Pow2(3) == 8;
    assert WeightSumIn(w, 1) == 1 && WeightSumIn(w, 2) == 2 && WeightSumIn(w, 3) == 3;
    assert WeightSumIn(w, 4) == 4 && WeightSumIn(w, 5) == 8;
    Pow2IsPowerOfTwo(3);
    assert MaxNumBits(w) == 3;
    assert CountIn(w, 1, 5) == 4 && CountIn(w, 2, 5) == 0 && CountIn(w, 3, 4) == 0 && CountIn(w, 1, 0) == 0;
    assert RunStart(w, 2) == 2 && RunStart(w, 3) == 2;
    assert CorrectedRunStart(w, 2) == 2 && CorrectedRunStart(w, 3) == 1;
  }

  /** Sum of 2^(w-1) over the symbols of `weights[..b]` whose weight is in 1..v-1. */
  function LowerSumIn(weights: seq<nat>, v: nat, b: nat): nat
    requires b <= |weights|
  {
    if b == 0 then 0
    else LowerSumIn(weights, v, b - 1) + (if 0 < weights[b - 1] < v then Pow2(weights[b - 1] - 1) else 0)
  }

  lemma {:induction false} LowerSumStep(weights: seq<nat>, v: nat, b: nat)
    requires v >= 1 && b <= |weights|
    ensures LowerSumIn(weights, v + 1, b) == LowerSumIn(weights, v, b) + CountIn(weights, v, b) * Pow2(v - 1)
  {
    if b > 0 {
      LowerSumStep(weights, v, b - 1);
      var x := weights[b - 1];
      var before := CountIn(weights, v, b - 1);
      if x == v {
        assert CountIn(weights, v, b) == before + 1;
        assert (before + 1) * Pow2(v - 1) == before * Pow2(v - 1) + Pow2(v - 1);
      } else {
        assert CountIn(weights, v, b) == before;
      }
    }
  }

  lemma {:induction false} LowerSumBound(weights: seq<nat>, v: nat, b: nat)
    requires b <= |weights|
    ensures LowerSumIn(weights, v, b) <= WeightSumIn(weights, b)
  {
    if b > 0 {
      LowerSumBound(weights, v, b - 1);
    }
  }

  lemma {:induction false} LowerSumFirst(weights: seq<nat>, b: nat)
    requires b <= |weights|
    ensures LowerSumIn(weights, 1, b) == 0
  {
    if b > 0 {
      LowerSumFirst(weights, b - 1);
    }
  }

  /** Euclidean division is determined by quotient and remainder. */
  lemma DivUnique(y: nat, a: nat, q: nat, r: nat)
    requires a > 0 && y == q * a + r && r < a
    ensures y / a == q
  {
    var q' := y / a;
    var r' := y % a;
    assert y == q' * a + r';
    if q' > q {
      assert (q' - q) * a == r - r';
      MulAtLeast(q' - q, a);
    } else if q' < q {
      assert (q - q') * a == r' - r;
      MulAtLeast(q - q', a);
    }
  }

  lemma MulAtLeast(k: nat, a: nat)
    requires k >= 1
    ensures k * a >= a
  {
  }

  /** Adding whole multiples of the divisor adds to the quotient. */
  lemma DivAddMultiple(x: nat, c: nat, a: nat)
    requires a > 0
    ensures x / a + c == (x + c * a) / a
  {
    var q, r := x / a, x % a;
    assert x + c * a == (q + c) * a + r;
    DivUnique(x + c * a, a, q + c, r);
  }

  /** Halving a quotient is dividing by twice the divisor. */
  lemma DivHalf(x: nat, a: nat)
    requires a > 0
    ensures (x / a) / 2 == x / (2 * a)
  {
    var q, r := x / a, x % a;
    var p, t := q / 2, q % 2;
    assert x == p * (2 * a) + (t * a + r);
    assert t * a + r < 2 * a;
    DivUnique(x, 2 * a, p, t * a + r);
  }

  /** The corrected start of a run is the weight below it, in units of 2^(w-1), rounded down. */
  lemma {:induction false} CorrectedRunStartIsFloor(weights: seq<nat>, w: nat)
    requires w >= 1
    ensures CorrectedRunStart(weights, w) == LowerSumIn(weights, w, |weights|) / Pow2(w - 1)
  {
    if w == 1 {
      LowerSumFirst(weights, |weights|);
    } else {
      var v := w - 1;
      var unit := Pow2(v - 1);
      var c := Count(weights, v);
      var lower := LowerSumIn(weights, v, |weights|);
      CorrectedRunStartIsFloor(weights, v);
      LowerSumStep(weights, v, |weights|);
      var next := lower + c * unit;
      assert LowerSumIn(weights, w, |weights|) == next;
      DivAddMultiple(lower, c, unit);
      DivHalf(next, unit);
      assert Pow2(w - 1) == 2 * unit;
      assert CorrectedRunStart(weights, w) == (lower / unit + c) / 2 == (next / unit) / 2;
    }
  }

  /** Every present symbol's corrected codeword fits in its bit length. */
  lemma CorrectedCodesFit(weights: seq<nat>, s: nat)
    requires Buildable(weights) && s < |weights| && weights[s] > 0
    ensures CorrectedCode(weights, s).value < Pow2(CorrectedCode(weights, s).numBits)
  {
    var w := weights[s];
    var m := MaxNumBits(weights);
    var unit := Pow2(w - 1);
    var lower := LowerSumIn(weights, w, |weights|);
    CorrectedRunStartIsFloor(weights, w);
    CountPositive(weights, s);
    LowerSumStep(weights, w, |weights|);
    LowerSumBound(weights, w + 1, |weights|);
    PowerOfTwoIsPow2(WeightSum(weights));
    Pow2Add(m + 1 - w, w - 1);
    // The runs up to weight w fill at most the whole sum 2^m = 2^(m+1-w) * 2^(w-1).
    FitBound(CorrectedRunStart(weights, w), Rank(weights, s), Count(weights, w), lower, unit, Pow2(m), Pow2(m + 1 - w));
  }

  /**
   * A run that starts at the weight below it in units of `unit`, rounded
   * down, ends within `bound` units when the weight up to and including the
   * run stays within `bound * unit`.
   */
  lemma FitBound(start: nat, rank: nat, count: nat, lower: nat, unit: nat, total: nat, bound: nat)
    requires unit > 0 && start == lower / unit && rank < count
    requires lower + count * unit <= total && total == bound * unit
    ensures start + rank < bound
  {
    DivAddMultiple(lower, count, unit);
    DivMonotone(lower + count * unit, total, unit);
    DivUnique(total, unit, bound, 0);
  }

  lemma DivMonotone(x: nat, y: nat, a: nat)
    requires a > 0 && x <= y
    ensures x / a <= y / a
  {
    if x / a > y / a {
      var qx, rx, qy, ry := x / a, x % a, y / a, y % a;
      assert x == qx * a + rx && y == qy * a + ry;
      MulAtLeast(qx - qy, a);
    }
  }

  /** With no weight level skipped below `w`, the source's run start is the corrected one. */
  lemma {:induction false} RunStartsAgree(weights: seq<nat>, w: nat)
    requires forall v :: 1 <= v < w ==> Count(weights, v) > 0
    ensures RunStart(weights, w) == CorrectedRunStart(weights, w)
  {
    if w > 1 {
      RunStartsAgree(weights, w - 1);
    }
  }

  /** Every weight level from 1 up to the largest weight holds a symbol. */
  predicate NoSkippedLevel(weights: seq<nat>)
  {
    forall s, v :: 0 <= s < |weights| && 1 <= v < weights[s] ==> Count(weights, v) > 0
  }

  /**
   * When every weight level from 1 up to the largest weight holds a symbol,
   * the table the source builds is the corrected one.
   */
  lemma TablesAgreeWithoutSkippedLevels(weights: seq<nat>)
    requires KraftValid(weights) && NoSkippedLevel(weights)
    ensures CanonicalTable(weights) == CorrectedTable(weights)
  {
    forall s | 0 <= s < |weights| && weights[s] > 0
      ensures CanonicalCode(weights, s) == CorrectedCode(weights, s)
    {
      RunStartsAgree(weights, weights[s]);
    }
  }

  /** Across weight levels that hold no symbol, the corrected start is halved once per level. */
  lemma {:induction false} CorrectedSkip(weights: seq<nat>, a: nat, b: nat)
    requires 1 <= a <= b
    requires forall v :: a <= v < b ==> Count(weights, v) == 0
    ensures CorrectedRunStart(weights, b) == CorrectedRunStart(weights, a) / Pow2(b - a)
  {
    if a < b {
      CorrectedSkip(weights, a, b - 1);
      DivHalf(CorrectedRunStart(weights, a), Pow2(b - 1 - a));
    }
  }

  /** The source's test vectors skip no weight level, so the corrected numbering gives the tables they expect. */
  lemma CorrectedTestVectors()
    ensures KraftValid([2, 2, 2, 1, 1]) && KraftValid([4, 3, 2, 0, 1, 1])
    ensures CorrectedTable([2, 2, 2, 1, 1]) == [Code(1, 2), Code(2, 2), Code(3, 2), Code(0, 3), Code(1, 3)]
    ensures CorrectedTable([4, 3, 2, 0, 1, 1]) == [Code(1, 1), Code(1, 2), Code(1, 3), Code(0, 0), Code(0, 4), Code(1, 4)]
  {
    TestVectorA();
    TestVectorB();
    var a := [2, 2, 2, 1, 1];
    assert CountIn(a, 1, 3) == 0 && CountIn(a, 1, 5) == 2;
    TablesAgreeWithoutSkippedLevels(a);
    var b := [4, 3, 2, 0, 1, 1];
    assert CountIn(b, 1, 4) == 0 && CountIn(b, 1, 6) == 2;
    assert CountIn(b, 2, 2) == 0 && CountIn(b, 2, 6) == 1;
    assert CountIn(b, 3, 1) == 0 && CountIn(b, 3, 6) == 1;
    TablesAgreeWithoutSkippedLevels(b);
  }
}
