/**
 * The canonical code that `HuffmanTable::build_from_weights` assigns, stated
 * in closed form over the weight array.
 *
 * Weights follow section 4.2.1 of RFC 8878: weight 0 means the symbol is
 * absent, and a present symbol of weight w gets
 * Number_of_Bits = Max_Number_of_Bits + 1 - w, where 2^Max_Number_of_Bits is
 * the sum of 2^(w-1) over the present symbols.
 *
 * The encoder walks the present symbols by (weight, symbol) ascending. The
 * run of weight w starts at the value `RunStart(weights, w)`, and the symbol
 * s inside that run gets `RunStart + Rank(s)`, its rank among the symbols of
 * the same weight below it. `RunStart` is halved once per run that is
 * present, as the source does (see `SkippedLevelCodeOverflows`).
 */
module HuffmanSpec {
  import opened Bits
  import opened Entries

  /** One table entry: the codeword in the low bits and its bit length. */
  datatype Code = Code(value: nat, numBits: nat)

  predicate IsPresent(weights: seq<nat>, e: Entry)
  {
    e.symbol < |weights| && e.key > 0 && weights[e.symbol] == e.key
  }

  /** The present symbols of `weights[..b]` as (symbol, weight) entries, in symbol order. */
  function Present(weights: seq<nat>, b: nat): seq<Entry>
    requires b <= |weights|
  {
    if b == 0 then []
    else Present(weights, b - 1) + (if weights[b - 1] > 0 then [Entry(b - 1, weights[b - 1])] else [])
  }

  /** Number of symbols below `b` whose weight is `w`. */
  function CountIn(weights: seq<nat>, w: nat, b: nat): nat
    requires b <= |weights|
  {
    if b == 0 then 0 else CountIn(weights, w, b - 1) + (if weights[b - 1] == w then 1 else 0)
  }

  function Count(weights: seq<nat>, w: nat): nat
  {
    CountIn(weights, w, |weights|)
  }

  /** Sum of 2^(w-1) over the present symbols below `b`. */
  function WeightSumIn(weights: seq<nat>, b: nat): nat
    requires b <= |weights|
  {
    if b == 0 then 0
    else WeightSumIn(weights, b - 1) + (if weights[b - 1] > 0 then Pow2(weights[b - 1] - 1) else 0)
  }

  function WeightSum(weights: seq<nat>): nat
  {
    WeightSumIn(weights, |weights|)
  }

  /** The summand of the weight sum for one entry (`1 << (weight - 1)`). */
  function HalfPow(): Entry -> nat
  {
    (e: Entry) => if e.key > 0 then Pow2(e.key - 1) else 0
  }

  /** The weight sum is a power of two: the check the builder makes before anything else. */
  predicate KraftValid(weights: seq<nat>)
  {
    IsPowerOfTwo(WeightSum(weights))
  }

  function MaxNumBits(weights: seq<nat>): nat
    requires KraftValid(weights)
  {
    Log2(WeightSum(weights))
  }

  /**
   * The table can be built: the sum is a power of two and no present weight
   * exceeds Max_Number_of_Bits, so `max_num_bits - weight` never underflows.
   */
  predicate Buildable(weights: seq<nat>)
  {
    KraftValid(weights) && forall s :: 0 <= s < |weights| ==> weights[s] <= MaxNumBits(weights)
  }

  /** The value the run of weight `w` starts at: `start_value` after all smaller present weights. */
  function RunStart(weights: seq<nat>, w: nat): nat
  {
    if w <= 1 then 0
    else if Count(weights, w - 1) == 0 then RunStart(weights, w - 1)
    else (RunStart(weights, w - 1) + Count(weights, w - 1)) / 2
  }

  /** Position of `s` in its run: the number of smaller symbols with the same weight. */
  function Rank(weights: seq<nat>, s: nat): nat
    requires s < |weights|
  {
    CountIn(weights, weights[s], s)
  }

  lemma {:induction false} PresentMembers(weights: seq<nat>, b: nat)
    requires b <= |weights|
    ensures forall e :: e in Present(weights, b) <==> IsPresent(weights, e) && e.symbol < b
  {
    if b > 0 {
      PresentMembers(weights, b - 1);
    }
  }

  lemma {:induction false} PresentDistinct(weights: seq<nat>, b: nat)
    requires b <= |weights|
    ensures Distinct(Present(weights, b))
  {
    if b > 0 {
      PresentDistinct(weights, b - 1);
      PresentMembers(weights, b - 1);
    }
  }

  /** Counting entries of weight `w` in the pushed vector counts the weight array. */
  lemma {:induction false} CountLink(weights: seq<nat>, w: nat, b: nat)
    requires w > 0 && b <= |weights|
    ensures SumOf(Present(weights, b), KeyIs(w)) == CountIn(weights, w, b)
  {
    if b > 0 {
      CountLink(weights, w, b - 1);
      PresentStep(weights, b, KeyIs(w));
    }
  }

  /** Extending the prefix by one symbol adds that symbol's term, if it is present. */
  lemma PresentStep(weights: seq<nat>, b: nat, f: Entry -> nat)
    requires 0 < b <= |weights|
    ensures SumOf(Present(weights, b), f) ==
            SumOf(Present(weights, b - 1), f) + (if weights[b - 1] > 0 then f(Entry(b - 1, weights[b - 1])) else 0)
  {
    if weights[b - 1] > 0 {
      var tail := [Entry(b - 1, weights[b - 1])];
      SumOfConcat(Present(weights, b - 1), tail, f);
      assert tail[1..] == [];
    } else {
      assert Present(weights, b) == Present(weights, b - 1) + [];
      assert Present(weights, b - 1) + [] == Present(weights, b - 1);
    }
  }

  lemma {:induction false} WeightSumLink(weights: seq<nat>, b: nat)
    requires b <= |weights|
    ensures SumOf(Present(weights, b), HalfPow()) == WeightSumIn(weights, b)
  {
    if b > 0 {
      WeightSumLink(weights, b - 1);
      PresentStep(weights, b, HalfPow());
    }
  }

  /** Each present symbol's term is at most the whole sum. */
  lemma {:induction false} TermBelowSum(weights: seq<nat>, s: nat, b: nat)
    requires s < b <= |weights| && weights[s] > 0
    ensures Pow2(weights[s] - 1) <= WeightSumIn(weights, b)
  {
    if s < b - 1 {
      TermBelowSum(weights, s, b - 1);
    }
  }

  /** In a power-of-two sum, no present weight exceeds Max_Number_of_Bits + 1. */
  lemma PresentWeightBound(weights: seq<nat>, s: nat)
    requires KraftValid(weights) && s < |weights| && weights[s] > 0
    ensures weights[s] <= MaxNumBits(weights) + 1
  {
    TermBelowSum(weights, s, |weights|);
    PowerOfTwoIsPow2(WeightSum(weights));
    if weights[s] - 1 > MaxNumBits(weights) {
      Pow2StrictlyMonotone(MaxNumBits(weights), weights[s] - 1);
    }
  }

  lemma {:induction false} CountInBound(weights: seq<nat>, w: nat, b: nat)
    requires b <= |weights|
    ensures CountIn(weights, w, b) <= b
  {
    if b > 0 {
      CountInBound(weights, w, b - 1);
    }
  }

  /** With no symbol of weight `w` in [a, b), the count does not move from a to b. */
  lemma {:induction false} CountInFlat(weights: seq<nat>, w: nat, a: nat, b: nat)
    requires a <= b <= |weights|
    requires forall t :: a <= t < b ==> weights[t] != w
    ensures CountIn(weights, w, b) == CountIn(weights, w, a)
  {
    if a < b {
      CountInFlat(weights, w, a, b - 1);
    }
  }

  lemma {:induction false} CountInMonotone(weights: seq<nat>, w: nat, a: nat, b: nat)
    requires a <= b <= |weights|
    ensures CountIn(weights, w, a) <= CountIn(weights, w, b)
  {
    if a < b {
      CountInMonotone(weights, w, a, b - 1);
    }
  }

  /** A present symbol makes its weight's count positive. */
  lemma CountPositive(weights: seq<nat>, s: nat)
    requires s < |weights|
    ensures Rank(weights, s) < Count(weights, weights[s])
  {
    CountInMonotone(weights, weights[s], s + 1, |weights|);
  }

  /** RunStart does not move across weight levels nobody has. */
  lemma {:induction false} RunStartFlat(weights: seq<nat>, a: nat, b: nat)
    requires 1 <= a <= b
    requires forall v :: a <= v < b ==> Count(weights, v) == 0
    ensures RunStart(weights, b) == RunStart(weights, a)
  {
    if a < b {
      RunStartFlat(weights, a, b - 1);
    }
  }

  /** The (codeword, bit length) pair the builder gives symbol `s`. */
  function CanonicalCode(weights: seq<nat>, s: nat): (c: Code)
    requires KraftValid(weights) && s < |weights|
    ensures weights[s] == 0 ==> c == Code(0, 0)
    ensures weights[s] > 0 ==> c.numBits <= MaxNumBits(weights)
  {
    if weights[s] == 0 then Code(0, 0)
    else
      PresentWeightBound(weights, s);
      Code(RunStart(weights, weights[s]) + Rank(weights, s), MaxNumBits(weights) + 1 - weights[s])
  }

  /** The whole table, one entry per symbol of the weight array. */
  function CanonicalTable(weights: seq<nat>): (t: seq<Code>)
    requires KraftValid(weights)
    ensures |t| == |weights|
    ensures forall s :: 0 <= s < |t| ==> t[s] == CanonicalCode(weights, s)
  {
    seq(|weights|, s requires 0 <= s < |weights| => CanonicalCode(weights, s))
  }

  /** Sum of 2^(maxBits - numBits) over the entries with a non-zero length in `codes[..b]`. */
  function KraftSumIn(codes: seq<Code>, maxBits: nat, b: nat): nat
    requires b <= |codes|
  {
    if b == 0 then 0
    else
      var c := codes[b - 1];
      KraftSumIn(codes, maxBits, b - 1) + (if 0 < c.numBits <= maxBits then Pow2(maxBits - c.numBits) else 0)
  }

  /** Present symbols get a length in 1..=Max_Number_of_Bits, absent ones length 0. */
  lemma CodeLengths(weights: seq<nat>, s: nat)
    requires Buildable(weights) && s < |weights|
    ensures weights[s] == 0 <==> CanonicalCode(weights, s).numBits == 0
    ensures weights[s] > 0 ==> 1 <= CanonicalCode(weights, s).numBits <= MaxNumBits(weights)
    ensures weights[s] > 0 ==> MaxNumBits(weights) - CanonicalCode(weights, s).numBits == weights[s] - 1
  {
  }

  lemma {:induction false} KraftSumLink(weights: seq<nat>, b: nat)
    requires Buildable(weights) && b <= |weights|
    ensures KraftSumIn(CanonicalTable(weights), MaxNumBits(weights), b) == WeightSumIn(weights, b)
  {
    if b > 0 {
      KraftSumLink(weights, b - 1);
      CodeLengths(weights, b - 1);
    }
  }

  /**
   * Kraft equality: the lengths of a buildable table satisfy
   * sum of 2^-numBits over the present symbols == 1, written in units of 2^-Max_Number_of_Bits.
   */
  lemma KraftEquality(weights: seq<nat>)
    requires Buildable(weights)
    ensures KraftSumIn(CanonicalTable(weights), MaxNumBits(weights), |weights|) == Pow2(MaxNumBits(weights))
  {
    KraftSumLink(weights, |weights|);
    PowerOfTwoIsPow2(WeightSum(weights));
  }

  /** The first symbol in (weight, symbol) order gets codeword 0. */
  lemma FirstRunStartsAtZero(weights: seq<nat>, s: nat)
    requires KraftValid(weights) && s < |weights| && weights[s] > 0
    requires forall t :: 0 <= t < |weights| && weights[t] > 0 ==> !Less(Entry(t, weights[t]), Entry(s, weights[s]))
    ensures CanonicalCode(weights, s).value == 0
  {
    var w := weights[s];
    forall v | 1 <= v < w
      ensures Count(weights, v) == 0
    {
      CountInFlat(weights, v, 0, |weights|);
    }
    RunStartFlat(weights, 1, w);
    CountInFlat(weights, w, 0, s);
  }

  /**
   * Within a run of equal weight, codewords are consecutive in symbol order:
   * the next symbol of the same weight gets the next value and the same length.
   */
  lemma RunConsecutive(weights: seq<nat>, s: nat, t: nat)
    requires KraftValid(weights) && s < t < |weights|
    requires weights[s] == weights[t] > 0
    requires forall u :: s < u < t ==> weights[u] != weights[s]
    ensures CanonicalCode(weights, t).value == CanonicalCode(weights, s).value + 1
    ensures CanonicalCode(weights, t).numBits == CanonicalCode(weights, s).numBits
  {
    CountInFlat(weights, weights[s], s + 1, t);
  }

  /** A heavier symbol never gets a longer code. */
  lemma LengthAntitone(weights: seq<nat>, s: nat, t: nat)
    requires KraftValid(weights) && s < |weights| && t < |weights|
    requires 0 < weights[s] <= weights[t]
    ensures CanonicalCode(weights, t).numBits <= CanonicalCode(weights, s).numBits
  {
  }

  /** The first table the source's unit test checks. */
  lemma TestVectorA()
    ensures KraftValid([2, 2, 2, 1, 1]) && MaxNumBits([2, 2, 2, 1, 1]) == 3
    ensures CanonicalTable([2, 2, 2, 1, 1]) == [Code(1, 2), Code(2, 2), Code(3, 2), Code(0, 3), Code(1, 3)]
  {
    var a := [2, 2, 2, 1, 1];
    assert Pow2(1) == 2 && Pow2(2) == 4 && Pow2(3) == 8;
    assert WeightSumIn(a, 1) == 2 && WeightSumIn(a, 2) == 4 && WeightSumIn(a, 3) == 6;
    assert WeightSumIn(a, 4) == 7 && WeightSumIn(a, 5) == 8;
    Pow2IsPowerOfTwo(3);
    assert CountIn(a, 1, 3) == 0 && CountIn(a, 1, 4) == 1 && CountIn(a, 1, 5) == 2;
    assert CountIn(a, 2, 1) == 1 && CountIn(a, 2, 2) == 2;
    assert RunStart(a, 2) == 1;
    var t := CanonicalTable(a);
    assert t[0] == Code(1, 2) && t[1] == Code(2, 2) && t[2] == Code(3, 2);
    assert t[3] == Code(0, 3) && t[4] == Code(1, 3);
  }

  /** The weights of the second table the source's unit test checks sum to a power of two. */
  lemma TestVectorBValid()
    ensures KraftValid([4, 3, 2, 0, 1, 1]) && MaxNumBits([4, 3, 2, 0, 1, 1]) == 4
  {
    var b := [4, 3, 2, 0, 1, 1];
    assert Pow2(1) == 2 && Pow2(2) == 4 && Pow2(3) == 8 && Pow2(4) == 16;
    assert WeightSumIn(b, 1) == 8 && WeightSumIn(b, 2) == 12 && WeightSumIn(b, 3) == 14;
    assert WeightSumIn(b, 4) == 14 && WeightSumIn(b, 5) == 15 && WeightSumIn(b, 6) == 16;
    Pow2IsPowerOfTwo(4);
  }

  /** The second table the source's unit test checks, with an absent symbol. */
  lemma TestVectorB()
    ensures KraftValid([4, 3, 2, 0, 1, 1]) && MaxNumBits([4, 3, 2, 0, 1, 1]) == 4
    ensures CanonicalTable([4, 3, 2, 0, 1, 1]) == [Code(1, 1), Code(1, 2), Code(1, 3), Code(0, 0), Code(0, 4), Code(1, 4)]
  {
    var b := [4, 3, 2, 0, 1, 1];
    TestVectorBValid();
    assert CountIn(b, 1, 4) == 0 && CountIn(b, 1, 5) == 1 && CountIn(b, 1, 6) == 2;
    assert CountIn(b, 2, 2) == 0 && CountIn(b, 2, 4) == 1 && CountIn(b, 2, 6) == 1;
    assert CountIn(b, 3, 1) == 0 && CountIn(b, 3, 4) == 1 && CountIn(b, 3, 6) == 1;
    assert CountIn(b, 4, 0) == 0;
    assert RunStart(b, 2) == 1 && RunStart(b, 3) == 1 && RunStart(b, 4) == 1;
    var t := CanonicalTable(b);
    assert t[0] == Code(1, 1) && t[1] == Code(1, 2) && t[2] == Code(1, 3);
    assert t[3] == Code(0, 0) && t[4] == Code(0, 4) && t[5] == Code(1, 4);
  }
}
