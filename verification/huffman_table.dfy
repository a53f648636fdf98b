/**
 * `HuffmanTable::build_from_weights`, `HuffmanTable::build_from_counts` and
 * `highest_bit_set`, as the loops the encoder runs.
 *
 * The table is the vector of (codeword, bit length) pairs indexed by symbol.
 * Every panic of the source is an `Err` here: the weight sum that is not a
 * power of two, the `max_num_bits - weight` subtraction that underflows, and
 * the assertions and unwraps of the weight distribution.
 */
module HuffmanTable {
  import opened Bits
  import opened Results
  import opened Entries
  import opened HuffmanSpec
  import opened HuffmanWeights
  import opened HuffmanCorrected

  datatype BuildError =
    | NotPowerOfTwo        // "This is an internal error": the weight sum is not a power of two
    | NumBitsUnderflow     // `max_num_bits - entry.weight` below zero
    | AmountOutOfRange     // `distribute_weights` asserts 2 <= amount <= 256
    | RedistributePanicked // a subtraction in `redistribute_weights` went below zero

  /** `usize::BITS - x.leading_zeros()`: the number of significant bits of a positive number. */
  function HighestBitSet(x: nat): (r: nat)
    requires x > 0
    ensures r >= 1 && Pow2(r - 1) <= x < Pow2(r)
  {
    if x == 1 then 1 else HighestBitSet(x / 2) + 1
  }

  /** `highest_bit_set(x) - 1` is the base-2 logarithm the table uses as Max_Number_of_Bits. */
  lemma HighestBitSetIsLog2(x: nat)
    requires x > 0
    ensures HighestBitSet(x) == Log2(x) + 1
  {
    Log2Unique(x, HighestBitSet(x) - 1);
  }

  /** The present entries sorted by (weight, symbol), exactly once each. */
  ghost predicate SortedPresent(weights: seq<nat>, sorted: seq<Entry>)
  {
    StrictlySorted(sorted) && forall e :: e in sorted <==> IsPresent(weights, e)
  }

  /** Nothing present lies strictly between two neighbours of the sorted walk. */
  lemma NextPresent(weights: seq<nat>, sorted: seq<Entry>, i: nat, e: Entry)
    requires SortedPresent(weights, sorted) && i < |sorted| && IsPresent(weights, e)
    requires i == 0 || Less(sorted[i - 1], e)
    ensures sorted[i] == e || Less(sorted[i], e)
  {
    assert e in sorted;
    var k :| 0 <= k < |sorted| && sorted[k] == e;
    if k > i {
      assert Less(sorted[i], sorted[k]);
    }
  }

  /** The lowest weight of the walk at position `i` of a new run. */
  function RunFloor(sorted: seq<Entry>, i: nat): nat
    requires i < |sorted|
  {
    if i == 0 then 1 else sorted[i - 1].key + 1
  }

  /** The weight levels skipped before a new run hold no symbol. */
  lemma SkippedLevelEmpty(weights: seq<nat>, sorted: seq<Entry>, i: nat, v: nat)
    requires SortedPresent(weights, sorted) && i < |sorted|
    requires RunFloor(sorted, i) <= v < sorted[i].key
    ensures Count(weights, v) == 0
  {
    forall t | 0 <= t < |weights|
      ensures weights[t] != v
    {
      if weights[t] == v {
        NextPresent(weights, sorted, i, Entry(t, v));
      }
    }
    CountInFlat(weights, v, 0, |weights|);
  }

  /**
   * The first entry of a run starts at the value carried over from the
   * previous run and has rank 0 in it.
   */
  lemma FirstOfRun(weights: seq<nat>, sorted: seq<Entry>, i: nat)
    requires SortedPresent(weights, sorted) && i < |sorted|
    requires i == 0 || sorted[i - 1].key < sorted[i].key
    ensures sorted[i].symbol < |weights| && Rank(weights, sorted[i].symbol) == 0
    ensures RunStart(weights, sorted[i].key) == RunStart(weights, RunFloor(sorted, i))
    ensures i == 0 ==> RunStart(weights, sorted[i].key) == 0
  {
    var e := sorted[i];
    assert e in sorted;
    forall t | 0 <= t < e.symbol
      ensures weights[t] != e.key
    {
      if weights[t] == e.key {
        NextPresent(weights, sorted, i, Entry(t, e.key));
      }
    }
    CountInFlat(weights, e.key, 0, e.symbol);
    forall v | RunFloor(sorted, i) <= v < e.key
      ensures Count(weights, v) == 0
    {
      SkippedLevelEmpty(weights, sorted, i, v);
    }
    RunStartFlat(weights, RunFloor(sorted, i), e.key);
  }

  /** The next entry of the same run has the next rank. */
  lemma NextOfRun(weights: seq<nat>, sorted: seq<Entry>, i: nat)
    requires SortedPresent(weights, sorted) && 0 < i < |sorted|
    requires sorted[i - 1].key == sorted[i].key
    ensures sorted[i - 1].symbol < sorted[i].symbol < |weights|
    ensures Rank(weights, sorted[i].symbol) == Rank(weights, sorted[i - 1].symbol) + 1
  {
    var p, e := sorted[i - 1], sorted[i];
    assert p in sorted && e in sorted;
    assert Less(p, e);
    forall t | p.symbol < t < e.symbol
      ensures weights[t] != e.key
    {
      if weights[t] == e.key {
        NextPresent(weights, sorted, i, Entry(t, e.key));
      }
    }
    CountInFlat(weights, e.key, p.symbol + 1, e.symbol);
  }

  /** Sorting the pushed entries leaves a sorted walk over exactly the present symbols. */
  lemma SortedIsPresent(weights: seq<nat>, sorted: seq<Entry>)
    requires StrictlySorted(sorted) && multiset(sorted) == multiset(Present(weights, |weights|))
    ensures SortedPresent(weights, sorted)
    ensures forall k :: 0 <= k < |sorted| ==> IsPresent(weights, sorted[k])
    ensures SumOf(sorted, HalfPow()) == WeightSum(weights)
  {
    PresentMembers(weights, |weights|);
    forall e
      ensures e in sorted <==> IsPresent(weights, e)
    {
      assert e in sorted <==> e in multiset(sorted);
      assert e in Present(weights, |weights|) <==> e in multiset(Present(weights, |weights|));
    }
    forall k | 0 <= k < |sorted|
      ensures IsPresent(weights, sorted[k])
    {
      assert sorted[k] in sorted;
    }
    SumOfPermutation(Present(weights, |weights|), sorted, HalfPow());
    WeightSumLink(weights, |weights|);
  }

  /** The count the loop takes over the sorted entries is the number of symbols of that weight. */
  lemma RunCount(weights: seq<nat>, sorted: seq<Entry>, w: nat)
    requires w > 0 && multiset(sorted) == multiset(Present(weights, |weights|))
    ensures SumOf(sorted, KeyIs(w)) == Count(weights, w)
  {
    SumOfPermutation(Present(weights, |weights|), sorted, KeyIs(w));
    CountLink(weights, w, |weights|);
  }

  /**
   * The walk reaches the first entry of a new run: `start_value` holds the
   * run's start, and adding the run's count and halving gives the next start.
   */
  lemma NewRunStep(weights: seq<nat>, sorted: seq<Entry>, i: nat, startValue: nat)
    requires SortedPresent(weights, sorted) && i < |sorted|
    requires multiset(sorted) == multiset(Present(weights, |weights|))
    requires i == 0 ==> startValue == 0
    requires i > 0 ==> sorted[i - 1].key < sorted[i].key && startValue == RunStart(weights, sorted[i - 1].key + 1)
    ensures sorted[i].symbol < |weights| && Rank(weights, sorted[i].symbol) == 0
    ensures startValue == RunStart(weights, sorted[i].key)
    ensures (startValue + SumOf(sorted, KeyIs(sorted[i].key))) / 2 == RunStart(weights, sorted[i].key + 1)
  {
    FirstOfRun(weights, sorted, i);
    var e := sorted[i];
    assert e in sorted;
    RunCount(weights, sorted, e.key);
    CountPositive(weights, e.symbol);
  }

  /** A present symbol whose value and length follow the walk's state has its canonical code. */
  lemma CanonicalAt(weights: seq<nat>, s: nat, value: nat, numBits: nat)
    requires KraftValid(weights) && s < |weights| && weights[s] > 0
    requires value == RunStart(weights, weights[s]) + Rank(weights, s)
    requires numBits + weights[s] == MaxNumBits(weights) + 1
    ensures CanonicalCode(weights, s) == Code(value, numBits)
  {
  }

  /** Entries before position `i` of the walk have other symbols. */
  lemma EarlierSymbols(weights: seq<nat>, sorted: seq<Entry>, i: nat)
    requires SortedPresent(weights, sorted) && i < |sorted|
    ensures forall k :: 0 <= k < i ==> sorted[k].symbol != sorted[i].symbol
  {
    forall k | 0 <= k < i
      ensures sorted[k].symbol != sorted[i].symbol
    {
      assert sorted[k] in sorted && sorted[i] in sorted;
      assert Less(sorted[k], sorted[i]);
    }
  }

  /** The first loop of the builder: one (symbol, weight) entry per present symbol, in symbol order. */
  method CollectPresent(weights: seq<nat>) returns (sorted: seq<Entry>)
    ensures sorted == Present(weights, |weights|)
  {
    sorted := [];
    var symbol := 0;
    while symbol < |weights|
      invariant symbol <= |weights|
      invariant sorted == Present(weights, symbol)
    {
      if weights[symbol] > 0 {
        sorted := sorted + [Entry(symbol, weights[symbol])];
      }
      symbol := symbol + 1;
    }
  }

  /** The table before the walk: `(0, 0)` for every symbol. */
  method EmptyCodes(n: nat) returns (codes: seq<Code>)
    ensures |codes| == n && forall s :: 0 <= s < n ==> codes[s] == Code(0, 0)
  {
    codes := [];
    while |codes| < n
      invariant |codes| <= n
      invariant forall s :: 0 <= s < |codes| ==> codes[s] == Code(0, 0)
    {
      codes := codes + [Code(0, 0)];
    }
  }

  /** What the walk is given: valid weights, their logarithm, and the present entries sorted. */
  ghost predicate WalkInput(weights: seq<nat>, sorted: seq<Entry>, maxNumBits: nat)
  {
    KraftValid(weights) && maxNumBits == MaxNumBits(weights) &&
    SortedPresent(weights, sorted) && multiset(sorted) == multiset(Present(weights, |weights|)) &&
    (forall k :: 0 <= k < |sorted| ==> IsPresent(weights, sorted[k]))
  }

  /**
   * The counters of the walk after `i` sorted entries: every weight so far
   * fits in `maxNumBits`, `start_value` is the start of the next run and
   * `current_value` the next codeword of the current run.
   */
  ghost predicate WalkCounters(weights: seq<nat>, sorted: seq<Entry>, maxNumBits: nat, i: nat,
                               startValue: nat, currentValue: nat, currentWeight: nat, currentNumBits: nat)
    requires WalkInput(weights, sorted, maxNumBits)
  {
    i <= |sorted| &&
    (forall k :: 0 <= k < i ==> sorted[k].key <= maxNumBits) &&
    (i == 0 ==> startValue == 0 && currentValue == 0 && currentWeight == 0) &&
    (i > 0 ==>
      currentWeight == sorted[i - 1].key && currentNumBits + currentWeight == maxNumBits + 1 &&
      startValue == RunStart(weights, currentWeight + 1) &&
      currentValue == RunStart(weights, currentWeight) + Rank(weights, sorted[i - 1].symbol) + 1)
  }

  /**
   * The codes written after `i` sorted entries, on the way to `table`: each
   * of those entries has its code from `table`, every other symbol `(0, 0)`
   * or its code from `table`.
   */
  ghost predicate WalkCodes(weights: seq<nat>, sorted: seq<Entry>, i: nat, codes: seq<Code>, table: seq<Code>)
    requires i <= |sorted|
  {
    |codes| == |weights| && |table| == |weights| &&
    (forall k :: 0 <= k < i ==> sorted[k].symbol < |weights| && codes[sorted[k].symbol] == table[sorted[k].symbol]) &&
    (forall s :: 0 <= s < |weights| ==> codes[s] == Code(0, 0) || codes[s] == table[s])
  }

  /**
   * An entry that opens a new run gets the carried-over `start_value` as its
   * codeword, and `start_value` moves on by the run's count, halved.
   */
  lemma WalkNewRun(weights: seq<nat>, sorted: seq<Entry>, maxNumBits: nat, i: nat,
                   startValue: nat, currentValue: nat, currentWeight: nat, currentNumBits: nat)
    requires WalkInput(weights, sorted, maxNumBits)
    requires WalkCounters(weights, sorted, maxNumBits, i, startValue, currentValue, currentWeight, currentNumBits)
    requires i < |sorted| && currentWeight != sorted[i].key && sorted[i].key <= maxNumBits
    ensures var e := sorted[i];
      CanonicalCode(weights, e.symbol) == Code(startValue, maxNumBits - e.key + 1) &&
      WalkCounters(weights, sorted, maxNumBits, i + 1,
                   (startValue + SumOf(sorted, KeyIs(e.key))) / 2, startValue + 1, e.key, maxNumBits - e.key + 1)
  {
    var e := sorted[i];
    OpensRun(weights, sorted, maxNumBits, i, startValue, currentValue, currentWeight, currentNumBits);
    NewRunStep(weights, sorted, i, startValue);
    CanonicalAt(weights, e.symbol, startValue, maxNumBits - e.key + 1);
  }

  /** An entry whose weight differs from the current one has a larger weight than the entry before it. */
  lemma OpensRun(weights: seq<nat>, sorted: seq<Entry>, maxNumBits: nat, i: nat,
                 startValue: nat, currentValue: nat, currentWeight: nat, currentNumBits: nat)
    requires WalkInput(weights, sorted, maxNumBits)
    requires WalkCounters(weights, sorted, maxNumBits, i, startValue, currentValue, currentWeight, currentNumBits)
    requires i < |sorted| && currentWeight != sorted[i].key
    ensures i == 0 ==> startValue == 0
    ensures i > 0 ==> sorted[i - 1].key < sorted[i].key && startValue == RunStart(weights, sorted[i - 1].key + 1)
  {
    if i > 0 {
      assert Less(sorted[i - 1], sorted[i]);
    }
  }

  /** An entry that continues the run gets the next codeword. */
  lemma WalkSameRun(weights: seq<nat>, sorted: seq<Entry>, maxNumBits: nat, i: nat,
                    startValue: nat, currentValue: nat, currentWeight: nat, currentNumBits: nat)
    requires WalkInput(weights, sorted, maxNumBits)
    requires WalkCounters(weights, sorted, maxNumBits, i, startValue, currentValue, currentWeight, currentNumBits)
    requires i < |sorted| && currentWeight == sorted[i].key
    ensures var e := sorted[i];
      CanonicalCode(weights, e.symbol) == Code(currentValue, currentNumBits) &&
      WalkCounters(weights, sorted, maxNumBits, i + 1, startValue, currentValue + 1, currentWeight, currentNumBits)
  {
    var e := sorted[i];
    assert IsPresent(weights, e);
    NextOfRun(weights, sorted, i);
    CanonicalAt(weights, e.symbol, currentValue, currentNumBits);
  }

  /** Writing the next entry's code from `table` extends the written part by one entry. */
  lemma WalkWrite(weights: seq<nat>, sorted: seq<Entry>, maxNumBits: nat, i: nat, codes: seq<Code>, table: seq<Code>, code: Code)
    requires WalkInput(weights, sorted, maxNumBits) && i < |sorted|
    requires WalkCodes(weights, sorted, i, codes, table)
    requires sorted[i].symbol < |weights| && code == table[sorted[i].symbol]
    ensures WalkCodes(weights, sorted, i + 1, codes[sorted[i].symbol := code], table)
  {
    EarlierSymbols(weights, sorted, i);
  }

  /**
   * After the last entry every weight fits and the codes are `table`, when
   * `table` gives every absent symbol `(0, 0)`.
   */
  lemma WalkDone(weights: seq<nat>, sorted: seq<Entry>, maxNumBits: nat, codes: seq<Code>, table: seq<Code>)
    requires WalkInput(weights, sorted, maxNumBits)
    requires forall k :: 0 <= k < |sorted| ==> sorted[k].key <= maxNumBits
    requires WalkCodes(weights, sorted, |sorted|, codes, table)
    requires forall s :: 0 <= s < |weights| && weights[s] == 0 ==> table[s] == Code(0, 0)
    ensures forall s :: 0 <= s < |weights| ==> weights[s] <= maxNumBits
    ensures codes == table
  {
    forall s | 0 <= s < |weights|
      ensures weights[s] <= maxNumBits && codes[s] == table[s]
    {
      if weights[s] > 0 {
        assert Entry(s, weights[s]) in sorted;
        var k :| 0 <= k < |sorted| && sorted[k] == Entry(s, weights[s]);
      }
    }
  }

  /**
   * The walk of `build_from_weights` over the sorted entries, as written:
   * each new run takes `start_value`, which then moves on by the run's
   * count, halved. A weight level with no symbol is not halved for (see
   * `HuffmanCorrected`); `AssignCorrectedCodes` is the corrected walk.
   */
  method AssignCodes(weights: seq<nat>, sorted: seq<Entry>, maxNumBits: nat, empty: seq<Code>)
    returns (r: Result<seq<Code>, BuildError>)
    requires KraftValid(weights) && maxNumBits == MaxNumBits(weights)
    requires SortedPresent(weights, sorted) && multiset(sorted) == multiset(Present(weights, |weights|))
    requires forall k :: 0 <= k < |sorted| ==> IsPresent(weights, sorted[k])
    requires |empty| == |weights| && forall s :: 0 <= s < |weights| ==> empty[s] == Code(0, 0)
    ensures r.Ok? <==> forall s :: 0 <= s < |weights| ==> weights[s] <= maxNumBits
    ensures r.Err? ==> r.error == NumBitsUnderflow
    ensures r.Ok? ==> r.value == CanonicalTable(weights)
  {
    assert WalkInput(weights, sorted, maxNumBits);
    ghost var table := CanonicalTable(weights);
    var codes := empty;
    var startValue: nat, currentValue: nat, currentWeight: nat, currentNumBits: nat := 0, 0, 0, 0;
    var i := 0;
    while i < |sorted|
      invariant WalkCounters(weights, sorted, maxNumBits, i, startValue, currentValue, currentWeight, currentNumBits)
      invariant WalkCodes(weights, sorted, i, codes, table)
      decreases |sorted| - i
    {
      var entry := sorted[i];
      if currentWeight != entry.key {
        var count := SumOf(sorted, KeyIs(entry.key));
        if maxNumBits < entry.key {
          assert IsPresent(weights, entry);
          return Err(NumBitsUnderflow);
        }
        WalkNewRun(weights, sorted, maxNumBits, i, startValue, currentValue, currentWeight, currentNumBits);
        currentValue := startValue;
        startValue := startValue + count;
        startValue := startValue / 2;
        currentWeight := entry.key;
        currentNumBits := maxNumBits - entry.key + 1;
      } else {
        WalkSameRun(weights, sorted, maxNumBits, i, startValue, currentValue, currentWeight, currentNumBits);
      }
      WalkWrite(weights, sorted, maxNumBits, i, codes, table, Code(currentValue, currentNumBits));
      codes := codes[entry.symbol := Code(currentValue, currentNumBits)];
      currentValue := currentValue + 1;
      i := i + 1;
    }
    WalkDone(weights, sorted, maxNumBits, codes, table);
    return Ok(codes);
  }

  /**
   * The counters of the corrected walk after `i` sorted entries: as for the
   * walk as written, with the corrected run starts.
   */
  ghost predicate CorrectedCounters(weights: seq<nat>, sorted: seq<Entry>, maxNumBits: nat, i: nat,
                                    startValue: nat, currentValue: nat, currentWeight: nat, currentNumBits: nat)
    requires WalkInput(weights, sorted, maxNumBits)
  {
    i <= |sorted| &&
    (forall k :: 0 <= k < i ==> sorted[k].key <= maxNumBits) &&
    (i == 0 ==> currentWeight == 0) &&
    startValue == CorrectedRunStart(weights, currentWeight + 1) &&
    (i > 0 ==>
      currentWeight == sorted[i - 1].key && currentNumBits + currentWeight == maxNumBits + 1 &&
      currentValue == CorrectedRunStart(weights, currentWeight) + Rank(weights, sorted[i - 1].symbol) + 1)
  }

  /**
   * An entry that opens a new run lies above the previous run; halving
   * `start_value` once per weight level skipped in between gives the
   * entry's corrected codeword, and the counters move on as before.
   */
  lemma CorrectedNewRun(weights: seq<nat>, sorted: seq<Entry>, maxNumBits: nat, i: nat,
                        startValue: nat, currentValue: nat, currentWeight: nat, currentNumBits: nat)
    requires WalkInput(weights, sorted, maxNumBits)
    requires CorrectedCounters(weights, sorted, maxNumBits, i, startValue, currentValue, currentWeight, currentNumBits)
    requires i < |sorted| && currentWeight != sorted[i].key && sorted[i].key <= maxNumBits
    ensures currentWeight < sorted[i].key
    ensures var e := sorted[i];
      var runStart := startValue / Pow2(e.key - currentWeight - 1);
      e.symbol < |weights| && CorrectedCode(weights, e.symbol) == Code(runStart, maxNumBits - e.key + 1) &&
      CorrectedCounters(weights, sorted, maxNumBits, i + 1,
                        (runStart + SumOf(sorted, KeyIs(e.key))) / 2, runStart + 1, e.key, maxNumBits - e.key + 1)
  {
    var e := sorted[i];
    assert IsPresent(weights, e);
    assert i > 0 ==> Less(sorted[i - 1], e);
    FirstOfRun(weights, sorted, i);
    forall v | RunFloor(sorted, i) <= v < e.key
      ensures Count(weights, v) == 0
    {
      SkippedLevelEmpty(weights, sorted, i, v);
    }
    CorrectedSkip(weights, currentWeight + 1, e.key);
    RunCount(weights, sorted, e.key);
  }

  /** An entry that continues the run gets the next corrected codeword. */
  lemma CorrectedSameRun(weights: seq<nat>, sorted: seq<Entry>, maxNumBits: nat, i: nat,
                         startValue: nat, currentValue: nat, currentWeight: nat, currentNumBits: nat)
    requires WalkInput(weights, sorted, maxNumBits)
    requires CorrectedCounters(weights, sorted, maxNumBits, i, startValue, currentValue, currentWeight, currentNumBits)
    requires i < |sorted| && currentWeight == sorted[i].key
    ensures var e := sorted[i];
      e.symbol < |weights| && CorrectedCode(weights, e.symbol) == Code(currentValue, currentNumBits) &&
      CorrectedCounters(weights, sorted, maxNumBits, i + 1, startValue, currentValue + 1, currentWeight, currentNumBits)
  {
    var e := sorted[i];
    assert IsPresent(weights, e);
    NextOfRun(weights, sorted, i);
  }

  /**
   * The corrected walk: the source's walk, except that a new run first
   * shifts `start_value` right by one bit per weight level skipped since
   * the previous run, so that every level is halved for.
   */
  method AssignCorrectedCodes(weights: seq<nat>, sorted: seq<Entry>, maxNumBits: nat, empty: seq<Code>)
    returns (r: Result<seq<Code>, BuildError>)
    requires KraftValid(weights) && maxNumBits == MaxNumBits(weights)
    requires SortedPresent(weights, sorted) && multiset(sorted) == multiset(Present(weights, |weights|))
    requires forall k :: 0 <= k < |sorted| ==> IsPresent(weights, sorted[k])
    requires |empty| == |weights| && forall s :: 0 <= s < |weights| ==> empty[s] == Code(0, 0)
    ensures r.Ok? <==> forall s :: 0 <= s < |weights| ==> weights[s] <= maxNumBits
    ensures r.Err? ==> r.error == NumBitsUnderflow
    ensures r.Ok? ==> r.value == CorrectedTable(weights)
  {
    assert WalkInput(weights, sorted, maxNumBits);
    ghost var table := CorrectedTable(weights);
    var codes := empty;
    var startValue: nat, currentValue: nat, currentWeight: nat, currentNumBits: nat := 0, 0, 0, 0;
    var i := 0;
    while i < |sorted|
      invariant CorrectedCounters(weights, sorted, maxNumBits, i, startValue, currentValue, currentWeight, currentNumBits)
      invariant WalkCodes(weights, sorted, i, codes, table)
      decreases |sorted| - i
    {
      var entry := sorted[i];
      if currentWeight != entry.key {
        var count := SumOf(sorted, KeyIs(entry.key));
        if maxNumBits < entry.key {
          assert IsPresent(weights, entry);
          return Err(NumBitsUnderflow);
        }
        CorrectedNewRun(weights, sorted, maxNumBits, i, startValue, currentValue, currentWeight, currentNumBits);
        startValue := startValue / Pow2(entry.key - currentWeight - 1);
        currentValue := startValue;
        startValue := startValue + count;
        startValue := startValue / 2;
        currentWeight := entry.key;
        currentNumBits := maxNumBits - entry.key + 1;
      } else {
        CorrectedSameRun(weights, sorted, maxNumBits, i, startValue, currentValue, currentWeight, currentNumBits);
      }
      WalkWrite(weights, sorted, maxNumBits, i, codes, table, Code(currentValue, currentNumBits));
      codes := codes[entry.symbol := Code(currentValue, currentNumBits)];
      currentValue := currentValue + 1;
      i := i + 1;
    }
    WalkDone(weights, sorted, maxNumBits, codes, table);
    return Ok(codes);
  }

  /**
   * `HuffmanTable::build_from_weights`, with the corrected numbering: the
   * table is built exactly when the weights are buildable, and it is then
   * the corrected canonical table, in which every codeword fits its bit
   * length. When no weight level is skipped this is the table the source
   * builds.
   */
  method BuildFromWeights(weights: seq<nat>) returns (r: Result<seq<Code>, BuildError>)
    requires |weights| <= 256
    ensures r.Ok? <==> Buildable(weights)
    ensures r.Err? ==> (r.error == NotPowerOfTwo <==> !KraftValid(weights))
    ensures r.Err? ==> r.error == NotPowerOfTwo || r.error == NumBitsUnderflow
    ensures r.Ok? ==> r.value == CorrectedTable(weights)
    ensures r.Ok? ==> forall s :: 0 <= s < |weights| && weights[s] > 0 ==> r.value[s].value < Pow2(r.value[s].numBits)
    ensures r.Ok? && NoSkippedLevel(weights) ==> r.value == CanonicalTable(weights)
  {
    var sorted := CollectPresent(weights);
    PresentDistinct(weights, |weights|);
    sorted := SortEntries(sorted);
    SortedIsPresent(weights, sorted);
    var codes := EmptyCodes(|weights|);

    var weightSum := SumOf(sorted, HalfPow());
    if !IsPowerOfTwo(weightSum) {
      return Err(NotPowerOfTwo);
    }
    var maxNumBits := HighestBitSet(weightSum) - 1;
    HighestBitSetIsLog2(weightSum);
    assert maxNumBits == MaxNumBits(weights);

    r := AssignCorrectedCodes(weights, sorted, maxNumBits, codes);
    if r.Ok? {
      forall s | 0 <= s < |weights| && weights[s] > 0
        ensures r.value[s].value < Pow2(r.value[s].numBits)
      {
        CorrectedCodesFit(weights, s);
      }
      if NoSkippedLevel(weights) {
        TablesAgreeWithoutSkippedLevels(weights);
      }
    }
  }

  /** `counts.iter().enumerate()` over `counts[..b]`: (index, count) entries in index order. */
  function Enumerate(counts: seq<nat>, b: nat): (r: seq<Entry>)
    requires b <= |counts|
    ensures |r| == b && forall i :: 0 <= i < b ==> r[i] == Entry(i, counts[i])
  {
    if b == 0 then [] else Enumerate(counts, b - 1) + [Entry(b - 1, counts[b - 1])]
  }

  lemma EnumerateDistinct(counts: seq<nat>)
    ensures Distinct(Enumerate(counts, |counts|))
  {
  }

  /** The non-zero counts number `counts.len() - zeros`. */
  lemma {:induction false} EnumeratePositive(counts: seq<nat>, b: nat)
    requires b <= |counts|
    ensures SumOf(Enumerate(counts, b), KeyPositive()) + CountIn(counts, 0, b) == b
  {
    if b > 0 {
      EnumeratePositive(counts, b - 1);
      var last := [Entry(b - 1, counts[b - 1])];
      SumOfConcat(Enumerate(counts, b - 1), last, KeyPositive());
      assert last[1..] == [];
    }
  }

  lemma {:induction false} SumOfPrefixStep(xs: seq<Entry>, i: nat, f: Entry -> nat)
    requires i < |xs|
    ensures SumOf(xs[..i + 1], f) == SumOf(xs[..i], f) + f(xs[i])
  {
    assert xs[..i + 1] == xs[..i] + [xs[i]];
    SumOfConcat(xs[..i], [xs[i]], f);
    assert [xs[i]][1..] == [];
  }

  lemma {:induction false} SumOfPrefixMonotone(xs: seq<Entry>, a: nat, b: nat, f: Entry -> nat)
    requires a <= b <= |xs|
    ensures SumOf(xs[..a], f) <= SumOf(xs[..b], f)
  {
    assert xs[..b] == xs[..a] + xs[a..b];
    SumOfConcat(xs[..a], xs[a..b], f);
  }

  /** The vector reversed (`weights.reverse()`). */
  function Reversed(s: seq<nat>): (r: seq<nat>)
    ensures |r| == |s| && forall i :: 0 <= i < |s| ==> r[i] == s[|s| - 1 - i]
  {
    seq(|s|, i requires 0 <= i < |s| => s[|s| - 1 - i])
  }

  /** `n` zero weights (`weights_distributed.resize(counts.len(), 0)`). */
  function Zeros(n: nat): (r: seq<nat>)
    ensures |r| == n && forall i :: 0 <= i < n ==> r[i] == 0
  {
    seq(n, _ => 0)
  }

  /** The weight handed to the entry at position `j` of the walk: 0, or the next popped weight. */
  ghost predicate HandedOut(sorted: seq<Entry>, weights: seq<nat>, dist: seq<nat>, j: nat)
    requires j < |sorted| && sorted[j].symbol < |dist|
  {
    var popped := SumOf(sorted[..j], KeyPositive());
    if sorted[j].key == 0 then dist[sorted[j].symbol] == 0
    else popped < |weights| && dist[sorted[j].symbol] == weights[popped]
  }

  /** Giving the next popped weight to a symbol that still holds 0 keeps the multiset account. */
  ghost predicate Account(dist: seq<nat>, weights: seq<nat>, popped: nat, n: nat)
    requires popped <= |weights| <= n
  {
    multiset(dist) == multiset(weights[..popped]) + multiset(Zeros(n - popped))
  }

  lemma PopStep(before: seq<nat>, s: nat, weights: seq<nat>, popped: nat, n: nat)
    requires s < |before| && before[s] == 0 && popped < |weights| <= n
    requires Account(before, weights, popped, n)
    ensures Account(before[s := weights[popped]], weights, popped + 1, n)
  {
    assert weights[..popped + 1] == weights[..popped] + [weights[popped]];
    assert Zeros(n - popped) == Zeros(n - popped - 1) + [0];
  }

  /** Writing the entry at position `i` leaves what earlier entries were handed. */
  lemma HandedOutKept(sorted: seq<Entry>, weights: seq<nat>, before: seq<nat>, i: nat, after: seq<nat>)
    requires i < |sorted| && sorted[i].symbol < |before|
    requires forall j :: 0 <= j < |sorted| ==> sorted[j].symbol < |before|
    requires forall j, k :: 0 <= j < k < |sorted| ==> sorted[j].symbol != sorted[k].symbol
    requires forall j :: 0 <= j < i ==> HandedOut(sorted, weights, before, j)
    requires |after| == |before| && after == before[sorted[i].symbol := after[sorted[i].symbol]]
    ensures forall j :: 0 <= j < i ==> HandedOut(sorted, weights, after, j)
  {
    forall j | 0 <= j < i
      ensures HandedOut(sorted, weights, after, j)
    {
      assert HandedOut(sorted, weights, before, j);
    }
  }

  /** Popping the reversed vector yields the weights front to back. */
  lemma PopReversed(weights: seq<nat>, popped: nat)
    requires popped < |weights|
    ensures Reversed(weights)[..|weights| - popped][|weights| - popped - 1] == weights[popped]
    ensures Reversed(weights)[..|weights| - popped][..|weights| - popped - 1] == Reversed(weights)[..|weights| - popped - 1]
  {
  }

  /** What the hand-out loop is given: entries over `n` symbols, each symbol once, one weight per non-zero key. */
  ghost predicate HandInput(sorted: seq<Entry>, weights: seq<nat>, n: nat)
  {
    (forall j :: 0 <= j < |sorted| ==> sorted[j].symbol < n) &&
    (forall j, k :: 0 <= j < k < |sorted| ==> sorted[j].symbol != sorted[k].symbol) &&
    SumOf(sorted, KeyPositive()) == |weights| <= n
  }

  /** The hand-out loop after `i` entries, `popped` of which took a weight off `stack`. */
  ghost predicate HandState(sorted: seq<Entry>, weights: seq<nat>, n: nat, i: nat, popped: nat, stack: seq<nat>, dist: seq<nat>)
    requires HandInput(sorted, weights, n)
  {
    i <= |sorted| && |dist| == n &&
    popped == SumOf(sorted[..i], KeyPositive()) && popped <= |weights| &&
    stack == Reversed(weights)[..|weights| - popped] &&
    (forall j :: 0 <= j < i ==> HandedOut(sorted, weights, dist, j)) &&
    (forall j :: i <= j < |sorted| ==> dist[sorted[j].symbol] == 0) &&
    Account(dist, weights, popped, n)
  }

  /** A zero count: its symbol keeps weight 0 and nothing is popped. */
  lemma HandSkip(sorted: seq<Entry>, weights: seq<nat>, n: nat, i: nat, popped: nat, stack: seq<nat>, dist: seq<nat>)
    requires HandInput(sorted, weights, n) && HandState(sorted, weights, n, i, popped, stack, dist)
    requires i < |sorted| && sorted[i].key == 0
    ensures HandState(sorted, weights, n, i + 1, popped, stack, dist[sorted[i].symbol := 0])
  {
    SumOfPrefixStep(sorted, i, KeyPositive());
    assert dist[sorted[i].symbol := 0] == dist;
  }

  /** A non-zero count: its symbol takes the top of the stack, which is the next weight front to back. */
  lemma HandPop(sorted: seq<Entry>, weights: seq<nat>, n: nat, i: nat, popped: nat, stack: seq<nat>, dist: seq<nat>)
    requires HandInput(sorted, weights, n) && HandState(sorted, weights, n, i, popped, stack, dist)
    requires i < |sorted| && sorted[i].key > 0
    ensures popped < |weights| && |stack| > 0 && stack[|stack| - 1] == weights[popped]
    ensures HandState(sorted, weights, n, i + 1, popped + 1, stack[..|stack| - 1], dist[sorted[i].symbol := weights[popped]])
  {
    SumOfPrefixStep(sorted, i, KeyPositive());
    SumOfPrefixMonotone(sorted, i + 1, |sorted|, KeyPositive());
    assert sorted[..|sorted|] == sorted;
    PopReversed(weights, popped);
    var after := dist[sorted[i].symbol := weights[popped]];
    PopStep(dist, sorted[i].symbol, weights, popped, n);
    HandedOutKept(sorted, weights, dist, i, after);
  }

  /**
   * The hand-out loop of `build_from_counts`: walking the counts in
   * ascending (count, index) order, a zero count gets weight 0 and a
   * non-zero count gets the next weight popped off the reversed vector, so
   * the smallest weights go to the smallest counts. The pop never fails.
   */
  method HandOut(sorted: seq<Entry>, weights: seq<nat>, n: nat) returns (dist: seq<nat>)
    requires forall j :: 0 <= j < |sorted| ==> sorted[j].symbol < n
    requires forall j, k :: 0 <= j < k < |sorted| ==> sorted[j].symbol != sorted[k].symbol
    requires SumOf(sorted, KeyPositive()) == |weights| <= n
    ensures |dist| == n
    ensures forall j :: 0 <= j < |sorted| ==> HandedOut(sorted, weights, dist, j)
    ensures multiset(dist) == multiset(weights) + multiset(Zeros(n - |weights|))
  {
    assert HandInput(sorted, weights, n);
    dist := Zeros(n);
    var stack := Reversed(weights);
    ghost var popped: nat := 0;
    var i: nat := 0;
    assert weights[..0] == [];
    while i < |sorted|
      invariant HandState(sorted, weights, n, i, popped, stack, dist)
      decreases |sorted| - i
    {
      var entry := sorted[i];
      if entry.key == 0 {
        HandSkip(sorted, weights, n, i, popped, stack, dist);
        dist := dist[entry.symbol := 0];
      } else {
        HandPop(sorted, weights, n, i, popped, stack, dist);
        var w := stack[|stack| - 1];
        stack := stack[..|stack| - 1];
        dist := dist[entry.symbol := w];
        popped := popped + 1;
      }
      i := i + 1;
    }
    HandDone(sorted, weights, n, popped, stack, dist);
  }

  lemma HandDone(sorted: seq<Entry>, weights: seq<nat>, n: nat, popped: nat, stack: seq<nat>, dist: seq<nat>)
    requires HandInput(sorted, weights, n) && HandState(sorted, weights, n, |sorted|, popped, stack, dist)
    ensures |dist| == n
    ensures forall j :: 0 <= j < |sorted| ==> HandedOut(sorted, weights, dist, j)
    ensures multiset(dist) == multiset(weights) + multiset(Zeros(n - |weights|))
  {
    assert sorted[..|sorted|] == sorted;
    assert weights[..popped] == weights;
  }

  /**
   * The weights for `amount` present symbols: `distribute_weights(amount)`,
   * then capped by `redistribute_weights` at `ilog2(amount) + 2`. They stay
   * sorted and their sum of 2^(w-1) stays a power of two.
   */
  method CappedWeights(amount: nat) returns (r: Result<seq<nat>, BuildError>)
    requires amount <= 256
    ensures (r.Err? && r.error == AmountOutOfRange) <==> amount < 2
    ensures r.Err? ==> r.error == AmountOutOfRange || r.error == RedistributePanicked
    ensures r.Ok? ==> |r.value| == amount && NonDecreasing(r.value) && IsPowerOfTwo(PowSum(r.value))
    ensures amount >= 2 && WithinCap(amount) ==> r == Ok(DistributeSpec(amount))
    ensures amount >= 2 ==> (r.Ok? <==> CountWeights(amount).Some?)
    ensures r.Ok? ==> amount >= 2 && r.value == CountWeights(amount).value
  {
    var dist := DistributeWeights(amount);
    if dist.None? {
      return Err(AmountOutOfRange);
    }
    var weights := dist.value;
    var limit := Log2(|weights|) + 2;
    CountWeightsOf(amount, weights, limit);
    var capped := RedistributeVec(weights, limit);
    if capped.None? {
      return Err(RedistributePanicked);
    }
    return Ok(capped.value);
  }

  /** `redistribute_weights` run on a vector that holds `weights`. */
  method RedistributeVec(weights: seq<nat>, maxWeight: nat) returns (r: Option<seq<nat>>)
    requires NonDecreasing(weights) && AllPositive(weights)
    ensures r == Redistributed(weights, maxWeight)
    ensures r.Some? ==> |r.value| == |weights| && NonDecreasing(r.value)
    ensures r.Some? && IsPowerOfTwo(PowSum(weights)) ==> IsPowerOfTwo(PowSum(r.value))
  {
    var a := new nat[|weights|](i requires 0 <= i < |weights| => weights[i]);
    assert a[..] == weights;
    var outcome, raised, surplus, paid, offset := RedistributeWeights(a, maxWeight);
    if outcome == Panicked {
      return None;
    }
    return Some(a[..]);
  }

  /**
   * The first part of `build_from_counts`: the weights each symbol gets.
   * They come from `distribute_weights(k)` for the k non-zero counts,
   * capped by `redistribute_weights` at `ilog2(k) + 2`, and are handed out
   * smallest first in ascending (count, index) order. A zero count gets
   * weight 0, and a larger count, or an equal count at a later index, never
   * gets a smaller weight.
   */
  method DistributeCounts(counts: seq<nat>) returns (r: Result<seq<nat>, BuildError>, ghost redistributed: seq<nat>)
    requires |counts| <= 256
    ensures (r.Err? && r.error == AmountOutOfRange) <==> |counts| - Count(counts, 0) < 2
    ensures r.Err? ==> r.error == AmountOutOfRange || r.error == RedistributePanicked
    ensures r.Ok? ==> |r.value| == |counts| && |redistributed| == |counts| - Count(counts, 0)
    ensures r.Ok? ==> NonDecreasing(redistributed) && IsPowerOfTwo(PowSum(redistributed))
    ensures r.Ok? && WithinCap(|counts| - Count(counts, 0)) ==> redistributed == DistributeSpec(|counts| - Count(counts, 0))
    ensures (r.Err? && r.error == RedistributePanicked) <==>
      |counts| - Count(counts, 0) >= 2 && CountWeights(|counts| - Count(counts, 0)).None?
    ensures r.Ok? ==> |counts| - Count(counts, 0) >= 2 && redistributed == CountWeights(|counts| - Count(counts, 0)).value
    ensures r.Ok? ==> multiset(r.value) == multiset(redistributed) + multiset(Zeros(Count(counts, 0)))
    ensures r.Ok? ==> forall s :: 0 <= s < |counts| && counts[s] == 0 ==> r.value[s] == 0
    ensures r.Ok? ==> forall s, t ::
      (0 <= s < |counts| && 0 <= t < |counts| && counts[s] > 0 && Less(Entry(s, counts[s]), Entry(t, counts[t])))
      ==> r.value[s] <= r.value[t]
  {
    redistributed := [];
    var zeros := Count(counts, 0);
    CountInBound(counts, 0, |counts|);
    var capped := CappedWeights(|counts| - zeros);
    if capped.Err? {
      return Err(capped.error), redistributed;
    }
    redistributed := capped.value;
    var handed := HandOutByCount(counts, capped.value);
    return Ok(handed), redistributed;
  }

  /**
   * The hand-out of `build_from_counts`: the symbols in ascending (count,
   * index) order take the weights smallest first, and a zero count keeps
   * weight 0.
   */
  method HandOutByCount(counts: seq<nat>, weights: seq<nat>) returns (handed: seq<nat>)
    requires NonDecreasing(weights) && |weights| == |counts| - Count(counts, 0)
    ensures |handed| == |counts|
    ensures multiset(handed) == multiset(weights) + multiset(Zeros(Count(counts, 0)))
    ensures forall s :: 0 <= s < |counts| && counts[s] == 0 ==> handed[s] == 0
    ensures forall s, t ::
      (0 <= s < |counts| && 0 <= t < |counts| && counts[s] > 0 && Less(Entry(s, counts[s]), Entry(t, counts[t])))
      ==> handed[s] <= handed[t]
  {
    CountInBound(counts, 0, |counts|);
    var enumerated := Enumerate(counts, |counts|);
    EnumerateDistinct(counts);
    var sorted := SortEntries(enumerated);
    EnumeratePositive(counts, |counts|);
    SumOfPermutation(enumerated, sorted, KeyPositive());
    SortedCounts(counts, sorted);
    handed := HandOut(sorted, weights, |counts|);
    HandOutOrder(counts, sorted, weights, handed);
  }

  /**
   * `HuffmanTable::build_from_counts`: the table `build_from_weights` makes
   * of the weights `DistributeCounts` hands out. A zero count gets the empty
   * code; a larger count, or an equal count at a later index, never gets a
   * longer code.
   */
  method BuildFromCounts(counts: seq<nat>) returns (r: Result<seq<Code>, BuildError>, ghost distributed: seq<nat>, ghost redistributed: seq<nat>)
    requires |counts| <= 256
    ensures (r.Err? && r.error == AmountOutOfRange) <==> |counts| - Count(counts, 0) < 2
    ensures r.Ok? || r.error == AmountOutOfRange || r.error == RedistributePanicked || !Buildable(distributed)
    ensures r.Ok? ==> |distributed| == |counts| && Buildable(distributed) && r.value == CorrectedTable(distributed)
    ensures r.Ok? && NoSkippedLevel(distributed) ==> r.value == CanonicalTable(distributed)
    ensures r.Ok? ==> forall s :: 0 <= s < |counts| && distributed[s] > 0 ==> r.value[s].value < Pow2(r.value[s].numBits)
    ensures r.Ok? ==> |redistributed| == |counts| - Count(counts, 0)
    ensures r.Ok? ==> NonDecreasing(redistributed) && IsPowerOfTwo(PowSum(redistributed))
    ensures r.Ok? && WithinCap(|counts| - Count(counts, 0)) ==> redistributed == DistributeSpec(|counts| - Count(counts, 0))
    ensures (r.Err? && r.error == RedistributePanicked) <==>
      |counts| - Count(counts, 0) >= 2 && CountWeights(|counts| - Count(counts, 0)).None?
    ensures r.Ok? ==> |counts| - Count(counts, 0) >= 2 && redistributed == CountWeights(|counts| - Count(counts, 0)).value
    ensures r.Ok? ==> multiset(distributed) == multiset(redistributed) + multiset(Zeros(Count(counts, 0)))
    ensures r.Ok? ==> forall s :: 0 <= s < |counts| && counts[s] == 0 ==> distributed[s] == 0 && r.value[s] == Code(0, 0)
    ensures r.Ok? ==> forall s, t ::
      (0 <= s < |counts| && 0 <= t < |counts| && counts[s] > 0 && Less(Entry(s, counts[s]), Entry(t, counts[t])))
      ==> distributed[s] <= distributed[t]
    ensures r.Ok? ==> forall s, t ::
      (0 <= s < |counts| && 0 <= t < |counts| && distributed[s] > 0 && Less(Entry(s, counts[s]), Entry(t, counts[t])))
      ==> r.value[t].numBits <= r.value[s].numBits
  {
    distributed := [];
    var handed;
    handed, redistributed := DistributeCounts(counts);
    if handed.Err? {
      return Err(handed.error), distributed, redistributed;
    }
    var weights := handed.value;
    distributed := weights;
    r := BuildFromWeights(weights);
    if r.Ok? {
      CountOrderLengths(counts, weights, r.value);
    }
  }

  /** A symbol after another in (count, index) order never gets a longer code than it. */
  lemma CountOrderLengths(counts: seq<nat>, dist: seq<nat>, table: seq<Code>)
    requires |dist| == |counts| && KraftValid(dist) && table == CorrectedTable(dist)
    requires forall s :: 0 <= s < |counts| && counts[s] == 0 ==> dist[s] == 0
    requires forall s, t ::
      (0 <= s < |counts| && 0 <= t < |counts| && counts[s] > 0 && Less(Entry(s, counts[s]), Entry(t, counts[t])))
      ==> dist[s] <= dist[t]
    ensures forall s :: 0 <= s < |counts| && counts[s] == 0 ==> table[s] == Code(0, 0)
    ensures forall s, t ::
      (0 <= s < |counts| && 0 <= t < |counts| && dist[s] > 0 && Less(Entry(s, counts[s]), Entry(t, counts[t])))
      ==> table[t].numBits <= table[s].numBits
  {
    forall s, t | 0 <= s < |counts| && 0 <= t < |counts| && dist[s] > 0 && Less(Entry(s, counts[s]), Entry(t, counts[t]))
      ensures table[t].numBits <= table[s].numBits
    {
      LengthAntitone(dist, s, t);
    }
  }

  /** The enumerated counts, sorted: each index once, with its own count. */
  lemma SortedCounts(counts: seq<nat>, sorted: seq<Entry>)
    requires StrictlySorted(sorted) && multiset(sorted) == multiset(Enumerate(counts, |counts|))
    ensures forall j :: 0 <= j < |sorted| ==> sorted[j].symbol < |counts| && sorted[j].key == counts[sorted[j].symbol]
    ensures forall j, k :: 0 <= j < k < |sorted| ==> sorted[j].symbol != sorted[k].symbol
    ensures forall s :: 0 <= s < |counts| ==> Entry(s, counts[s]) in sorted
  {
    SortedCountsMembers(counts, sorted);
    forall s | 0 <= s < |counts|
      ensures Entry(s, counts[s]) in sorted
    {
      var en := Enumerate(counts, |counts|);
      assert en[s] in multiset(en);
    }
    forall j, k | 0 <= j < k < |sorted|
      ensures sorted[j].symbol != sorted[k].symbol
    {
      assert Less(sorted[j], sorted[k]);
    }
  }

  lemma SortedCountsMembers(counts: seq<nat>, sorted: seq<Entry>)
    requires multiset(sorted) == multiset(Enumerate(counts, |counts|))
    ensures forall j :: 0 <= j < |sorted| ==> sorted[j].symbol < |counts| && sorted[j].key == counts[sorted[j].symbol]
  {
    forall j | 0 <= j < |sorted|
      ensures sorted[j].symbol < |counts| && sorted[j].key == counts[sorted[j].symbol]
    {
      assert sorted[j] in multiset(sorted);
      EnumerateMember(counts, sorted[j]);
    }
  }

  lemma EnumerateMember(counts: seq<nat>, e: Entry)
    requires e in Enumerate(counts, |counts|)
    ensures e.symbol < |counts| && e.key == counts[e.symbol]
  {
    var en := Enumerate(counts, |counts|);
    var m :| 0 <= m < |en| && en[m] == e;
  }

  /** What the hand-out gives each symbol, ordered by (count, index). */
  lemma HandOutOrder(counts: seq<nat>, sorted: seq<Entry>, weights: seq<nat>, dist: seq<nat>)
    requires StrictlySorted(sorted) && NonDecreasing(weights) && |dist| == |counts|
    requires forall j :: 0 <= j < |sorted| ==> sorted[j].symbol < |counts| && sorted[j].key == counts[sorted[j].symbol]
    requires forall s :: 0 <= s < |counts| ==> Entry(s, counts[s]) in sorted
    requires forall j :: 0 <= j < |sorted| ==> HandedOut(sorted, weights, dist, j)
    ensures forall s :: 0 <= s < |counts| && counts[s] == 0 ==> dist[s] == 0
    ensures forall s, t ::
      (0 <= s < |counts| && 0 <= t < |counts| && counts[s] > 0 && Less(Entry(s, counts[s]), Entry(t, counts[t])))
      ==> dist[s] <= dist[t]
  {
    forall s | 0 <= s < |counts| && counts[s] == 0
      ensures dist[s] == 0
    {
      var j :| 0 <= j < |sorted| && sorted[j] == Entry(s, counts[s]);
      assert HandedOut(sorted, weights, dist, j);
    }
    forall s, t | 0 <= s < |counts| && 0 <= t < |counts| && counts[s] > 0 &&
      Less(Entry(s, counts[s]), Entry(t, counts[t]))
      ensures dist[s] <= dist[t]
    {
      var js :| 0 <= js < |sorted| && sorted[js] == Entry(s, counts[s]);
      var jt :| 0 <= jt < |sorted| && sorted[jt] == Entry(t, counts[t]);
      assert js < jt;
      assert HandedOut(sorted, weights, dist, js) && HandedOut(sorted, weights, dist, jt);
      SumOfPrefixStep(sorted, js, KeyPositive());
      SumOfPrefixMonotone(sorted, js + 1, jt, KeyPositive());
    }
  }
}
