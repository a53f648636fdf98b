/**
 * (symbol, key) pairs and the order the Huffman encoder sorts them in.
 *
 * The encoder sorts twice with the standard library's stable `sort_by`: the
 * present symbols by (weight, symbol), and the enumerated counts by count
 * (stable over index order, so by (count, index)). Both orders are the strict
 * lexicographic order `Less` on distinct entries, so the sorted result is
 * unique; `SortEntries` stands for the library sort and is specified by
 * exactly that: strictly sorted and a permutation of its input.
 */
module Entries {

  datatype Entry = Entry(symbol: nat, key: nat)

  /** Lexicographic order on (key, symbol). */
  predicate Less(a: Entry, b: Entry)
  {
    a.key < b.key || (a.key == b.key && a.symbol < b.symbol)
  }

  predicate StrictlySorted(xs: seq<Entry>)
  {
    forall i, j :: 0 <= i < j < |xs| ==> Less(xs[i], xs[j])
  }

  predicate Distinct(xs: seq<Entry>)
  {
    forall i, j :: 0 <= i < j < |xs| ==> xs[i] != xs[j]
  }

  /** Any two distinct entries are ordered one way or the other. */
  lemma LessTotal(a: Entry, b: Entry)
    ensures a == b || Less(a, b) || Less(b, a)
  {
  }

  function Insert(x: Entry, xs: seq<Entry>): (r: seq<Entry>)
    requires StrictlySorted(xs) && x !in xs
    ensures StrictlySorted(r)
    ensures multiset(r) == multiset(xs) + multiset{x}
  {
    if xs == [] then [x]
    else if Less(x, xs[0]) then
      assert forall k :: 0 <= k < |xs| ==> Less(x, xs[k]) by {
        forall k | 0 < k < |xs| ensures Less(x, xs[k]) {
          assert Less(xs[0], xs[k]);
        }
      }
      [x] + xs
    else
      assert xs == [xs[0]] + xs[1..];
      var rest := Insert(x, xs[1..]);
      assert Less(xs[0], x) by { LessTotal(x, xs[0]); }
      AboveHead(x, xs, rest);
      [xs[0]] + rest
  }

  /** Everything in `rest`, the tail plus `x`, comes after the head of `xs`. */
  lemma AboveHead(x: Entry, xs: seq<Entry>, rest: seq<Entry>)
    requires StrictlySorted(xs) && xs != [] && Less(xs[0], x)
    requires multiset(rest) == multiset(xs[1..]) + multiset{x}
    ensures forall k :: 0 <= k < |rest| ==> Less(xs[0], rest[k])
  {
    forall k | 0 <= k < |rest| ensures Less(xs[0], rest[k]) {
      assert rest[k] in multiset(rest);
      if rest[k] != x {
        assert rest[k] in multiset(xs[1..]);
        var m :| 0 <= m < |xs[1..]| && xs[1..][m] == rest[k];
        assert xs[1 + m] == rest[k];
      }
    }
  }

  /** The model of the library sort: the unique strictly sorted permutation. */
  function SortEntries(xs: seq<Entry>): (r: seq<Entry>)
    requires Distinct(xs)
    ensures StrictlySorted(r)
    ensures multiset(r) == multiset(xs)
  {
    if xs == [] then []
    else
      assert xs == [xs[0]] + xs[1..];
      var r := SortEntries(xs[1..]);
      assert xs[0] !in xs[1..];
      assert xs[0] !in multiset(r);
      Insert(xs[0], r)
  }

  /** The sum of `f` over a sequence of entries (an iterator `map(..).sum()`). */
  function SumOf(xs: seq<Entry>, f: Entry -> nat): nat
  {
    if xs == [] then 0 else f(xs[0]) + SumOf(xs[1..], f)
  }

  lemma {:induction false} SumOfConcat(xs: seq<Entry>, ys: seq<Entry>, f: Entry -> nat)
    ensures SumOf(xs + ys, f) == SumOf(xs, f) + SumOf(ys, f)
  {
    if xs != [] {
      assert (xs + ys)[0] == xs[0];
      assert (xs + ys)[1..] == xs[1..] + ys;
      SumOfConcat(xs[1..], ys, f);
    } else {
      assert xs + ys == ys;
    }
  }

  /** A sum over entries does not depend on their order. */
  lemma {:induction false} SumOfPermutation(xs: seq<Entry>, ys: seq<Entry>, f: Entry -> nat)
    requires multiset(xs) == multiset(ys)
    ensures SumOf(xs, f) == SumOf(ys, f)
    decreases |xs|
  {
    if xs == [] {
      assert |ys| == |multiset(ys)| == 0;
    } else {
      var x := xs[0];
      assert x in multiset(ys);
      var k :| 0 <= k < |ys| && ys[k] == x;
      var others := ys[..k] + ys[k + 1..];
      assert xs == [x] + xs[1..];
      assert multiset(xs[1..]) == multiset(xs) - multiset{x};
      RemovedMultiset(ys, k);
      SumOfPermutation(xs[1..], others, f);
      SumOfRemoved(ys, k, f);
    }
  }

  /** Taking the entry at `k` out of `ys` takes one copy of it out of its multiset. */
  lemma RemovedMultiset(ys: seq<Entry>, k: nat)
    requires k < |ys|
    ensures multiset(ys[..k] + ys[k + 1..]) == multiset(ys) - multiset{ys[k]}
  {
    assert ys == ys[..k] + [ys[k]] + ys[k + 1..];
    assert multiset(ys) == multiset(ys[..k]) + multiset{ys[k]} + multiset(ys[k + 1..]);
  }

  /** Taking the entry at `k` out of `ys` takes its value out of the sum. */
  lemma SumOfRemoved(ys: seq<Entry>, k: nat, f: Entry -> nat)
    requires k < |ys|
    ensures SumOf(ys, f) == f(ys[k]) + SumOf(ys[..k] + ys[k + 1..], f)
  {
    assert ys == ys[..k] + [ys[k]] + ys[k + 1..];
    SumOfConcat(ys[..k], ys[k + 1..], f);
    SumOfConcat(ys[..k] + [ys[k]], ys[k + 1..], f);
    SumOfConcat(ys[..k], [ys[k]], f);
  }

  /** Counting function: 1 for entries whose key is `w`. */
  function KeyIs(w: nat): Entry -> nat
  {
    (e: Entry) => if e.key == w then 1 else 0
  }

  /** Counting function: 1 for entries with a non-zero key. */
  function KeyPositive(): Entry -> nat
  {
    (e: Entry) => if e.key > 0 then 1 else 0
  }
}
