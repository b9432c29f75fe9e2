/** The validated recursive solver: `knapsack` checks its arguments and then
    runs `knapsack_r`, which tries every include/exclude choice over the items
    from `index` to the end. */
module Recursive {
  import opened Items

  /** `INT_ERR`, the sentinel the validated entry point returns on bad input.
      It is the same number as a legitimate optimum of zero. */
  const IntErr: int := 0

  /** `knapsack_r(w, items, len, index)`, with `s` the `len` items the array
      holds: the best value reachable with the items `s[index..]` under the
      remaining capacity `w`. The result is never negative: leaving every
      item out is always an option. */
  function KnapR(w: int, s: seq<Item>, index: nat): (r: int)
    ensures r >= 0
    decreases |s| - index
  {
    if index >= |s| then 0
    else if w - s[index].weight < 0 then KnapR(w, s, index + 1)
    else Max(KnapR(w - s[index].weight, s, index + 1) + s[index].value, KnapR(w, s, index + 1))
  }

  /** The selection of `s[index..]` that `KnapR` settles on: an item is taken
      exactly when the include branch is the one `max` returns. */
  function ChoiceR(w: int, s: seq<Item>, index: nat): (pick: seq<bool>)
    requires index <= |s|
    ensures |pick| == |s| - index
    decreases |s| - index
  {
    if index == |s| then []
    else if w - s[index].weight < 0 then [false] + ChoiceR(w, s, index + 1)
    else if KnapR(w - s[index].weight, s, index + 1) + s[index].value > KnapR(w, s, index + 1)
    then [true] + ChoiceR(w - s[index].weight, s, index + 1)
    else [false] + ChoiceR(w, s, index + 1)
  }

  /** The value `KnapR` returns is reached by a selection that fits. */
  lemma {:induction false} KnapRAttained(w: int, s: seq<Item>, index: nat)
    requires index <= |s| && w >= 0
    ensures Fits(s[index..], ChoiceR(w, s, index), w)
    ensures Value(s[index..], ChoiceR(w, s, index)) == KnapR(w, s, index)
    decreases |s| - index
  {
    if index < |s| {
      var t := s[index..];
      assert t[1..] == s[index + 1..];
      if w - s[index].weight < 0 {
        KnapRAttained(w, s, index + 1);
      } else if KnapR(w - s[index].weight, s, index + 1) + s[index].value > KnapR(w, s, index + 1) {
        KnapRAttained(w - s[index].weight, s, index + 1);
      } else {
        KnapRAttained(w, s, index + 1);
      }
    }
  }

  /** No selection of `s[index..]` that fits in `w` is worth more than
      `KnapR`; an item heavier than the remaining capacity is never counted.
      This needs weights that are not negative: a negative weight could make
      room for an item that `knapsack_r` has already skipped. */
  lemma {:induction false} KnapRUpperBound(w: int, s: seq<Item>, index: nat, pick: seq<bool>)
    requires index <= |s| && NonNegativeWeights(s)
    requires Fits(s[index..], pick, w)
    ensures Value(s[index..], pick) <= KnapR(w, s, index)
    decreases |s| - index
  {
    if index < |s| {
      var t, rest := s[index..], s[index + 1..];
      assert t[0] == s[index] && t[1..] == rest;
      assert Weight(t, pick) == (if pick[0] then s[index].weight else 0) + Weight(rest, pick[1..]);
      assert Value(t, pick) == (if pick[0] then s[index].value else 0) + Value(rest, pick[1..]);
      WeightNonNegative(rest, pick[1..]);
      if pick[0] {
        KnapRUpperBound(w - s[index].weight, s, index + 1, pick[1..]);
      } else {
        KnapRUpperBound(w, s, index + 1, pick[1..]);
      }
    }
  }

  /** For a capacity and weights that are not negative, `knapsack_r` from
      index 0 returns the maximum total value over all selections of the
      items whose total weight is at most the capacity. */
  lemma KnapROptimal(w: int, s: seq<Item>)
    requires w >= 0 && NonNegativeWeights(s)
    ensures IsOptimum(s, w, KnapR(w, s, 0))
  {
    assert s[0..] == s;
    KnapRAttained(w, s, 0);
    forall pick | Fits(s, pick, w)
      ensures Value(s, pick) <= KnapR(w, s, 0)
    {
      KnapRUpperBound(w, s, 0, pick);
    }
  }

  /** A larger capacity never gives a smaller result. */
  lemma {:induction false} KnapRMonotoneInCapacity(w1: int, w2: int, s: seq<Item>, index: nat)
    requires w1 <= w2
    ensures KnapR(w1, s, index) <= KnapR(w2, s, index)
    decreases |s| - index
  {
    if index < |s| {
      KnapRMonotoneInCapacity(w1, w2, s, index + 1);
      KnapRMonotoneInCapacity(w1 - s[index].weight, w2 - s[index].weight, s, index + 1);
    }
  }

  /** Adding an item at the end of the collection never gives a smaller
      result. */
  lemma {:induction false} KnapRMonotoneInItems(w: int, s: seq<Item>, x: Item, index: nat)
    requires index <= |s|
    ensures KnapR(w, s, index) <= KnapR(w, s + [x], index)
    decreases |s| - index
  {
    if index < |s| {
      assert (s + [x])[index] == s[index];
      KnapRMonotoneInItems(w, s, x, index + 1);
      KnapRMonotoneInItems(w - s[index].weight, s, x, index + 1);
    }
  }

  /** With every weight at least 1, a capacity of 0 yields 0. */
  lemma {:induction false} KnapRZeroCapacity(s: seq<Item>, index: nat)
    requires PositiveWeights(s)
    ensures KnapR(0, s, index) == 0
    decreases |s| - index
  {
    if index < |s| {
      KnapRZeroCapacity(s, index + 1);
    }
  }

  /** An item pointer passes `knapsack`'s checks: it is not NULL, and neither
      the weight nor the value it points to is negative. */
  predicate Admissible(p: ItemRef) {
    p.Ref? && p.item.weight >= 0 && p.item.value >= 0
  }

  /** The arguments pass every check of `knapsack`. The sequence holds the
      `len` pointers the scan reads; a shorter one can only be scanned when
      the scan stops early at a rejected pointer, so it is never valid. */
  predicate ValidInput(w: int, items: seq<ItemRef>, len: int) {
    w >= 0 && 0 <= len <= |items| && forall k :: 0 <= k < len ==> Admissible(items[k])
  }

  /** What `knapsack(w, items, len)` returns: the sentinel on invalid input,
      otherwise `knapsack_r` over the first `len` items from index 0. */
  function KnapsackResult(w: int, items: seq<ItemRef>, len: int): int {
    if ValidInput(w, items, len) then KnapR(w, Deref(items[..len]), 0) else IntErr
  }

  /** `knapsack(w, items, len)`: rejects a negative capacity or length before
      looking at any item, then scans the first `len` pointers and rejects a
      NULL one or one with a negative weight or value; only when every check
      passes does it run the recursion. The caller provides every pointer the
      scan reads: nothing for a negative capacity or length, otherwise the
      first `len`, or all of them up to the first rejected one. */
  method Knapsack(w: int, items: seq<ItemRef>, len: int) returns (r: int)
    requires w >= 0 && len >= 0 ==>
      len <= |items| || exists k :: 0 <= k < |items| && k < len && !Admissible(items[k])
    ensures w < 0 || len < 0 ==> r == IntErr
    ensures r == KnapsackResult(w, items, len)
  {
    if w < 0 || len < 0 {
      return IntErr;
    }
    for i := 0 to len
      invariant i <= |items|
      invariant forall k :: 0 <= k < i ==> Admissible(items[k])
    {
      if items[i].Null? {
        return IntErr;
      }
      if items[i].item.weight < 0 || items[i].item.value < 0 {
        return IntErr;
      }
    }
    r := KnapR(w, Deref(items[..len]), 0);
  }

  /** Invalid input gives the sentinel; valid input gives the optimum over
      the first `len` items, which can also be 0. */
  lemma KnapsackOptimal(w: int, items: seq<ItemRef>, len: int)
    ensures !ValidInput(w, items, len) ==> KnapsackResult(w, items, len) == IntErr
    ensures ValidInput(w, items, len) ==> IsOptimum(Deref(items[..len]), w, KnapsackResult(w, items, len))
  {
    if ValidInput(w, items, len) {
      var s := Deref(items[..len]);
      assert forall k :: 0 <= k < |s| ==> s[k] == items[k].item;
      KnapROptimal(w, s);
    }
  }
}
