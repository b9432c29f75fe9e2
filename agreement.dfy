/** The two solvers against each other: on valid input whose weights are all
    at least 1, `dynamisack` returns what `knapsack` returns. With an item of
    weight 0 they can disagree, because `dynamisack` never fills column 0. */
module Agreement {
  import opened Items
  import opened Recursive
  import opened Dynamic

  /** The corrected table and the recursion agree whenever no weight is
      negative: both are the optimum. */
  lemma CorrectedCellAgreesWithKnapR(w: nat, s: seq<Item>)
    requires NonNegativeWeights(s)
    ensures CorrectedCell(s, |s|, w) == KnapR(w, s, 0)
  {
    CorrectedCellOptimal(s, w);
    KnapROptimal(w, s);
    OptimumUnique(s, w, CorrectedCell(s, |s|, w), KnapR(w, s, 0));
  }

  /** The table as `dynamisack` fills it agrees with the recursion when every
      weight is at least 1. */
  lemma CellAgreesWithKnapR(w: nat, s: seq<Item>)
    requires PositiveWeights(s)
    ensures Cell(s, |s|, w) == KnapR(w, s, 0)
  {
    CellMatchesCorrected(s, |s|, w);
    CorrectedCellAgreesWithKnapR(w, s);
  }

  /** The cross-check between the two entry points: for a capacity and a
      length that are not negative, `len` non-NULL items, every weight at
      least 1 and every value not negative, the value `Dynamisack` returns,
      `Cell(Deref(items[..len]), len, w)`, is what `knapsack` returns. */
  lemma DynamisackAgreesWithKnapsack(w: int, items: seq<ItemRef>, len: int)
    requires 0 <= w && 0 <= len <= |items|
    requires forall k :: 0 <= k < len ==> items[k].Ref? && items[k].item.weight >= 1 && items[k].item.value >= 0
    ensures KnapsackResult(w, items, len) == Cell(Deref(items[..len]), len, w)
  {
    var s := Deref(items[..len]);
    assert ValidInput(w, items, len);
    assert forall k :: 0 <= k < |s| ==> s[k] == items[k].item;
    CellAgreesWithKnapR(w, s);
  }

  /** The two items of weight 0 and 1 with capacity 1: the recursion takes
      both for 8, while the table, whose column 0 is never filled, gets 5.
      The corrected table gets 8. */
  lemma ZeroWeightDisagreement()
    ensures var s := [Item(0, 5), Item(1, 3)];
      KnapR(1, s, 0) == 8 && Cell(s, 2, 1) == 5 && CorrectedCell(s, 2, 1) == 8
  {
  }

  /** The demonstration run: four items `(1,6), (2,10), (3,12), (1,7)` and a
      capacity of 5. Both solvers return 25, taking the items of weight 1, 3
      and 1. */
  method Demo() returns (recursive: int, dynamic: int)
    ensures recursive == 25 && dynamic == 25
  {
    var refs := [Ref(Item(1, 6)), Ref(Item(2, 10)), Ref(Item(3, 12)), Ref(Item(1, 7))];
    var s := [Item(1, 6), Item(2, 10), Item(3, 12), Item(1, 7)];
    assert Deref(refs[..4]) == s;
    assert ValidInput(5, refs, 4);
    DemoOptimum();
    recursive := Knapsack(5, refs, 4);
    var table;
    dynamic, table := Dynamisack(5, refs, 4);
    DynamisackAgreesWithKnapsack(5, refs, 4);
  }

  /** The recursion on the demonstration items with capacity 5 yields 25. */
  lemma DemoOptimum()
    ensures KnapR(5, [Item(1, 6), Item(2, 10), Item(3, 12), Item(1, 7)], 0) == 25
  {
  }
}
