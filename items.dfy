/** Items of the 0/1 knapsack problem, the pointers the C code passes them
    through, the shared `max` helper, and selections of items: a selection is
    a vector of booleans, one per item, saying whether that item is taken.
    A value is the optimum for a capacity when some selection that fits the
    capacity reaches it and no selection that fits exceeds it. */
module Items {

  /** The `knapsack_item` struct: a weight and a value (C `int`s, modelled
      as unbounded integers). */
  datatype Item = Item(weight: int, value: int)

  /** A `knapsack_item *`: either NULL or a pointer to an item. */
  datatype ItemRef = Null | Ref(item: Item)

  /** The items a sequence of pointers points to; defined only when none of
      them is NULL. */
  function Deref(refs: seq<ItemRef>): (s: seq<Item>)
    requires forall k :: 0 <= k < |refs| ==> refs[k].Ref?
    ensures |s| == |refs|
    ensures forall k :: 0 <= k < |s| ==> s[k] == refs[k].item
  {
    seq(|refs|, k requires 0 <= k < |refs| => refs[k].item)
  }

  /** `max(a, b)`: the larger of two integers, `a` when they are equal. */
  function Max(a: int, b: int): (m: int)
    ensures m >= a && m >= b
    ensures m == a || m == b
  {
    if a > b then a else b
  }

  predicate NonNegativeWeights(s: seq<Item>) {
    forall k :: 0 <= k < |s| ==> s[k].weight >= 0
  }

  predicate PositiveWeights(s: seq<Item>) {
    forall k :: 0 <= k < |s| ==> s[k].weight >= 1
  }

  /** Total weight of the items that `pick` selects from `s`. */
  function Weight(s: seq<Item>, pick: seq<bool>): int
    requires |pick| == |s|
  {
    if s == [] then 0
    else (if pick[0] then s[0].weight else 0) + Weight(s[1..], pick[1..])
  }

  /** Total value of the items that `pick` selects from `s`. */
  function Value(s: seq<Item>, pick: seq<bool>): int
    requires |pick| == |s|
  {
    if s == [] then 0
    else (if pick[0] then s[0].value else 0) + Value(s[1..], pick[1..])
  }

  /** `pick` is a selection of `s` whose total weight is at most `w`. */
  predicate Fits(s: seq<Item>, pick: seq<bool>, w: int) {
    |pick| == |s| && Weight(s, pick) <= w
  }

  /** `v` is the largest total value of a selection of `s` that fits in `w`. */
  ghost predicate IsOptimum(s: seq<Item>, w: int, v: int) {
    (exists pick :: Fits(s, pick, w) && Value(s, pick) == v) &&
    (forall pick :: Fits(s, pick, w) ==> Value(s, pick) <= v)
  }

  /** The optimum is unique: two values that are both optimal are equal. */
  lemma OptimumUnique(s: seq<Item>, w: int, v1: int, v2: int)
    requires IsOptimum(s, w, v1) && IsOptimum(s, w, v2)
    ensures v1 == v2
  {
  }

  /** Weight and value are additive over concatenation of items and picks. */
  lemma {:induction false} WeightValueAppend(s1: seq<Item>, p1: seq<bool>, s2: seq<Item>, p2: seq<bool>)
    requires |p1| == |s1| && |p2| == |s2|
    ensures Weight(s1 + s2, p1 + p2) == Weight(s1, p1) + Weight(s2, p2)
    ensures Value(s1 + s2, p1 + p2) == Value(s1, p1) + Value(s2, p2)
  {
    if s1 == [] {
      assert s1 + s2 == s2 && p1 + p2 == p2;
    } else {
      assert (s1 + s2)[1..] == s1[1..] + s2;
      assert (p1 + p2)[1..] == p1[1..] + p2;
      WeightValueAppend(s1[1..], p1[1..], s2, p2);
    }
  }

  /** With no negative weight, no selection has a negative total weight. */
  lemma {:induction false} WeightNonNegative(s: seq<Item>, pick: seq<bool>)
    requires |pick| == |s| && NonNegativeWeights(s)
    ensures Weight(s, pick) >= 0
  {
    if s != [] {
      WeightNonNegative(s[1..], pick[1..]);
    }
  }
}
