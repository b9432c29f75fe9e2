/** The tabulating solver `dynamisack`: row `i` of its table is about the
    first `i` items, column `j` about a capacity of `j`. It performs no
    validation of its own. */
module Dynamic {
  import opened Items

  /** The cell `T[i][j]` as `dynamisack` fills it: row 0 and column 0 stay
      0; any other cell carries the cell above forward when item `i-1` is
      heavier than `j`, and otherwise takes the larger of the cell above and
      the item's value plus the cell `weight` columns to the left in the row
      above. No cell is negative. */
  function Cell(s: seq<Item>, i: nat, j: nat): (r: int)
    requires i <= |s|
    ensures r >= 0
    decreases i
  {
    if i == 0 || j == 0 then 0
    else if s[i - 1].weight > j then Cell(s, i - 1, j)
    else Max(Cell(s, i - 1, j), Cell(s, i - 1, j - s[i - 1].weight) + s[i - 1].value)
  }

  /** The same recurrence with column 0 filled like every other column
      instead of being left at 0. It differs from `Cell` only when an item
      weighs 0. */
  function CorrectedCell(s: seq<Item>, i: nat, j: nat): (r: int)
    requires i <= |s|
    ensures r >= 0
    decreases i
  {
    if i == 0 then 0
    else if s[i - 1].weight > j then CorrectedCell(s, i - 1, j)
    else Max(CorrectedCell(s, i - 1, j), CorrectedCell(s, i - 1, j - s[i - 1].weight) + s[i - 1].value)
  }

  /** The selection of the first `i` items behind `CorrectedCell(s, i, j)`:
      item `i-1` is taken exactly when the include branch is the one `max`
      returns. */
  function ChoiceT(s: seq<Item>, i: nat, j: nat): (pick: seq<bool>)
    requires i <= |s|
    ensures |pick| == i
    decreases i
  {
    if i == 0 then []
    else if s[i - 1].weight > j then ChoiceT(s, i - 1, j) + [false]
    else if CorrectedCell(s, i - 1, j) > CorrectedCell(s, i - 1, j - s[i - 1].weight) + s[i - 1].value
    then ChoiceT(s, i - 1, j) + [false]
    else ChoiceT(s, i - 1, j - s[i - 1].weight) + [true]
  }

  /** Selecting from the first `i` items is selecting from the first `i-1`
      and then deciding on item `i-1`. */
  lemma LastItemSplit(s: seq<Item>, i: nat, pick: seq<bool>)
    requires 0 < i <= |s| && |pick| == i
    ensures Weight(s[..i], pick) == Weight(s[..i - 1], pick[..i - 1]) + (if pick[i - 1] then s[i - 1].weight else 0)
    ensures Value(s[..i], pick) == Value(s[..i - 1], pick[..i - 1]) + (if pick[i - 1] then s[i - 1].value else 0)
  {
    assert s[..i] == s[..i - 1] + [s[i - 1]];
    assert pick == pick[..i - 1] + [pick[i - 1]];
    WeightValueAppend(s[..i - 1], pick[..i - 1], [s[i - 1]], [pick[i - 1]]);
  }

  /** The value of `CorrectedCell(s, i, j)` is reached by a selection of the
      first `i` items that fits in `j`. */
  lemma {:induction false} CorrectedCellAttained(s: seq<Item>, i: nat, j: nat)
    requires i <= |s|
    ensures Fits(s[..i], ChoiceT(s, i, j), j)
    ensures Value(s[..i], ChoiceT(s, i, j)) == CorrectedCell(s, i, j)
    decreases i
  {
    if i > 0 {
      var pick := ChoiceT(s, i, j);
      var wt := s[i - 1].weight;
      LastItemSplit(s, i, pick);
      if wt > j {
        assert pick[..i - 1] == ChoiceT(s, i - 1, j);
        CorrectedCellAttained(s, i - 1, j);
      } else if CorrectedCell(s, i - 1, j) > CorrectedCell(s, i - 1, j - wt) + s[i - 1].value {
        assert pick[..i - 1] == ChoiceT(s, i - 1, j);
        CorrectedCellAttained(s, i - 1, j);
      } else {
        assert pick[..i - 1] == ChoiceT(s, i - 1, j - wt);
        CorrectedCellAttained(s, i - 1, j - wt);
      }
    }
  }

  /** No selection of the first `i` items that fits in `j` is worth more
      than `CorrectedCell(s, i, j)`, when no weight is negative. */
  lemma {:induction false} CorrectedCellUpperBound(s: seq<Item>, i: nat, j: nat, pick: seq<bool>)
    requires i <= |s| && NonNegativeWeights(s)
    requires Fits(s[..i], pick, j)
    ensures Value(s[..i], pick) <= CorrectedCell(s, i, j)
    decreases i
  {
    if i > 0 {
      LastItemSplit(s, i, pick);
      WeightNonNegative(s[..i - 1], pick[..i - 1]);
      if pick[i - 1] {
        CorrectedCellUpperBound(s, i - 1, j - s[i - 1].weight, pick[..i - 1]);
      } else {
        CorrectedCellUpperBound(s, i - 1, j, pick[..i - 1]);
      }
    }
  }

  /** With no negative weight, the corrected last cell is the maximum total
      value over all selections of the items that fit in `w`. */
  lemma CorrectedCellOptimal(s: seq<Item>, w: nat)
    requires NonNegativeWeights(s)
    ensures IsOptimum(s, w, CorrectedCell(s, |s|, w))
  {
    assert s[..|s|] == s;
    CorrectedCellAttained(s, |s|, w);
    forall pick | Fits(s, pick, w)
      ensures Value(s, pick) <= CorrectedCell(s, |s|, w)
    {
      CorrectedCellUpperBound(s, |s|, w, pick);
    }
  }

  /** When every weight is at least 1, leaving column 0 at 0 is harmless:
      the table `dynamisack` fills equals the corrected one cell by cell. */
  lemma {:induction false} CellMatchesCorrected(s: seq<Item>, i: nat, j: nat)
    requires i <= |s| && PositiveWeights(s)
    ensures Cell(s, i, j) == CorrectedCell(s, i, j)
    decreases i
  {
    if i > 0 {
      CellMatchesCorrected(s, i - 1, j);
      if s[i - 1].weight <= j {
        CellMatchesCorrected(s, i - 1, j - s[i - 1].weight);
      }
    }
  }

  /** `dynamisack(w, items, len)`: allocates a `(len+1) x (w+1)` table,
      zero-fills it, fills rows 1 to `len` in order, each from column 1 to
      `w`, and returns the bottom-right cell. The table, which the C code
      prints before returning, is returned beside the total. The capacity and
      the length must not be negative, or the C code reads outside the table.
      For a capacity of at least 1 every one of the `len` pointers is read,
      so none may be NULL, and a negative weight would make the cell at
      column `w` read past the end of the row above. For a capacity of 0 no
      item is read and the result is 0. */
  method Dynamisack(w: int, items: seq<ItemRef>, len: int) returns (total: int, table: array2<int>)
    requires 0 <= w && 0 <= len <= |items|
    requires w >= 1 ==> forall k :: 0 <= k < len ==> items[k].Ref? && items[k].item.weight >= 0
    ensures fresh(table)
    ensures table.Length0 == len + 1 && table.Length1 == w + 1
    ensures forall i :: 0 <= i <= len ==> table[i, 0] == 0
    ensures w == 0 ==> total == 0
    ensures w >= 1 ==> forall i, j :: 0 <= i <= len && 0 <= j <= w ==> table[i, j] == Cell(Deref(items[..len]), i, j)
    ensures w >= 1 ==> total == Cell(Deref(items[..len]), len, w)
  {
    ghost var s: seq<Item> := [];
    if w >= 1 {
      s := Deref(items[..len]);
    }
    table := new int[len + 1, w + 1];
    for i := 0 to len + 1
      invariant forall r, c :: 0 <= r < i && 0 <= c <= w ==> table[r, c] == 0
    {
      for j := 0 to w + 1
        invariant forall r, c :: 0 <= r < i && 0 <= c <= w ==> table[r, c] == 0
        invariant forall c :: 0 <= c < j ==> table[i, c] == 0
      {
        table[i, j] := 0;
      }
    }
    for i := 1 to len + 1
      invariant forall r :: 0 <= r <= len ==> table[r, 0] == 0
      invariant w >= 1 ==> forall r, c {:trigger table[r, c]} :: 0 <= r < i && 0 <= c <= w ==> table[r, c] == Cell(s, r, c)
    {
      for j := 1 to w + 1
        invariant forall r :: 0 <= r <= len ==> table[r, 0] == 0
        invariant w >= 1 ==> forall r, c {:trigger table[r, c]} :: 0 <= r < i && 0 <= c <= w ==> table[r, c] == Cell(s, r, c)
        invariant w >= 1 ==> forall c {:trigger table[i, c]} :: 0 <= c < j ==> table[i, c] == Cell(s, i, c)
      {
        var item := items[i - 1].item;
        assert item == s[i - 1];
        assert table[i - 1, j] == Cell(s, i - 1, j);
        if item.weight > j {
          table[i, j] := table[i - 1, j];
        } else {
          assert table[i - 1, j - item.weight] == Cell(s, i - 1, j - item.weight);
          table[i, j] := Max(table[i - 1, j], table[i - 1, j - item.weight] + item.value);
        }
        assert table[i, j] == Cell(s, i, j);
      }
    }
    total := table[len, w];
  }
}
