# 0/1 knapsack: recursive search and tabulation

This project models the optimiser in `knapsack.c`: given a capacity `w` and
`len` items, each a weight and a value, find the largest total value of a
set of items whose total weight is at most `w`. The C code offers two
solvers:

- `knapsack`, the validated entry point. It returns the sentinel `INT_ERR`
  (0, from `knapsack.h`) for a negative capacity or length, a NULL item
  pointer, or an item with a negative weight or value. Otherwise it runs
  `knapsack_r` from index 0. `knapsack_r` tries leaving out and taking each
  item in turn, and skips an item heavier than the remaining capacity.
- `dynamisack`, which fills a `(len+1) x (w+1)` table row by row and returns
  its last cell. It performs no validation.

Modules:

- `Items` (`items.dfy`): the item struct, item pointers (`ItemRef`, NULL or
  a reference), `max`, and selections. A selection is a vector of booleans,
  one per item. `IsOptimum(s, w, v)` says that `v` is the best total value
  of a selection that fits in `w`.
- `Recursive` (`recursive.dfy`): `knapsack_r` as the function `KnapR`, and
  `knapsack` as the method `Knapsack` with its validation loop. The
  function `KnapsackResult` states what `Knapsack` returns. The lemmas prove
  that the result is the optimum.
- `Dynamic` (`dynamic.dfy`): `Cell(s, i, j)` is the table cell `T[i][j]` as
  `dynamisack` computes it. `Dynamisack` fills an `array2<int>` with the
  source's nested loops. `CorrectedCell` is the same table with column 0
  filled too; it is used in the Findings below.
- `Agreement` (`agreement.dfy`): the two solvers compared, the zero-weight
  counterexample, and the demonstration data from `main`.

`knapsack_r(w, items, len, index)` is modelled as `KnapR(w, s, index)`, where
`s` is the sequence of the `len` items the array points to. So `len` is
`|s|`. `Knapsack` passes `Deref(items[..len])`, which is what the C call
`knapsack_r(w, items, len, 0)` reads.

The demonstration data in `main` (`(1,6), (2,10), (3,12), (1,7)`, capacity
5) has the optimum 25: the items of weight 1, 3 and 1. `Agreement.Demo`
proves that both solvers return it. The two solvers disagree when an item
weighs 0; see Findings.

## Model

| member | source | states |
|---|---|---|
| `Items.Max` | knapsack.c:58-61 | the result is at least `a`, at least `b`, and equal to one of them |
| `Recursive.KnapR` | knapsack.c:38-51 | the result is never negative: leaving every item out is always possible |
| `Recursive.KnapRAttained` | knapsack.c:38-51 | for a capacity that is not negative, some selection of `s[index..]` that fits reaches exactly `KnapR`'s value |
| `Recursive.KnapRUpperBound` | knapsack.c:44-50 | with weights that are not negative, no selection of `s[index..]` that fits is worth more than `KnapR`, so a skipped heavy item is never needed |
| `Recursive.KnapROptimal` | knapsack.c:31-51 | with `w >= 0` and weights that are not negative, `KnapR(w, s, 0)` is the maximum total value over all selections that fit |
| `Recursive.KnapRMonotoneInCapacity` | knapsack.c:38-51 | a larger capacity never gives a smaller result |
| `Recursive.KnapRMonotoneInItems` | knapsack.c:38-51 | appending an item never gives a smaller result |
| `Recursive.KnapRZeroCapacity` | knapsack.c:38-51 | with every weight at least 1, capacity 0 gives 0 |
| `Recursive.Knapsack` | knapsack.c:11-29 | a negative `w` or `len` gives `INT_ERR` without reading any item; otherwise a NULL item, a negative weight or a negative value among the first `len` gives `INT_ERR`; otherwise the result is `knapsack_r` over those items from index 0 |
| `Recursive.KnapsackOptimal` | knapsack.c:11-29 | invalid input gives `INT_ERR`; valid input gives the optimum over the first `len` items |
| `Dynamic.Cell` | knapsack.c:97-107 | no table cell is negative |
| `Dynamic.CorrectedCell` | knapsack.c:97-107 | no cell of the corrected table is negative |
| `Dynamic.CorrectedCellAttained` | knapsack.c:97-107 | some selection of the first `i` items that fits in `j` reaches the corrected cell's value |
| `Dynamic.CorrectedCellUpperBound` | knapsack.c:97-107 | with weights that are not negative, no selection of the first `i` items that fits in `j` is worth more than the corrected cell |
| `Dynamic.CorrectedCellOptimal` | knapsack.c:97-115 | with weights that are not negative, the corrected last cell is the optimum |
| `Dynamic.CellMatchesCorrected` | knapsack.c:97-104 | with every weight at least 1, the table `dynamisack` fills equals the corrected table cell by cell |
| `Dynamic.Dynamisack` | knapsack.c:88-116 | the table is new and has `len+1` rows and `w+1` columns; column 0 is 0; for capacity 0 the result is 0 whatever the items; for capacity at least 1 every cell `(i, j)` holds `Cell` of the first `i` items at capacity `j` (0 on row 0 and column 0, the carry-forward or max recurrence elsewhere) and the result is the cell `(len, w)` |
| `Agreement.CorrectedCellAgreesWithKnapR` | knapsack.c:97-107 | with weights that are not negative, the corrected table's last cell equals `KnapR` from index 0 |
| `Agreement.CellAgreesWithKnapR` | knapsack.c:97-107 | with every weight at least 1, the table's last cell equals `KnapR` from index 0 |
| `Agreement.DynamisackAgreesWithKnapsack` | knapsack.c:88-116 | for `w, len >= 0`, non-NULL items, weights at least 1 and values not negative, the value `dynamisack` returns equals what `knapsack` returns |
| `Agreement.ZeroWeightDisagreement` | knapsack.c:97-104 | for items `(0,5), (1,3)` and capacity 1, the recursion gives 8, the table gives 5 and the corrected table gives 8 |
| `Agreement.DemoOptimum` | knapsack.c:120-127 | `knapsack_r` on the demonstration items with capacity 5 gives 25 |
| `Agreement.Demo` | knapsack.c:118-131 | `main`'s two calls, `knapsack(5, set, 4)` and `dynamisack(5, set, 4)`, both return 25 |

## Findings

| source | as written | input that shows it | evidently intended | confidence | as-written member | corrected member |
|---|---|---|---|---|---|---|
| knapsack.c:97-104 | the fill loop starts at column 1, so column 0 stays 0 even when an item of weight 0 fits in it; a cell that reads `T[i-1][0]` then misses that item | items `(0,5), (1,3)`, capacity 1: `knapsack` gives 8, `dynamisack` gives 5 | the table agrees with `knapsack` on every input with no negative weight (column 0 filled like the others) | high, not executed | `Agreement.ZeroWeightDisagreement` (on `Dynamic.Cell`) | `Dynamic.CorrectedCell`, with `Agreement.CorrectedCellAgreesWithKnapR` |

`Dynamic.Dynamisack` still models the loop as written. The agreement theorem
for it, `Agreement.DynamisackAgreesWithKnapsack`, therefore requires every
weight to be at least 1. It is proved through the corrected table
(`Dynamic.CellMatchesCorrected`).

## Left out

- `create_knapsack_item` and `free_set`: allocation and release of the item
  structs. The model's items are values.
- `main`'s `printf` calls and exit status. `Agreement.Demo` keeps its data and
  its two calls.
- The table-printing loop of `dynamisack`: console output. `Dynamic.Dynamisack`
  returns the table it would print instead.
- C `int` overflow in the value sums, capacity arithmetic and table size. All
  integers are unbounded.
- Stack depth of the recursion: not modelled.
- `Dynamic.Dynamisack`: a negative capacity or length is a precondition,
  because the C code then reads outside the table. For a capacity of at
  least 1, a NULL pointer or a negative weight among the first `len` is a
  precondition too: every pointer is dereferenced, and a negative weight
  makes the cell at column `w` read past the end of the row above. For a
  capacity of 0 no item is read; the model covers that case and returns 0.
- The `len` parameter of `knapsack_r` is folded into the length of the item
  sequence. `Recursive.Knapsack` asks for exactly the pointers its scan
  reads: none for a negative capacity or length, otherwise the first `len`,
  or those up to the first rejected one.
- `knapsack.h` is folded in: its struct is `Items.Item` and `INT_ERR` is
  `Recursive.IntErr`.
