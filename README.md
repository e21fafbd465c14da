# Additive support structures on a 2D grid: partitioning and cost

This project models the core of a support-structure planner for 3D printing.
The structure stands on a 2D grid and is built from vertical members and
45-degree diagonal members. Its job is to support a span that is W grid
points wide and H grid points high.

- **Partitioning.** The span is split into independent *n-trees*. An n-tree
  is at most `2H - 3` points wide, the widest span one stem carries
  efficiently. Each n-tree is a vertical stem topped by a *full grouping*.
  The full grouping is split again and again into two subtrees, down to the
  indivisible *n-groups* of width 1 to 4.
- **Cost.** The cost of a structure is its total member length. A vertical
  member is 1 unit long and a diagonal is sqrt(2) units long. Every cost is
  therefore `a + b * sqrt(2)` with integers `a` and `b`. The model keeps a
  cost as the exact pair `Cost(verticals, diagonals)`, with no floating point.

The project has four modules:

- `Seqs` (`seqs.dfy`): the sum of a list and a list of n copies of a value.
- `CostCalculator` (`cost_calculator.dfy`) covers `CostCalculator.java`:
  - two partition strategies, each a specification function plus a method
    that builds the list the way the source does;
  - the recursive cost evaluator, as pure functions;
  - the accumulation loop that adds up the cost of a list.
- `Grouper` (`grouper.dfy`) covers `Grouper.java`:
  - the recursive splits into n-groups;
  - the in-place, pass-by-pass subdivision of a mutable list, modelled as
    `class IntList` with `Set` and `Add` standing in for `List.set` and
    `List.add`;
  - the duplicated arithmetic partition and the stem height.
- `GroupingCost` (`grouping_cost.dfy`) ties the two files together. A full
  grouping's cost is exactly the closed-form costs of its n-groups plus the
  connectors that join them.

Division in the source is Java's truncating `/` on `int`. It agrees with
Dafny's `/` on non-negative operands.

- The partition strategies and both n-group splits take any width. They
  divide only on branches where the width is positive: above 2H - 3 >= 1, or
  at least 5.
- The other members that divide a width require it to be at least 0, or at
  least 1 where a proper width is meant.

The source rejects no input. A width below 1 or a height below 2 becomes a
`requires` only where the code relies on it; no member models an error.

## Model

| member | source | states |
|---|---|---|
| CostCalculator.MaxWidth | AdditiveSupport/src/Grid_2D/CostCalculator.java:61 | for a height of at least 2 the widest span one stem carries, 2H-3, is at least 1 |
| CostCalculator.RecursivePartition | AdditiveSupport/src/Grid_2D/CostCalculator.java:57-82 | the recursive strategy's n-trees add up to exactly W; a span no wider than 2H-3 stays whole as [W]; recursion terminates for every W once H >= 2 |
| CostCalculator.RecursivePartitionBounds | AdditiveSupport/src/Grid_2D/CostCalculator.java:57-82 | for W >= 1 every n-tree is at least 1; when the span had to be split, every n-tree lies between half of 2H-3 and 2H-3 |
| CostCalculator.RecursivePartitionBoundsStep | AdditiveSupport/src/Grid_2D/CostCalculator.java:68-80 | the bounds of a span too wide for one stem follow from the bounds of its two halves |
| CostCalculator.HalvesPartitionBalanced | AdditiveSupport/src/Grid_2D/CostCalculator.java:64-75 | each half of a span too wide for one stem is balanced once partitioned: a half that fits stays whole and is at least half of 2H-3 |
| CostCalculator.RecursivePartitionUnfold | AdditiveSupport/src/Grid_2D/CostCalculator.java:68-80 | a span wider than 2H-3 gives the n-trees of its floor half followed by those of the rest |
| CostCalculator.DivideIntoTrees | AdditiveSupport/src/Grid_2D/CostCalculator.java:57-82 | appending the two halves' lists to a fresh list yields exactly the recursive partition |
| CostCalculator.ArithmeticPartition | AdditiveSupport/src/Grid_2D/CostCalculator.java:90-128 | the list divideIntoTrees_Alt returns: [W] for a span no wider than 2H-3, and at least two n-trees for a wider one |
| CostCalculator.ArithmeticPartitionSum | AdditiveSupport/src/Grid_2D/CostCalculator.java:90-128 | the arithmetic strategy's n-trees add up to exactly W |
| CostCalculator.FullTreesSum | AdditiveSupport/src/Grid_2D/CostCalculator.java:103-104 | when 2H-3 divides W, W/(2H-3) full-width n-trees cover W |
| CostCalculator.ExtraTreesSum | AdditiveSupport/src/Grid_2D/CostCalculator.java:106-123 | otherwise the two halves of the extra and W/(2H-3)-1 full-width n-trees cover W |
| CostCalculator.ArithmeticPartitionBalanced | AdditiveSupport/src/Grid_2D/CostCalculator.java:100-123 | for W >= 1 every n-tree is at least 1; when the span had to be split, every n-tree, the two halves of the extra included, lies between half of 2H-3 and 2H-3 |
| CostCalculator.ArithmeticPartitionLength | AdditiveSupport/src/Grid_2D/CostCalculator.java:102-123 | a split span has W/(2H-3) n-trees when 2H-3 divides W, and one more otherwise |
| CostCalculator.DivideIntoTreesAlt | AdditiveSupport/src/Grid_2D/CostCalculator.java:90-128 | the two extra halves followed by the loop that appends full-width n-trees yield exactly the arithmetic partition: W/(2H-3) full-width copies, or [extra/2, extra-extra/2] and then W/(2H-3)-1 copies |
| CostCalculator.GroupCost | AdditiveSupport/src/Grid_2D/CostCalculator.java:287-307 | an n-group of width 1 to 4 has W-1 diagonals and one vertical, except the 4-group, which has three; any other width costs (0,0) |
| CostCalculator.GetSubtrees | AdditiveSupport/src/Grid_2D/CostCalculator.java:261-278 | the two subtrees add up to W; the left one is never the wider; they are never both even; they differ by 2 exactly when 4 divides W; for W >= 2 both lie in [1, W-1] |
| CostCalculator.HalvesParity | AdditiveSupport/src/Grid_2D/CostCalculator.java:263-267 | the floor halves of W differ by at most one and are both even exactly when 4 divides W |
| CostCalculator.GetSubtreesMostBalanced | AdditiveSupport/src/Grid_2D/CostCalculator.java:254-278 | no split of W into a left part no wider than the right and not (even, even) is more balanced than the one GetSubtrees returns |
| CostCalculator.CostLeftover | AdditiveSupport/src/Grid_2D/CostCalculator.java:224-252 | the connectors rise by (H-(l/2+1)) + (H-(r/2+1)) units; every unit is one member; an even W has exactly one of them vertical, an odd W none |
| CostCalculator.LeftoverClosedForm | AdditiveSupport/src/Grid_2D/CostCalculator.java:198-208 | at the grouping's own height W/2+1 and with its own split, the connectors of a width W >= 5 are exactly W/2 diagonals plus one vertical when W is even |
| CostCalculator.SubtreeCost | AdditiveSupport/src/Grid_2D/CostCalculator.java:187-213 | a full grouping of width W has at least one vertical and at least W-1 diagonals, enough to span W-1 horizontal units at 45 degrees |
| CostCalculator.SubtreeCostIgnoresHeight | AdditiveSupport/src/Grid_2D/CostCalculator.java:187-213 | the H argument of subtreeCost does not affect its value |
| CostCalculator.SubtreeCostRecurrence | AdditiveSupport/src/Grid_2D/CostCalculator.java:187-213 | for W >= 5 the cost is the two subtrees' costs plus W/2 diagonals, and one vertical when W is even |
| CostCalculator.TreeCost | AdditiveSupport/src/Grid_2D/CostCalculator.java:155-178 | one point costs H-1 verticals; a wider n-tree costs a stem of H-(W/2+1) verticals plus its full grouping at height W/2+1; every n-tree has at least W-1 diagonals |
| CostCalculator.TreeCostNonNegative | AdditiveSupport/src/Grid_2D/CostCalculator.java:155-178 | when H reaches the full grouping's height W/2+1, neither count of the n-tree's cost is negative |
| CostCalculator.FittingTreeCost | AdditiveSupport/src/Grid_2D/CostCalculator.java:155-178 | an n-tree no wider than 2H-3 has a stem of at least one vertical and no negative count |
| CostCalculator.RecursivePartitionCostsNonNegative | AdditiveSupport/src/Grid_2D/CostCalculator.java:57-82 | every n-tree the recursive strategy produces has at least one vertical and no negative count in its cost |
| CostCalculator.ArithmeticPartitionCostsNonNegative | AdditiveSupport/src/Grid_2D/CostCalculator.java:90-128 | every n-tree the arithmetic strategy produces has at least one vertical and no negative count in its cost |
| CostCalculator.TotalCostConcat | AdditiveSupport/src/Grid_2D/CostCalculator.java:137-146 | the cost of a list of n-trees is additive over concatenation |
| CostCalculator.TotalCost | AdditiveSupport/src/Grid_2D/CostCalculator.java:137-146 | the value listCost accumulates, the sum of treeCost over the list, has at least Sum(trees) - \|trees\| diagonals |
| CostCalculator.ListCost | AdditiveSupport/src/Grid_2D/CostCalculator.java:137-146 | the accumulation loop returns the sum of treeCost over the list |
| CostCalculator.ListCostStep | AdditiveSupport/src/Grid_2D/CostCalculator.java:141-143 | one more iteration of the loop adds the next n-tree's treeCost to the running total |
| CostCalculator.DivideAndCost | AdditiveSupport/src/Grid_2D/CostCalculator.java:31-34 | the result is the total cost of the recursive partition; a span no wider than 2H-3 costs exactly treeCost(W,H) |
| CostCalculator.DivideAndCostAlt | AdditiveSupport/src/Grid_2D/CostCalculator.java:43-46 | the result is the total cost of the arithmetic partition; a span no wider than 2H-3 costs exactly treeCost(W,H) |
| CostCalculator.RecursiveCostSplits | AdditiveSupport/src/Grid_2D/CostCalculator.java:68-80 | under the recursive strategy, a span wider than 2H-3 costs exactly what its two halves cost |
| CostCalculator.RecursivePartitionExample | AdditiveSupport/src/Grid_2D/CostCalculator.java:57-82 | 10 points at height 4 give the n-trees [5, 5] |
| CostCalculator.ArithmeticPartitionExample | AdditiveSupport/src/Grid_2D/CostCalculator.java:90-128 | 12 points at height 4 give the n-trees [3, 4, 5] |
| CostCalculator.SmallTreeExamples | AdditiveSupport/src/Grid_2D/CostCalculator.java:155-178 | at height 4, one point costs (3,0) and two points cost (3,1) |
| CostCalculator.FivePointExample | AdditiveSupport/src/Grid_2D/CostCalculator.java:187-213 | a 5-wide full grouping costs (2,5) at any height |
| CostCalculator.FivePointTreeExample | AdditiveSupport/src/Grid_2D/CostCalculator.java:155-178 | a 5-wide n-tree at height 4 costs (3,5) |
| Grouper.Subgroup | AdditiveSupport/src/Grid_2D/Grouper.java:18-35 | the n-groups add up to W, and a width below 5 is its own single group |
| Grouper.SubgroupUnfold | AdditiveSupport/src/Grid_2D/Grouper.java:27-33 | a width of at least 5 gives the groups of its floor half followed by those of the rest |
| Grouper.SubgroupBounds | AdditiveSupport/src/Grid_2D/Grouper.java:18-35 | every group is at most 4, and for W >= 1 at least 1 |
| Grouper.SubgroupBoundsStep | AdditiveSupport/src/Grid_2D/Grouper.java:28-32 | a width of at least 5 has groups within the bounds when both its halves do |
| Grouper.SubgroupIgnoresHeight | AdditiveSupport/src/Grid_2D/Grouper.java:18-35 | the H argument does not affect the result |
| Grouper.SubgroupIgnoresHeightStep | AdditiveSupport/src/Grid_2D/Grouper.java:28-32 | two heights group a width of at least 5 alike when they group both its halves alike |
| Grouper.Subdivide | AdditiveSupport/src/Grid_2D/Grouper.java:103-115 | the lower part is never the wider; the two parts are never both even; for W >= 2 both lie in [1, W-1] |
| Grouper.SubdivideAgreesWithGetSubtrees | AdditiveSupport/src/Grid_2D/Grouper.java:103-115 | subdivide(W) and W - subdivide(W) are exactly the two subtrees getSubtrees(W) returns |
| Grouper.Subgroup2 | AdditiveSupport/src/Grid_2D/Grouper.java:39-63 | the n-groups add up to W, and a width below 5 is its own single group |
| Grouper.Subgroup2Unfold | AdditiveSupport/src/Grid_2D/Grouper.java:46-61 | a width of at least 5 gives the groups of subdivide(W) followed by those of W - subdivide(W), and these two parts are never both even |
| Grouper.Subgroup2Bounds | AdditiveSupport/src/Grid_2D/Grouper.java:39-63 | every group is at most 4, and for W >= 1 at least 1 |
| Grouper.Subgroup2BoundsStep | AdditiveSupport/src/Grid_2D/Grouper.java:47-60 | a width of at least 5 has groups within the bounds when both its subdivide parts do |
| Grouper.Subgroup2IgnoresHeight | AdditiveSupport/src/Grid_2D/Grouper.java:39-63 | the H argument does not affect the result |
| Grouper.Subgroup2IgnoresHeightStep | AdditiveSupport/src/Grid_2D/Grouper.java:47-60 | two heights group a width of at least 5 alike when they group both its subdivide parts alike |
| Grouper.SubtreeCostSplit | AdditiveSupport/src/Grid_2D/CostCalculator.java:187-213 | the cost recurrence for W >= 5, written with subdivide's split instead of getSubtrees |
| Grouper.GroupsCostSplit | AdditiveSupport/src/Grid_2D/Grouper.java:46-61 | for W >= 5 the n-groups cost what the n-groups of its two subdivide parts cost together |
| Grouper.IntList.constructor | AdditiveSupport/src/Grid_2D/Grouper.java:66 | the list holds the given elements |
| Grouper.IntList.Get | AdditiveSupport/src/Grid_2D/Grouper.java:78 | list.get(i) returns an element of the list |
| Grouper.IntList.Set | AdditiveSupport/src/Grid_2D/Grouper.java:87 | list.set(i, x) replaces only the element at i |
| Grouper.IntList.Add | AdditiveSupport/src/Grid_2D/Grouper.java:88 | list.add(i, x) inserts x at i and shifts the rest one place right |
| Grouper.Split | AdditiveSupport/src/Grid_2D/Grouper.java:80-90 | what one step makes of an element: one above 4 becomes two parts, each at least 1 and smaller than it, that add up to it; any other element stays as it is |
| Grouper.Pass | AdditiveSupport/src/Grid_2D/Grouper.java:77-91 | one sweep over the list: each element becomes one or two elements, so the list at most doubles |
| Grouper.PassKeepsSum | AdditiveSupport/src/Grid_2D/Grouper.java:77-91 | a pass preserves the sum of the list |
| Grouper.PassProgress | AdditiveSupport/src/Grid_2D/Grouper.java:70-94 | a pass over a list with no element above 4 changes nothing; any other pass strictly lowers the total excess over 4, so the do-while terminates |
| Grouper.PassKeepsGroups | AdditiveSupport/src/Grid_2D/Grouper.java:77-91 | a pass does not change the n-groups that subgroup2 makes of the list element by element |
| Grouper.SplitKeepsGroups | AdditiveSupport/src/Grid_2D/Grouper.java:80-90 | replacing one width by its two subdivide parts does not change the n-groups subgroup2 makes of it |
| Grouper.FlatSubgroup2OfSmall | AdditiveSupport/src/Grid_2D/Grouper.java:94 | a list whose elements are all at most 4 is its own grouping |
| Grouper.FlatSubgroup2Bounds | AdditiveSupport/src/Grid_2D/Grouper.java:66-99 | the element-by-element grouping keeps the total width, has every element at most 4, and has every element at least 1 when every original element is |
| Grouper.PassStep | AdditiveSupport/src/Grid_2D/Grouper.java:77-91 | taking one more element through the pass appends its split to what the pass has produced so far |
| Grouper.ReplaceWithParts | AdditiveSupport/src/Grid_2D/Grouper.java:85-88 | overwriting c > 4 by subdivide(c) and inserting c - subdivide(c) right after it puts both parts in c's place, with the rest of the list untouched |
| Grouper.SubdivideAt | AdditiveSupport/src/Grid_2D/Grouper.java:78-90 | one step at index i: an element above 4 becomes its two subdivide parts in place, reported as split; any other element stays |
| Grouper.SubdividePass | AdditiveSupport/src/Grid_2D/Grouper.java:73-91 | one sweep turns the list into its Pass, stepping past each inserted element; the flag is set exactly when some element was above 4 (the sequence bookkeeping of the loop invariant is in the helper lemmas KeepInPlace, Reassemble and PassDone) |
| Grouper.Subgroup3 | AdditiveSupport/src/Grid_2D/Grouper.java:66-99 | the loop stops with the concatenation of subgroup2 over the original elements, in order; every element is at most 4; the sum is preserved; every element is in [1,4] when every original element is at least 1 |
| Grouper.Group | AdditiveSupport/src/Grid_2D/Grouper.java:135-168 | builds exactly the list the arithmetic partition of CostCalculator.java builds |
| Grouper.StemHeight | AdditiveSupport/src/Grid_2D/Grouper.java:171-173 | a stem is never higher than the structure, and it reaches the full height exactly for a width of 0 or 1 |
| Grouper.StemHeightMatchesTreeCost | AdditiveSupport/src/Grid_2D/Grouper.java:171-173 | a stem of stemHeight(H,D) points is stemHeight - 1 verticals, exactly the stem that treeCost charges: H-1 for one point, H-(D/2+1) below the full grouping otherwise |
| GroupingCost.SubtreeCostIsGroupsPlusConnectors | AdditiveSupport/src/Grid_2D/CostCalculator.java:187-213 | a full grouping of width W costs exactly the closed-form costs of subgroup2's n-groups plus the connectors of every split |
| GroupingCost.SmallSubtreeCostIsGroupsPlusConnectors | AdditiveSupport/src/Grid_2D/CostCalculator.java:190-191 | below width 5 the full grouping is a single n-group and there are no connectors |
| GroupingCost.SubtreeCostIsGroupsPlusConnectorsStep | AdditiveSupport/src/Grid_2D/CostCalculator.java:193-212 | for W >= 5 the decomposition follows from the decompositions of the two subtrees |
| GroupingCost.PartsDecomposition | AdditiveSupport/src/Grid_2D/CostCalculator.java:193-212 | the same inductive step, with the two subdivide parts of W given by name |

## Left out

- Console output is left out because it is I/O only: `print`, `printSubgroups`, `printStems`, the `print` calls inside `subgroup3`, and both `main` methods. `Grouper.Subgroup3` keeps only the list mutation.
- `Math.sqrt(2)` and double rounding: a cost is the exact pair (verticals, diagonals), whose value is verticals + diagonals * sqrt(2).
- The commented-out experiments comparing the two strategies' costs (CostCalculator.java:311-351) are left out: they are floating-point ratios with no promised bound.
- Monotonicity of cost in W or H is not stated, because the source neither promises nor checks it.
- Java's 32-bit `int` overflow is not modelled (for example `2*H - 3`, or the very large inputs in `main`): all integers are unbounded.
- CostCalculator.DivideAndCost, CostCalculator.DivideAndCostAlt, CostCalculator.ListCost and CostCalculator.TreeCost require widths of at least 1, which is the span the source is written for. The source also computes a value for a width of 0 (treeCost(0, H) is H - 1 verticals). For a negative width it divides with Java's truncating division, which differs from Dafny's.
- CostCalculator.SubtreeCost, CostCalculator.GetSubtrees and Grouper.Subdivide require W >= 1. Their contracts are about proper widths, and the source only calls them on widths of at least 2.
- Grouper.StemHeight requires D >= 0, and CostCalculator.CostLeftover requires non-negative subtree widths, because Java's and Dafny's division differ on negative operands.
- CostCalculator.RecursivePartition, CostCalculator.ArithmeticPartition and their methods require H >= 2. For H <= 1 the recursive strategy never terminates in the source on a positive width, because 2H-3 is below 1. The arithmetic strategy is only meaningful when 2H-3 is positive.
- The H parameter of `subgroup` and `subgroup2` is unused in the source. It is kept as a parameter, and proved irrelevant.
- Grouper.SubdividePass and Grouper.SubdivideAt split the body of `subgroup3`'s do-while into one sweep and one step of the inner `for` loop.
  - That `for` loop re-reads `list.size()` on every iteration; the model does the same.
  - Do-while becomes a `while` whose flag starts true.
- Aliasing of the caller's list is not modelled beyond the single `IntList` object that `Subgroup3` modifies.
- Grouper.IntList.Get: its contract says only that the result is an element of the list. The body reads exactly index i, which is all `list.get(i)` does.
