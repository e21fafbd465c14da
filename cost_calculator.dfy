/**
 * Length-based cost of a tree-shaped support structure on a 2D grid whose
 * members are verticals (length 1) and 45-degree diagonals (length sqrt 2).
 *
 * A span is split into independent n-trees, each no wider than 2H - 3 for a
 * height of H grid points; each n-tree is a vertical stem topped by a "full
 * grouping" that the cost evaluator splits recursively into two subtrees and
 * the diagonal connectors that join them, down to indivisible groups of
 * width 1 to 4 whose costs are fixed.
 *
 * Every length in this model is exactly a + b * sqrt(2) for integers a and b,
 * so a cost is the pair (verticals, diagonals) and all arithmetic is exact.
 */
module CostCalculator {
  import opened Seqs

  /** The length verticals + diagonals * sqrt(2). */
  datatype Cost = Cost(verticals: int, diagonals: int) {
    function Plus(other: Cost): (sum: Cost) {
      Cost(verticals + other.verticals, diagonals + other.diagonals)
    }
  }

  const Zero := Cost(0, 0)

  /** Adding costs is associative. */
  lemma PlusAssociative(x: Cost, y: Cost, z: Cost)
    ensures x.Plus(y).Plus(z) == x.Plus(y.Plus(z))
  {
  }

  /** n vertical unit members. */
  function Verticals(n: int): (c: Cost) {
    Cost(n, 0)
  }

  /** The widest span a single stem supports efficiently at height H (in points). */
  function MaxWidth(H: int): (m: int)
    ensures H >= 2 ==> m >= 1
  {
    2 * H - 3
  }

  /** Every n-tree of the list is at most m wide and at least half of m, and so at least 1. */
  predicate Balanced(trees: seq<int>, m: int) {
    forall i :: 0 <= i < |trees| ==> 1 <= trees[i] <= m && m <= 2 * trees[i]
  }

  /** Every element of s is a proper width, at least 1. */
  predicate AllPositive(s: seq<int>) {
    forall i :: 0 <= i < |s| ==> s[i] >= 1
  }

  // ---------------------------------------------------------------------
  // Tree partitioning, recursive halving strategy
  // ---------------------------------------------------------------------

  /**
   * The n-trees of the recursive strategy: a span that fits under one stem
   * stays whole, a wider one is halved (floor half on the left) and each half
   * is partitioned again. The n-trees cover the span exactly, and when the
   * span had to be split each n-tree is at most MaxWidth(H) and at least half
   * of it (RecursivePartitionBounds).
   */
  function RecursivePartition(W: int, H: int): (trees: seq<int>)
    requires H >= 2
    ensures Sum(trees) == W
    ensures W <= MaxWidth(H) ==> trees == [W]
    decreases W
  {
    if W <= MaxWidth(H) then [W]
    else
      var left := W / 2;
      var right := W - left;
      var leftTrees := RecursivePartition(left, H);
      var rightTrees := RecursivePartition(right, H);
      SumConcat(leftTrees, rightTrees);
      leftTrees + rightTrees
  }

  /**
   * Every n-tree of the recursive strategy is a proper width, and when the
   * span had to be split each n-tree is at most MaxWidth(H) and at least
   * half of it, so no n-tree is narrower than about MaxWidth(H) / 2.
   */
  lemma {:induction false} RecursivePartitionBounds(W: int, H: int)
    requires W >= 1 && H >= 2
    ensures AllPositive(RecursivePartition(W, H))
    ensures W > MaxWidth(H) ==> Balanced(RecursivePartition(W, H), MaxWidth(H))
    decreases W
  {
    if W > MaxWidth(H) {
      RecursivePartitionBounds(W / 2, H);
      RecursivePartitionBounds(W - W / 2, H);
      RecursivePartitionBoundsStep(W, H);
    } else {
      assert RecursivePartition(W, H) == [W];
    }
  }

  /** The bounds for a span too wide for one stem follow from the bounds for its two halves. */
  lemma RecursivePartitionBoundsStep(W: int, H: int)
    requires H >= 2 && W > MaxWidth(H)
    requires AllPositive(RecursivePartition(W / 2, H)) && AllPositive(RecursivePartition(W - W / 2, H))
    requires W / 2 > MaxWidth(H) ==> Balanced(RecursivePartition(W / 2, H), MaxWidth(H))
    requires W - W / 2 > MaxWidth(H) ==> Balanced(RecursivePartition(W - W / 2, H), MaxWidth(H))
    ensures AllPositive(RecursivePartition(W, H)) && Balanced(RecursivePartition(W, H), MaxWidth(H))
  {
    RecursivePartitionUnfold(W, H);
    HalvesPartitionBalanced(W, H);
    BalancedConcat(RecursivePartition(W / 2, H), RecursivePartition(W - W / 2, H), MaxWidth(H));
    AllPositiveConcat(RecursivePartition(W / 2, H), RecursivePartition(W - W / 2, H));
  }

  /**
   * Both halves of a span too wide for one stem are balanced once
   * partitioned: a half that fits under a stem stays whole and is then at
   * least half of MaxWidth(H); a wider half is balanced by hypothesis.
   */
  lemma HalvesPartitionBalanced(W: int, H: int)
    requires H >= 2 && W > MaxWidth(H)
    requires W / 2 > MaxWidth(H) ==> Balanced(RecursivePartition(W / 2, H), MaxWidth(H))
    requires W - W / 2 > MaxWidth(H) ==> Balanced(RecursivePartition(W - W / 2, H), MaxWidth(H))
    ensures Balanced(RecursivePartition(W / 2, H), MaxWidth(H))
    ensures Balanced(RecursivePartition(W - W / 2, H), MaxWidth(H))
  {
    if W / 2 <= MaxWidth(H) {
      assert RecursivePartition(W / 2, H) == [W / 2];
    }
    if W - W / 2 <= MaxWidth(H) {
      assert RecursivePartition(W - W / 2, H) == [W - W / 2];
    }
  }

  lemma BalancedConcat(a: seq<int>, b: seq<int>, m: int)
    requires Balanced(a, m) && Balanced(b, m)
    ensures Balanced(a + b, m)
  {
  }

  /** The recursive strategy as the source runs it, appending each half's n-trees to a fresh list. */
  method DivideIntoTrees(W: int, H: int) returns (trees: seq<int>)
    requires H >= 2
    ensures trees == RecursivePartition(W, H)
    decreases W
  {
    trees := [];
    var maxWidth := 2 * H - 3;
    if W <= maxWidth {
      trees := trees + [W];
    } else {
      var left := W / 2;
      var right := W - left;
      var leftTrees := DivideIntoTrees(left, H);
      var rightTrees := DivideIntoTrees(right, H);
      trees := trees + leftTrees;
      assert trees == leftTrees;
      trees := trees + rightTrees;
      RecursivePartitionUnfold(W, H);
    }
  }

  /** A span too wide for one stem is partitioned as its two halves are. */
  lemma RecursivePartitionUnfold(W: int, H: int)
    requires H >= 2 && W > MaxWidth(H)
    ensures RecursivePartition(W, H) == RecursivePartition(W / 2, H) + RecursivePartition(W - W / 2, H)
  {
  }

  // ---------------------------------------------------------------------
  // Tree partitioning, arithmetic strategy
  // ---------------------------------------------------------------------

  /**
   * The n-trees of the arithmetic strategy: as many full-width n-trees as
   * possible; when MaxWidth(H) does not divide W, the last full-width n-tree
   * and the remainder are merged into "extra" and split in two halves,
   * which come first.
   */
  function ArithmeticPartition(W: int, H: int): (trees: seq<int>)
    requires H >= 2
    ensures W <= MaxWidth(H) ==> trees == [W]
    ensures W > MaxWidth(H) ==> |trees| >= 2
  {
    var maxWidth := MaxWidth(H);
    if W <= maxWidth then [W]
    else if W % maxWidth == 0 then
      QuotientAtLeastTwo(W, maxWidth);
      Repeat(maxWidth, W / maxWidth)
    else
      QuotientPositive(W, maxWidth);
      var groupsMax := W / maxWidth - 1;
      var extra := W - maxWidth * groupsMax;
      [extra / 2, extra - extra / 2] + Repeat(maxWidth, groupsMax)
  }

  /** A multiple of d above d is at least twice d. */
  lemma QuotientAtLeastTwo(W: int, d: int)
    requires 0 < d < W && W % d == 0
    ensures W / d >= 2
  {
    assert W == d * (W / d);
  }

  /** A number above a positive divisor has a positive quotient. */
  lemma QuotientPositive(W: int, d: int)
    requires 0 < d < W
    ensures W / d >= 1
  {
  }

  /** The arithmetic strategy covers the span exactly. */
  lemma ArithmeticPartitionSum(W: int, H: int)
    requires H >= 2
    ensures Sum(ArithmeticPartition(W, H)) == W
  {
    var m := MaxWidth(H);
    if W > m {
      if W % m == 0 {
        FullTreesSum(W, m);
      } else {
        ExtraTreesSum(W, m);
      }
    }
  }

  /** When m divides W, W / m full-width n-trees cover W. */
  lemma FullTreesSum(W: int, m: int)
    requires 0 < m < W && W % m == 0
    ensures Sum(Repeat(m, W / m)) == W
  {
    SumRepeat(m, W / m);
    assert W == m * (W / m);
  }

  /** Otherwise the two halves of the extra and W / m - 1 full-width n-trees cover W. */
  lemma ExtraTreesSum(W: int, m: int)
    requires 0 < m < W && W % m != 0
    ensures W / m - 1 >= 0
    ensures Sum([(W - m * (W / m - 1)) / 2, (W - m * (W / m - 1)) - (W - m * (W / m - 1)) / 2] + Repeat(m, W / m - 1)) == W
  {
    QuotientPositive(W, m);
    var g := W / m - 1;
    var extra := W - m * g;
    var halves := [extra / 2, extra - extra / 2];
    SumRepeat(m, g);
    SumConcat(halves, Repeat(m, g));
    assert halves[1..] == [extra - extra / 2] && [extra - extra / 2][1..] == [];
    assert Sum(halves) == extra;
    assert m * g + extra == W;
  }

  /**
   * Every n-tree of the arithmetic strategy is a proper width, and when the
   * span had to be split each n-tree lies between half of MaxWidth(H) and
   * MaxWidth(H).
   */
  lemma ArithmeticPartitionBalanced(W: int, H: int)
    requires W >= 1 && H >= 2
    ensures AllPositive(ArithmeticPartition(W, H))
    ensures W > MaxWidth(H) ==> Balanced(ArithmeticPartition(W, H), MaxWidth(H))
  {
    var m := MaxWidth(H);
    if W > m {
      QuotientPositive(W, m);
      var q := W / m;
      var rem := W % m;
      assert W == m * q + rem;
      if rem != 0 {
        var groupsMax := q - 1;
        var extra := W - m * groupsMax;
        assert m * groupsMax == m * q - m;
        assert extra == m + rem && 0 < rem < m;
        BalancedConcat([extra / 2, extra - extra / 2], Repeat(m, groupsMax), m);
      }
    }
  }

  /**
   * When the span had to be split there are floor(W / MaxWidth(H)) n-trees,
   * plus one when MaxWidth(H) does not divide W: the remainder and one
   * full-width n-tree become two.
   */
  lemma ArithmeticPartitionLength(W: int, H: int)
    requires W >= 1 && H >= 2 && W > MaxWidth(H)
    ensures |ArithmeticPartition(W, H)| == W / MaxWidth(H) + (if W % MaxWidth(H) == 0 then 0 else 1)
  {
    QuotientPositive(W, MaxWidth(H));
  }

  /** The arithmetic strategy as the source runs it: the two extra halves, then a loop appending full-width n-trees. */
  method DivideIntoTreesAlt(W: int, H: int) returns (trees: seq<int>)
    requires H >= 2
    ensures trees == ArithmeticPartition(W, H)
  {
    trees := [];
    var maxWidth := 2 * H - 3;
    if W <= maxWidth {
      trees := trees + [W];
    } else {
      QuotientPositive(W, maxWidth);
      var groupsMax: int;
      if W % maxWidth == 0 {
        groupsMax := W / maxWidth;
      } else {
        groupsMax := W / maxWidth - 1;
        var extra := W - maxWidth * groupsMax;
        var groupL := extra / 2;
        var groupR := extra - groupL;
        trees := trees + [groupL];
        trees := trees + [groupR];
      }
      ghost var extras := trees;
      for i := 0 to groupsMax
        invariant trees == extras + Repeat(maxWidth, i)
      {
        trees := trees + [maxWidth];
      }
    }
  }

  // ---------------------------------------------------------------------
  // Cost of one n-tree
  // ---------------------------------------------------------------------

  /**
   * Closed-form cost of the indivisible groups of width 1 to 4; any other
   * width costs nothing. Each base group of width W uses W - 1 diagonals,
   * and one vertical except the 4-group, which uses three.
   */
  function GroupCost(W: int): (c: Cost)
    ensures 1 <= W <= 4 ==> c.diagonals == W - 1 && c.verticals == (if W == 4 then 3 else 1)
    ensures !(1 <= W <= 4) ==> c == Zero
  {
    if W == 1 then Cost(1, 0)
    else if W == 2 then Cost(1, 1)
    else if W == 3 then Cost(1, 2)
    else if W == 4 then Cost(3, 3)
    else Zero
  }

  /**
   * Split of a full grouping of width W into its left and right subtrees:
   * the two add up to W, the left is never the wider, and the pair is never
   * (even, even). The split is the plain floor half unless that would be
   * (even, even), which happens exactly when 4 divides W, and then the two
   * sides differ by 2.
   */
  function GetSubtrees(W: int): (subtrees: (int, int))
    requires W >= 1
    ensures subtrees.0 + subtrees.1 == W
    ensures subtrees.0 <= subtrees.1 <= subtrees.0 + 2
    ensures subtrees.0 % 2 == 1 || subtrees.1 % 2 == 1
    ensures subtrees.1 == subtrees.0 + 2 <==> W % 4 == 0
    ensures W >= 2 ==> 1 <= subtrees.0 && subtrees.1 <= W - 1
  {
    var leftWidth := W / 2;
    var rightWidth := W - leftWidth;
    HalvesParity(W);
    if leftWidth % 2 == 0 && rightWidth % 2 == 0 then
      (leftWidth - 1, W - (leftWidth - 1))
    else
      (leftWidth, rightWidth)
  }

  /** The floor halves of W differ by at most one, and are both even exactly when 4 divides W. */
  lemma HalvesParity(W: int)
    requires W >= 1
    ensures W - W / 2 == W / 2 || W - W / 2 == W / 2 + 1
    ensures (W / 2) % 2 == 0 && (W - W / 2) % 2 == 0 <==> W % 4 == 0
  {
    var k := W / 4;
    assert W == 4 * k + W % 4;
    if W % 4 == 0 {
      assert W / 2 == 2 * k;
    } else if W % 4 == 1 {
      assert W / 2 == 2 * k && W - W / 2 == 2 * k + 1;
    } else if W % 4 == 2 {
      assert W / 2 == 2 * k + 1;
    } else {
      assert W / 2 == 2 * k + 1 && W - W / 2 == 2 * k + 2;
    }
  }

  /** No split of W into a left part no wider than the right and not (even, even) is more balanced than GetSubtrees(W). */
  lemma GetSubtreesMostBalanced(W: int, a: int, b: int)
    requires W >= 1 && a + b == W && a <= b
    requires a % 2 == 1 || b % 2 == 1
    ensures GetSubtrees(W).1 - GetSubtrees(W).0 <= b - a
  {
    var p := GetSubtrees(W);
    assert W % 4 == 0 ==> W == 4 * (W / 4);
    SplitDifference(W, W / 4, p.0, p.1, a, b);
  }

  /**
   * Two splits of W, neither (even, even), each with its left part no wider:
   * if the first differs by 2 only when W is a multiple 4 * k of 4, it is
   * the more balanced.
   */
  lemma SplitDifference(W: int, k: int, l: int, r: int, a: int, b: int)
    requires l + r == W && l <= r <= l + 2 && (r == l + 2 ==> W == 4 * k)
    requires a + b == W && a <= b && (a % 2 == 1 || b % 2 == 1)
    ensures r - l <= b - a
  {
    if r - l == 2 {
      DoubleIsEven(k);
      assert a != 2 * k;
      assert b - a == 4 * k - 2 * a;
    }
  }

  /** Twice any integer is even. */
  lemma DoubleIsEven(k: int)
    ensures (2 * k) % 2 == 0
  {
  }

  /**
   * Cost of the diagonal connectors joining the apexes of the two subtrees
   * to the apex of their parent at height H (in points). Each connector
   * rises from its subtree's own full-grouping height to H; every unit of
   * that combined rise is one member. An even-width parent has one "cant":
   * one unit of the rise is a vertical instead of a diagonal.
   */
  function CostLeftover(W: int, H: int, subtrees: (int, int)): (c: Cost)
    requires subtrees.0 >= 0 && subtrees.1 >= 0
    ensures c.verticals == (if W % 2 == 0 then 1 else 0)
    ensures c.verticals + c.diagonals == (H - (subtrees.0 / 2 + 1)) + (H - (subtrees.1 / 2 + 1))
  {
    var leftGroupHeight := subtrees.0 / 2 + 1;
    var rightGroupHeight := subtrees.1 / 2 + 1;
    var leftDiagonalHeight := H - leftGroupHeight;
    var rightDiagonalHeight := H - rightGroupHeight;
    var combinedHeight := leftDiagonalHeight + rightDiagonalHeight;
    if W % 2 == 0 then Cost(1, combinedHeight - 1) else Cost(0, combinedHeight)
  }

  /** W / 2 diagonals, and one vertical when W is even. */
  function JointCost(W: int): (c: Cost) {
    Cost(if W % 2 == 0 then 1 else 0, W / 2)
  }

  /**
   * The connectors of a full grouping of width W >= 5, at its own height
   * W / 2 + 1 and with its own split, always take exactly W / 2 diagonals,
   * plus the one cant vertical when W is even.
   */
  lemma LeftoverClosedForm(W: int)
    requires W >= 5
    ensures CostLeftover(W, W / 2 + 1, GetSubtrees(W)) == JointCost(W)
  {
    var p := GetSubtrees(W);
    var k := W / 4;
    assert W == 4 * k + W % 4;
    if W % 4 == 0 {
      assert p == (2 * k - 1, 2 * k + 1);
      assert p.0 / 2 == k - 1 && p.1 / 2 == k;
    } else if W % 4 == 1 {
      assert p == (2 * k, 2 * k + 1);
      assert p.0 / 2 == k && p.1 / 2 == k;
    } else if W % 4 == 2 {
      assert p == (2 * k + 1, 2 * k + 1);
      assert p.0 / 2 == k && p.1 / 2 == k;
    } else {
      assert p == (2 * k + 1, 2 * k + 2);
      assert p.0 / 2 == k && p.1 / 2 == k + 1;
    }
  }

  /**
   * Cost of the full grouping of a subtree of width W: a base group when
   * W < 5, else the costs of its two subtrees (each at this grouping's height
   * W / 2 + 1) plus the connectors joining them. A full grouping of width W
   * spans W - 1 horizontal units with 45-degree diagonals, so it has at least
   * W - 1 diagonals, and it always has a vertical.
   */
  function SubtreeCost(W: int, H: int): (c: Cost)
    requires W >= 1
    ensures c.verticals >= 1
    ensures c.diagonals >= W - 1
    decreases W
  {
    if W < 5 then GroupCost(W)
    else
      var fullGroupHeight := W / 2 + 1;
      var subtrees := GetSubtrees(W);
      var costLeft := SubtreeCost(subtrees.0, fullGroupHeight);
      var costRight := SubtreeCost(subtrees.1, fullGroupHeight);
      LeftoverClosedForm(W);
      costLeft.Plus(costRight).Plus(CostLeftover(W, fullGroupHeight, subtrees))
  }

  /** The height argument of SubtreeCost plays no part in its value. */
  lemma SubtreeCostIgnoresHeight(W: int, H1: int, H2: int)
    requires W >= 1
    ensures SubtreeCost(W, H1) == SubtreeCost(W, H2)
  {
  }

  /**
   * Recurrence of the full-grouping cost with its connectors in closed form:
   * for W >= 5 it is the two subtrees' costs plus W / 2 diagonals, plus one
   * vertical when W is even.
   */
  lemma SubtreeCostRecurrence(W: int, H: int)
    requires W >= 5
    ensures SubtreeCost(W, H) ==
      SubtreeCost(GetSubtrees(W).0, H)
        .Plus(SubtreeCost(GetSubtrees(W).1, H))
        .Plus(JointCost(W))
  {
    var p := GetSubtrees(W);
    LeftoverClosedForm(W);
    SubtreeCostIgnoresHeight(p.0, H, W / 2 + 1);
    SubtreeCostIgnoresHeight(p.1, H, W / 2 + 1);
  }

  /**
   * Cost of one n-tree of width W at height H (in points). A single point is
   * carried by H - 1 verticals. A wider n-tree is a stem of
   * H - (W / 2 + 1) verticals up to its full grouping, whose cost is
   * SubtreeCost at the grouping's own height, base group or not. Either
   * way the n-tree has at least W - 1 diagonals.
   */
  function TreeCost(W: int, H: int): (c: Cost)
    requires W >= 1
    ensures W == 1 ==> c == Verticals(H - 1)
    ensures W >= 2 ==> c == Verticals(H - (W / 2 + 1)).Plus(SubtreeCost(W, W / 2 + 1))
    ensures c.diagonals >= W - 1
  {
    if W == 1 then
      var costFullGroup := Cost(1, 0);
      var costStem := Verticals(H - 2);
      costStem.Plus(costFullGroup)
    else
      var pointsFullGroup := W / 2 + 1;
      var costStem := Verticals(H - pointsFullGroup);
      var costFullGroup := if W < 5 then GroupCost(W) else SubtreeCost(W, pointsFullGroup);
      costStem.Plus(costFullGroup)
  }

  /** An n-tree whose height reaches its full grouping has no negative part. */
  lemma TreeCostNonNegative(W: int, H: int)
    requires W >= 1 && H >= W / 2 + 1
    ensures TreeCost(W, H).verticals >= 0 && TreeCost(W, H).diagonals >= 0
  {
  }

  // ---------------------------------------------------------------------
  // Cost of a list of n-trees
  // ---------------------------------------------------------------------

  /**
   * Sum of TreeCost over a list of n-trees that share height H. Since every
   * n-tree of width t needs t - 1 diagonals, the list needs all but one
   * diagonal per point of each n-tree.
   */
  function TotalCost(trees: seq<int>, H: int): (c: Cost)
    requires AllPositive(trees)
    ensures c.diagonals >= Sum(trees) - |trees|
  {
    if trees == [] then Zero else TreeCost(trees[0], H).Plus(TotalCost(trees[1..], H))
  }

  /** Concatenating lists of proper widths gives a list of proper widths. */
  lemma AllPositiveConcat(a: seq<int>, b: seq<int>)
    requires AllPositive(a) && AllPositive(b)
    ensures AllPositive(a + b)
  {
  }

  /** The cost of a list is additive over concatenation. */
  lemma {:induction false} TotalCostConcat(a: seq<int>, b: seq<int>, H: int)
    requires AllPositive(a) && AllPositive(b)
    ensures AllPositive(a + b)
    ensures TotalCost(a + b, H) == TotalCost(a, H).Plus(TotalCost(b, H))
  {
    AllPositiveConcat(a, b);
    if a == [] {
      assert a + b == b;
    } else {
      assert (a + b)[0] == a[0];
      assert (a + b)[1..] == a[1..] + b;
      TotalCostConcat(a[1..], b, H);
    }
  }

  /** The source's accumulation loop over the list of n-trees. */
  method ListCost(trees: seq<int>, H: int) returns (total: Cost)
    requires AllPositive(trees)
    ensures total == TotalCost(trees, H)
  {
    total := Zero;
    for i := 0 to |trees|
      invariant total == TotalCost(trees[..i], H)
    {
      ListCostStep(trees, i, H);
      total := total.Plus(TreeCost(trees[i], H));
    }
    assert trees[..|trees|] == trees;
  }

  /** Extending a prefix of the list by one n-tree adds that n-tree's cost. */
  lemma ListCostStep(trees: seq<int>, i: int, H: int)
    requires AllPositive(trees) && 0 <= i < |trees|
    ensures AllPositive(trees[..i]) && AllPositive(trees[..i + 1])
    ensures TotalCost(trees[..i + 1], H) == TotalCost(trees[..i], H).Plus(TreeCost(trees[i], H))
  {
    assert trees[..i + 1] == trees[..i] + [trees[i]];
    assert [trees[i]][1..] == [];
    TotalCostConcat(trees[..i], [trees[i]], H);
  }

  /**
   * An n-tree no wider than one stem carries is in balance: its stem has at
   * least one vertical, and no count of its cost is negative.
   */
  lemma FittingTreeCost(t: int, H: int)
    requires 1 <= t <= MaxWidth(H)
    ensures TreeCost(t, H).verticals >= 1 && TreeCost(t, H).diagonals >= 0
  {
  }

  /** Every n-tree of the recursive strategy has a stem of at least one vertical and no negative count. */
  lemma RecursivePartitionCostsNonNegative(W: int, H: int)
    requires W >= 1 && H >= 2
    ensures AllPositive(RecursivePartition(W, H))
    ensures forall t :: t in RecursivePartition(W, H) ==> TreeCost(t, H).verticals >= 1 && TreeCost(t, H).diagonals >= 0
  {
    var trees := RecursivePartition(W, H);
    RecursivePartitionBounds(W, H);
    forall t | t in trees
      ensures TreeCost(t, H).verticals >= 1 && TreeCost(t, H).diagonals >= 0
    {
      var i :| 0 <= i < |trees| && trees[i] == t;
      if W <= MaxWidth(H) {
        assert trees == [W];
      }
      FittingTreeCost(t, H);
    }
  }

  /** Every n-tree of the arithmetic strategy has a stem of at least one vertical and no negative count. */
  lemma ArithmeticPartitionCostsNonNegative(W: int, H: int)
    requires W >= 1 && H >= 2
    ensures AllPositive(ArithmeticPartition(W, H))
    ensures forall t :: t in ArithmeticPartition(W, H) ==> TreeCost(t, H).verticals >= 1 && TreeCost(t, H).diagonals >= 0
  {
    var trees := ArithmeticPartition(W, H);
    ArithmeticPartitionBalanced(W, H);
    ArithmeticPartitionSum(W, H);
    forall t | t in trees
      ensures TreeCost(t, H).verticals >= 1 && TreeCost(t, H).diagonals >= 0
    {
      var i :| 0 <= i < |trees| && trees[i] == t;
      if W <= MaxWidth(H) {
        assert trees == [W];
      }
      FittingTreeCost(t, H);
    }
  }

  /** Total cost with the recursive partition; a span that fits under one stem costs one n-tree. */
  method DivideAndCost(W: int, H: int) returns (cost: Cost)
    requires W >= 1 && H >= 2
    ensures AllPositive(RecursivePartition(W, H)) && cost == TotalCost(RecursivePartition(W, H), H)
    ensures W <= MaxWidth(H) ==> cost == TreeCost(W, H)
  {
    RecursivePartitionBounds(W, H);
    var trees := DivideIntoTrees(W, H);
    cost := ListCost(trees, H);
  }

  /** Total cost with the arithmetic partition; a span that fits under one stem costs one n-tree. */
  method DivideAndCostAlt(W: int, H: int) returns (cost: Cost)
    requires W >= 1 && H >= 2
    ensures AllPositive(ArithmeticPartition(W, H)) && cost == TotalCost(ArithmeticPartition(W, H), H)
    ensures W <= MaxWidth(H) ==> cost == TreeCost(W, H)
  {
    ArithmeticPartitionBalanced(W, H);
    ArithmeticPartitionSum(W, H);
    var trees := DivideIntoTreesAlt(W, H);
    cost := ListCost(trees, H);
  }

  /** With the recursive partition, a span too wide for one stem costs exactly what its two halves cost. */
  lemma RecursiveCostSplits(W: int, H: int)
    requires H >= 2 && W > MaxWidth(H)
    ensures AllPositive(RecursivePartition(W, H))
    ensures AllPositive(RecursivePartition(W / 2, H)) && AllPositive(RecursivePartition(W - W / 2, H))
    ensures TotalCost(RecursivePartition(W, H), H) ==
      TotalCost(RecursivePartition(W / 2, H), H).Plus(TotalCost(RecursivePartition(W - W / 2, H), H))
  {
    RecursivePartitionBounds(W / 2, H);
    RecursivePartitionBounds(W - W / 2, H);
    RecursivePartitionUnfold(W, H);
    TotalCostConcat(RecursivePartition(W / 2, H), RecursivePartition(W - W / 2, H), H);
  }

  /** Worked partition: 10 points at height 4 halve into two 5-wide n-trees. */
  lemma RecursivePartitionExample()
    ensures RecursivePartition(10, 4) == [5, 5]
  {
    assert RecursivePartition(5, 4) == [5];
  }

  /** Worked partition: 12 points at height 4 give the extra halves 3 and 4, then one full 5. */
  lemma ArithmeticPartitionExample()
    ensures ArithmeticPartition(12, 4) == [3, 4, 5]
  {
    assert 12 / 5 == 2 && 12 % 5 == 2;
    assert Repeat(5, 1) == [5];
  }

  /** Worked n-tree costs at height 4: 1 point takes 3 verticals; 2 points, 3 verticals and a diagonal. */
  lemma SmallTreeExamples()
    ensures TreeCost(1, 4) == Cost(3, 0)
    ensures TreeCost(2, 4) == Cost(3, 1)
  {
  }

  /** Worked full grouping of 5 points, at any height: subtrees 2 and 3, joined by two diagonals. */
  lemma FivePointExample(H: int)
    ensures SubtreeCost(5, H) == Cost(2, 5)
  {
    var subtrees := GetSubtrees(5);
    assert subtrees == (2, 3);
    assert SubtreeCost(2, 3) == Cost(1, 1);
    assert SubtreeCost(3, 3) == Cost(1, 2);
    assert CostLeftover(5, 3, subtrees) == Cost(0, 2);
  }

  /** Worked n-tree of 5 points at height 4, each n-tree of the 10-point span: 3 verticals and 5 diagonals. */
  lemma FivePointTreeExample()
    ensures TreeCost(5, 4) == Cost(3, 5)
  {
    FivePointExample(3);
  }
}
