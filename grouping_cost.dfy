/**
 * What a full grouping costs, read off its n-groups: the cost evaluator's
 * recursion adds up exactly the closed-form costs of the n-groups Subgroup2
 * lists, plus the connectors that join them.
 */
module GroupingCost {
  import opened Seqs
  import CostCalculator
  import opened Grouper

  /**
   * The cost evaluator's full grouping of width W is exactly its n-groups,
   * as Subgroup2 lists them, at their closed-form costs, plus the
   * connectors between them.
   */
  lemma {:induction false} SubtreeCostIsGroupsPlusConnectors(W: int, H: int)
    requires W >= 1
    ensures CostCalculator.SubtreeCost(W, H) == GroupsCost(Subgroup2(H, W)).Plus(Connectors(W))
    decreases W
  {
    if W < 5 {
      SmallSubtreeCostIsGroupsPlusConnectors(W, H);
    } else {
      var lower := Subdivide(W);
      var upper := W - lower;
      SubtreeCostIsGroupsPlusConnectors(lower, H);
      SubtreeCostIsGroupsPlusConnectors(upper, H);
      PartsDecomposition(W, H, lower, upper);
    }
  }

  /** Below width 5 the full grouping is a single n-group and there are no connectors. */
  lemma SmallSubtreeCostIsGroupsPlusConnectors(W: int, H: int)
    requires 1 <= W < 5
    ensures CostCalculator.SubtreeCost(W, H) == GroupsCost(Subgroup2(H, W)).Plus(Connectors(W))
  {
    GroupsCostSingle(W);
  }

  /** The inductive step, with Subdivide's two parts of W named. */
  lemma PartsDecomposition(W: int, H: int, lower: int, upper: int)
    requires W >= 5 && lower == Subdivide(W) && upper == W - lower
    requires CostCalculator.SubtreeCost(lower, H) == GroupsCost(Subgroup2(H, lower)).Plus(Connectors(lower))
    requires CostCalculator.SubtreeCost(upper, H) == GroupsCost(Subgroup2(H, upper)).Plus(Connectors(upper))
    ensures CostCalculator.SubtreeCost(W, H) == GroupsCost(Subgroup2(H, W)).Plus(Connectors(W))
  {
    SubtreeCostIsGroupsPlusConnectorsStep(W, H);
  }

  /** The decomposition for a width of at least 5 follows from the decompositions of its two parts. */
  lemma SubtreeCostIsGroupsPlusConnectorsStep(W: int, H: int)
    requires W >= 5
    requires CostCalculator.SubtreeCost(Subdivide(W), H)
          == GroupsCost(Subgroup2(H, Subdivide(W))).Plus(Connectors(Subdivide(W)))
    requires CostCalculator.SubtreeCost(W - Subdivide(W), H)
          == GroupsCost(Subgroup2(H, W - Subdivide(W))).Plus(Connectors(W - Subdivide(W)))
    ensures CostCalculator.SubtreeCost(W, H) == GroupsCost(Subgroup2(H, W)).Plus(Connectors(W))
  {
    SubtreeCostSplit(W, H);
    GroupsCostSplit(H, W);
    ConnectorsSplit(W);
    Regroup(CostCalculator.SubtreeCost(W, H),
            CostCalculator.SubtreeCost(Subdivide(W), H), CostCalculator.SubtreeCost(W - Subdivide(W), H),
            GroupsCost(Subgroup2(H, W)),
            GroupsCost(Subgroup2(H, Subdivide(W))), GroupsCost(Subgroup2(H, W - Subdivide(W))),
            Connectors(W), Connectors(Subdivide(W)), Connectors(W - Subdivide(W)), CostCalculator.JointCost(W));
  }

  /** The bookkeeping of the recurrence step: sums of costs may be regrouped freely. */
  lemma Regroup(s: CostCalculator.Cost, sl: CostCalculator.Cost, su: CostCalculator.Cost,
                g: CostCalculator.Cost, gl: CostCalculator.Cost, gu: CostCalculator.Cost,
                c: CostCalculator.Cost, cl: CostCalculator.Cost, cu: CostCalculator.Cost, j: CostCalculator.Cost)
    requires s == sl.Plus(su).Plus(j)
    requires sl == gl.Plus(cl) && su == gu.Plus(cu)
    requires g == gl.Plus(gu) && c == cl.Plus(cu).Plus(j)
    ensures s == g.Plus(c)
  {
  }
}
