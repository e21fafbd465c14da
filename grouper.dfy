/**
 * Splitting a support structure into n-trees and each n-tree into its
 * indivisible n-groups (widths 1 to 4): by recursion, and by repeated
 * in-place passes over a list of widths.
 */
module Grouper {
  import opened Seqs
  import CostCalculator

  /** Every element of s is at most 4, the widest indivisible group. */
  predicate AllSmall(s: seq<int>) {
    forall i :: 0 <= i < |s| ==> s[i] <= 4
  }

  // ---------------------------------------------------------------------
  // Splitting an n-tree into n-groups
  // ---------------------------------------------------------------------

  /** Concatenating lists of groups of at most 4 gives such a list. */
  lemma AllSmallConcat(a: seq<int>, b: seq<int>)
    requires AllSmall(a) && AllSmall(b)
    ensures AllSmall(a + b)
  {
  }

  /**
   * n-groups of a width-W n-tree by plain halving, which may produce
   * (even, even) splits. The groups cover W, each is at most 4, a width
   * below 5 is its own group, and for a proper width each group is at
   * least 1.
   */
  function Subgroup(H: int, W: int): (groups: seq<int>)
    ensures Sum(groups) == W
    ensures W < 5 ==> groups == [W]
    decreases W
  {
    if W < 5 then [W]
    else
      var sub1 := Subgroup(H, W / 2);
      var sub2 := Subgroup(H, W - W / 2);
      SumConcat(sub1, sub2);
      sub1 + sub2
  }

  /** A width of at least 5 is grouped as its two halves are. */
  lemma SubgroupUnfold(H: int, W: int)
    requires W >= 5
    ensures Subgroup(H, W) == Subgroup(H, W / 2) + Subgroup(H, W - W / 2)
  {
  }

  /** Every group of Subgroup is at most 4, and at least 1 for a proper width. */
  lemma {:induction false} SubgroupBounds(H: int, W: int)
    ensures AllSmall(Subgroup(H, W))
    ensures W >= 1 ==> CostCalculator.AllPositive(Subgroup(H, W))
    decreases W
  {
    if W >= 5 {
      var lower := W / 2;
      var upper := W - lower;
      SubgroupBounds(H, lower);
      SubgroupBounds(H, upper);
      SubgroupBoundsStep(H, W, lower, upper);
    }
  }

  /** The bounds for a width of at least 5 follow from those of its two halves. */
  lemma SubgroupBoundsStep(H: int, W: int, lower: int, upper: int)
    requires W >= 5 && lower == W / 2 && upper == W - lower
    requires AllSmall(Subgroup(H, lower)) && CostCalculator.AllPositive(Subgroup(H, lower))
    requires AllSmall(Subgroup(H, upper)) && CostCalculator.AllPositive(Subgroup(H, upper))
    ensures AllSmall(Subgroup(H, W)) && CostCalculator.AllPositive(Subgroup(H, W))
  {
    var l := Subgroup(H, lower);
    var u := Subgroup(H, upper);
    assert Subgroup(H, W) == l + u;
    AllSmallConcat(l, u);
    CostCalculator.AllPositiveConcat(l, u);
  }

  /** The height argument of Subgroup plays no part in its value. */
  lemma {:induction false} SubgroupIgnoresHeight(H1: int, H2: int, W: int)
    ensures Subgroup(H1, W) == Subgroup(H2, W)
    decreases W
  {
    if W >= 5 {
      var lower := W / 2;
      var upper := W - lower;
      SubgroupIgnoresHeight(H1, H2, lower);
      SubgroupIgnoresHeight(H1, H2, upper);
      SubgroupIgnoresHeightStep(H1, H2, W, lower, upper);
    }
  }

  /** Two heights agree on a width of at least 5 when they agree on its two halves. */
  lemma SubgroupIgnoresHeightStep(H1: int, H2: int, W: int, lower: int, upper: int)
    requires W >= 5 && lower == W / 2 && upper == W - lower
    requires Subgroup(H1, lower) == Subgroup(H2, lower) && Subgroup(H1, upper) == Subgroup(H2, upper)
    ensures Subgroup(H1, W) == Subgroup(H2, W)
  {
    var l := Subgroup(H1, lower);
    var u := Subgroup(H1, upper);
    assert Subgroup(H1, W) == l + u;
    assert Subgroup(H2, W) == l + u;
  }

  /**
   * Lower half of a split of W into two parts that are never both even:
   * the floor half, moved down by one when both halves would be even. It
   * is the left subtree width the cost evaluator uses.
   */
  function Subdivide(W: int): (lower: int)
    requires W >= 1
    ensures lower <= W - lower
    ensures lower % 2 == 1 || (W - lower) % 2 == 1
    ensures W >= 2 ==> 1 <= lower && W - lower <= W - 1
  {
    var half := W / 2;
    var lower := if half % 2 == 0 && (W - half) % 2 == 0 then half - 1 else half;
    SubdivideParts(W, lower);
    lower
  }

  /** The arithmetic behind Subdivide's contract, by cases on W mod 4. */
  lemma SubdivideParts(W: int, lower: int)
    requires W >= 1
    requires lower == if (W / 2) % 2 == 0 && (W - W / 2) % 2 == 0 then W / 2 - 1 else W / 2
    ensures lower <= W - lower
    ensures lower % 2 == 1 || (W - lower) % 2 == 1
    ensures W >= 2 ==> 1 <= lower && W - lower <= W - 1
  {
    var k := W / 4;
    assert W == 4 * k + W % 4;
    if W % 4 == 0 {
      assert W / 2 == 2 * k && lower == 2 * k - 1;
      assert lower == 2 * (k - 1) + 1;
    } else if W % 4 == 1 {
      assert W / 2 == 2 * k && W - W / 2 == 2 * k + 1;
    } else if W % 4 == 2 {
      assert W / 2 == 2 * k + 1;
    } else {
      assert W / 2 == 2 * k + 1 && W - W / 2 == 2 * k + 2;
    }
  }

  /** Subdivide and the cost evaluator's GetSubtrees split every width the same way. */
  lemma SubdivideAgreesWithGetSubtrees(W: int)
    requires W >= 1
    ensures CostCalculator.GetSubtrees(W) == (Subdivide(W), W - Subdivide(W))
  {
  }

  /**
   * n-groups of a width-W n-tree where every split is Subdivide's, so
   * never (even, even). The groups cover W, each is at most 4, a width
   * below 5 is its own group, and for a proper width each is at least 1.
   */
  function Subgroup2(H: int, W: int): (groups: seq<int>)
    ensures Sum(groups) == W
    ensures W < 5 ==> groups == [W]
    decreases W
  {
    if W < 5 then [W]
    else
      var lower := Subdivide(W);
      var upper := W - lower;
      var sub1 := Subgroup2(H, lower);
      var sub2 := Subgroup2(H, upper);
      SumConcat(sub1, sub2);
      sub1 + sub2
  }

  /** A width of at least 5 is grouped as its two Subdivide parts are. */
  lemma Subgroup2Unfold(H: int, W: int)
    requires W >= 5
    ensures Subgroup2(H, W) == Subgroup2(H, Subdivide(W)) + Subgroup2(H, W - Subdivide(W))
    ensures Subdivide(W) % 2 == 1 || (W - Subdivide(W)) % 2 == 1
  {
  }

  /** Every group of Subgroup2 is at most 4, and at least 1 for a proper width. */
  lemma {:induction false} Subgroup2Bounds(H: int, W: int)
    ensures AllSmall(Subgroup2(H, W))
    ensures W >= 1 ==> CostCalculator.AllPositive(Subgroup2(H, W))
    decreases W
  {
    if W >= 5 {
      var lower := Subdivide(W);
      var upper := W - lower;
      Subgroup2Bounds(H, lower);
      Subgroup2Bounds(H, upper);
      Subgroup2BoundsStep(H, W, lower, upper);
    }
  }

  /** The bounds for a width of at least 5 follow from those of its two Subdivide parts. */
  lemma Subgroup2BoundsStep(H: int, W: int, lower: int, upper: int)
    requires W >= 5 && lower == Subdivide(W) && upper == W - lower
    requires AllSmall(Subgroup2(H, lower)) && CostCalculator.AllPositive(Subgroup2(H, lower))
    requires AllSmall(Subgroup2(H, upper)) && CostCalculator.AllPositive(Subgroup2(H, upper))
    ensures AllSmall(Subgroup2(H, W)) && CostCalculator.AllPositive(Subgroup2(H, W))
  {
    var l := Subgroup2(H, lower);
    var u := Subgroup2(H, upper);
    assert Subgroup2(H, W) == l + u;
    AllSmallConcat(l, u);
    CostCalculator.AllPositiveConcat(l, u);
  }

  /** The height argument of Subgroup2 plays no part in its value. */
  lemma {:induction false} Subgroup2IgnoresHeight(H1: int, H2: int, W: int)
    ensures Subgroup2(H1, W) == Subgroup2(H2, W)
    decreases W
  {
    if W >= 5 {
      var lower := Subdivide(W);
      var upper := W - lower;
      Subgroup2IgnoresHeight(H1, H2, lower);
      Subgroup2IgnoresHeight(H1, H2, upper);
      Subgroup2IgnoresHeightStep(H1, H2, W, lower, upper);
    }
  }

  /** Two heights agree on a width of at least 5 when they agree on its two Subdivide parts. */
  lemma Subgroup2IgnoresHeightStep(H1: int, H2: int, W: int, lower: int, upper: int)
    requires W >= 5 && lower == Subdivide(W) && upper == W - lower
    requires Subgroup2(H1, lower) == Subgroup2(H2, lower) && Subgroup2(H1, upper) == Subgroup2(H2, upper)
    ensures Subgroup2(H1, W) == Subgroup2(H2, W)
  {
    var l := Subgroup2(H1, lower);
    var u := Subgroup2(H1, upper);
    assert Subgroup2(H1, W) == l + u;
    assert Subgroup2(H2, W) == l + u;
  }

  // ---------------------------------------------------------------------
  // The cost of a full grouping, from its n-groups
  // ---------------------------------------------------------------------

  /** Cost of a list of n-groups, each at its closed-form cost. */
  function GroupsCost(groups: seq<int>): (c: CostCalculator.Cost)
  {
    if groups == [] then CostCalculator.Zero
    else CostCalculator.GroupCost(groups[0]).Plus(GroupsCost(groups[1..]))
  }

  lemma {:induction false} GroupsCostConcat(a: seq<int>, b: seq<int>)
    ensures GroupsCost(a + b) == GroupsCost(a).Plus(GroupsCost(b))
  {
    if a == [] {
      assert a + b == b;
    } else {
      var g := CostCalculator.GroupCost(a[0]);
      assert (a + b)[0] == a[0];
      assert (a + b)[1..] == a[1..] + b;
      assert GroupsCost(a + b) == g.Plus(GroupsCost(a[1..] + b));
      GroupsCostConcat(a[1..], b);
      CostCalculator.PlusAssociative(g, GroupsCost(a[1..]), GroupsCost(b));
    }
  }

  /**
   * The connectors of a full grouping of width W: none below 5, otherwise
   * those of its two subtrees and, joining them, W / 2 diagonals and a cant
   * vertical when W is even.
   */
  function Connectors(W: int): (c: CostCalculator.Cost)
    requires W >= 1
    decreases W
  {
    if W < 5 then CostCalculator.Zero
    else
      Connectors(Subdivide(W))
        .Plus(Connectors(W - Subdivide(W)))
        .Plus(CostCalculator.JointCost(W))
  }

  /** The connectors of a width of at least 5 are those of its two parts plus the joint. */
  lemma ConnectorsSplit(W: int)
    requires W >= 5
    ensures Connectors(W)
         == Connectors(Subdivide(W)).Plus(Connectors(W - Subdivide(W))).Plus(CostCalculator.JointCost(W))
  {
  }

  /** A single n-group costs its closed form. */
  lemma GroupsCostSingle(W: int)
    ensures GroupsCost([W]) == CostCalculator.GroupCost(W).Plus(CostCalculator.Zero)
  {
    assert [W][1..] == [];
  }

  /** The cost evaluator's recurrence, written with Subdivide's split. */
  lemma SubtreeCostSplit(W: int, H: int)
    requires W >= 5
    ensures CostCalculator.SubtreeCost(W, H)
         == CostCalculator.SubtreeCost(Subdivide(W), H)
              .Plus(CostCalculator.SubtreeCost(W - Subdivide(W), H))
              .Plus(CostCalculator.JointCost(W))
  {
    SubdivideAgreesWithGetSubtrees(W);
    CostCalculator.SubtreeCostRecurrence(W, H);
  }

  /** The n-groups of a width of at least 5 cost what those of its two parts cost together. */
  lemma GroupsCostSplit(H: int, W: int)
    requires W >= 5
    ensures GroupsCost(Subgroup2(H, W))
         == GroupsCost(Subgroup2(H, Subdivide(W))).Plus(GroupsCost(Subgroup2(H, W - Subdivide(W))))
  {
    Subgroup2Unfold(H, W);
    GroupsCostConcat(Subgroup2(H, Subdivide(W)), Subgroup2(H, W - Subdivide(W)));
  }

  // ---------------------------------------------------------------------
  // In-place subdivision passes
  // ---------------------------------------------------------------------

  /** A mutable list of integers, as the source's java.util.List<Integer>. */
  class IntList {
    var items: seq<int>

    constructor (s: seq<int>)
      ensures items == s
    {
      items := s;
    }

    /** The element at i. */
    function Get(i: nat): (x: int)
      reads this
      requires i < |items|
      ensures x in items
    {
      items[i]
    }

    /** Replaces the element at i. */
    method Set(i: nat, x: int)
      requires i < |items|
      modifies this
      ensures items == old(items)[i := x]
    {
      items := items[i := x];
    }

    /** Inserts x at i, shifting the elements from i on one place right. */
    method Add(i: nat, x: int)
      requires i <= |items|
      modifies this
      ensures items == old(items)[..i] + [x] + old(items)[i..]
    {
      items := items[..i] + [x] + items[i..];
    }
  }

  /** What one pass makes of one element: a width above 4 becomes its two Subdivide parts, in order. */
  function Split(c: int): (parts: seq<int>)
    ensures Sum(parts) == c
    ensures c <= 4 ==> parts == [c]
    ensures c > 4 ==> |parts| == 2 && 1 <= parts[0] <= parts[1] < c
  {
    if c > 4 then
      var lower := Subdivide(c);
      assert [lower, c - lower][1..] == [c - lower] && [c - lower][1..] == [];
      assert Sum([c - lower]) == c - lower;
      assert Sum([lower, c - lower]) == lower + Sum([c - lower]);
      [lower, c - lower]
    else [c]
  }

  /** One pass over the list: every element above 4 is replaced by its two parts, the rest stay where they are. */
  function Pass(s: seq<int>): (r: seq<int>)
    ensures |s| <= |r| <= 2 * |s|
  {
    if s == [] then [] else Split(s[0]) + Pass(s[1..])
  }

  lemma {:induction false} PassConcat(a: seq<int>, b: seq<int>)
    ensures Pass(a + b) == Pass(a) + Pass(b)
  {
    if a == [] {
      assert a + b == b;
    } else {
      assert (a + b)[0] == a[0];
      assert (a + b)[1..] == a[1..] + b;
      PassConcat(a[1..], b);
    }
  }

  /** A pass keeps the sum of the list, that is the total width. */
  lemma {:induction false} PassKeepsSum(s: seq<int>)
    ensures Sum(Pass(s)) == Sum(s)
  {
    if s != [] {
      PassKeepsSum(s[1..]);
      SumConcat(Split(s[0]), Pass(s[1..]));
      if s[0] > 4 {
        assert Sum(Split(s[0])) == s[0];
      }
    }
  }

  /** Amount by which the elements of s exceed 4: what is left to subdivide. */
  function Excess(s: seq<int>): (e: nat)
  {
    if s == [] then 0 else (if s[0] > 4 then s[0] - 4 else 0) + Excess(s[1..])
  }

  /**
   * A pass over a list with no element above 4 changes nothing; over any
   * other list it strictly lowers the excess, so passes cannot go on forever.
   */
  lemma {:induction false} PassProgress(s: seq<int>)
    ensures AllSmall(s) ==> Pass(s) == s
    ensures !AllSmall(s) ==> Excess(Pass(s)) < Excess(s)
    ensures Excess(Pass(s)) <= Excess(s)
  {
    if s != [] {
      PassProgress(s[1..]);
      var c := s[0];
      assert Excess(Split(c) + Pass(s[1..])) == Excess(Split(c)) + Excess(Pass(s[1..])) by {
        ExcessConcat(Split(c), Pass(s[1..]));
      }
      if c > 4 {
        var lower := Subdivide(c);
        assert [lower, c - lower][1..] == [c - lower];
      }
      if !AllSmall(s) && AllSmall(s[1..]) {
        assert c > 4;
      }
      if AllSmall(s) {
        assert AllSmall(s[1..]) by {
          forall i | 0 <= i < |s[1..]| ensures s[1..][i] <= 4 {
            assert s[1..][i] == s[i + 1];
          }
        }
      }
    }
  }

  lemma {:induction false} ExcessConcat(a: seq<int>, b: seq<int>)
    ensures Excess(a + b) == Excess(a) + Excess(b)
  {
    if a == [] {
      assert a + b == b;
    } else {
      assert (a + b)[0] == a[0];
      assert (a + b)[1..] == a[1..] + b;
      ExcessConcat(a[1..], b);
    }
  }

  /** Subgroup2 applied to each element of s, the results concatenated in order. */
  function FlatSubgroup2(H: int, s: seq<int>): (groups: seq<int>)
  {
    if s == [] then [] else Subgroup2(H, s[0]) + FlatSubgroup2(H, s[1..])
  }

  lemma {:induction false} FlatSubgroup2Concat(H: int, a: seq<int>, b: seq<int>)
    ensures FlatSubgroup2(H, a + b) == FlatSubgroup2(H, a) + FlatSubgroup2(H, b)
  {
    if a == [] {
      assert a + b == b;
    } else {
      assert (a + b)[0] == a[0];
      assert (a + b)[1..] == a[1..] + b;
      FlatSubgroup2Concat(H, a[1..], b);
    }
  }

  /** A pass does not change the n-groups the list finally resolves into. */
  lemma {:induction false} PassKeepsGroups(H: int, s: seq<int>)
    ensures FlatSubgroup2(H, Pass(s)) == FlatSubgroup2(H, s)
  {
    if s != [] {
      var c := s[0];
      PassKeepsGroups(H, s[1..]);
      FlatSubgroup2Concat(H, Split(c), Pass(s[1..]));
      SplitKeepsGroups(H, c);
    }
  }

  /** Splitting one width does not change the n-groups it resolves into. */
  lemma SplitKeepsGroups(H: int, c: int)
    ensures FlatSubgroup2(H, Split(c)) == Subgroup2(H, c)
  {
    if c > 4 {
      var lower := Subdivide(c);
      assert Split(c) == [lower, c - lower];
      FlatSubgroup2Pair(H, lower, c - lower);
      Subgroup2Unfold(H, c);
    } else {
      FlatSubgroup2Single(H, c);
    }
  }

  /** A one-element list resolves into that element's n-groups. */
  lemma FlatSubgroup2Single(H: int, a: int)
    ensures FlatSubgroup2(H, [a]) == Subgroup2(H, a)
  {
    assert [a][1..] == [];
    assert Subgroup2(H, a) + [] == Subgroup2(H, a);
  }

  /** A two-element list resolves into its elements' n-groups, in order. */
  lemma FlatSubgroup2Pair(H: int, a: int, b: int)
    ensures FlatSubgroup2(H, [a, b]) == Subgroup2(H, a) + Subgroup2(H, b)
  {
    assert [a, b][1..] == [b];
    FlatSubgroup2Single(H, b);
  }

  /** A list already made of n-groups resolves into itself. */
  lemma {:induction false} FlatSubgroup2OfSmall(H: int, s: seq<int>)
    requires AllSmall(s)
    ensures FlatSubgroup2(H, s) == s
  {
    if s != [] {
      assert AllSmall(s[1..]) by {
        forall i | 0 <= i < |s[1..]| ensures s[1..][i] <= 4 {
          assert s[1..][i] == s[i + 1];
        }
      }
      FlatSubgroup2OfSmall(H, s[1..]);
    }
  }

  /**
   * The n-groups a list resolves into cover the same total width, are each
   * at most 4, and are each at least 1 when every original width is.
   */
  lemma {:induction false} FlatSubgroup2Bounds(H: int, s: seq<int>)
    ensures Sum(FlatSubgroup2(H, s)) == Sum(s)
    ensures AllSmall(FlatSubgroup2(H, s))
    ensures CostCalculator.AllPositive(s) ==> CostCalculator.AllPositive(FlatSubgroup2(H, s))
  {
    if s != [] {
      var head := Subgroup2(H, s[0]);
      var rest := FlatSubgroup2(H, s[1..]);
      FlatSubgroup2Bounds(H, s[1..]);
      Subgroup2Bounds(H, s[0]);
      SumConcat(head, rest);
      AllSmallConcat(head, rest);
      if CostCalculator.AllPositive(s) {
        assert CostCalculator.AllPositive(s[1..]) by {
          forall i | 0 <= i < |s[1..]| ensures s[1..][i] >= 1 {
            assert s[1..][i] == s[i + 1];
          }
        }
        assert s[0] >= 1;
        CostCalculator.AllPositiveConcat(head, rest);
      }
    }
  }

  /** One more element through a pass: its Split is appended to what the pass has produced so far. */
  lemma PassStep(before: seq<int>, k: nat)
    requires k < |before|
    ensures Pass(before[..k + 1]) == Pass(before[..k]) + Split(before[k])
    ensures before[k..] == [before[k]] + before[k + 1..]
    ensures AllSmall(before[..k + 1]) <==> AllSmall(before[..k]) && before[k] <= 4
  {
    assert before[..k + 1] == before[..k] + [before[k]];
    PassConcat(before[..k], [before[k]]);
    assert Pass([before[k]]) == Split(before[k]) + Pass([]);
    var t := before[..k + 1];
    if AllSmall(before[..k]) && before[k] <= 4 {
      forall i | 0 <= i < |t| ensures t[i] <= 4 {
        if i < k {
          assert t[i] == before[..k][i];
        }
      }
    }
    if AllSmall(t) {
      assert t[k] == before[k];
      forall i | 0 <= i < k ensures before[..k][i] <= 4 {
        assert before[..k][i] == t[i];
      }
    }
  }

  /**
   * Overwriting an element c above 4, at index |p|, by its lower Subdivide
   * part and inserting the upper part after it puts Split(c) in its place.
   */
  lemma ReplaceWithParts(s: seq<int>, t: seq<int>, p: seq<int>, c: int, r: seq<int>, i: int, x: int, y: int)
    requires s == p + [c] + r && c > 4 && i == |p|
    requires x == Subdivide(c) && y == c - x
    requires t == s[i := x][..i + 1] + [y] + s[i := x][i + 1..]
    ensures t == p + Split(c) + r
  {
    var u := s[i := x];
    assert u == p + [x] + r;
    assert u[..i + 1] == p + [x];
    assert u[i + 1..] == r;
  }

  /** An element of at most 4 is its own Split, so leaving it in place is the same as splitting it. */
  lemma KeepInPlace(p: seq<int>, c: int, r: seq<int>)
    requires c <= 4
    ensures p + [c] + r == p + Split(c) + r
  {
  }

  /** A step at index |p| of p + [c] + r leaves p + Split(c) + r. */
  lemma Reassemble(s: seq<int>, t: seq<int>, p: seq<int>, c: int, r: seq<int>)
    requires s == p + ([c] + r)
    requires t == s[..|p|] + Split(s[|p|]) + s[|p| + 1..]
    ensures t == p + Split(c) + r
  {
    assert s[..|p|] == p;
    assert s[|p|] == c;
    assert s[|p| + 1..] == r;
  }

  /** When the index has run past the end, the whole list has been through the pass. */
  lemma PassDone(before: seq<int>, k: nat, items: seq<int>)
    requires k <= |before|
    requires items == Pass(before[..k]) + before[k..]
    requires |items| <= |Pass(before[..k])|
    ensures k == |before| && before[..k] == before && items == Pass(before)
  {
  }

  /**
   * One step of the source's subdivision loop, at index i: an element c
   * above 4 is overwritten by its lower Subdivide part and the upper part
   * is inserted right after it, so Split(c) takes its place; any other
   * element stays. Reports whether the element was split.
   */
  method SubdivideAt(list: IntList, i: nat) returns (split: bool)
    requires i < |list.items|
    modifies list
    ensures split <==> old(list.items)[i] > 4
    ensures list.items == old(list.items)[..i] + Split(old(list.items)[i]) + old(list.items)[i + 1..]
  {
    ghost var s := list.items;
    var c := list.Get(i);
    split := false;
    if c > 4 {
      split := true;
      var lower := Subdivide(c);
      var upper := c - lower;
      list.Set(i, lower);
      list.Add(i + 1, upper);
      ReplaceWithParts(s, list.items, s[..i], c, s[i + 1..], i, lower, upper);
    } else {
      KeepInPlace(s[..i], c, s[i + 1..]);
    }
  }

  /**
   * One sweep of the source's subdivision loop over the list, in place:
   * each element above 4 is replaced by its two Subdivide parts and the
   * index steps past the inserted part, so the list becomes Pass of what
   * it was. The flag reports whether any element was above 4.
   */
  method SubdividePass(list: IntList) returns (subdivided: bool)
    modifies list
    ensures list.items == Pass(old(list.items))
    ensures subdivided <==> !AllSmall(old(list.items))
  {
    subdivided := false;
    ghost var before := list.items;
    ghost var done := [];
    ghost var k := 0;
    var i := 0;
    while i < |list.items|
      invariant 0 <= k <= |before|
      invariant done == Pass(before[..k])
      invariant list.items == done + before[k..]
      invariant i == |done|
      invariant subdivided <==> !AllSmall(before[..k])
      decreases |before| - k
    {
      PassStep(before, k);
      ghost var c := before[k];
      ghost var rest := before[k + 1..];
      ghost var s := list.items;
      var split := SubdivideAt(list, i);
      Reassemble(s, list.items, done, c, rest);
      if split {
        subdivided := true;
        i := i + 1;
      }
      done := done + Split(c);
      i := i + 1;
      k := k + 1;
    }
    PassDone(before, k, list.items);
  }

  /**
   * The source's subdivision process: sweeps over the list, in place, as
   * long as the last sweep found an element above 4. The list ends as the
   * concatenation of Subgroup2 applied to each original element, in
   * order: each element at most 4, the total width unchanged, and each
   * element at least 1 when every original element is.
   */
  method Subgroup3(H: int, list: IntList)
    modifies list
    ensures list.items == FlatSubgroup2(H, old(list.items))
    ensures AllSmall(list.items)
    ensures Sum(list.items) == Sum(old(list.items))
    ensures CostCalculator.AllPositive(old(list.items)) ==> forall i :: 0 <= i < |list.items| ==> 1 <= list.items[i] <= 4
  {
    ghost var original := list.items;
    var subdivided := true;
    while subdivided
      invariant FlatSubgroup2(H, list.items) == FlatSubgroup2(H, original)
      invariant !subdivided ==> AllSmall(list.items)
      decreases Excess(list.items) + (if subdivided then 1 else 0)
    {
      ghost var before := list.items;
      subdivided := SubdividePass(list);
      PassProgress(before);
      PassKeepsGroups(H, before);
    }
    FlatSubgroup2OfSmall(H, list.items);
    FlatSubgroup2Bounds(H, original);
  }

  // ---------------------------------------------------------------------
  // Splitting a span into n-trees, and stems
  // ---------------------------------------------------------------------

  /** The arithmetic partition of a span into n-trees, as this file repeats it; it builds the same list. */
  method Group(H: int, W: int) returns (groups: seq<int>)
    requires H >= 2
    ensures groups == CostCalculator.ArithmeticPartition(W, H)
  {
    groups := [];
    var maxWidth := 2 * H - 3;
    if W <= maxWidth {
      groups := groups + [W];
    } else {
      CostCalculator.QuotientPositive(W, maxWidth);
      var groupsMax: int;
      if W % maxWidth == 0 {
        groupsMax := W / maxWidth;
      } else {
        groupsMax := W / maxWidth - 1;
        var extra := W - maxWidth * groupsMax;
        var group1 := extra / 2;
        var group2 := extra - group1;
        groups := groups + [group1];
        groups := groups + [group2];
      }
      ghost var extras := groups;
      for i := 0 to groupsMax
        invariant groups == extras + Repeat(maxWidth, i)
      {
        groups := groups + [maxWidth];
      }
    }
  }

  /** Height in points of the stem of an n-tree of width D at height H. */
  function StemHeight(H: int, D: int): (h: int)
    requires D >= 0
    ensures h <= H
    ensures D <= 1 <==> h == H
  {
    H - D / 2
  }

  /**
   * A stem of StemHeight points is StemHeight - 1 vertical members, and
   * that is the stem the cost evaluator charges: the whole n-tree when it is
   * a single point, the part below the full grouping otherwise.
   */
  lemma StemHeightMatchesTreeCost(H: int, D: int)
    requires D >= 1
    ensures CostCalculator.TreeCost(D, H) ==
      CostCalculator.Verticals(StemHeight(H, D) - 1)
        .Plus(if D == 1 then CostCalculator.Zero else CostCalculator.SubtreeCost(D, D / 2 + 1))
  {
  }
}
