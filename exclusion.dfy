/**
 * The integer bookkeeping of group_entropy_per_node_exclude: when the
 * outer loop considers moving row/column x out of group g (into the
 * newest group k-1), it needs, for every group j, the size, weight and
 * smoothed density of the two blocks "g without x" x j ("out") and
 * j x "g without x" ("in").  The entropy sum over those blocks is a
 * floating-point logarithm and is not modelled; the sizes, weights and
 * densities fed to it are.
 *
 * ExcludeAsWritten follows the code branch by branch; Exclude is the
 * corrected version (see the lemmas NewestGroupAsWritten and
 * EmptyGroupAsWritten for the two places where they differ).
 */
module Exclusion {
  import opened Numbers
  import opened Grouping
  import opened Blocks

  /**
   * n_rj = n_jr, w_rj and w_jr for one group j, and whether the branch
   * taken computed the densities p_rj, p_jr (otherwise they keep their
   * initial value 0).
   */
  datatype ExcludedBlocks = ExcludedBlocks(size: nat, outWeight: int, inWeight: int, computed: bool)

  /** Zero size and weight, densities left at 0. */
  const Untouched := ExcludedBlocks(0, 0, 0, false)

  /** p_rj */
  function OutDensity(e: ExcludedBlocks): real
  {
    if e.computed then Density(e.outWeight, e.size) else 0.0
  }

  /** p_jr */
  function InDensity(e: ExcludedBlocks): real
  {
    if e.computed then Density(e.inWeight, e.size) else 0.0
  }

  /** The blocks for group j exactly as the loop body computes them. */
  function ExcludeAsWritten(m: seq<seq<int>>, sizes: seq<nat>, g: nat, x: nat, j: nat): ExcludedBlocks
    requires Fits(m, sizes) && g < |sizes| && j < |sizes| && x < |m|
  {
    var s := sizes[g];
    if j == g then
      if s > 1 then
        var w := BlockWeight(m, sizes, j, j) - RowWeight(m, sizes, x, g) - ColWeight(m, sizes, x, g) + m[x][x];
        ExcludedBlocks((s - 1) * (s - 1), w, w, true)
      else Untouched
    else if j == |sizes| - 1 then
      if s > 1 then
        ExcludedBlocks((s - 1) * (sizes[j] + 1),
          BlockWeight(m, sizes, g, j) - RowWeight(m, sizes, x, j) + ColWeight(m, sizes, x, g),
          BlockWeight(m, sizes, j, g) - ColWeight(m, sizes, x, j) + RowWeight(m, sizes, x, g), true)
      else Untouched
    else
      if s > 1 && sizes[j] > 0 then
        ExcludedBlocks((s - 1) * sizes[j],
          BlockWeight(m, sizes, g, j) - RowWeight(m, sizes, x, j),
          BlockWeight(m, sizes, j, g) - ColWeight(m, sizes, x, j), true)
      else Untouched
  }

  /**
   * The corrected blocks: the newest-group weights leave out cell (x, x),
   * which after the move belongs to block (k-1, k-1), and an empty block
   * gets the smoothed density of an empty block, 1/2.
   */
  function Exclude(m: seq<seq<int>>, sizes: seq<nat>, g: nat, x: nat, j: nat): ExcludedBlocks
    requires Fits(m, sizes) && g < |sizes| && j < |sizes| && x < |m|
  {
    var s := sizes[g];
    if s <= 1 then Untouched
    else if j == g then
      var w := BlockWeight(m, sizes, j, j) - RowWeight(m, sizes, x, g) - ColWeight(m, sizes, x, g) + m[x][x];
      ExcludedBlocks((s - 1) * (s - 1), w, w, true)
    else if j == |sizes| - 1 then
      ExcludedBlocks((s - 1) * (sizes[j] + 1),
        BlockWeight(m, sizes, g, j) - RowWeight(m, sizes, x, j) + ColWeight(m, sizes, x, g) - m[x][x],
        BlockWeight(m, sizes, j, g) - ColWeight(m, sizes, x, j) + RowWeight(m, sizes, x, g) - m[x][x], true)
    else if sizes[j] > 0 then
      ExcludedBlocks((s - 1) * sizes[j],
        BlockWeight(m, sizes, g, j) - RowWeight(m, sizes, x, j),
        BlockWeight(m, sizes, j, g) - ColWeight(m, sizes, x, j), true)
    else
      ExcludedBlocks(0, 0, 0, true)
  }

  /**
   * group_entropy_per_node_exclude up to the entropy sum: None for the
   * early return on a group of at most one node, otherwise the blocks for
   * every group j in index order.
   */
  function ExcludeGroup(m: seq<seq<int>>, sizes: seq<nat>, g: nat, x: nat): Option<seq<ExcludedBlocks>>
    requires Fits(m, sizes) && g < |sizes| && x < |m|
  {
    if sizes[g] == 1 || sizes[g] == 0 then None
    else Some(seq(|sizes|, j requires 0 <= j < |sizes| => Exclude(m, sizes, g, x, j)))
  }

  /** What the entropy formula needs of a block: a weight within its size and a density inside (0, 1). */
  predicate Sound(e: ExcludedBlocks)
  {
    && 0 <= e.outWeight <= e.size && 0.0 < OutDensity(e) < 1.0
    && 0 <= e.inWeight <= e.size && 0.0 < InDensity(e) < 1.0
  }

  /** Weights within the block size: the property the three cases establish. */
  predicate Bounded(e: ExcludedBlocks)
  {
    e.computed && 0 <= e.outWeight <= e.size && 0 <= e.inWeight <= e.size
  }

  // ---------------------------------------------------------------------
  // Reference weights: blocks with row and/or column x deleted

  /** Rows r0..r1-1 except x, columns c0..c1-1. */
  function WithoutRow(m: seq<seq<int>>, r0: nat, r1: nat, x: nat, c0: nat, c1: nat): int
    requires Square(m) && r0 <= x < r1 <= |m| && c1 <= |m|
  {
    BlockSum(m, r0, x, c0, c1) + BlockSum(m, x + 1, r1, c0, c1)
  }

  /** Rows r0..r1-1, columns c0..c1-1 except x. */
  function WithoutColumn(m: seq<seq<int>>, r0: nat, r1: nat, c0: nat, c1: nat, x: nat): int
    requires Square(m) && r1 <= |m| && c0 <= x < c1 <= |m|
  {
    BlockSum(m, r0, r1, c0, x) + BlockSum(m, r0, r1, x + 1, c1)
  }

  /** The square block a..b-1 with row x and column x both deleted. */
  function WithoutRowAndColumn(m: seq<seq<int>>, a: nat, b: nat, x: nat): int
    requires Square(m) && a <= x < b <= |m|
  {
    WithoutColumn(m, a, x, a, b, x) + WithoutColumn(m, x + 1, b, a, b, x)
  }

  /** Rows of g without x, columns of j plus column x: block (g, k-1) after x moves to k-1. */
  function MovedOutWeight(m: seq<seq<int>>, ga: nat, gb: nat, x: nat, ja: nat, jb: nat): int
    requires Square(m) && ga <= x < gb <= |m| && jb <= |m|
  {
    WithoutRow(m, ga, gb, x, ja, jb) + ColSum(m, x, ga, x) + ColSum(m, x, x + 1, gb)
  }

  /** Rows of j plus row x, columns of g without x: block (k-1, g) after x moves to k-1. */
  function MovedInWeight(m: seq<seq<int>>, ja: nat, jb: nat, ga: nat, gb: nat, x: nat): int
    requires Square(m) && ga <= x < gb <= |m| && jb <= |m|
  {
    WithoutColumn(m, ja, jb, ga, gb, x) + RowSum(m, x, ga, x) + RowSum(m, x, x + 1, gb)
  }

  /** Computed densities of bounded weights lie strictly inside (0, 1). */
  lemma BoundedIsSound(e: ExcludedBlocks)
    requires Bounded(e)
    ensures Sound(e)
  {
    DensityInOpenUnitInterval(e.outWeight, e.size);
    DensityInOpenUnitInterval(e.inWeight, e.size);
  }

  // ---------------------------------------------------------------------
  // The reference weights are bounded by their cell counts

  lemma WithoutRowAndColumnBounds(m: seq<seq<int>>, a: nat, s: nat, x: nat)
    requires ZeroOne(m) && a <= x < a + s <= |m|
    ensures 0 <= WithoutRowAndColumn(m, a, a + s, x) <= (s - 1) * (s - 1)
  {
    var b := a + s;
    var p, q := x - a, b - x - 1;
    BlockSumBounds(m, a, x, a, x);
    BlockSumBounds(m, a, x, x + 1, b);
    BlockSumBounds(m, x + 1, b, a, x);
    BlockSumBounds(m, x + 1, b, x + 1, b);
    assert (p + q) * (p + q) == p * p + p * q + q * p + q * q;
  }

  lemma WithoutRowBounds(m: seq<seq<int>>, r0: nat, r1: nat, x: nat, c0: nat, c1: nat)
    requires ZeroOne(m) && r0 <= x < r1 <= |m| && c0 <= c1 <= |m|
    ensures 0 <= WithoutRow(m, r0, r1, x, c0, c1) <= (r1 - r0 - 1) * (c1 - c0)
  {
    var p, q, t := x - r0, r1 - x - 1, c1 - c0;
    BlockSumBounds(m, r0, x, c0, c1);
    BlockSumBounds(m, x + 1, r1, c0, c1);
    assert (p + q) * t == p * t + q * t;
  }

  lemma WithoutColumnBounds(m: seq<seq<int>>, r0: nat, r1: nat, c0: nat, c1: nat, x: nat)
    requires ZeroOne(m) && r0 <= r1 <= |m| && c0 <= x < c1 <= |m|
    ensures 0 <= WithoutColumn(m, r0, r1, c0, c1, x) <= (r1 - r0) * (c1 - c0 - 1)
  {
    var p, q, t := x - c0, c1 - x - 1, r1 - r0;
    BlockSumBounds(m, r0, r1, c0, x);
    BlockSumBounds(m, r0, r1, x + 1, c1);
    assert t * (p + q) == t * p + t * q;
  }

  lemma MovedOutWeightBounds(m: seq<seq<int>>, ga: nat, gb: nat, x: nat, ja: nat, jb: nat)
    requires ZeroOne(m) && ga <= x < gb <= |m| && ja <= jb <= |m|
    ensures 0 <= MovedOutWeight(m, ga, gb, x, ja, jb) <= (gb - ga - 1) * (jb - ja + 1)
  {
    WithoutRowBounds(m, ga, gb, x, ja, jb);
    ColSumBounds(m, x, ga, x);
    ColSumBounds(m, x, x + 1, gb);
    var s, t := gb - ga - 1, jb - ja;
    assert s * (t + 1) == s * t + s;
  }

  lemma MovedInWeightBounds(m: seq<seq<int>>, ja: nat, jb: nat, ga: nat, gb: nat, x: nat)
    requires ZeroOne(m) && ga <= x < gb <= |m| && ja <= jb <= |m|
    ensures 0 <= MovedInWeight(m, ja, jb, ga, gb, x) <= (gb - ga - 1) * (jb - ja + 1)
  {
    WithoutColumnBounds(m, ja, jb, ga, gb, x);
    RowSumBounds(m, x, ga, x);
    RowSumBounds(m, x, x + 1, gb);
    var s, t := gb - ga - 1, jb - ja;
    assert s * (t + 1) == t * s + s;
  }

  // ---------------------------------------------------------------------
  // The weight formulas against the reference weights

  /** w(g,g) - row_weight(x,g) - col_weight(x,g) + cell(x,x) is block (g,g) without row and column x. */
  lemma SameGroupWeight(m: seq<seq<int>>, sizes: seq<nat>, g: nat, x: nat)
    requires Fits(m, sizes) && x < |m| && InGroupRows(sizes, g, x)
    ensures GroupStart(sizes, g) + sizes[g] <= |m|
    ensures BlockWeight(m, sizes, g, g) - RowWeight(m, sizes, x, g) - ColWeight(m, sizes, x, g) + m[x][x]
      == WithoutRowAndColumn(m, GroupStart(sizes, g), GroupStart(sizes, g) + sizes[g], x)
  {
    var ga := GroupStart(sizes, g);
    var gb := ga + sizes[g];
    BlockWeightIsBlockSum(m, sizes, g, g);
    ColWeightIsColSum(m, sizes, x, g);
    RowWeightIsRowSum(m, sizes, x, g);
    CutRow(m, ga, x, gb, ga, gb);
    CutColumn(m, ga, x, ga, x, gb);
    CutColumn(m, x + 1, gb, ga, x, gb);
    CutCellFromColumn(m, x, ga, x, gb);
  }

  /** w(g,j) - row_weight(x,j) and w(j,g) - col_weight(x,j) delete row x, resp. column x. */
  lemma OtherGroupWeights(m: seq<seq<int>>, sizes: seq<nat>, g: nat, x: nat, j: nat)
    requires Fits(m, sizes) && x < |m| && InGroupRows(sizes, g, x) && j < |sizes|
    ensures GroupStart(sizes, g) + sizes[g] <= |m| && GroupStart(sizes, j) + sizes[j] <= |m|
    ensures BlockWeight(m, sizes, g, j) - RowWeight(m, sizes, x, j)
      == WithoutRow(m, GroupStart(sizes, g), GroupStart(sizes, g) + sizes[g], x,
                    GroupStart(sizes, j), GroupStart(sizes, j) + sizes[j])
    ensures BlockWeight(m, sizes, j, g) - ColWeight(m, sizes, x, j)
      == WithoutColumn(m, GroupStart(sizes, j), GroupStart(sizes, j) + sizes[j],
                       GroupStart(sizes, g), GroupStart(sizes, g) + sizes[g], x)
  {
    var ga, ja := GroupStart(sizes, g), GroupStart(sizes, j);
    var gb, jb := ga + sizes[g], ja + sizes[j];
    BlockWeightIsBlockSum(m, sizes, g, j);
    BlockWeightIsBlockSum(m, sizes, j, g);
    RowWeightIsRowSum(m, sizes, x, j);
    ColWeightIsColSum(m, sizes, x, j);
    CutRow(m, ga, x, gb, ja, jb);
    CutColumn(m, ja, jb, ga, x, gb);
  }

  /** The corrected newest-group formulas are the post-move weights. */
  lemma NewestGroupWeights(m: seq<seq<int>>, sizes: seq<nat>, g: nat, x: nat, j: nat)
    requires Fits(m, sizes) && x < |m| && InGroupRows(sizes, g, x) && j < |sizes|
    ensures GroupStart(sizes, g) + sizes[g] <= |m| && GroupStart(sizes, j) + sizes[j] <= |m|
    ensures BlockWeight(m, sizes, g, j) - RowWeight(m, sizes, x, j) + ColWeight(m, sizes, x, g) - m[x][x]
      == MovedOutWeight(m, GroupStart(sizes, g), GroupStart(sizes, g) + sizes[g], x,
                        GroupStart(sizes, j), GroupStart(sizes, j) + sizes[j])
    ensures BlockWeight(m, sizes, j, g) - ColWeight(m, sizes, x, j) + RowWeight(m, sizes, x, g) - m[x][x]
      == MovedInWeight(m, GroupStart(sizes, j), GroupStart(sizes, j) + sizes[j],
                       GroupStart(sizes, g), GroupStart(sizes, g) + sizes[g], x)
  {
    var ga := GroupStart(sizes, g);
    var gb := ga + sizes[g];
    OtherGroupWeights(m, sizes, g, x, j);
    RowWeightIsRowSum(m, sizes, x, g);
    ColWeightIsColSum(m, sizes, x, g);
    CutCellFromColumn(m, x, ga, x, gb);
    CutCellFromRow(m, x, ga, x, gb);
  }

  // ---------------------------------------------------------------------
  // The three cases

  /**
   * Same group: the weight is that of block (g, g) with row x and column
   * x deleted, and it fits in the (s-1)^2 cells that remain.
   */
  lemma SameGroupExclusion(m: seq<seq<int>>, sizes: seq<nat>, g: nat, x: nat)
    requires ZeroOne(m) && Fits(m, sizes) && x < |m| && InGroupRows(sizes, g, x) && sizes[g] > 1
    ensures GroupStart(sizes, g) + sizes[g] <= |m|
    ensures Exclude(m, sizes, g, x, g) == ExcludeAsWritten(m, sizes, g, x, g)
    ensures var e, ga := Exclude(m, sizes, g, x, g), GroupStart(sizes, g);
      && e.size == (sizes[g] - 1) * (sizes[g] - 1)
      && e.outWeight == e.inWeight == WithoutRowAndColumn(m, ga, ga + sizes[g], x)
      && Bounded(e)
  {
    SameGroupWeight(m, sizes, g, x);
    WithoutRowAndColumnBounds(m, GroupStart(sizes, g), sizes[g], x);
  }

  /**
   * Any other non-empty group j (not the newest): the out weight is that
   * of the rows of g without x against the columns of j, the in weight
   * that of the rows of j against the columns of g without x.
   */
  lemma OtherGroupExclusion(m: seq<seq<int>>, sizes: seq<nat>, g: nat, x: nat, j: nat)
    requires ZeroOne(m) && Fits(m, sizes) && x < |m| && InGroupRows(sizes, g, x) && sizes[g] > 1
    requires j < |sizes| - 1 && j != g && sizes[j] > 0
    ensures GroupStart(sizes, g) + sizes[g] <= |m| && GroupStart(sizes, j) + sizes[j] <= |m|
    ensures Exclude(m, sizes, g, x, j) == ExcludeAsWritten(m, sizes, g, x, j)
    ensures var e, ga, ja := Exclude(m, sizes, g, x, j), GroupStart(sizes, g), GroupStart(sizes, j);
      && e.size == (sizes[g] - 1) * sizes[j]
      && e.outWeight == WithoutRow(m, ga, ga + sizes[g], x, ja, ja + sizes[j])
      && e.inWeight == WithoutColumn(m, ja, ja + sizes[j], ga, ga + sizes[g], x)
      && Bounded(e)
  {
    var ga, ja := GroupStart(sizes, g), GroupStart(sizes, j);
    OtherGroupWeights(m, sizes, g, x, j);
    WithoutRowBounds(m, ga, ga + sizes[g], x, ja, ja + sizes[j]);
    WithoutColumnBounds(m, ja, ja + sizes[j], ga, ga + sizes[g], x);
    assert sizes[j] * (sizes[g] - 1) == (sizes[g] - 1) * sizes[j];
  }

  /**
   * The newest group (corrected): the weights are exactly those of
   * blocks (g, k-1) and (k-1, g) once x has moved to group k-1, and the
   * size (s-1)(a_j+1) counts their cells.
   */
  lemma NewestGroupExclusion(m: seq<seq<int>>, sizes: seq<nat>, g: nat, x: nat)
    requires ZeroOne(m) && Fits(m, sizes) && x < |m| && InGroupRows(sizes, g, x) && sizes[g] > 1
    requires g < |sizes| - 1
    ensures GroupStart(sizes, g) + sizes[g] <= |m|
    ensures GroupStart(sizes, |sizes| - 1) + sizes[|sizes| - 1] <= |m|
    ensures var j := |sizes| - 1;
      var e, ga, ja := Exclude(m, sizes, g, x, j), GroupStart(sizes, g), GroupStart(sizes, j);
      && e.size == (sizes[g] - 1) * (sizes[j] + 1)
      && e.outWeight == MovedOutWeight(m, ga, ga + sizes[g], x, ja, ja + sizes[j])
      && e.inWeight == MovedInWeight(m, ja, ja + sizes[j], ga, ga + sizes[g], x)
      && Bounded(e)
  {
    var j := |sizes| - 1;
    var ga, ja := GroupStart(sizes, g), GroupStart(sizes, j);
    NewestGroupWeights(m, sizes, g, x, j);
    MovedOutWeightBounds(m, ga, ga + sizes[g], x, ja, ja + sizes[j]);
    MovedInWeightBounds(m, ja, ja + sizes[j], ga, ga + sizes[g], x);
  }

  /** An empty group that is neither g nor the newest: a 0-cell block of density 1/2. */
  lemma EmptyGroupExclusion(m: seq<seq<int>>, sizes: seq<nat>, g: nat, x: nat, j: nat)
    requires Fits(m, sizes) && x < |m| && g < |sizes| && sizes[g] > 1
    requires j < |sizes| - 1 && j != g && sizes[j] == 0
    ensures Exclude(m, sizes, g, x, j) == ExcludedBlocks(0, 0, 0, true)
    ensures OutDensity(Exclude(m, sizes, g, x, j)) == InDensity(Exclude(m, sizes, g, x, j)) == 0.5
  {
  }

  /** Every block handed to the entropy formula is sound, whichever case produced it. */
  lemma ExcludeGroupIsSound(m: seq<seq<int>>, sizes: seq<nat>, g: nat, x: nat)
    requires ZeroOne(m) && Fits(m, sizes) && x < |m| && InGroupRows(sizes, g, x)
    ensures ExcludeGroup(m, sizes, g, x).Some? <==> sizes[g] > 1
    ensures ExcludeGroup(m, sizes, g, x).Some? ==>
      var blocks := ExcludeGroup(m, sizes, g, x).value;
      |blocks| == |sizes| && forall j :: 0 <= j < |blocks| ==> Sound(blocks[j])
  {
    if sizes[g] > 1 {
      var blocks := ExcludeGroup(m, sizes, g, x).value;
      forall j | 0 <= j < |blocks| ensures Sound(blocks[j]) {
        if j == g {
          SameGroupExclusion(m, sizes, g, x);
        } else if j == |sizes| - 1 {
          NewestGroupExclusion(m, sizes, g, x);
        } else if sizes[j] > 0 {
          OtherGroupExclusion(m, sizes, g, x, j);
        } else {
          EmptyGroupExclusion(m, sizes, g, x, j);
        }
        BoundedIsSound(blocks[j]);
      }
    }
  }

  // ---------------------------------------------------------------------
  // Where the code as written differs

  /**
   * Newest group as written: both weights exceed the post-move weights by
   * cell (x, x), because col_weight(x, g) and row_weight(x, g) still
   * count the diagonal cell.  They agree exactly when x has no self-loop.
   */
  lemma NewestGroupAsWritten(m: seq<seq<int>>, sizes: seq<nat>, g: nat, x: nat)
    requires Fits(m, sizes) && x < |m| && g < |sizes| - 1 && sizes[g] > 1
    ensures var j := |sizes| - 1;
      var w, c := ExcludeAsWritten(m, sizes, g, x, j), Exclude(m, sizes, g, x, j);
      && w.size == c.size
      && w.outWeight == c.outWeight + m[x][x]
      && w.inWeight == c.inWeight + m[x][x]
  {
  }

  /**
   * With a self-loop the as-written weight can exceed the block size:
   * three nodes, all edges and self-loops, all in group 0, newest group
   * 1 empty, x = 0.  The out block has 2 cells but is given weight 3,
   * so its density is above 1 and log2(1 - p) is undefined.  The
   * corrected weight is 2.
   */
  lemma SelfLoopOverflowsBlock()
    ensures var m := [[1, 1, 1], [1, 1, 1], [1, 1, 1]];
      var w, c := ExcludeAsWritten(m, [3, 0], 0, 0, 1), Exclude(m, [3, 0], 0, 0, 1);
      && w.size == 2 && w.outWeight == 3 && OutDensity(w) > 1.0
      && c.outWeight == 2 && 0.0 < OutDensity(c) < 1.0
  {
    var m := [[1, 1, 1], [1, 1, 1], [1, 1, 1]];
    var sizes: seq<nat> := [3, 0];
    assert GroupStart(sizes, 0) == 0;
    assert sizes[..1] == [3];
    assert GroupStart(sizes, 1) == 3;
    assert ColWeight(m, sizes, 0, 0) == ColSum(m, 0, 0, 3) == 3;
    assert Density(3, 2) == 3.5 / 3.0;
    DensityInOpenUnitInterval(2, 2);
  }

  /**
   * An empty group other than g and the newest keeps the initial density
   * 0 as written, so log2(p_rj) is undefined; the corrected density is 1/2.
   */
  lemma EmptyGroupAsWritten(m: seq<seq<int>>, sizes: seq<nat>, g: nat, x: nat, j: nat)
    requires Fits(m, sizes) && x < |m| && g < |sizes| && sizes[g] > 1
    requires j < |sizes| - 1 && j != g && sizes[j] == 0
    ensures OutDensity(ExcludeAsWritten(m, sizes, g, x, j)) == 0.0
    ensures InDensity(ExcludeAsWritten(m, sizes, g, x, j)) == 0.0
    ensures OutDensity(Exclude(m, sizes, g, x, j)) == 0.5
  {
  }
}
