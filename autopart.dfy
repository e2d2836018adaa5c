/**
 * The Autopart object.  It holds the adjacency matrix, stored so that
 * every node group occupies one contiguous band of rows and columns, the
 * three dictionaries map_g_n (group => nodes), map_n_g (node => group)
 * and map_n_r (node => row), and the cached block weights w and block
 * densities P.  The operations here are the bookkeeping around the
 * optimisation: building the initial state, adding a group, moving a node
 * into the newest group, rearranging the matrix for a new grouping,
 * recomputing the caches, the reassignment step of the inner loop and
 * the outlier score.
 */
module Clustering {
  import opened Numbers
  import opened Grouping
  import opened Blocks
  import opened Permute
  import opened InnerLoop

  /** order_row: the current row of the node listed at each new position. */
  function OrderRows(order: seq<int>, rows: seq<int>): seq<int>
    requires forall p :: 0 <= p < |order| ==> 0 <= order[p] < |rows|
  {
    seq(|order|, p requires 0 <= p < |order| => rows[order[p]])
  }

  /** Listing every node once and looking up its row lists every row once. */
  lemma OrderRowsIsPermutation(order: seq<int>, rows: seq<int>, n: nat)
    requires |order| == n && Distinct(order) && (forall p :: 0 <= p < n ==> 0 <= order[p] < n)
    requires IsBijection(rows, n)
    ensures IsPermutation(OrderRows(order, rows), n)
  {
  }

  /**
   * The density outlier_score writes for a block after taking one edge
   * out of it, as written: the decremented weight over the block size,
   * without the +0.5 / +1 smoothing _block_density applies.
   */
  function OutlierDensityAsWritten(w: int, size: nat): real
    requires size > 0
  {
    (w - 1) as real / size as real
  }

  /**
   * A block holding exactly one edge gets density 0, and total_cost then
   * takes log2(0) for that block, which raises in the source.
   */
  lemma SingleEdgeBlockGetsZeroDensity(size: nat)
    requires size > 0
    ensures OutlierDensityAsWritten(1, size) == 0.0
  {
  }

  /**
   * The density the outlier score should use: the smoothed density of the
   * block with one edge fewer.  It stays strictly inside (0, 1), so every
   * logarithm of the code cost is defined.
   */
  function OutlierDensity(w: int, size: nat): (r: real)
    requires 1 <= w <= size
    ensures 0.0 < r < 1.0
  {
    DensityInOpenUnitInterval(w - 1, size);
    Density(w - 1, size)
  }

  /**
   * The smoothing changes the outlier score's density for almost every
   * block: the two densities agree exactly when the block has twice as
   * many cells as edges left, size = 2(w - 1).
   */
  lemma OutlierDensityAgreesIff(w: int, size: nat)
    requires 1 <= w <= size
    ensures OutlierDensityAsWritten(w, size) == OutlierDensity(w, size) <==> size == 2 * (w - 1)
  {
    var n, e := size as real, (w - 1) as real;
    assert OutlierDensity(w, size) == (e + 0.5) / (n + 1.0);
    CrossMultiply(e, n, e + 0.5, n + 1.0);
    assert e * (n + 1.0) == e * n + e;
    assert (e + 0.5) * n == e * n + 0.5 * n;
  }

  /** Two fractions with positive denominators are equal exactly when their cross products are. */
  lemma CrossMultiply(p: real, q: real, r: real, s: real)
    requires q > 0.0 && s > 0.0
    ensures p / q == r / s <==> p * s == r * q
  {
    var x, y := p / q, r / s;
    assert x * q == p && y * s == r;
    if x == y {
      assert p * s == x * q * s == r * q;
    }
    if p * s == r * q {
      assert x * q * s == y * s * q;
      assert (x - y) * (q * s) == 0.0;
    }
  }

  /** The table with cell (i, j) set to x and every other cell kept. */
  function Put<T>(t: seq<seq<T>>, i: nat, j: nat, x: T): (r: seq<seq<T>>)
    requires i < |t| && j < |t[i]|
    ensures |r| == |t| && forall a :: 0 <= a < |t| ==> |r[a]| == |t[a]|
    ensures r[i][j] == x
    ensures forall a, b :: 0 <= a < |t| && 0 <= b < |t[a]| && (a != i || b != j) ==> r[a][b] == t[a][b]
  {
    t[i := t[i][j := x]]
  }

  /** Writing the old value back into a cell restores the table. */
  lemma PutBack<T>(t: seq<seq<T>>, i: nat, j: nat, x: T)
    requires i < |t| && j < |t[i]|
    ensures Put(Put(t, i, j, x), i, j, t[i][j]) == t
  {
    assert Put(t, i, j, x)[i][j := t[i][j]] == t[i];
  }

  /** The matrix m is the graph with node v moved to row and column rows[v]. */
  ghost predicate PlacedBy(m: seq<seq<int>>, graph: seq<seq<int>>, n: nat, rows: seq<int>)
  {
    && |m| == n && |graph| == n && ZeroOne(graph) && ZeroOne(m)
    && IsBijection(rows, n)
    && forall u, v :: 0 <= u < n && 0 <= v < n ==> m[rows[u]][rows[v]] == graph[u][v]
  }

  /**
   * The dictionaries agree: a partition of the n nodes into at least one
   * group, with every group in the band of rows group_start_idx gives it.
   */
  predicate Grouped(groups: seq<set<int>>, nodeGroup: seq<int>, rows: seq<int>, n: nat)
  {
    && |groups| >= 1
    && IsPartition(groups, nodeGroup, n)
    && Contiguous(groups, nodeGroup, rows)
    && Sum(Sizes(groups)) == n
  }

  /**
   * Rearranging a placed matrix for a partition: order_row is a
   * permutation, the relabelled matrix is the graph placed by the new
   * map_n_r, the new dictionaries agree, and every node pair's cell moves
   * with the two nodes.
   */
  lemma RearrangementKeepsPlacement(m: seq<seq<int>>, graph: seq<seq<int>>, n: nat, rows: seq<int>,
                                    groups: seq<set<int>>, nodeGroup: seq<int>)
    requires PlacedBy(m, graph, n, rows) && |groups| >= 1 && IsPartition(groups, nodeGroup, n)
    ensures var order := NodeOrder(groups, n, |groups|);
      && |order| == n && Distinct(order)
      && (forall p :: 0 <= p < n ==> 0 <= order[p] < n)
      && (forall v :: 0 <= v < n ==> v in order)
      && IsPermutation(OrderRows(order, rows), n)
    ensures var order := NodeOrder(groups, n, |groups|);
      var m' := Permuted(m, OrderRows(order, rows));
      var rows' := RowsFromOrder(order, n);
      && PlacedBy(m', graph, n, rows')
      && Grouped(groups, nodeGroup, rows', n)
      && (forall v :: 0 <= v < n ==> order[rows'[v]] == v)
      && (forall u, v :: 0 <= u < n && 0 <= v < n ==> m'[rows'[u]][rows'[v]] == m[rows[u]][rows[v]])
  {
    PartitionTotal(groups, nodeGroup, n);
    RearrangedLayout(groups, nodeGroup, n);
    var order := NodeOrder(groups, n, |groups|);
    var orderRow := OrderRows(order, rows);
    OrderRowsIsPermutation(order, rows, n);
    var m' := Permuted(m, orderRow);
    var rows' := RowsFromOrder(order, n);
    PermutedIsZeroOne(m, orderRow);
    forall u, v | 0 <= u < n && 0 <= v < n
      ensures m'[rows'[u]][rows'[v]] == m[rows[u]][rows[v]]
    {
      assert orderRow[rows'[u]] == rows[u];
      assert orderRow[rows'[v]] == rows[v];
    }
  }

  /** Appending an empty group keeps the dictionaries in agreement and adds a size 0. */
  lemma AddGroupKeepsGrouping(groups: seq<set<int>>, nodeGroup: seq<int>, rows: seq<int>, n: nat)
    requires Grouped(groups, nodeGroup, rows, n)
    ensures Grouped(groups + [{}], nodeGroup, rows, n)
    ensures Sizes(groups + [{}]) == Sizes(groups) + [0]
  {
    AddGroupPreservesPartition(groups, nodeGroup, rows, n);
    var sizes := Sizes(groups);
    assert (sizes + [0])[..|sizes|] == sizes;
  }

  /** A fresh matrix holding the rows of g: the adjacency matrix of the input graph. */
  method NewMatrix(g: seq<seq<int>>) returns (a: array2<int>)
    requires Square(g)
    ensures fresh(a) && a.Length0 == |g| && a.Length1 == |g|
    ensures Grid(a) == g
  {
    a := new int[|g|, |g|]((i, j) requires 0 <= i < |g| && 0 <= j < |g| => g[i][j]);
    forall i | 0 <= i < |g| ensures Grid(a)[i] == g[i] {
      assert |Grid(a)[i]| == |g[i]|;
    }
  }

  class Autopart {
    /** The number of nodes; the nodes are 0..n-1. */
    const n: nat
    /** The input graph's 0/1 adjacency matrix in node order. */
    ghost const graph: seq<seq<int>>
    /** adj_matrix: row and column nodeRow[v] belong to node v. */
    const adj: array2<int>
    /** The number of node groups. */
    var k: nat
    /** map_g_n: the nodes of group g. */
    var groupNodes: seq<set<int>>
    /** map_n_g: the group of node v. */
    var nodeGroup: seq<int>
    /** map_n_r: the row (and column) of node v. */
    var nodeRow: seq<int>
    /** The cached block weights w[i][j]. */
    var w: seq<seq<int>>
    /** The cached block densities P[i][j]. */
    var P: seq<seq<real>>

    /** The matrix is the input graph with node v moved to row and column nodeRow[v]. */
    ghost predicate Placed()
      reads this`nodeRow, adj
    {
      adj.Length0 == n && adj.Length1 == n && PlacedBy(Grid(adj), graph, n, nodeRow)
    }

    /**
     * The object is consistent: the dictionaries form a partition of the
     * nodes into k groups, every group sits in the band of rows
     * group_start_idx describes, and w and P are those of the current matrix.
     */
    ghost predicate Valid()
      reads this`k, this`groupNodes, this`nodeGroup, this`nodeRow, this`w, this`P, adj
    {
      && Placed()
      && k == |groupNodes|
      && Grouped(groupNodes, nodeGroup, nodeRow, n)
      && Cached()
    }

    /** w and P are the block weights and densities of the current matrix and groups. */
    ghost predicate Cached()
      requires Placed() && Sum(Sizes(groupNodes)) <= n
      reads this`nodeRow, this`groupNodes, this`w, this`P, adj
    {
      && w == WeightTable(Grid(adj), Sizes(groupNodes))
      && P == DensityTable(w, Sizes(groupNodes))
    }

    /**
     * __init__: one group holding every node, node v at row v, caches
     * computed.  The matrix is given directly instead of being built
     * from a graph object.
     */
    constructor (g: seq<seq<int>>)
      requires ZeroOne(g)
      ensures n == |g| && graph == g && Grid(adj) == g
      ensures Valid()
      ensures k == 1 && groupNodes == [Range(n)]
      ensures forall v :: 0 <= v < n ==> nodeGroup[v] == 0 && nodeRow[v] == v
    {
      var matrix := NewMatrix(g);
      n := |g|;
      graph := g;
      adj := matrix;
      k := 1;
      groupNodes := [Range(|g|)];
      nodeGroup := seq(|g|, v => 0);
      nodeRow := seq(|g|, v => v);
      w := [];
      P := [];
      new;
      InitialState(g);
      RecalculateBlockProperties();
    }

    /** The state __init__ sets up, before the caches, is placed and grouped. */
    lemma InitialState(g: seq<seq<int>>)
      requires ZeroOne(g) && n == |g| && graph == g && Grid(adj) == g
      requires groupNodes == [Range(n)]
      requires nodeGroup == seq(n, v => 0) && nodeRow == seq(n, v => v)
      ensures PlacedBy(Grid(adj), graph, n, nodeRow)
      ensures Grouped(groupNodes, nodeGroup, nodeRow, n)
    {
      forall p | 0 <= p < n ensures p in nodeRow {
        assert nodeRow[p] == p;
      }
      RangeSize(n);
      assert Sizes(groupNodes) == [n];
      assert Sum([n]) == Sum([]) + n;
    }

    /**
     * _recalculate_block_properties: w and P become the block weights and
     * densities of the current matrix and groups, which makes the object
     * consistent again once the matrix and the dictionaries agree.
     */
    method RecalculateBlockProperties()
      requires Placed() && k == |groupNodes| && Grouped(groupNodes, nodeGroup, nodeRow, n)
      modifies this`w, this`P
      ensures Valid()
      ensures w == WeightTable(Grid(adj), Sizes(groupNodes))
      ensures P == DensityTable(w, Sizes(groupNodes))
    {
      var sizes := Sizes(groupNodes);
      w := WeightTable(Grid(adj), sizes);
      P := DensityTable(w, sizes);
    }

    /**
     * Every cached weight lies between 0 and the block size, and every
     * cached density strictly between 0 and 1.
     */
    lemma CachedBlocksAreSound()
      requires Valid()
      ensures forall i, j :: 0 <= i < k && 0 <= j < k ==>
        0 <= w[i][j] <= BlockSize(Sizes(groupNodes), i, j) && 0.0 < P[i][j] < 1.0
    {
      var sizes := Sizes(groupNodes);
      forall i, j | 0 <= i < k && 0 <= j < k
        ensures 0 <= w[i][j] <= BlockSize(sizes, i, j) && 0.0 < P[i][j] < 1.0
      {
        BlockWeightBounds(Grid(adj), sizes, i, j);
        BlockDensityBounds(Grid(adj), sizes, i, j);
      }
    }

    /**
     * Group g's members occupy exactly the rows from group_start_idx(g)
     * up to group_start_idx(g) + group_size(g).
     */
    lemma GroupOccupiesItsRows(g: nat)
      requires Valid() && g < k
      ensures forall v :: v in groupNodes[g] ==> 0 <= v < n && InGroupRows(Sizes(groupNodes), g, nodeRow[v])
      ensures forall p :: InGroupRows(Sizes(groupNodes), g, p) ==>
        exists v :: 0 <= v < n && v in groupNodes[g] && nodeRow[v] == p
    {
      GroupOccupiesItsBlock(groupNodes, nodeGroup, nodeRow, n, g);
    }

    /** _add_new_group: a new empty group k is appended; nothing else about the grouping changes. */
    method AddNewGroup()
      requires Valid()
      modifies this`k, this`groupNodes, this`w, this`P
      ensures Valid()
      ensures k == old(k) + 1
      ensures groupNodes == old(groupNodes) + [{}]
      ensures Sizes(groupNodes) == old(Sizes(groupNodes)) + [0]
    {
      AddGroupKeepsGrouping(groupNodes, nodeGroup, nodeRow, n);
      groupNodes := groupNodes + [{}];
      k := k + 1;
      RecalculateBlockProperties();
    }

    /**
     * _move_node_to_new_group: the node leaves its group for group k-1,
     * only its map_n_g entry changes, and the matrix is rearranged for
     * the new grouping.
     */
    method MoveNodeToNewGroup(node: int)
      requires Valid() && 0 <= node < n
      modifies this`groupNodes, this`nodeGroup, this`nodeRow, this`w, this`P, adj
      ensures Valid()
      ensures groupNodes == MoveNode(old(groupNodes), old(nodeGroup), node, k - 1)
      ensures nodeGroup == old(nodeGroup)[node := k - 1]
      ensures |NodeOrder(groupNodes, n, k)| == n
      ensures forall v :: 0 <= v < n ==> NodeOrder(groupNodes, n, k)[nodeRow[v]] == v
    {
      var movedGroups := MoveNode(groupNodes, nodeGroup, node, k - 1);
      var movedNodeGroup := nodeGroup[node := k - 1];
      assert IsPartition(movedGroups, movedNodeGroup, n) && |movedGroups| == k by {
        MovePreservesPartition(groupNodes, nodeGroup, n, node, k - 1);
      }
      RearrangeMatrixAndMappings(movedGroups, movedNodeGroup);
      ghost var order, rows := NodeOrder(movedGroups, n, k), nodeRow;
      assert |order| == n && forall v :: 0 <= v < n ==> order[rows[v]] == v;
      RecalculateBlockProperties();
      assert groupNodes == movedGroups && nodeGroup == movedNodeGroup && nodeRow == rows;
    }

    /**
     * _rearrange_matrix_and_mappings: given a partition of the nodes into
     * the k groups, the matrix is relabelled in place by order_row, the
     * dictionaries take the new grouping, and the node listed at position
     * p of the group-by-group listing order_node gets row p.
     */
    method RearrangeMatrixAndMappings(newGroups: seq<set<int>>, newNodeGroup: seq<int>)
      requires Placed() && k >= 1
      requires |newGroups| == k && IsPartition(newGroups, newNodeGroup, n)
      modifies this`groupNodes, this`nodeGroup, this`nodeRow, this`w, this`P, adj
      ensures Valid()
      ensures groupNodes == newGroups && nodeGroup == newNodeGroup
      ensures |NodeOrder(newGroups, n, k)| == n
      ensures forall v :: 0 <= v < n ==> NodeOrder(newGroups, n, k)[nodeRow[v]] == v
      ensures forall u, v :: 0 <= u < n && 0 <= v < n ==>
        Grid(adj)[nodeRow[u]][nodeRow[v]] == old(Grid(adj))[old(nodeRow)[u]][old(nodeRow)[v]]
    {
      ghost var before := Grid(adj);
      RearrangementKeepsPlacement(before, graph, n, nodeRow, newGroups, newNodeGroup);
      var orderNode := NodeOrder(newGroups, n, k);
      var orderRow := OrderRows(orderNode, nodeRow);
      PermuteSymmetric(adj, orderRow);
      assert Grid(adj) == Permuted(before, orderRow);
      groupNodes := newGroups;
      nodeGroup := newNodeGroup;
      nodeRow := RowsFromOrder(orderNode, n);
      assert PlacedBy(Grid(adj), graph, n, nodeRow);
      assert Grouped(groupNodes, nodeGroup, nodeRow, n);
      RecalculateBlockProperties();
    }

    /**
     * One reassignment of the inner loop: every node goes to its cheapest
     * group under the given rearrange cost, then the matrix is rearranged
     * for the new grouping.
     */
    method ReassignAndRearrange(cost: (int, int) -> real)
      requires Valid()
      modifies this`groupNodes, this`nodeGroup, this`nodeRow, this`w, this`P, adj
      ensures Valid()
      ensures forall v :: 0 <= v < n ==> nodeGroup[v] == FirstMinimum(cost, v, k)
      ensures |NodeOrder(groupNodes, n, k)| == n
      ensures forall v :: 0 <= v < n ==> NodeOrder(groupNodes, n, k)[nodeRow[v]] == v
    {
      var newGroups, newNodeGroup := Reassign(n, k, cost);
      RearrangeMatrixAndMappings(newGroups, newNodeGroup);
    }

    /**
     * outlier_score(i, j): 0 for a block without edges; otherwise the drop
     * in total cost when one edge is taken out of block (i, j).  The total
     * cost is a parameter over the cached tables, and w and P are restored.
     */
    method OutlierScore(i: nat, j: nat, totalCost: (seq<seq<int>>, seq<seq<real>>) -> real) returns (score: real)
      requires Valid() && i < k && j < k
      modifies this`w, this`P
      ensures w == old(w) && P == old(P)
      ensures old(w)[i][j] == 0 ==> score == 0.0
      ensures old(w)[i][j] != 0 ==>
        var size := BlockSize(Sizes(groupNodes), i, j);
        1 <= old(w)[i][j] <= size &&
        score == totalCost(old(w), old(P)) -
          totalCost(Put(old(w), i, j, old(w)[i][j] - 1), Put(old(P), i, j, OutlierDensity(old(w)[i][j], size)))
    {
      if w[i][j] == 0 {
        return 0.0;
      }
      var size := BlockSize(Sizes(groupNodes), i, j);
      assert 1 <= w[i][j] <= size by {
        CachedBlocksAreSound();
      }
      var wOrig, pOrig := w[i][j], P[i][j];
      var cost := totalCost(w, P);
      w := Put(w, i, j, wOrig - 1);
      P := Put(P, i, j, OutlierDensity(wOrig, size));
      score := cost - totalCost(w, P);
      PutBack(old(w), i, j, wOrig - 1);
      PutBack(old(P), i, j, OutlierDensity(wOrig, size));
      w := Put(w, i, j, wOrig);
      P := Put(P, i, j, pOrig);
    }
  }
}
