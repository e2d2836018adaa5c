/**
 * The grouping state of Autopart as values: the group -> nodes sets
 * (map_g_n), the node -> group map (map_n_g), the contiguous row layout
 * that group_start_idx describes, the row order that a rearrangement
 * derives from the grouping (order_node), and moving one node.
 *
 * Nodes are 0..n-1. Inside a group, members are enumerated in ascending
 * order of their identifiers.
 */
module Grouping {
  import opened Numbers

  /** group_size for every group, in group order. */
  function Sizes(groups: seq<set<int>>): (s: seq<nat>)
    ensures |s| == |groups|
    ensures forall g :: 0 <= g < |groups| ==> s[g] == |groups[g]|
  {
    seq(|groups|, g requires 0 <= g < |groups| => |groups[g]|)
  }

  /** group_start_idx: sizes of groups 0..g-1 added up. */
  function GroupStart(sizes: seq<nat>, g: nat): nat
    requires g <= |sizes|
  {
    Sum(sizes[..g])
  }

  /** Group g's block starts where group g-1's ends, and every block ends within the total. */
  lemma GroupStartStep(sizes: seq<nat>, g: nat)
    requires g < |sizes|
    ensures GroupStart(sizes, g + 1) == GroupStart(sizes, g) + sizes[g]
    ensures GroupStart(sizes, g) + sizes[g] <= Sum(sizes)
  {
    assert sizes[..g + 1][..g] == sizes[..g];
    assert sizes[..g + 1] + sizes[g + 1..] == sizes;
    SumConcat(sizes[..g + 1], sizes[g + 1..]);
  }

  /** The blocks of two different groups do not overlap: an earlier group ends before a later one starts. */
  lemma {:induction false} GroupBlocksOrdered(sizes: seq<nat>, h: nat, g: nat)
    requires h < g <= |sizes|
    ensures GroupStart(sizes, h) + sizes[h] <= GroupStart(sizes, g)
    decreases g - h
  {
    GroupStartStep(sizes, h);
    if h + 1 < g {
      GroupBlocksOrdered(sizes, h + 1, g);
      GroupStartStep(sizes, h + 1);
    }
  }

  /** Row p lies in the block of rows of group h. */
  predicate InGroupRows(sizes: seq<nat>, h: int, p: int)
  {
    0 <= h < |sizes| && GroupStart(sizes, h) <= p < GroupStart(sizes, h) + sizes[h]
  }

  /**
   * map_g_n and map_n_g describe one partition of the nodes 0..n-1:
   * every node is in exactly the group map_n_g names.
   */
  predicate IsPartition(groups: seq<set<int>>, nodeGroup: seq<int>, n: nat)
  {
    && |nodeGroup| == n
    && (forall v :: 0 <= v < n ==> 0 <= nodeGroup[v] < |groups| && v in groups[nodeGroup[v]])
    && (forall g :: 0 <= g < |groups| ==> forall v :: v in groups[g] ==> 0 <= v < n && nodeGroup[v] == g)
  }

  /** map_n_r is a bijection between nodes and rows 0..n-1. */
  predicate IsBijection(rows: seq<int>, n: nat)
  {
    && |rows| == n
    && (forall v :: 0 <= v < n ==> 0 <= rows[v] < n)
    && (forall u, v :: 0 <= u < v < n ==> rows[u] != rows[v])
    && (forall p :: 0 <= p < n ==> p in rows)
  }

  /** Every node's row lies in the block of its group. */
  predicate Contiguous(groups: seq<set<int>>, nodeGroup: seq<int>, rows: seq<int>)
  {
    && |nodeGroup| == |rows|
    && forall v :: 0 <= v < |rows| ==> InGroupRows(Sizes(groups), nodeGroup[v], rows[v])
  }

  /** The members of s below hi, in ascending order. */
  function Members(s: set<int>, hi: nat): seq<int>
  {
    if hi == 0 then [] else Members(s, hi - 1) + (if hi - 1 in s then [hi - 1] else [])
  }

  lemma {:induction false} MembersFacts(s: set<int>, hi: nat)
    ensures forall x :: x in Members(s, hi) <==> x in s && 0 <= x < hi
    ensures Distinct(Members(s, hi))
  {
    if hi > 0 {
      MembersFacts(s, hi - 1);
    }
  }

  /** Enumerating a set of nodes lists each of them once. */
  lemma MembersCount(s: set<int>, n: nat)
    requires forall x :: x in s ==> 0 <= x < n
    ensures |Members(s, n)| == |s|
  {
    MembersFacts(s, n);
    DistinctElements(Members(s, n));
    assert Elements(Members(s, n)) == s;
  }

  /** order_node: the members of groups 0..g-1 concatenated group by group. */
  function NodeOrder(groups: seq<set<int>>, n: nat, g: nat): seq<int>
    requires g <= |groups|
  {
    if g == 0 then [] else NodeOrder(groups, n, g - 1) + Members(groups[g - 1], n)
  }

  /** Every node a member of a group of a partition is a node. */
  lemma MembersAreNodes(groups: seq<set<int>>, nodeGroup: seq<int>, n: nat, g: nat)
    requires IsPartition(groups, nodeGroup, n) && g < |groups|
    ensures forall x :: x in groups[g] ==> 0 <= x < n && nodeGroup[x] == g
  {
  }

  /**
   * For a partition, order_node lists every node of groups 0..g-1 exactly
   * once, and the node at position p belongs to the group whose block of
   * rows contains p.
   */
  lemma NodeOrderFacts(groups: seq<set<int>>, nodeGroup: seq<int>, n: nat, g: nat)
    requires IsPartition(groups, nodeGroup, n)
    requires g <= |groups|
    ensures |NodeOrder(groups, n, g)| == GroupStart(Sizes(groups), g)
    ensures forall p :: 0 <= p < |NodeOrder(groups, n, g)| ==>
      0 <= NodeOrder(groups, n, g)[p] < n && nodeGroup[NodeOrder(groups, n, g)[p]] < g &&
      InGroupRows(Sizes(groups), nodeGroup[NodeOrder(groups, n, g)[p]], p)
    ensures Distinct(NodeOrder(groups, n, g))
    ensures forall v :: 0 <= v < n && nodeGroup[v] < g ==> v in NodeOrder(groups, n, g)
  {
    PartitionMembersBelong(groups, nodeGroup, n, g);
    NodeOrderPositions(groups, nodeGroup, n, g);
    NodeOrderDistinct(groups, nodeGroup, n, g);
    NodeOrderCovers(groups, nodeGroup, n, g);
  }

  /** Every member of groups 0..g-1 of a partition is a node of the group it is listed in. */
  predicate MembersBelong(groups: seq<set<int>>, nodeGroup: seq<int>, n: nat, g: nat)
    requires g <= |groups|
  {
    |nodeGroup| == n && forall h :: 0 <= h < g ==> GroupBelongs(groups[h], nodeGroup, n, h)
  }

  /** Every member of s is a node whose map_n_g entry is h. */
  predicate GroupBelongs(s: set<int>, nodeGroup: seq<int>, n: nat, h: int)
    requires |nodeGroup| == n
  {
    forall x :: x in s ==> 0 <= x < n && nodeGroup[x] == h
  }

  lemma PartitionMembersBelong(groups: seq<set<int>>, nodeGroup: seq<int>, n: nat, g: nat)
    requires IsPartition(groups, nodeGroup, n) && g <= |groups|
    ensures MembersBelong(groups, nodeGroup, n, g)
  {
    forall h | 0 <= h < g ensures GroupBelongs(groups[h], nodeGroup, n, h) {
      MembersAreNodes(groups, nodeGroup, n, h);
    }
  }

  /** Positions p in order_node, for the nodes listed so far. */
  predicate PositionsInBlocks(order: seq<int>, sizes: seq<nat>, nodeGroup: seq<int>, n: nat, g: nat)
  {
    |nodeGroup| == n &&
    forall p :: 0 <= p < |order| ==>
      0 <= order[p] < n && nodeGroup[order[p]] < g && InGroupRows(sizes, nodeGroup[order[p]], p)
  }

  /** Appending the members of group h right after the blocks of groups 0..h-1 puts them in block h. */
  lemma AppendGroupPositions(before: seq<int>, mine: seq<int>, sizes: seq<nat>, nodeGroup: seq<int>, n: nat, h: nat)
    requires h < |sizes| && |before| == GroupStart(sizes, h) && |mine| == sizes[h]
    requires PositionsInBlocks(before, sizes, nodeGroup, n, h)
    requires forall x :: x in mine ==> 0 <= x < n && nodeGroup[x] == h
    ensures PositionsInBlocks(before + mine, sizes, nodeGroup, n, h + 1)
  {
    var all := before + mine;
    forall p | 0 <= p < |all|
      ensures 0 <= all[p] < n && nodeGroup[all[p]] < h + 1 && InGroupRows(sizes, nodeGroup[all[p]], p)
    {
      if p >= |before| {
        assert all[p] == mine[p - |before|];
        assert all[p] in mine;
      } else {
        assert all[p] == before[p];
      }
    }
  }

  lemma {:induction false} NodeOrderPositions(groups: seq<set<int>>, nodeGroup: seq<int>, n: nat, g: nat)
    requires g <= |groups| && MembersBelong(groups, nodeGroup, n, g)
    ensures |NodeOrder(groups, n, g)| == GroupStart(Sizes(groups), g)
    ensures PositionsInBlocks(NodeOrder(groups, n, g), Sizes(groups), nodeGroup, n, g)
  {
    if g == 0 {
      assert Sizes(groups)[..0] == [];
    } else {
      assert MembersBelong(groups, nodeGroup, n, g - 1);
      NodeOrderPositions(groups, nodeGroup, n, g - 1);
      NodeOrderPositionsStep(groups, nodeGroup, n, g - 1);
    }
  }

  /** The inductive step: listing group h after groups 0..h-1 keeps every position in its block. */
  lemma NodeOrderPositionsStep(groups: seq<set<int>>, nodeGroup: seq<int>, n: nat, h: nat)
    requires h < |groups| && |nodeGroup| == n && GroupBelongs(groups[h], nodeGroup, n, h)
    requires |NodeOrder(groups, n, h)| == GroupStart(Sizes(groups), h)
    requires PositionsInBlocks(NodeOrder(groups, n, h), Sizes(groups), nodeGroup, n, h)
    ensures |NodeOrder(groups, n, h + 1)| == GroupStart(Sizes(groups), h + 1)
    ensures PositionsInBlocks(NodeOrder(groups, n, h + 1), Sizes(groups), nodeGroup, n, h + 1)
  {
    var sizes := Sizes(groups);
    var before := NodeOrder(groups, n, h);
    var mine := Members(groups[h], n);
    assert |mine| == sizes[h] && forall x :: x in mine ==> 0 <= x < n && nodeGroup[x] == h by {
      MembersFacts(groups[h], n);
      MembersCount(groups[h], n);
    }
    GroupStartStep(sizes, h);
    AppendGroupPositions(before, mine, sizes, nodeGroup, n, h);
    assert NodeOrder(groups, n, h + 1) == before + mine;
  }

  /** Listing the members of a new group after nodes of earlier groups repeats nothing. */
  lemma AppendGroupDistinct(before: seq<int>, mine: seq<int>, nodeGroup: seq<int>, h: nat)
    requires Distinct(before) && Distinct(mine)
    requires forall p :: 0 <= p < |before| ==> 0 <= before[p] < |nodeGroup| && nodeGroup[before[p]] < h
    requires forall x :: x in mine ==> 0 <= x < |nodeGroup| && nodeGroup[x] == h
    ensures Distinct(before + mine)
  {
    var all := before + mine;
    forall p, q | 0 <= p < q < |all| ensures all[p] != all[q] {
      if q < |before| {
        assert all[p] == before[p] && all[q] == before[q];
      } else if p < |before| {
        assert all[p] == before[p];
        assert all[q] == mine[q - |before|] && all[q] in mine;
      } else {
        assert all[p] == mine[p - |before|] && all[q] == mine[q - |before|];
      }
    }
  }

  lemma {:induction false} NodeOrderDistinct(groups: seq<set<int>>, nodeGroup: seq<int>, n: nat, g: nat)
    requires g <= |groups| && MembersBelong(groups, nodeGroup, n, g)
    ensures Distinct(NodeOrder(groups, n, g))
  {
    if g > 0 {
      assert MembersBelong(groups, nodeGroup, n, g - 1);
      NodeOrderDistinct(groups, nodeGroup, n, g - 1);
      NodeOrderPositions(groups, nodeGroup, n, g - 1);
      assert GroupBelongs(groups[g - 1], nodeGroup, n, g - 1);
      MembersFacts(groups[g - 1], n);
      AppendGroupDistinct(NodeOrder(groups, n, g - 1), Members(groups[g - 1], n), nodeGroup, g - 1);
    }
  }

  lemma {:induction false} NodeOrderCovers(groups: seq<set<int>>, nodeGroup: seq<int>, n: nat, g: nat)
    requires g <= |groups| && |nodeGroup| == n
    requires forall v :: 0 <= v < n ==> 0 <= nodeGroup[v] < |groups| && v in groups[nodeGroup[v]]
    ensures forall v :: 0 <= v < n && nodeGroup[v] < g ==> v in NodeOrder(groups, n, g)
  {
    if g > 0 {
      NodeOrderCovers(groups, nodeGroup, n, g - 1);
      var before := NodeOrder(groups, n, g - 1);
      var mine := Members(groups[g - 1], n);
      assert forall v :: 0 <= v < n && v in groups[g - 1] ==> v in mine by {
        MembersFacts(groups[g - 1], n);
      }
      assert NodeOrder(groups, n, g) == before + mine;
      forall v | 0 <= v < n && nodeGroup[v] < g ensures v in before + mine {
        if nodeGroup[v] == g - 1 {
          assert v in mine;
        } else {
          assert v in before;
        }
      }
    }
  }

  /** The consistency check of the rearrangement: group sizes add up to the number of nodes. */
  lemma PartitionTotal(groups: seq<set<int>>, nodeGroup: seq<int>, n: nat)
    requires IsPartition(groups, nodeGroup, n)
    ensures Sum(Sizes(groups)) == n
  {
    var k := |groups|;
    NodeOrderFacts(groups, nodeGroup, n, k);
    var order := NodeOrder(groups, n, k);
    DistinctElements(order);
    assert Elements(order) == Range(n) by {
      forall v | 0 <= v < n ensures v in Elements(order) {
        assert v in order;
      }
    }
    RangeSize(n);
    assert Sizes(groups)[..k] == Sizes(groups);
  }

  /**
   * With a contiguous layout over a bijective row map, group g holds
   * exactly the rows of its block: every member's row lies in the block
   * and every row of the block belongs to a member.
   */
  lemma GroupOccupiesItsBlock(groups: seq<set<int>>, nodeGroup: seq<int>, rows: seq<int>, n: nat, g: nat)
    requires IsPartition(groups, nodeGroup, n) && IsBijection(rows, n)
    requires Contiguous(groups, nodeGroup, rows)
    requires g < |groups|
    ensures forall v :: v in groups[g] ==> 0 <= v < n && InGroupRows(Sizes(groups), g, rows[v])
    ensures forall p :: InGroupRows(Sizes(groups), g, p) ==>
      exists v :: 0 <= v < n && v in groups[g] && rows[v] == p
  {
    var sizes := Sizes(groups);
    MembersAreNodes(groups, nodeGroup, n, g);
    forall p | InGroupRows(sizes, g, p) ensures exists v :: 0 <= v < n && v in groups[g] && rows[v] == p {
      GroupStartStep(sizes, g);
      PartitionTotal(groups, nodeGroup, n);
      assert p < n;
      assert p in rows;
      var v :| 0 <= v < n && rows[v] == p;
      var h := nodeGroup[v];
      if h < g {
        GroupBlocksOrdered(sizes, h, g);
      } else if h > g {
        GroupBlocksOrdered(sizes, g, h);
      }
      assert v in groups[g];
    }
  }

  /**
   * _move_node_to_new_group on the two maps: take node out of its group,
   * put it into target and record target as its group.
   */
  function MoveNode(groups: seq<set<int>>, nodeGroup: seq<int>, node: int, target: nat): seq<set<int>>
    requires 0 <= node < |nodeGroup| && 0 <= nodeGroup[node] < |groups| && target < |groups|
  {
    var removed := groups[nodeGroup[node] := groups[nodeGroup[node]] - {node}];
    removed[target := removed[target] + {node}]
  }

  /**
   * Moving a node keeps a partition: every node is still in exactly one
   * group, only the source and target groups change, each by one member,
   * and the total size is unchanged.
   */
  lemma MovePreservesPartition(groups: seq<set<int>>, nodeGroup: seq<int>, n: nat, node: int, target: nat)
    requires IsPartition(groups, nodeGroup, n)
    requires 0 <= node < n && target < |groups|
    ensures IsPartition(MoveNode(groups, nodeGroup, node, target), nodeGroup[node := target], n)
    ensures |MoveNode(groups, nodeGroup, node, target)| == |groups|
    ensures forall g :: 0 <= g < |groups| && g != nodeGroup[node] && g != target ==>
      MoveNode(groups, nodeGroup, node, target)[g] == groups[g]
    ensures target != nodeGroup[node] ==>
      && |MoveNode(groups, nodeGroup, node, target)[nodeGroup[node]]| == |groups[nodeGroup[node]]| - 1
      && |MoveNode(groups, nodeGroup, node, target)[target]| == |groups[target]| + 1
    ensures Sum(Sizes(MoveNode(groups, nodeGroup, node, target))) == Sum(Sizes(groups))
  {
    var moved := MoveNode(groups, nodeGroup, node, target);
    var ng := nodeGroup[node := target];
    var from := nodeGroup[node];
    if target != from {
      assert node !in groups[target];
      assert moved[from] == groups[from] - {node};
      assert moved[target] == groups[target] + {node};
    } else {
      assert moved[target] == groups[target];
    }
    forall h, v | 0 <= h < |moved| && v in moved[h] ensures 0 <= v < n && ng[v] == h {
      if v == node {
        assert h == target;
      } else {
        assert v in groups[h] by {
          if h == target {
            assert v in groups[target] - {node} || v in groups[target];
          } else if h == from {
            assert moved[h] == groups[from] - {node};
          } else {
            assert moved[h] == groups[h];
          }
        }
        MembersAreNodes(groups, nodeGroup, n, h);
      }
    }
    assert IsPartition(moved, ng, n);
    PartitionTotal(groups, nodeGroup, n);
    PartitionTotal(moved, ng, n);
  }

  /** _add_new_group on the maps: an empty group at the highest index keeps the partition and the layout. */
  lemma AddGroupPreservesPartition(groups: seq<set<int>>, nodeGroup: seq<int>, rows: seq<int>, n: nat)
    requires IsPartition(groups, nodeGroup, n) && Contiguous(groups, nodeGroup, rows)
    ensures IsPartition(groups + [{}], nodeGroup, n)
    ensures Sizes(groups + [{}]) == Sizes(groups) + [0]
    ensures Contiguous(groups + [{}], nodeGroup, rows)
  {
    var sizes := Sizes(groups);
    var sizes' := Sizes(groups + [{}]);
    assert sizes' == sizes + [0];
    forall h, v | 0 <= h < |groups| + 1 && v in (groups + [{}])[h] ensures 0 <= v < n && nodeGroup[v] == h {
      assert h < |groups| && (groups + [{}])[h] == groups[h];
      MembersAreNodes(groups, nodeGroup, n, h);
    }
    forall g | 0 <= g <= |groups| ensures GroupStart(sizes', g) == GroupStart(sizes, g) {
      assert sizes'[..g] == sizes[..g];
    }
  }

  /** The position of x in s. */
  function IndexOf(s: seq<int>, x: int): (i: nat)
    requires x in s
    ensures i < |s| && s[i] == x
  {
    if s[0] == x then 0 else 1 + IndexOf(s[1..], x)
  }

  /** map_n_r after a rearrangement: every node is given its position in order_node as its row. */
  function RowsFromOrder(order: seq<int>, n: nat): seq<int>
    requires forall v :: 0 <= v < n ==> v in order
  {
    seq(n, v requires 0 <= v < n => IndexOf(order, v))
  }

  /**
   * After a rearrangement by a partition, order_node lists the n nodes
   * once each, the new map_n_r is a bijection that sends the node at
   * position p of order_node to row p, and the layout is contiguous:
   * every group occupies the block group_start_idx describes.
   */
  lemma RearrangedLayout(groups: seq<set<int>>, nodeGroup: seq<int>, n: nat)
    requires IsPartition(groups, nodeGroup, n)
    ensures var order := NodeOrder(groups, n, |groups|);
      && |order| == n && Distinct(order)
      && (forall p :: 0 <= p < n ==> 0 <= order[p] < n)
      && (forall v :: 0 <= v < n ==> v in order)
    ensures var order := NodeOrder(groups, n, |groups|);
      var rows := RowsFromOrder(order, n);
      && IsBijection(rows, n)
      && Contiguous(groups, nodeGroup, rows)
      && (forall p :: 0 <= p < n ==> rows[order[p]] == p)
      && (forall v :: 0 <= v < n ==> order[rows[v]] == v)
  {
    var k := |groups|;
    var sizes := Sizes(groups);
    NodeOrderFacts(groups, nodeGroup, n, k);
    PartitionTotal(groups, nodeGroup, n);
    assert sizes[..k] == sizes;
    var order := NodeOrder(groups, n, k);
    assert |order| == n;
    var rows := RowsFromOrder(order, n);
    forall p | 0 <= p < n ensures rows[order[p]] == p {
      var i := IndexOf(order, order[p]);
      assert order[i] == order[p];
    }
    forall p | 0 <= p < n ensures p in rows {
      assert rows[order[p]] == p;
    }
    forall v | 0 <= v < n ensures InGroupRows(sizes, nodeGroup[v], rows[v]) {
      assert order[rows[v]] == v;
    }
  }
}
