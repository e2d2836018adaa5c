/**
 * Step 1 of Autopart's inner loop: every node is assigned afresh to the
 * group with the lowest rearrange cost, building new map_n_g / map_g_n
 * dictionaries node by node.  The rearrange cost is a floating-point
 * formula over the current blocks; here it is a parameter, a fixed real
 * function of (node, group) evaluated on the state before the step.
 */
module InnerLoop {
  import opened Numbers
  import opened Grouping

  /**
   * min(groups(), key=cost(node, .)): a group of least cost, the first
   * one in index order when several tie.
   */
  function FirstMinimum(cost: (int, int) -> real, node: int, k: nat): (g: nat)
    requires k >= 1
    ensures g < k
    ensures forall h :: 0 <= h < k ==> cost(node, g) <= cost(node, h)
    ensures forall h :: 0 <= h < g ==> cost(node, h) > cost(node, g)
  {
    if k == 1 then 0
    else
      var best := FirstMinimum(cost, node, k - 1);
      if cost(node, k - 1) < cost(node, best) then k - 1 else best
  }

  /**
   * The reassignment: start from k empty groups and put every node into
   * its cheapest group.  The result is a partition of the nodes into k
   * groups whose sizes add up to n (the consistency check the subsequent
   * rearrangement makes).
   */
  method Reassign(n: nat, k: nat, cost: (int, int) -> real) returns (groups: seq<set<int>>, nodeGroup: seq<int>)
    requires k >= 1
    ensures |groups| == k
    ensures IsPartition(groups, nodeGroup, n)
    ensures forall v :: 0 <= v < n ==> nodeGroup[v] == FirstMinimum(cost, v, k)
    ensures Sum(Sizes(groups)) == n
  {
    groups := seq(k, g => {});
    nodeGroup := [];
    var node := 0;
    while node < n
      invariant node <= n
      invariant |groups| == k
      invariant IsPartition(groups, nodeGroup, node)
      invariant forall v :: 0 <= v < node ==> nodeGroup[v] == FirstMinimum(cost, v, k)
    {
      var next := FirstMinimum(cost, node, k);
      ghost var before := groups;
      nodeGroup := nodeGroup + [next];
      groups := groups[next := groups[next] + {node}];
      forall g | 0 <= g < k ensures forall v :: v in groups[g] ==> 0 <= v < node + 1 && nodeGroup[v] == g {
        if g != next {
          assert groups[g] == before[g];
        }
      }
      node := node + 1;
    }
    PartitionTotal(groups, nodeGroup, n);
  }
}
