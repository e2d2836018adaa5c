/**
 * The two integer components of Autopart's description cost:
 * description_cost_group_sizes (the bits needed to send the size of every
 * node group) and description_cost_block_weights (the bits needed to send
 * the weight of every block).  ceil(log2 x) is the exact CeilLog2.
 *
 * log2 of a non-positive number raises a math domain error in the
 * source; GroupSizesCost returns None for that outcome.
 */
module Description {
  import opened Numbers
  import opened Blocks

  // ---------------------------------------------------------------------
  // Group sizes

  /** a(g): 1 - k + g plus the sizes of the groups g..k-1 in descending order. */
  function Remaining(sorted: seq<nat>, g: nat): int
    requires g <= |sorted|
  {
    1 - |sorted| + g + Sum(sorted[g..])
  }

  /**
   * ceil(log2(a(0))) + ... + ceil(log2(a(count-1))), or None when one of
   * those a(g) is below 1.
   */
  function SizeBits(sorted: seq<nat>, count: nat): Option<nat>
    requires count <= |sorted|
  {
    if count == 0 then Some(0)
    else match SizeBits(sorted, count - 1)
      case None => None
      case Some(bits) =>
        var a := Remaining(sorted, count - 1);
        if a < 1 then None else Some(bits + CeilLog2(a))
  }

  /** description_cost_group_sizes for the sizes of groups 0..k-1. */
  function GroupSizesCost(sizes: seq<nat>): Option<nat>
  {
    if |sizes| == 1 then Some(0)
    else if |sizes| == 0 then Some(0)
    else SizeBits(SortDescending(sizes), |sizes| - 1)
  }

  /** The inner helper a(g): a loop adding the sizes from g on. */
  method ComputeRemaining(sorted: seq<nat>, g: nat) returns (val: int)
    requires g <= |sorted|
    ensures val == Remaining(sorted, g)
  {
    val := 1 - |sorted| + g;
    var h := g;
    while h < |sorted|
      invariant g <= h <= |sorted|
      invariant val == 1 - |sorted| + g + Sum(sorted[g..h])
    {
      assert sorted[g..h + 1][..h - g] == sorted[g..h];
      val := val + sorted[h];
      h := h + 1;
    }
    assert sorted[g..h] == sorted[g..];
  }

  /** description_cost_group_sizes: sort the sizes, then add up the bits. */
  method DescriptionCostGroupSizes(sizes: seq<nat>) returns (r: Option<nat>)
    ensures r == GroupSizesCost(sizes)
  {
    if |sizes| == 1 {
      return Some(0);
    }
    var sorted := SortDescending(sizes);
    var count := if |sizes| == 0 then 0 else |sizes| - 1;
    r := AddSizeBits(sorted, count);
  }

  /** The accumulator loop over grp in 0..count-1; None where log2 would fail. */
  method AddSizeBits(sorted: seq<nat>, count: nat) returns (r: Option<nat>)
    requires count <= |sorted|
    ensures r == SizeBits(sorted, count)
  {
    var res := 0;
    var grp := 0;
    while grp < count
      invariant grp <= count
      invariant SizeBits(sorted, grp) == Some(res)
    {
      var a := ComputeRemaining(sorted, grp);
      if a < 1 {
        // log2 of a non-positive number: the source raises here
        NoneStaysNone(sorted, grp + 1, count);
        return None;
      }
      res := res + CeilLog2(a);
      grp := grp + 1;
    }
    r := Some(res);
  }

  /** Once some a(g) is out of range, every longer prefix fails too. */
  lemma {:induction false} NoneStaysNone(sorted: seq<nat>, count: nat, longer: nat)
    requires count <= longer <= |sorted|
    requires SizeBits(sorted, count).None?
    ensures SizeBits(sorted, longer).None?
    decreases longer - count
  {
    if count < longer {
      NoneStaysNone(sorted, count + 1, longer);
    }
  }

  /** The sum is defined exactly when every a(g) it takes the logarithm of is at least 1. */
  lemma {:induction false} SizeBitsDefinedIff(sorted: seq<nat>, count: nat)
    requires count <= |sorted|
    ensures SizeBits(sorted, count).Some? <==> forall g :: 0 <= g < count ==> Remaining(sorted, g) >= 1
  {
    if count > 0 {
      SizeBitsDefinedIff(sorted, count - 1);
    }
  }

  /** With every group non-empty, each a(g) is at least 1, so the cost is defined. */
  lemma NonEmptyGroupsHaveSizeCost(sizes: seq<nat>)
    requires forall i :: 0 <= i < |sizes| ==> sizes[i] >= 1
    ensures GroupSizesCost(sizes).Some?
  {
    if |sizes| > 1 {
      var sorted := SortDescending(sizes);
      assert forall g :: 0 <= g < |sorted| - 1 ==> Remaining(sorted, g) >= 1 by {
        forall g | 0 <= g < |sorted| - 1
          ensures Remaining(sorted, g) >= 1
        {
          PositiveSuffix(sizes, sorted, g);
        }
      }
      assert SizeBits(sorted, |sorted| - 1).Some? by {
        SizeBitsDefinedIff(sorted, |sorted| - 1);
      }
    }
  }

  /** Sorting keeps every size positive, so each suffix sum is positive. */
  lemma PositiveSuffix(sizes: seq<nat>, sorted: seq<nat>, g: nat)
    requires forall i :: 0 <= i < |sizes| ==> sizes[i] >= 1
    requires multiset(sorted) == multiset(sizes) && g < |sorted|
    ensures Sum(sorted[g..]) >= |sorted| - g
  {
    forall i | 0 <= i < |sorted[g..]| ensures sorted[g..][i] >= 1 {
      assert sorted[g + i] in multiset(sizes);
    }
    SumOfPositives(sorted[g..]);
  }

  /**
   * Two empty groups make a(k-2) = -1: the two smallest sizes are both 0
   * and nothing else is left to add, so the source's log2 fails.
   */
  lemma TwoEmptyGroupsHaveNoSizeCost(sizes: seq<nat>)
    requires multiset(sizes)[0] >= 2
    ensures GroupSizesCost(sizes) == None
  {
    var sorted := SortDescending(sizes);
    var k := |sorted|;
    assert k >= 2 by {
      assert |multiset(sizes)| == |sizes|;
      assert multiset{0, 0} <= multiset(sizes);
    }
    assert Remaining(sorted, k - 2) == -1 by {
      LastTwoAreZero(sorted);
      LastTwoRemaining(sorted);
    }
    assert SizeBits(sorted, k - 1) == None by {
      SizeBitsDefinedIff(sorted, k - 1);
    }
  }

  /** a(k-2) is the two smallest sizes minus one. */
  lemma LastTwoRemaining(sorted: seq<nat>)
    requires |sorted| >= 2
    ensures Remaining(sorted, |sorted| - 2) == sorted[|sorted| - 2] as int + sorted[|sorted| - 1] - 1
  {
    var k := |sorted|;
    var last := sorted[k - 2..];
    assert last == [sorted[k - 2], sorted[k - 1]];
    assert last[..1] == [sorted[k - 2]] && [sorted[k - 2]][..0] == [];
    assert Sum(last) == Sum([sorted[k - 2]]) + sorted[k - 1];
    assert Sum([sorted[k - 2]]) == Sum([]) + sorted[k - 2];
  }

  lemma LastTwoAreZero(sorted: seq<nat>)
    requires Descending(sorted) && |sorted| >= 2 && multiset(sorted)[0] >= 2
    ensures sorted[|sorted| - 2] == 0 && sorted[|sorted| - 1] == 0
  {
    var k := |sorted|;
    var init := sorted[..k - 1];
    assert sorted == init + [sorted[k - 1]];
    if sorted[k - 2] != 0 {
      assert forall i :: 0 <= i < |init| ==> init[i] != 0;
      assert false;
    }
  }

  /** One node alone next to an empty group already fails: a(0) = 0. */
  lemma OneNodeAndAnEmptyGroupHaveNoSizeCost()
    ensures GroupSizesCost([1, 0]) == None
  {
    var sorted: seq<nat> := [1, 0];
    assert SortDescending([1, 0]) == sorted by {
      assert SortDescending([0]) == [0];
    }
    assert sorted[0..] == sorted;
    assert sorted[..1] == [1] && [1][..0] == [];
    assert Remaining(sorted, 0) == 0;
  }

  // ---------------------------------------------------------------------
  // Block weights

  /** ceil(log2(n(D_i,j) + 1)) for j < count. */
  function RowWeightBits(sizes: seq<nat>, i: nat, count: nat): nat
    requires i < |sizes| && count <= |sizes|
  {
    if count == 0 then 0
    else RowWeightBits(sizes, i, count - 1) + CeilLog2(BlockSize(sizes, i, count - 1) + 1)
  }

  /** The same over the rows i < count of the block matrix. */
  function WeightBits(sizes: seq<nat>, count: nat): nat
    requires count <= |sizes|
  {
    if count == 0 then 0 else WeightBits(sizes, count - 1) + RowWeightBits(sizes, count - 1, |sizes|)
  }

  /** description_cost_block_weights */
  function BlockWeightsCost(sizes: seq<nat>): nat
  {
    WeightBits(sizes, |sizes|)
  }

  /** A block of n cells needs no bits exactly when it has no cells. */
  lemma CellBitsZeroIff(n: nat)
    ensures CeilLog2(n + 1) == 0 <==> n == 0
  {
    CeilLog2IsZeroOnlyAtOne(n + 1);
  }

  lemma {:induction false} RowWeightBitsZeroIff(sizes: seq<nat>, i: nat, count: nat)
    requires i < |sizes| && count <= |sizes|
    ensures RowWeightBits(sizes, i, count) == 0 <==> forall j :: 0 <= j < count ==> BlockSize(sizes, i, j) == 0
  {
    if count > 0 {
      RowWeightBitsZeroIff(sizes, i, count - 1);
      CellBitsZeroIff(BlockSize(sizes, i, count - 1));
    }
  }

  lemma {:induction false} WeightBitsZeroIff(sizes: seq<nat>, count: nat)
    requires count <= |sizes|
    ensures WeightBits(sizes, count) == 0 <==>
      forall i, j :: 0 <= i < count && 0 <= j < |sizes| ==> BlockSize(sizes, i, j) == 0
  {
    if count > 0 {
      WeightBitsZeroIff(sizes, count - 1);
      RowWeightBitsZeroIff(sizes, count - 1, |sizes|);
    }
  }

  /** The block weights cost nothing exactly when every group is empty. */
  lemma BlockWeightsCostZeroIff(sizes: seq<nat>)
    ensures BlockWeightsCost(sizes) == 0 <==> forall i :: 0 <= i < |sizes| ==> sizes[i] == 0
  {
    WeightBitsZeroIff(sizes, |sizes|);
    if forall i :: 0 <= i < |sizes| ==> sizes[i] == 0 {
      forall i, j | 0 <= i < |sizes| && 0 <= j < |sizes| ensures BlockSize(sizes, i, j) == 0 {
      }
    } else {
      var i :| 0 <= i < |sizes| && sizes[i] != 0;
      assert BlockSize(sizes, i, i) != 0;
    }
  }

  lemma {:induction false} RowWeightBitsAtLeast(sizes: seq<nat>, i: nat, count: nat)
    requires i < |sizes| && count <= |sizes| && sizes[i] >= 1
    requires forall j :: 0 <= j < |sizes| ==> sizes[j] >= 1
    ensures RowWeightBits(sizes, i, count) >= count
  {
    if count > 0 {
      RowWeightBitsAtLeast(sizes, i, count - 1);
      CellBitsZeroIff(BlockSize(sizes, i, count - 1));
    }
  }

  lemma {:induction false} WeightBitsAtLeast(sizes: seq<nat>, count: nat)
    requires count <= |sizes|
    requires forall j :: 0 <= j < |sizes| ==> sizes[j] >= 1
    ensures WeightBits(sizes, count) >= count * |sizes|
  {
    if count > 0 {
      WeightBitsAtLeast(sizes, count - 1);
      RowWeightBitsAtLeast(sizes, count - 1, |sizes|);
      assert (count - 1) * |sizes| + |sizes| == count * |sizes|;
    }
  }

  /** With every group non-empty each of the k*k blocks needs at least one bit. */
  lemma NonEmptyBlocksCostAtLeastOneBitEach(sizes: seq<nat>)
    requires forall j :: 0 <= j < |sizes| ==> sizes[j] >= 1
    ensures BlockWeightsCost(sizes) >= |sizes| * |sizes|
  {
    WeightBitsAtLeast(sizes, |sizes|);
  }
}
