/**
 * Block statistics of Autopart over the current (permuted) adjacency
 * matrix: block_size, _block_weight, row_weight, col_weight and the
 * Laplace-smoothed density _block_density, with the bounds they obey.
 *
 * The matrix is a square sequence of rows; groups are laid out as
 * consecutive blocks of rows and columns, group g starting at
 * GroupStart(sizes, g).
 */
module Blocks {
  import opened Numbers
  import opened Grouping

  predicate Square(m: seq<seq<int>>)
  {
    forall r :: 0 <= r < |m| ==> |m[r]| == |m|
  }

  /** The adjacency matrix of an unweighted graph: every cell is 0 or 1. */
  predicate ZeroOne(m: seq<seq<int>>)
  {
    Square(m) && forall r, c :: 0 <= r < |m| && 0 <= c < |m| ==> 0 <= m[r][c] <= 1
  }

  /** The blocks of all groups lie inside the matrix. */
  predicate Fits(m: seq<seq<int>>, sizes: seq<nat>)
  {
    Square(m) && Sum(sizes) <= |m|
  }

  /** The cells of row r in columns c0..c1-1, added up. */
  function RowSum(m: seq<seq<int>>, r: nat, c0: nat, c1: nat): int
    requires Square(m) && r < |m| && c1 <= |m|
    decreases c1
  {
    if c1 <= c0 then 0 else RowSum(m, r, c0, c1 - 1) + m[r][c1 - 1]
  }

  /** The cells of column c in rows r0..r1-1, added up. */
  function ColSum(m: seq<seq<int>>, c: nat, r0: nat, r1: nat): int
    requires Square(m) && c < |m| && r1 <= |m|
    decreases r1
  {
    if r1 <= r0 then 0 else ColSum(m, c, r0, r1 - 1) + m[r1 - 1][c]
  }

  /** The cells of rows r0..r1-1 in columns c0..c1-1, added up row by row. */
  function BlockSum(m: seq<seq<int>>, r0: nat, r1: nat, c0: nat, c1: nat): int
    requires Square(m) && r1 <= |m| && c1 <= |m|
    decreases r1
  {
    if r1 <= r0 then 0 else BlockSum(m, r0, r1 - 1, c0, c1) + RowSum(m, r1 - 1, c0, c1)
  }

  /** n(D_i,j) = a_i * a_j */
  function BlockSize(sizes: seq<nat>, i: nat, j: nat): nat
    requires i < |sizes| && j < |sizes|
  {
    sizes[i] * sizes[j]
  }

  /** _block_weight: the cells of rows of group i and columns of group j added up; 0 for an empty group. */
  function BlockWeight(m: seq<seq<int>>, sizes: seq<nat>, i: nat, j: nat): int
    requires Fits(m, sizes) && i < |sizes| && j < |sizes|
  {
    GroupStartStep(sizes, i);
    GroupStartStep(sizes, j);
    var rFrom := GroupStart(sizes, i);
    var rTo := rFrom + sizes[i];
    var cFrom := GroupStart(sizes, j);
    var cTo := cFrom + sizes[j];
    if rFrom < rTo && cFrom < cTo then BlockSum(m, rFrom, rTo, cFrom, cTo) else 0
  }

  /** row_weight: row `row` summed over the columns of group g; 0 for an empty group. */
  function RowWeight(m: seq<seq<int>>, sizes: seq<nat>, row: nat, g: nat): int
    requires Fits(m, sizes) && row < |m| && g < |sizes|
  {
    GroupStartStep(sizes, g);
    var cFrom := GroupStart(sizes, g);
    var cTo := cFrom + sizes[g];
    if cFrom < cTo then RowSum(m, row, cFrom, cTo) else 0
  }

  /** col_weight: column `col` summed over the rows of group g; 0 for an empty group. */
  function ColWeight(m: seq<seq<int>>, sizes: seq<nat>, col: nat, g: nat): int
    requires Fits(m, sizes) && col < |m| && g < |sizes|
  {
    GroupStartStep(sizes, g);
    var rFrom := GroupStart(sizes, g);
    var rTo := rFrom + sizes[g];
    if rFrom < rTo then ColSum(m, col, rFrom, rTo) else 0
  }

  /** P(w, n) = (w + 0.5) / (n + 1), the Laplace-smoothed density of _block_density. */
  function Density(w: int, size: int): real
    requires size >= 0
  {
    (w as real + 0.5) / (size as real + 1.0)
  }

  /** The cached table self.w: one weight per ordered pair of groups. */
  function WeightTable(m: seq<seq<int>>, sizes: seq<nat>): seq<seq<int>>
    requires Fits(m, sizes)
  {
    seq(|sizes|, i requires 0 <= i < |sizes| =>
      seq(|sizes|, j requires 0 <= j < |sizes| => BlockWeight(m, sizes, i, j)))
  }

  predicate IsTable<T>(t: seq<seq<T>>, k: nat)
  {
    |t| == k && forall i :: 0 <= i < k ==> |t[i]| == k
  }

  /** The cached table self.P, computed from the cached weights. */
  function DensityTable(w: seq<seq<int>>, sizes: seq<nat>): seq<seq<real>>
    requires IsTable(w, |sizes|)
  {
    seq(|sizes|, i requires 0 <= i < |sizes| =>
      seq(|sizes|, j requires 0 <= j < |sizes| => Density(w[i][j], BlockSize(sizes, i, j))))
  }

  // ---------------------------------------------------------------------
  // Bounds

  lemma {:induction false} RowSumBounds(m: seq<seq<int>>, r: nat, c0: nat, c1: nat)
    requires ZeroOne(m) && r < |m| && c0 <= c1 <= |m|
    ensures 0 <= RowSum(m, r, c0, c1) <= c1 - c0
    decreases c1
  {
    if c0 < c1 {
      RowSumBounds(m, r, c0, c1 - 1);
    }
  }

  lemma {:induction false} ColSumBounds(m: seq<seq<int>>, c: nat, r0: nat, r1: nat)
    requires ZeroOne(m) && c < |m| && r0 <= r1 <= |m|
    ensures 0 <= ColSum(m, c, r0, r1) <= r1 - r0
    decreases r1
  {
    if r0 < r1 {
      ColSumBounds(m, c, r0, r1 - 1);
    }
  }

  lemma {:induction false} BlockSumBounds(m: seq<seq<int>>, r0: nat, r1: nat, c0: nat, c1: nat)
    requires ZeroOne(m) && r0 <= r1 <= |m| && c0 <= c1 <= |m|
    ensures 0 <= BlockSum(m, r0, r1, c0, c1) <= (r1 - r0) * (c1 - c0)
    decreases r1
  {
    if r0 < r1 {
      BlockSumBounds(m, r0, r1 - 1, c0, c1);
      RowSumBounds(m, r1 - 1, c0, c1);
      assert (r1 - 1 - r0) * (c1 - c0) + (c1 - c0) == (r1 - r0) * (c1 - c0);
    }
  }

  /** A block of a 0/1 matrix weighs between 0 and its number of cells. */
  lemma BlockWeightBounds(m: seq<seq<int>>, sizes: seq<nat>, i: nat, j: nat)
    requires ZeroOne(m) && Fits(m, sizes) && i < |sizes| && j < |sizes|
    ensures 0 <= BlockWeight(m, sizes, i, j) <= BlockSize(sizes, i, j)
  {
    GroupStartStep(sizes, i);
    GroupStartStep(sizes, j);
    var rFrom := GroupStart(sizes, i);
    var cFrom := GroupStart(sizes, j);
    BlockSumBounds(m, rFrom, rFrom + sizes[i], cFrom, cFrom + sizes[j]);
  }

  /** A row of a 0/1 matrix has between 0 and a_g ones in the columns of group g. */
  lemma RowWeightBounds(m: seq<seq<int>>, sizes: seq<nat>, row: nat, g: nat)
    requires ZeroOne(m) && Fits(m, sizes) && row < |m| && g < |sizes|
    ensures 0 <= RowWeight(m, sizes, row, g) <= sizes[g]
  {
    GroupStartStep(sizes, g);
    RowSumBounds(m, row, GroupStart(sizes, g), GroupStart(sizes, g) + sizes[g]);
  }

  /** A column of a 0/1 matrix has between 0 and a_g ones in the rows of group g. */
  lemma ColWeightBounds(m: seq<seq<int>>, sizes: seq<nat>, col: nat, g: nat)
    requires ZeroOne(m) && Fits(m, sizes) && col < |m| && g < |sizes|
    ensures 0 <= ColWeight(m, sizes, col, g) <= sizes[g]
  {
    GroupStartStep(sizes, g);
    ColSumBounds(m, col, GroupStart(sizes, g), GroupStart(sizes, g) + sizes[g]);
  }

  /** The smoothed density never reaches 0 or 1 while the weight is within the block. */
  lemma DensityInOpenUnitInterval(w: int, size: int)
    requires 0 <= w <= size
    ensures 0.0 < Density(w, size) < 1.0
  {
    var num := w as real + 0.5;
    var den := size as real + 1.0;
    assert 0.0 < num < den;
    var d := num / den;
    assert d * den == num;
    if d >= 1.0 {
      assert false;
    }
  }

  /** Every block density of a 0/1 matrix lies strictly between 0 and 1. */
  lemma BlockDensityBounds(m: seq<seq<int>>, sizes: seq<nat>, i: nat, j: nat)
    requires ZeroOne(m) && Fits(m, sizes) && i < |sizes| && j < |sizes|
    ensures 0.0 < Density(BlockWeight(m, sizes, i, j), BlockSize(sizes, i, j)) < 1.0
  {
    BlockWeightBounds(m, sizes, i, j);
    DensityInOpenUnitInterval(BlockWeight(m, sizes, i, j), BlockSize(sizes, i, j));
  }

  // ---------------------------------------------------------------------
  // Splitting sums

  lemma {:induction false} RowSumSplit(m: seq<seq<int>>, r: nat, c0: nat, mid: nat, c1: nat)
    requires Square(m) && r < |m| && c0 <= mid <= c1 <= |m|
    ensures RowSum(m, r, c0, c1) == RowSum(m, r, c0, mid) + RowSum(m, r, mid, c1)
    decreases c1
  {
    if mid < c1 {
      RowSumSplit(m, r, c0, mid, c1 - 1);
    }
  }

  lemma {:induction false} ColSumSplit(m: seq<seq<int>>, c: nat, r0: nat, mid: nat, r1: nat)
    requires Square(m) && c < |m| && r0 <= mid <= r1 <= |m|
    ensures ColSum(m, c, r0, r1) == ColSum(m, c, r0, mid) + ColSum(m, c, mid, r1)
    decreases r1
  {
    if mid < r1 {
      ColSumSplit(m, c, r0, mid, r1 - 1);
    }
  }

  lemma {:induction false} BlockSumSplitRows(m: seq<seq<int>>, r0: nat, mid: nat, r1: nat, c0: nat, c1: nat)
    requires Square(m) && r0 <= mid <= r1 <= |m| && c1 <= |m|
    ensures BlockSum(m, r0, r1, c0, c1) == BlockSum(m, r0, mid, c0, c1) + BlockSum(m, mid, r1, c0, c1)
    decreases r1
  {
    if mid < r1 {
      BlockSumSplitRows(m, r0, mid, r1 - 1, c0, c1);
    }
  }

  lemma {:induction false} BlockSumSplitCols(m: seq<seq<int>>, r0: nat, r1: nat, c0: nat, mid: nat, c1: nat)
    requires Square(m) && r1 <= |m| && c0 <= mid <= c1 <= |m|
    ensures BlockSum(m, r0, r1, c0, c1) == BlockSum(m, r0, r1, c0, mid) + BlockSum(m, r0, r1, mid, c1)
    decreases r1
  {
    if r0 < r1 {
      BlockSumSplitCols(m, r0, r1 - 1, c0, mid, c1);
      RowSumSplit(m, r1 - 1, c0, mid, c1);
    }
  }

  /** A block one column wide is that column's sum. */
  lemma {:induction false} BlockSumOneColumn(m: seq<seq<int>>, r0: nat, r1: nat, c: nat)
    requires Square(m) && r1 <= |m| && c < |m|
    ensures BlockSum(m, r0, r1, c, c + 1) == ColSum(m, c, r0, r1)
    decreases r1
  {
    if r0 < r1 {
      BlockSumOneColumn(m, r0, r1 - 1, c);
      assert RowSum(m, r1 - 1, c, c + 1) == RowSum(m, r1 - 1, c, c) + m[r1 - 1][c];
    }
  }

  /** A block with no columns weighs nothing. */
  lemma {:induction false} BlockSumNoColumns(m: seq<seq<int>>, r0: nat, r1: nat, c: nat)
    requires Square(m) && r1 <= |m| && c <= |m|
    ensures BlockSum(m, r0, r1, c, c) == 0
    decreases r1
  {
    if r0 < r1 {
      BlockSumNoColumns(m, r0, r1 - 1, c);
    }
  }

  /** Row x cut out of a block: the rows above it, row x itself, the rows below it. */
  lemma CutRow(m: seq<seq<int>>, r0: nat, x: nat, r1: nat, c0: nat, c1: nat)
    requires Square(m) && r0 <= x < r1 <= |m| && c1 <= |m|
    ensures BlockSum(m, r0, r1, c0, c1) ==
      BlockSum(m, r0, x, c0, c1) + RowSum(m, x, c0, c1) + BlockSum(m, x + 1, r1, c0, c1)
  {
    BlockSumSplitRows(m, r0, x, r1, c0, c1);
    BlockSumSplitRows(m, x, x + 1, r1, c0, c1);
  }

  /** Column x cut out of a block: the columns left of it, column x itself, the columns right of it. */
  lemma CutColumn(m: seq<seq<int>>, r0: nat, r1: nat, c0: nat, x: nat, c1: nat)
    requires Square(m) && r1 <= |m| && c0 <= x < c1 <= |m|
    ensures BlockSum(m, r0, r1, c0, c1) ==
      BlockSum(m, r0, r1, c0, x) + ColSum(m, x, r0, r1) + BlockSum(m, r0, r1, x + 1, c1)
  {
    BlockSumSplitCols(m, r0, r1, c0, x, c1);
    BlockSumSplitCols(m, r0, r1, x, x + 1, c1);
    BlockSumOneColumn(m, r0, r1, x);
  }

  // ---------------------------------------------------------------------
  // Block weights from row and column weights

  /** row_weight of rows r0..r1-1 against group g, added up. */
  function RowWeights(m: seq<seq<int>>, sizes: seq<nat>, g: nat, r0: nat, r1: nat): int
    requires Fits(m, sizes) && g < |sizes| && r1 <= |m|
    decreases r1
  {
    if r1 <= r0 then 0 else RowWeights(m, sizes, g, r0, r1 - 1) + RowWeight(m, sizes, r1 - 1, g)
  }

  /** col_weight of columns c0..c1-1 against group g, added up. */
  function ColWeights(m: seq<seq<int>>, sizes: seq<nat>, g: nat, c0: nat, c1: nat): int
    requires Fits(m, sizes) && g < |sizes| && c1 <= |m|
    decreases c1
  {
    if c1 <= c0 then 0 else ColWeights(m, sizes, g, c0, c1 - 1) + ColWeight(m, sizes, c1 - 1, g)
  }

  lemma {:induction false} RowWeightsAreBlockSum(m: seq<seq<int>>, sizes: seq<nat>, g: nat, r0: nat, r1: nat)
    requires Fits(m, sizes) && g < |sizes| && r1 <= |m|
    ensures GroupStart(sizes, g) + sizes[g] <= |m|
    ensures RowWeights(m, sizes, g, r0, r1) ==
      BlockSum(m, r0, r1, GroupStart(sizes, g), GroupStart(sizes, g) + sizes[g])
    decreases r1
  {
    GroupStartStep(sizes, g);
    if r0 < r1 {
      RowWeightsAreBlockSum(m, sizes, g, r0, r1 - 1);
    }
  }

  lemma {:induction false} ColWeightsAreBlockSum(m: seq<seq<int>>, sizes: seq<nat>, g: nat, c0: nat, c1: nat)
    requires Fits(m, sizes) && g < |sizes| && c0 <= c1 <= |m|
    ensures GroupStart(sizes, g) + sizes[g] <= |m|
    ensures ColWeights(m, sizes, g, c0, c1) ==
      BlockSum(m, GroupStart(sizes, g), GroupStart(sizes, g) + sizes[g], c0, c1)
    decreases c1
  {
    GroupStartStep(sizes, g);
    var rFrom := GroupStart(sizes, g);
    var rTo := rFrom + sizes[g];
    if c0 == c1 {
      BlockSumNoColumns(m, rFrom, rTo, c0);
    } else {
      ColWeightsAreBlockSum(m, sizes, g, c0, c1 - 1);
      BlockSumSplitCols(m, rFrom, rTo, c0, c1 - 1, c1);
      BlockSumOneColumn(m, rFrom, rTo, c1 - 1);
    }
  }

  /**
   * _block_weight(i, j) is the row_weight against j of every row of group
   * i added up, and equally the col_weight against i of every column of
   * group j added up.
   */
  lemma BlockWeightFromRowsAndColumns(m: seq<seq<int>>, sizes: seq<nat>, i: nat, j: nat)
    requires Fits(m, sizes) && i < |sizes| && j < |sizes|
    ensures GroupStart(sizes, i) + sizes[i] <= |m| && GroupStart(sizes, j) + sizes[j] <= |m|
    ensures BlockWeight(m, sizes, i, j) ==
      RowWeights(m, sizes, j, GroupStart(sizes, i), GroupStart(sizes, i) + sizes[i])
    ensures BlockWeight(m, sizes, i, j) ==
      ColWeights(m, sizes, i, GroupStart(sizes, j), GroupStart(sizes, j) + sizes[j])
  {
    BlockWeightFromRows(m, sizes, i, j);
    BlockWeightFromColumns(m, sizes, i, j);
  }

  lemma BlockWeightFromRows(m: seq<seq<int>>, sizes: seq<nat>, i: nat, j: nat)
    requires Fits(m, sizes) && i < |sizes| && j < |sizes|
    ensures GroupStart(sizes, i) + sizes[i] <= |m|
    ensures BlockWeight(m, sizes, i, j) ==
      RowWeights(m, sizes, j, GroupStart(sizes, i), GroupStart(sizes, i) + sizes[i])
  {
    BlockWeightIsBlockSum(m, sizes, i, j);
    RowWeightsAreBlockSum(m, sizes, j, GroupStart(sizes, i), GroupStart(sizes, i) + sizes[i]);
  }

  lemma BlockWeightFromColumns(m: seq<seq<int>>, sizes: seq<nat>, i: nat, j: nat)
    requires Fits(m, sizes) && i < |sizes| && j < |sizes|
    ensures GroupStart(sizes, j) + sizes[j] <= |m|
    ensures BlockWeight(m, sizes, i, j) ==
      ColWeights(m, sizes, i, GroupStart(sizes, j), GroupStart(sizes, j) + sizes[j])
  {
    BlockWeightIsBlockSum(m, sizes, i, j);
    ColWeightsAreBlockSum(m, sizes, i, GroupStart(sizes, j), GroupStart(sizes, j) + sizes[j]);
  }

  // ---------------------------------------------------------------------
  // The guards for empty groups change nothing

  lemma BlockWeightIsBlockSum(m: seq<seq<int>>, sizes: seq<nat>, i: nat, j: nat)
    requires Fits(m, sizes) && i < |sizes| && j < |sizes|
    ensures GroupStart(sizes, i) + sizes[i] <= |m| && GroupStart(sizes, j) + sizes[j] <= |m|
    ensures BlockWeight(m, sizes, i, j) == BlockSum(m, GroupStart(sizes, i), GroupStart(sizes, i) + sizes[i],
                                                    GroupStart(sizes, j), GroupStart(sizes, j) + sizes[j])
  {
    GroupStartStep(sizes, i);
    GroupStartStep(sizes, j);
    if sizes[j] == 0 {
      BlockSumNoColumns(m, GroupStart(sizes, i), GroupStart(sizes, i) + sizes[i], GroupStart(sizes, j));
    }
  }

  lemma RowWeightIsRowSum(m: seq<seq<int>>, sizes: seq<nat>, row: nat, g: nat)
    requires Fits(m, sizes) && row < |m| && g < |sizes|
    ensures GroupStart(sizes, g) + sizes[g] <= |m|
    ensures RowWeight(m, sizes, row, g) == RowSum(m, row, GroupStart(sizes, g), GroupStart(sizes, g) + sizes[g])
  {
    GroupStartStep(sizes, g);
  }

  lemma ColWeightIsColSum(m: seq<seq<int>>, sizes: seq<nat>, col: nat, g: nat)
    requires Fits(m, sizes) && col < |m| && g < |sizes|
    ensures GroupStart(sizes, g) + sizes[g] <= |m|
    ensures ColWeight(m, sizes, col, g) == ColSum(m, col, GroupStart(sizes, g), GroupStart(sizes, g) + sizes[g])
  {
    GroupStartStep(sizes, g);
  }

  /** Cell (r, x) cut out of a row sum. */
  lemma CutCellFromRow(m: seq<seq<int>>, r: nat, c0: nat, x: nat, c1: nat)
    requires Square(m) && r < |m| && c0 <= x < c1 <= |m|
    ensures RowSum(m, r, c0, c1) == RowSum(m, r, c0, x) + m[r][x] + RowSum(m, r, x + 1, c1)
  {
    RowSumSplit(m, r, c0, x, c1);
    RowSumSplit(m, r, x, x + 1, c1);
  }

  /** Cell (x, c) cut out of a column sum. */
  lemma CutCellFromColumn(m: seq<seq<int>>, c: nat, r0: nat, x: nat, r1: nat)
    requires Square(m) && c < |m| && r0 <= x < r1 <= |m|
    ensures ColSum(m, c, r0, r1) == ColSum(m, c, r0, x) + m[x][c] + ColSum(m, c, x + 1, r1)
  {
    ColSumSplit(m, c, r0, x, r1);
    ColSumSplit(m, c, x, x + 1, r1);
  }
}
