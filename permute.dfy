/**
 * The in-place symmetric permutation of the adjacency matrix done by
 * _rearrange_matrix_and_mappings: a row pass and then a column pass, each
 * walking the target positions in order, saving a row (column) into a
 * temporary map before it is overwritten unless it has already been
 * used, and pulling the source row (column) either from that map or
 * straight from the matrix.
 */
module Permute {
  import opened Numbers
  import opened Blocks

  /** order_row is a permutation of the row numbers 0..n-1. */
  predicate IsPermutation(order: seq<int>, n: nat)
  {
    |order| == n && (forall i :: 0 <= i < n ==> 0 <= order[i] < n) && Distinct(order)
  }

  // ---------------------------------------------------------------------
  // Specification on values

  /** Row i of the result is row order[i] of g. */
  function PermuteRowsOf(g: seq<seq<int>>, order: seq<int>): (r: seq<seq<int>>)
    requires forall i :: 0 <= i < |order| ==> 0 <= order[i] < |g|
  {
    seq(|order|, i requires 0 <= i < |order| => g[order[i]])
  }

  /** Column j of the result is column order[j] of g. */
  function PermuteColumnsOf(g: seq<seq<int>>, order: seq<int>): (r: seq<seq<int>>)
    requires Square(g) && forall j :: 0 <= j < |order| ==> 0 <= order[j] < |g|
  {
    seq(|g|, i requires 0 <= i < |g| =>
      seq(|order|, j requires 0 <= j < |order| => g[i][order[j]]))
  }

  /** Both passes: cell (i, j) of the result is cell (order[i], order[j]) of g. */
  function Permuted(g: seq<seq<int>>, order: seq<int>): (r: seq<seq<int>>)
    requires Square(g) && IsPermutation(order, |g|)
    ensures Square(r) && |r| == |g|
    ensures forall i, j :: 0 <= i < |g| && 0 <= j < |g| ==> r[i][j] == g[order[i]][order[j]]
  {
    PermuteColumnsOf(PermuteRowsOf(g, order), order)
  }

  /** A relabelled 0/1 matrix is still a 0/1 matrix. */
  lemma PermutedIsZeroOne(g: seq<seq<int>>, order: seq<int>)
    requires ZeroOne(g) && IsPermutation(order, |g|)
    ensures ZeroOne(Permuted(g, order))
  {
  }

  // ---------------------------------------------------------------------
  // The matrix and its rows

  function Row(a: array2<int>, r: nat): seq<int>
    requires r < a.Length0
    reads a
  {
    seq(a.Length1, j requires 0 <= j < a.Length1 reads a => a[r, j])
  }

  function Column(a: array2<int>, c: nat): seq<int>
    requires c < a.Length1
    reads a
  {
    seq(a.Length0, i requires 0 <= i < a.Length0 reads a => a[i, c])
  }

  /** The matrix as a sequence of its rows. */
  function Grid(a: array2<int>): (g: seq<seq<int>>)
    reads a
    ensures |g| == a.Length0 && forall i :: 0 <= i < a.Length0 ==> |g[i]| == a.Length1
    ensures forall i, j :: 0 <= i < a.Length0 && 0 <= j < a.Length1 ==> g[i][j] == a[i, j]
  {
    seq(a.Length0, i requires 0 <= i < a.Length0 reads a => Row(a, i))
  }

  /** Overwrite row r of the matrix with the given row. */
  method WriteRow(a: array2<int>, r: nat, row: seq<int>)
    requires r < a.Length0 && |row| == a.Length1
    modifies a
    ensures forall i, j :: 0 <= i < a.Length0 && 0 <= j < a.Length1 ==>
      a[i, j] == if i == r then row[j] else old(a[i, j])
  {
    var j := 0;
    while j < a.Length1
      invariant j <= a.Length1
      invariant forall i, c :: 0 <= i < a.Length0 && 0 <= c < a.Length1 ==>
        a[i, c] == if i == r && c < j then row[c] else old(a[i, c])
    {
      a[r, j] := row[j];
      j := j + 1;
    }
  }

  /** Overwrite column c of the matrix with the given column. */
  method WriteColumn(a: array2<int>, c: nat, column: seq<int>)
    requires c < a.Length1 && |column| == a.Length0
    modifies a
    ensures forall i, j :: 0 <= i < a.Length0 && 0 <= j < a.Length1 ==>
      a[i, j] == if j == c then column[i] else old(a[i, j])
  {
    var i := 0;
    while i < a.Length0
      invariant i <= a.Length0
      invariant forall r, j :: 0 <= r < a.Length0 && 0 <= j < a.Length1 ==>
        a[r, j] == if j == c && r < i then column[r] else old(a[r, j])
    {
      a[i, c] := column[i];
      i := i + 1;
    }
  }

  // ---------------------------------------------------------------------
  // The two passes

  /**
   * State of the row pass before target position idx: the rows before idx
   * hold their source rows, the rows from idx on are untouched, the
   * temporary map holds original rows, and every position before idx was
   * either consumed as a source or saved.
   */
  ghost predicate RowPass(a: array2<int>, orig: seq<seq<int>>, order: seq<int>, idx: int,
                          temp: map<int, seq<int>>, used: set<int>)
    reads a
  {
    var n := a.Length0;
    a.Length1 == n && IsPermutation(order, n) && 0 <= idx <= n &&
    |orig| == n && (forall r :: 0 <= r < n ==> |orig[r]| == n) &&
    (forall r, j :: 0 <= r < idx && 0 <= j < n ==> a[r, j] == orig[order[r]][j]) &&
    (forall r, j :: idx <= r < n && 0 <= j < n ==> a[r, j] == orig[r][j]) &&
    (forall v :: v in temp ==> 0 <= v < idx && temp[v] == orig[v]) &&
    (forall v :: 0 <= v < idx ==> v in used || v in temp) &&
    used == Elements(order[..idx])
  }

  /** One iteration of the row pass. */
  method RowStep(a: array2<int>, ghost orig: seq<seq<int>>, order: seq<int>, idx: int,
                 temp: map<int, seq<int>>, used: set<int>)
    returns (temp': map<int, seq<int>>, used': set<int>)
    requires RowPass(a, orig, order, idx, temp, used) && idx < a.Length0
    modifies a
    ensures RowPass(a, orig, order, idx + 1, temp', used')
  {
    temp', used' := temp, used;
    var rowNum := order[idx];
    assert order[..idx + 1] == order[..idx] + [rowNum];
    if idx == rowNum {
      used' := used + {rowNum};
    } else {
      if idx !in used {
        assert Row(a, idx) == orig[idx];
        temp' := temp[idx := Row(a, idx)];
      }
      assert rowNum !in used;
      if rowNum in temp' {
        WriteRow(a, idx, temp'[rowNum]);
      } else {
        assert Row(a, rowNum) == orig[rowNum];
        WriteRow(a, idx, Row(a, rowNum));
      }
      used' := used + {rowNum};
    }
    SavedOrUsedStep(used, temp.Keys, used', temp'.Keys, idx);
  }

  /**
   * Row pass: afterwards row idx holds the original row order[idx], and
   * the used set has one entry per row.
   */
  method PermuteRows(a: array2<int>, order: seq<int>)
    requires a.Length0 == a.Length1 && IsPermutation(order, a.Length0)
    modifies a
    ensures Grid(a) == PermuteRowsOf(old(Grid(a)), order)
  {
    var n := a.Length0;
    ghost var orig := Grid(a);
    var temp: map<int, seq<int>> := map[];
    var used: set<int> := {};
    var idx := 0;
    while idx < n
      invariant RowPass(a, orig, order, idx, temp, used)
    {
      temp, used := RowStep(a, orig, order, idx, temp, used);
      idx := idx + 1;
    }
    assert order[..n] == order;
    DistinctElements(order);
    assert |used| == n;
    GridIs(a, PermuteRowsOf(orig, order));
  }

  /** State of the column pass before target position idx, as for rows. */
  ghost predicate ColumnPass(a: array2<int>, orig: seq<seq<int>>, order: seq<int>, idx: int,
                             temp: map<int, seq<int>>, used: set<int>)
    reads a
  {
    var n := a.Length1;
    a.Length0 == n && IsPermutation(order, n) && 0 <= idx <= n &&
    |orig| == n && (forall r :: 0 <= r < n ==> |orig[r]| == n) &&
    (forall i, c :: 0 <= i < n && 0 <= c < idx ==> a[i, c] == orig[i][order[c]]) &&
    (forall i, c :: 0 <= i < n && idx <= c < n ==> a[i, c] == orig[i][c]) &&
    (forall v :: v in temp ==> 0 <= v < idx && |temp[v]| == n) &&
    (forall v, i :: v in temp && 0 <= i < n ==> temp[v][i] == orig[i][v]) &&
    (forall v :: 0 <= v < idx ==> v in used || v in temp) &&
    used == Elements(order[..idx])
  }

  /** One iteration of the column pass. */
  method ColumnStep(a: array2<int>, ghost orig: seq<seq<int>>, order: seq<int>, idx: int,
                    temp: map<int, seq<int>>, used: set<int>)
    returns (temp': map<int, seq<int>>, used': set<int>)
    requires ColumnPass(a, orig, order, idx, temp, used) && idx < a.Length1
    modifies a
    ensures ColumnPass(a, orig, order, idx + 1, temp', used')
  {
    temp', used' := temp, used;
    var colNum := order[idx];
    assert order[..idx + 1] == order[..idx] + [colNum];
    if idx == colNum {
      used' := used + {colNum};
    } else {
      if idx !in used {
        temp' := temp[idx := Column(a, idx)];
      }
      assert colNum !in used;
      if colNum in temp' {
        WriteColumn(a, idx, temp'[colNum]);
      } else {
        WriteColumn(a, idx, Column(a, colNum));
      }
      used' := used + {colNum};
    }
    SavedOrUsedStep(used, temp.Keys, used', temp'.Keys, idx);
  }

  /**
   * Column pass: afterwards column idx holds the original column
   * order[idx], and the used set has one entry per column.
   */
  method PermuteColumns(a: array2<int>, order: seq<int>)
    requires a.Length0 == a.Length1 && IsPermutation(order, a.Length1)
    modifies a
    ensures Grid(a) == PermuteColumnsOf(old(Grid(a)), order)
  {
    var n := a.Length1;
    ghost var orig := Grid(a);
    var temp: map<int, seq<int>> := map[];
    var used: set<int> := {};
    var idx := 0;
    while idx < n
      invariant ColumnPass(a, orig, order, idx, temp, used)
    {
      temp, used := ColumnStep(a, orig, order, idx, temp, used);
      idx := idx + 1;
    }
    assert order[..n] == order;
    DistinctElements(order);
    assert |used| == n;
    GridIs(a, PermuteColumnsOf(orig, order));
  }

  /**
   * Every position before the cursor has been either consumed as a source
   * or saved into the temporary map; the step keeps this for the cursor.
   */
  lemma SavedOrUsedStep(usedBefore: set<int>, savedBefore: set<int>, used: set<int>, saved: set<int>, idx: int)
    requires forall v :: 0 <= v < idx ==> v in usedBefore || v in savedBefore
    requires usedBefore <= used && savedBefore <= saved
    requires idx in used || idx in saved
    ensures forall v :: 0 <= v < idx + 1 ==> v in used || v in saved
  {
  }

  /** A matrix whose cells are those of g is g. */
  lemma GridIs(a: array2<int>, g: seq<seq<int>>)
    requires |g| == a.Length0 && forall i :: 0 <= i < |g| ==> |g[i]| == a.Length1
    requires forall i, j :: 0 <= i < a.Length0 && 0 <= j < a.Length1 ==> a[i, j] == g[i][j]
    ensures Grid(a) == g
  {
    var h := Grid(a);
    forall i | 0 <= i < |g| ensures h[i] == g[i] {
      assert |h[i]| == |g[i]|;
    }
  }

  /** Both passes together relabel the matrix symmetrically. */
  method PermuteSymmetric(a: array2<int>, order: seq<int>)
    requires a.Length0 == a.Length1 && IsPermutation(order, a.Length0)
    modifies a
    ensures Grid(a) == Permuted(old(Grid(a)), order)
  {
    PermuteRows(a, order);
    PermuteColumns(a, order);
  }
}
