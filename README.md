# Autopart bookkeeping, modelled and verified in Dafny

Autopart (Cross-Associations) clusters the nodes of an unweighted graph into
k node groups. It chooses the grouping that minimises a description length
measured in bits. The adjacency matrix is kept permuted so that every group
occupies one contiguous band of rows and columns. The cost is a sum of
floating-point logarithms over the blocks of that matrix. Around it sits
exact, sequential bookkeeping, and that bookkeeping is what this project
models and proves:

- **The grouping state** (`autopart.dfy`, class `Clustering.Autopart`).
  - The object holds the matrix (`adj`, an `array2<int>`) and the three
    dictionaries: `map_g_n` (`groupNodes`), `map_n_g` (`nodeGroup`) and
    `map_n_r` (`nodeRow`). It also holds the cached block weights `w` and
    densities `P`.
  - `Valid()` says four things:
    - the matrix is the input graph with node v moved to row and column
      `nodeRow[v]`;
    - the dictionaries form a partition of the nodes 0..n-1 into the k
      groups;
    - every group sits in the band of rows `group_start_idx` gives it;
    - `w` and `P` are the block weights and densities of the current
      matrix.
  - `__init__` and `_recalculate_block_properties` establish `Valid()`.
    `_recalculate_block_properties` needs only the matrix placement and the
    grouping to agree, and it makes the caches match them.
  - `_add_new_group`, `_move_node_to_new_group` and
    `_rearrange_matrix_and_mappings` preserve `Valid()`. Each states its new
    dictionaries, including the new `map_n_r` wherever the matrix is
    rearranged.
  - `outlier_score` is modelled with the total cost as a parameter. Its
    method proves that `w` and `P` are restored.
- **The in-place symmetric permutation** (`permute.dfy`). Both loops of
  `_rearrange_matrix_and_mappings` are modelled: the row pass and the column
  pass, with the `temp` save buffer and the `used` set. Each pass is proved
  to move row (column) `order_row[idx]` to position `idx`. Both passes
  together relabel the matrix symmetrically, and `used` ends with n entries,
  so the two `assert`s hold.
- **The contiguous layout** (`grouping.dfy`). `order_node` concatenates the
  groups' members, `group_start_idx` is a prefix sum of group sizes, and the
  new `map_n_r` sends the node at position p of `order_node` to row p.
  Every group then occupies exactly the rows of its block.
- **Block statistics** (`blocks.dfy`): `block_size`, `_block_weight`,
  `row_weight`, `col_weight` and the smoothed density `_block_density`.
  Weights lie between 0 and the block size. Densities lie strictly between
  0 and 1. A block's weight is the sum of its rows' row weights, and also of
  its columns' column weights.
- **Integer description-cost terms** (`description.dfy`):
  `description_cost_group_sizes` and `description_cost_block_weights`, with
  `ceil(log2 x)` taken as the least b such that 2^b >= x. The source
  computes it in floating point, which differs at some large powers of two
  (see Left out).
  - Where the source would take the logarithm of a non-positive number (a
    math domain error), the model returns `None`.
  - With every group non-empty the cost is defined. With two empty groups it
    is not.
  - One node next to an empty group already gives `a(0) = 0`, so a
    one-node graph fails as soon as a second group is added.
- **The integer part of `group_entropy_per_node_exclude`**
  (`exclusion.dfy`). These are the sizes, inclusion–exclusion weights and
  smoothed densities of the blocks that row/column x leaves behind. For the
  same group and for other non-empty groups the source's formulas agree with
  the corrected ones and are proved equal to the weights of the actual
  sub-blocks. For the newest group and for an empty other group the source's
  formulas are wrong (see Findings). There the corrected `Exclude` is proved
  equal to the actual post-move blocks, and every corrected block is proved
  to fit inside its size.
- **The reassignment step of the inner loop** (`inner_loop.dfy`). Every node
  goes to the first group of least rearrange cost, as Python's `min` picks
  it. The result is a partition of the nodes into k groups, so the
  consistency check of the following rearrangement passes. The rearrange
  cost is a parameter.

Nodes are the integers 0..n-1, and `graph.nodes()` lists them in that order.
Python's iteration over a set of nodes is modelled as ascending order of the
node identifiers. Sums of matrix slices are integers. The source converts
them to `float`, which is exact for these magnitudes.

## Model

| member | source | states |
|---|---|---|
| Numbers.CeilLog2 | algorithms/autopart.py:345 | ceil(log2 x) is the least b with 2^b >= x |
| Numbers.CeilLog2IsZeroOnlyAtOne | algorithms/autopart.py:324 | ceil(log2 x) is 0 exactly when x = 1 |
| Numbers.SortDescending | algorithms/autopart.py:334 | sorted(..., reverse=True): the result is descending and a permutation of its input |
| Numbers.Range | algorithms/autopart.py:46 | the initial group holds exactly the nodes 0..n-1 |
| Numbers.RangeSize | algorithms/autopart.py:46 | the initial group has n members |
| Numbers.DistinctElements | algorithms/autopart.py:148 | a list without repetitions has as many elements as its set (len(used) == n at the end of a pass) |
| Grouping.Sizes | algorithms/autopart.py:432-436 | group_size for every group: the number of members of each group, in group order |
| Grouping.GroupStart | algorithms/autopart.py:441-442 | group_start_idx: the sizes of groups 0..g-1 added up |
| Grouping.NodeOrder | algorithms/autopart.py:123 | order_node: the members of groups 0..g-1, concatenated group by group |
| Grouping.MoveNode | algorithms/autopart.py:105-107 | map_g_n after the move: the node removed from its group and added to the target group |
| Grouping.RowsFromOrder | algorithms/autopart.py:169 | the new map_n_r: every node gets its position in order_node as its row |
| Grouping.GroupStartStep | algorithms/autopart.py:441-442 | group g+1 starts where group g ends, and every block ends within the total of the sizes |
| Grouping.GroupBlocksOrdered | algorithms/autopart.py:441-442 | an earlier group's block ends before a later group's block starts |
| Grouping.MembersFacts | algorithms/autopart.py:123 | enumerating a group lists exactly its members below n, each once |
| Grouping.MembersCount | algorithms/autopart.py:123 | enumerating a set of nodes lists as many nodes as the set has |
| Grouping.MembersAreNodes | algorithms/autopart.py:105-107 | in a partition every member of group g is a node whose map_n_g entry is g |
| Grouping.NodeOrderFacts | algorithms/autopart.py:123 | order_node over groups 0..g-1 has group_start_idx(g) entries, lists each node of those groups once, and its entry at p belongs to the group whose rows contain p |
| Grouping.PartitionTotal | algorithms/autopart.py:121 | for a partition the group sizes add up to the number of nodes: the consistency check holds |
| Grouping.GroupOccupiesItsBlock | algorithms/autopart.py:441-442 | with a contiguous layout group g's members occupy exactly the rows group_start_idx(g) .. group_start_idx(g)+group_size(g)-1 |
| Grouping.MovePreservesPartition | algorithms/autopart.py:105-107 | moving a node keeps a partition: only the source and target groups change, by one member each, and the total size is unchanged |
| Grouping.AddGroupPreservesPartition | algorithms/autopart.py:96-98 | an empty group appended at index k keeps the partition and the layout and adds a size 0 |
| Grouping.RearrangedLayout | algorithms/autopart.py:166-169 | after a rearrangement map_n_r is a bijection, sends the node at position p of order_node to row p, and the layout is contiguous |
| Blocks.BlockSize | algorithms/autopart.py:355-359 | block_size(i, j): the product of the two group sizes |
| Blocks.BlockWeight | algorithms/autopart.py:66-77 | _block_weight: the cells in the rows of group i and the columns of group j, added up; 0 when either group is empty |
| Blocks.RowWeight | algorithms/autopart.py:447-456 | row_weight: the cells of one row in the columns of group g, added up; 0 for an empty group |
| Blocks.ColWeight | algorithms/autopart.py:374-383 | col_weight: the cells of one column in the rows of group g, added up; 0 for an empty group |
| Blocks.Density | algorithms/autopart.py:59-64 | the smoothed density (w + 0.5)/(n + 1) of _block_density and of the local P at lines 400-401 |
| Blocks.WeightTable | algorithms/autopart.py:86 | the cached table w: the block weight of every ordered pair of groups |
| Blocks.DensityTable | algorithms/autopart.py:88 | the cached table P: the smoothed density of every block, from the cached weights |
| Blocks.RowSumBounds | algorithms/autopart.py:454 | a slice of a row of a 0/1 matrix sums to between 0 and its length |
| Blocks.ColSumBounds | algorithms/autopart.py:381 | a slice of a column of a 0/1 matrix sums to between 0 and its length |
| Blocks.BlockSumBounds | algorithms/autopart.py:75 | a rectangle of a 0/1 matrix sums to between 0 and its number of cells |
| Blocks.BlockWeightBounds | algorithms/autopart.py:66-77 | 0 <= w(D_i,j) <= block_size(i, j) = a_i * a_j |
| Blocks.RowWeightBounds | algorithms/autopart.py:447-456 | 0 <= row_weight(x, g) <= group_size(g) |
| Blocks.ColWeightBounds | algorithms/autopart.py:374-383 | 0 <= col_weight(x, g) <= group_size(g) |
| Blocks.DensityInOpenUnitInterval | algorithms/autopart.py:59-64 | (w + 0.5)/(n + 1) lies strictly between 0 and 1 whenever 0 <= w <= n |
| Blocks.BlockDensityBounds | algorithms/autopart.py:59-64 | every block density of a 0/1 matrix lies strictly between 0 and 1 |
| Blocks.BlockWeightIsBlockSum | algorithms/autopart.py:74-77 | the empty-group guard changes nothing: w(D_i,j) is the sum over the rows of i and columns of j |
| Blocks.RowWeightIsRowSum | algorithms/autopart.py:453-456 | the empty-group guard of row_weight changes nothing |
| Blocks.ColWeightIsColSum | algorithms/autopart.py:380-383 | the empty-group guard of col_weight changes nothing |
| Blocks.RowWeightsAreBlockSum | algorithms/autopart.py:447-456 | row_weight against group g summed over rows r0..r1-1 is the block of those rows and g's columns |
| Blocks.ColWeightsAreBlockSum | algorithms/autopart.py:374-383 | col_weight against group g summed over columns c0..c1-1 is the block of g's rows and those columns |
| Blocks.BlockWeightFromRows | algorithms/autopart.py:447-456 | w(D_i,j) is the sum of row_weight(x, j) over the rows x of group i |
| Blocks.BlockWeightFromColumns | algorithms/autopart.py:374-383 | w(D_i,j) is the sum of col_weight(x, i) over the columns x of group j |
| Blocks.BlockWeightFromRowsAndColumns | algorithms/autopart.py:66-77 | w(D_i,j) equals both the summed row weights and the summed column weights |
| Blocks.CutRow | algorithms/autopart.py:423 | a block is the rows above x, row x and the rows below x |
| Blocks.CutColumn | algorithms/autopart.py:424 | a block is the columns left of x, column x and the columns right of x |
| Blocks.CutCellFromRow | algorithms/autopart.py:410-411 | a row slice is its part left of x, cell x and its part right of x |
| Blocks.CutCellFromColumn | algorithms/autopart.py:410-411 | a column slice is its part above x, cell x and its part below x |
| Description.Remaining | algorithms/autopart.py:336-341 | a(g): 1 - k + g plus the descending sizes from g on |
| Description.SizeBits | algorithms/autopart.py:343-346 | ceil(log2 a(0)) + ... + ceil(log2 a(count-1)), or None when some a(g) is below 1 |
| Description.GroupSizesCost | algorithms/autopart.py:326-346 | description_cost_group_sizes: 0 for a single group, otherwise the size bits of the descending sizes over k-1 groups |
| Description.BlockWeightsCost | algorithms/autopart.py:320-324 | description_cost_block_weights: ceil(log2(block_size(i, j) + 1)) summed over every pair of groups |
| Description.ComputeRemaining | algorithms/autopart.py:336-341 | the inner loop a(g) computes 1 - k + g plus the sizes from g on |
| Description.AddSizeBits | algorithms/autopart.py:343-346 | the accumulator loop computes the sum of ceil(log2 a(g)), or None where the source's log2 fails |
| Description.DescriptionCostGroupSizes | algorithms/autopart.py:326-346 | description_cost_group_sizes: 0 for k = 1, otherwise the size bits of the descending sizes |
| Description.NoneStaysNone | algorithms/autopart.py:344-345 | once one a(g) fails, every longer sum fails too |
| Description.SizeBitsDefinedIff | algorithms/autopart.py:343-346 | the sum is defined exactly when every a(g) it takes the logarithm of is at least 1 |
| Description.PositiveSuffix | algorithms/autopart.py:339-340 | with all sizes positive, the sorted sizes from g on add up to at least k - g |
| Description.NonEmptyGroupsHaveSizeCost | algorithms/autopart.py:334-346 | with every group non-empty the group-size cost is defined |
| Description.LastTwoAreZero | algorithms/autopart.py:334 | two empty groups are the last two of the descending sizes |
| Description.LastTwoRemaining | algorithms/autopart.py:338-341 | a(k-2) is the two smallest sizes minus one |
| Description.TwoEmptyGroupsHaveNoSizeCost | algorithms/autopart.py:334-346 | with two empty groups a(k-2) = -1 and the group-size cost is undefined |
| Description.OneNodeAndAnEmptyGroupHaveNoSizeCost | algorithms/autopart.py:330-346 | sizes [1, 0] give a(0) = 0, so the cost is undefined |
| Description.CellBitsZeroIff | algorithms/autopart.py:324 | a block needs no bits exactly when it has no cells |
| Description.RowWeightBitsZeroIff | algorithms/autopart.py:324 | the bits of blocks (i, 0..c-1) are 0 exactly when all those blocks are empty |
| Description.WeightBitsZeroIff | algorithms/autopart.py:324 | the bits of the first rows of blocks are 0 exactly when all those blocks are empty |
| Description.BlockWeightsCostZeroIff | algorithms/autopart.py:320-324 | description_cost_block_weights is 0 exactly when every group is empty |
| Description.RowWeightBitsAtLeast | algorithms/autopart.py:324 | with non-empty groups each block of a row needs at least one bit |
| Description.WeightBitsAtLeast | algorithms/autopart.py:324 | with non-empty groups the first c rows of blocks need at least c*k bits |
| Description.NonEmptyBlocksCostAtLeastOneBitEach | algorithms/autopart.py:320-324 | with non-empty groups description_cost_block_weights is at least k*k |
| Exclusion.ExcludeAsWritten | algorithms/autopart.py:405-426 | the sizes and weights of the two blocks for group j, branch by branch as the loop body computes them, densities left at 0 when no branch runs |
| Exclusion.Exclude | algorithms/autopart.py:405-426 | the same with the two corrections: the newest-group weights leave out cell(x, x), and an empty other group gets an empty block of density 1/2 |
| Exclusion.ExcludeGroup | algorithms/autopart.py:395-426 | the corrected group_entropy_per_node_exclude up to its entropy sum: the early return for groups of at most one node, otherwise the blocks of the corrected Exclude for every group j in order; these agree with the source for the same group and for non-empty other groups (SameGroupExclusion, OtherGroupExclusion) |
| Exclusion.BoundedIsSound | algorithms/autopart.py:400-401 | P(w, n) of weights within the block lies strictly inside (0, 1) |
| Exclusion.WithoutRowAndColumnBounds | algorithms/autopart.py:409 | a block of s rows and columns without row and column x weighs between 0 and (s-1)^2 |
| Exclusion.WithoutRowBounds | algorithms/autopart.py:422 | a block without row x weighs between 0 and its remaining cells |
| Exclusion.WithoutColumnBounds | algorithms/autopart.py:422 | a block without column x weighs between 0 and its remaining cells |
| Exclusion.MovedOutWeightBounds | algorithms/autopart.py:415 | block (g without x, k-1 with x) weighs between 0 and (s-1)(a_j+1) |
| Exclusion.MovedInWeightBounds | algorithms/autopart.py:415 | block (k-1 with x, g without x) weighs between 0 and (s-1)(a_j+1) |
| Exclusion.SameGroupWeight | algorithms/autopart.py:410-411 | w(g,g) - row_weight(x,g) - col_weight(x,g) + cell(x,x) is block (g,g) without row and column x |
| Exclusion.OtherGroupWeights | algorithms/autopart.py:423-424 | w(g,j) - row_weight(x,j) deletes row x, and w(j,g) - col_weight(x,j) deletes column x |
| Exclusion.NewestGroupWeights | algorithms/autopart.py:416-417 | the corrected newest-group formulas are the weights of blocks (g, k-1) and (k-1, g) after x moves |
| Exclusion.SameGroupExclusion | algorithms/autopart.py:407-412 | same group: size (s-1)^2, the weight of block (g,g) without row and column x, within the size; as written and corrected agree |
| Exclusion.OtherGroupExclusion | algorithms/autopart.py:420-426 | other non-empty group: size (s-1)a_j, the weights of the blocks without row x or column x, within the size; as written and corrected agree |
| Exclusion.NewestGroupExclusion | algorithms/autopart.py:413-419 | newest group, corrected: size (s-1)(a_j+1), the weights of the post-move blocks, within the size |
| Exclusion.EmptyGroupExclusion | algorithms/autopart.py:420-426 | an empty other group, corrected: a block without cells and density 1/2 |
| Exclusion.ExcludeGroupIsSound | algorithms/autopart.py:395-426 | the early return happens exactly for groups of at most one node; otherwise every block of the corrected Exclude handed to the entropy sum has weight within size and density in (0, 1) |
| Exclusion.NewestGroupAsWritten | algorithms/autopart.py:413-417 | as written the newest-group weights exceed the post-move weights by cell(x,x) |
| Exclusion.SelfLoopOverflowsBlock | algorithms/autopart.py:416-417 | as written, a self-loop gives a 2-cell block weight 3 and density above 1; corrected, weight 2 |
| Exclusion.EmptyGroupAsWritten | algorithms/autopart.py:421-427 | as written an empty other group keeps density 0, whose log2 is undefined; corrected, 1/2 |
| InnerLoop.FirstMinimum | algorithms/autopart.py:211 | min over groups(): a group of least cost, every earlier group strictly costlier |
| InnerLoop.Reassign | algorithms/autopart.py:206-213 | the new dictionaries form a partition of the n nodes into k groups, each node in its first cheapest group, sizes adding up to n |
| Permute.Permuted | algorithms/autopart.py:125-165 | both passes: cell (i, j) of the result is cell (order[i], order[j]) of the input |
| Permute.WriteRow | algorithms/autopart.py:143 | adj_matrix[idx, :] = row changes row idx only |
| Permute.WriteColumn | algorithms/autopart.py:160 | adj_matrix[:, idx] = column changes column idx only |
| Permute.RowStep | algorithms/autopart.py:132-147 | one row iteration keeps the pass state: rows before idx+1 moved, later rows untouched, temp holds original rows, every earlier position used or saved |
| Permute.PermuteRows | algorithms/autopart.py:131-148 | the row pass: row idx becomes the original row order_row[idx] |
| Permute.ColumnStep | algorithms/autopart.py:152-163 | one column iteration keeps the column pass state |
| Permute.PermuteColumns | algorithms/autopart.py:151-165 | the column pass: column idx becomes the original column order_row[idx] |
| Permute.PermuteSymmetric | algorithms/autopart.py:125-165 | the two passes relabel the matrix symmetrically by order_row |
| Clustering.OrderRows | algorithms/autopart.py:125 | order_row: the current row of the node at each position of order_node |
| Clustering.OutlierDensityAsWritten | algorithms/autopart.py:472 | the density outlier_score writes: the decremented weight over the block size, unsmoothed |
| Clustering.OutlierDensityAgreesIff | algorithms/autopart.py:472 | the written and the smoothed density agree exactly when size = 2(w-1); for every other block the score differs |
| Clustering.OrderRowsIsPermutation | algorithms/autopart.py:125 | order_row of a partition's order_node is a permutation of the rows |
| Clustering.SingleEdgeBlockGetsZeroDensity | algorithms/autopart.py:471-472 | as written, a block with one edge gets density 0 after the decrement |
| Clustering.OutlierDensity | algorithms/autopart.py:472 | the corrected density of the block with one edge fewer lies strictly inside (0, 1) |
| Clustering.Put | algorithms/autopart.py:471-472 | writing one cell of a table sets that cell, keeps every row's length and leaves every other cell unchanged |
| Clustering.PutBack | algorithms/autopart.py:474 | writing the saved value back restores the table |
| Clustering.RearrangementKeepsPlacement | algorithms/autopart.py:123-169 | relabelling by order_row keeps the matrix equal to the graph placed by the new map_n_r, the dictionaries agree, and each node pair's cell moves with the nodes |
| Clustering.AddGroupKeepsGrouping | algorithms/autopart.py:96-98 | appending an empty group keeps the dictionaries in agreement and adds a size 0 |
| Clustering.NewMatrix | algorithms/autopart.py:42 | the adjacency matrix is a fresh array holding the graph's matrix |
| Clustering.Autopart.constructor | algorithms/autopart.py:41-51 | one group holding every node, node v at row v, the caches computed, the object consistent |
| Clustering.Autopart.InitialState | algorithms/autopart.py:43-48 | the initial dictionaries form a partition with a contiguous layout over the unpermuted graph |
| Clustering.Autopart.RecalculateBlockProperties | algorithms/autopart.py:79-88 | w and P become the block weights and densities of the current matrix, and the object is consistent |
| Clustering.Autopart.CachedBlocksAreSound | algorithms/autopart.py:348-366 | every cached weight lies in [0, block_size] and every cached density in (0, 1) |
| Clustering.Autopart.GroupOccupiesItsRows | algorithms/autopart.py:441-442 | group g's members occupy exactly the rows of its block |
| Clustering.Autopart.AddNewGroup | algorithms/autopart.py:90-99 | k grows by one, an empty group k-1 is appended, existing groups are unchanged, the object stays consistent |
| Clustering.Autopart.MoveNodeToNewGroup | algorithms/autopart.py:101-110 | the node leaves its group for group k-1, only its map_n_g entry changes, the node at position p of the new order_node gets row p, the object stays consistent |
| Clustering.Autopart.RearrangeMatrixAndMappings | algorithms/autopart.py:112-171 | the dictionaries take the new partition, the node at position p of order_node gets row p, every cell moves with its two nodes, the object stays consistent |
| Clustering.Autopart.ReassignAndRearrange | algorithms/autopart.py:206-217 | every node ends in its first cheapest group, the node at position p of the new order_node gets row p, and the object stays consistent |
| Clustering.Autopart.OutlierScore | algorithms/autopart.py:465-475 | 0 for a block without edges; otherwise the cost drop with one edge taken out of the block; w and P restored |

## Left out

- The floating-point objective is not modelled: `log2`, `log_star`,
  `block_code_cost`, `code_cost`, `description_cost`, `total_cost`,
  `rearrange_cost`, `group_entropy_per_node`, and the entropy sum and
  division of `group_entropy_per_node_exclude`. They are real logarithms with
  no exact counterpart. Where they are needed they are parameters.
- `_run` and the loop around `_inner_loop` are not modelled. Their
  termination depends on the float costs. The cost-decrease theorems exist
  only as commented-out assertions.
- `_report_code_cost`, `_report_adj_matrix`, `_plot_adj_matrix`,
  `show_result`, the logging set-up and the `step` counter are left out.
  They are plotting and logging side effects.
- `nx.adjacency_matrix(...).tolil()` is a library call. The constructor
  takes the 0/1 matrix directly, with nodes 0..n-1 in `graph.nodes()`
  order. It does not call `_run`.
- Python's iteration order over a set is not specified. Members are
  enumerated in ascending order.
- `group_sizes`, `clusters`, `nodes`, `cell` and `groups` are plain
  accessors. They appear as `Sizes`, the fields, `m[x][x]` and `0..k-1`.
- Clustering.Autopart.RearrangeMatrixAndMappings: requires the new
  dictionaries to form a partition of the nodes. The source checks only that
  the counts agree (line 121). A map that lists a node twice passes that
  check. order_row then repeats a row, the row pass runs to its end, and
  the assertion `len(used) == order` at line 148 fails.
- Permute.PermuteRows: requires order_row to be a permutation. The source
  checks this only afterwards, through `len(used)`. The same holds for
  Permute.PermuteColumns.
- Clustering.Autopart.RecalculateBlockProperties: requires the matrix and
  the dictionaries to agree. That holds at every call in the source. A call
  on an inconsistent state is not modelled.
- Clustering.Autopart.ReassignAndRearrange: the rearrange cost is a fixed
  function of (node, group). It is evaluated on the state before the step,
  as the source's loop does, since the state does not change during the
  loop.
- Clustering.Autopart.OutlierScore: the total cost is a parameter over the
  tables `w` and `P`. The changed density uses the corrected smoothed
  formula (see Findings). This changes the score for almost every block,
  not only at the w = 1 crash. The two densities agree only when
  size = 2(w-1) (Clustering.OutlierDensityAgreesIff). At w = 2 and size 4,
  for example, the source writes 0.25 and the model 0.3.
- Numbers.CeilLog2: is the exact integer ceiling of log2. The source
  computes `ceil(log(x, 2))` in floating point, and that is one too high at
  some large powers of two (2^29, 2^31, 2^39, 2^47 among them). So
  description_cost_block_weights differs from the model when some
  a_i * a_j + 1 is such a power, and description_cost_group_sizes differs
  when some a(g) is. The first needs a block of about 5·10^8 cells, the
  second a graph of about 5·10^8 nodes.
- The row and column slices that the passes save into `temp` are modelled
  as copies. A sliced sparse matrix is a copy, so no aliasing between
  `temp` and the matrix is modelled.

## Findings

| source | as written | input that shows it | evidently intended | confidence | as-written member | corrected member |
|---|---|---|---|---|---|---|
| algorithms/autopart.py:416-417 | the newest-group weights add col_weight(x, g) and row_weight(x, g), which still count cell(x, x) | three nodes with all edges and self-loops, all in group 0, empty newest group 1, x = 0: the 2-cell block gets weight 3 and density 7/6 > 1 | subtract cell(x, x), so the weights are those of the blocks after x moves | not executed; medium (self-loops are allowed in the input graph) | Exclusion.SelfLoopOverflowsBlock | Exclusion.NewestGroupExclusion |
| algorithms/autopart.py:421 | an empty group other than g and the newest skips the branch and leaves p_rj = p_jr = 0, and line 427 then takes log2(0) | group_size(j) = 0 for some j other than g and k-1, with group_size(g) > 1 | an empty block contributes nothing: no cells and the smoothed density 1/2 | not executed; high | Exclusion.EmptyGroupAsWritten | Exclusion.EmptyGroupExclusion |
| algorithms/autopart.py:472 | the density after taking one edge out is (w-1)/n, without the smoothing of _block_density | a block with exactly one edge: P becomes 0, and block_code_cost takes log2(0) | the smoothed density (w-1+0.5)/(n+1), as _block_density computes it; this also changes the score of every block with size other than 2(w-1), e.g. P = 0.3 instead of 0.25 at w = 2, size 4 | not executed; high | Clustering.SingleEdgeBlockGetsZeroDensity | Clustering.OutlierDensity |
