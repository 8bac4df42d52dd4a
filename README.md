# climate-DL data preparation and example lookup, modelled in Dafny

The repository trains graph neural networks to downscale precipitation. A
coarse grid of low-resolution cells is laid over a dense set of
high-resolution stations, which are the nodes. This project models the code
that connects the two. It covers two places:

* the preprocessing script `preprocessing/preprocessing_graphs_and_targets.py`:
  - cutting the nodes to a lon/lat window;
  - assigning nodes to cells with `select_nodes`, in a row-major scan of the grid;
  - the lists of example cells (`valid_examples_space`) and graph cells (`graph_cells_space`);
  - the node filter;
  - the train/test split of the hourly time steps;
  - the classification and regression targets;
  - the edge list and its normalisation;
  - the flat example numbers `k = t * space + s` in `idx_test`, `idx_train_ae`, `idx_train_cl` and `idx_train_reg`;
* the dataset classes of `local_single_jan/dataset.py` and
  `local_single/dataset.py`:
  - decoding an example number back into a time step, a cell and the cell's row and column;
  - cutting the (25, ·, ·, 6, 6) input window;
  - selecting the target nodes of the cell.

Modules, one file each:

| module | file | models |
|---|---|---|
| `Common` | common.dfy | Python/numpy semantics the code relies on: negative indices and slices, boolean masks (`x[mask]`, `np.flatnonzero`), `list.sort`, `list.remove`, `sorted(set(...))`, and the exceptions the code can raise |
| `IndexCodec` | index_codec.dfy | cell numbering, example numbers and their decoding, the 3x3 block around a cell, the input window's slice bounds |
| `Window` | window.dfy | `cut_window` |
| `Cells` | cells.dfy | `select_nodes` on arrays, and the scan over all cells as nested loops |
| `GraphFilter` | graph_filter.dfy | the `mask_graph_cells_space` filter |
| `TimeSplit` | time_split.dfy | `subdivide_train_test_time_indexes` |
| `Targets` | targets.dfy | the target matrices |
| `Edges` | edges.dfy | the edge loop and the division by the column maxima |
| `Indices` | indices.dfy | the example-number lists |
| `Datasets` | datasets.dfy | `Dataset_pr`, `Dataset_pr_ae`, `Dataset_e`, `Dataset_pr_test`: their `__getitem__` bodies are the same in both training folders; the `Dataset_pr` constructors differ in argument order and defaults (`(args, pad=2, lat_dim=16, lon_dim=31)` in local_single_jan, `(args, lat_dim, lon_dim, pad=2)` in local_single), which `Config` abstracts |
| `DatasetJan` | dataset_jan.dfy | `Dataset_pr_gnn` and `Dataset_pr_ft_gnn` of local_single_jan |
| `DatasetSingle` | dataset_single.dfy | `Dataset_pr_gnn` of local_single |
| `Pipeline` | pipeline.dfy | how preprocessing and the datasets fit together |

How the source is represented:

* Precipitation is a matrix of `Option<real>`, where `None` is NaN.
* A computation that can raise returns `Result`. The error is `IndexError`,
  `ValueError`, `ZeroDivisionError`, `AttributeError`, or `ShapeError` for a
  failed tensor copy.
* Python's `//` and `%` are used only with positive divisors, where they
  agree with Dafny's.
* Code that updates state step by step is modelled as methods with loops:
  - `select_nodes` writes into arrays;
  - the scan, the edge loop, the index loop, the split and the `ft_gnn`
    encoding loop are methods.

  Each method is proved against a function that states its result.

Where the description of the system and the code differ, the model follows
the code:

* Cell boxes are closed on both ends (`>=` and `<=`), not half-open. A node
  on a border between two cells belongs to both 1-cell masks. Its cell
  number is that of the cell scanned last.
* The regression mask compares the stored `log1p(pr)` value with 0.1, not
  the raw precipitation.
* `Dataset_pr_ft_gnn.__getitem__` in local_single_jan reads
  `self.mask_9_cells`, which nothing sets. Every call therefore ends in an
  exception, and the model says which exception.

## Model

| member | source | states |
|---|---|---|
| Common.PyIndex | preprocessing/preprocessing_graphs_and_targets.py:97-98 | `s[i]` exists exactly for -len <= i < len; a negative index counts from the end |
| Common.SliceBound | preprocessing/preprocessing_graphs_and_targets.py:97-98 | Python's normalisation of a slice bound: negative bounds count from the end and are clamped to the list |
| Common.SliceSplit | preprocessing/preprocessing_graphs_and_targets.py:97-98 | `s[:k] + s[k:] == s` for every k, so the year before the test years is split between training and test with nothing lost |
| Common.KeptIndices | preprocessing/preprocessing_graphs_and_targets.py:295 | `np.flatnonzero`: the positions the mask keeps, increasing, each one set, and every set position is listed |
| Common.Select | preprocessing/preprocessing_graphs_and_targets.py:48-51 | `x[mask]` holds the entries at the kept positions, in order |
| Common.SelectTwice | local_single/dataset.py:99-101 | selecting with a, then with b restricted to a, equals selecting with `a & b` |
| Common.Sort | preprocessing/preprocessing_graphs_and_targets.py:101 | `list.sort()`: the result is sorted and a permutation of the input |
| Common.SortMembers | preprocessing/preprocessing_graphs_and_targets.py:101 | sorting keeps exactly the values of the list |
| Common.SortSorted | preprocessing/preprocessing_graphs_and_targets.py:197 | sorting an already sorted list changes nothing |
| Common.RemoveFirst | preprocessing/preprocessing_graphs_and_targets.py:103 | `list.remove(x)` succeeds iff x is present and removes exactly one copy |
| Common.RemoveFirstSorted | preprocessing/preprocessing_graphs_and_targets.py:103 | removing an element keeps a sorted list sorted |
| Common.RemoveFirstStrict | preprocessing/preprocessing_graphs_and_targets.py:193 | removing an element from a strictly increasing list keeps it strictly increasing and removes exactly that value |
| Common.SortedSet | preprocessing/preprocessing_graphs_and_targets.py:195-196 | `sorted(set(l))` is strictly increasing and holds exactly the values of l |
| IndexCodec.DivMod | local_single_jan/dataset.py:45-46 | floor division by a positive divisor: `q * d + r == x` with `0 <= r < d` |
| IndexCodec.DivModUnique | local_single_jan/dataset.py:45-46 | the quotient and remainder of `q * d + r` are q and r |
| IndexCodec.RowColCellIndex | preprocessing/preprocessing_graphs_and_targets.py:185 | a row and column of the grid number a cell of the grid, and splitting that number gives them back |
| IndexCodec.Decode | local_single_jan/dataset.py:44-48 | the decoded step and cell re-encode to k; the cell is in the grid and is the row-major number of the decoded row and column |
| IndexCodec.DecodeEncode | local_single_jan/dataset.py:44-48 | decoding `t * space + (i * lon_dim + j)` gives back t, the cell, i and j |
| IndexCodec.Neighbourhood | preprocessing/preprocessing_graphs_and_targets.py:190 | the 3x3 block has nine entries, row-major, entry n at row i-1+n/3, column j-1+n%3 |
| IndexCodec.NeighbourhoodInGrid | preprocessing/preprocessing_graphs_and_targets.py:190-191 | entry 4 is the cell itself; around an interior cell all nine entries are cells of the grid |
| IndexCodec.InputWindow | local_single_jan/dataset.py:50 | the window's time slice spans 25 steps and its lat/lon slices span 2*pad+2 |
| IndexCodec.TimeSliceExact | local_single_jan/dataset.py:49-50 | for a non-negative step, the slice `[t-24 : t+1]` has all 25 steps iff 24 <= t < number of steps |
| IndexCodec.SpaceSliceWidth | local_single_jan/dataset.py:49-50 | a lat/lon slice that lies inside the axis is 6 wide iff pad == 2 |
| IndexCodec.WindowFits | local_single_jan/dataset.py:49-50 | with pad 2, a step >= 24 and a window inside the stored grid, every axis has exactly the buffer's length |
| Window.Restrict | preprocessing/preprocessing_graphs_and_targets.py:48-51 | one mask applied to lon, lat, z and the node columns of pr keeps them aligned, node by node |
| Window.WindowMask | preprocessing/preprocessing_graphs_and_targets.py:45-47 | node n is set iff it lies in the closed rectangle |
| Window.CutWindow | preprocessing/preprocessing_graphs_and_targets.py:33-52 | the result holds exactly the nodes inside the closed lon/lat rectangle, in their original order, with their z and pr series; every step of pr is kept |
| Cells.SelectNodes | preprocessing/preprocessing_graphs_and_targets.py:54-85 | writes row cell_idx of both masks (1-cell box; 1-cell box or 9-cell box), gives every node in the 1-cell box the cell number (negated when its own series is all NaN), leaves the other rows and nodes unchanged, and returns whether some node of the box has data; mask_1 implies mask_9 |
| Cells.InteriorCellsSpec | preprocessing/preprocessing_graphs_and_targets.py:177 | the initial `valid_examples_space` is strictly increasing and holds exactly the interior cells |
| Cells.Assigned | preprocessing/preprocessing_graphs_and_targets.py:172-193 | a node's entry after d cells is 0 or names (up to sign) a cell below d; AssignedIsLastCell, AssignedUnowned and AssignedCellHoldsNode say which |
| Cells.AssignedIsLastCell | preprocessing/preprocessing_graphs_and_targets.py:78-82 | a node keeps the number of the last scanned cell whose box holds it, negated when its series is all NaN |
| Cells.AssignedUnowned | preprocessing/preprocessing_graphs_and_targets.py:172 | a node that no box holds keeps its initial 0 |
| Cells.AssignedCellHoldsNode | preprocessing/preprocessing_graphs_and_targets.py:78-82 | the absolute value of a node's entry is a cell whose box holds it; the sign says whether the node has data |
| Cells.ScanSpaces | preprocessing/preprocessing_graphs_and_targets.py:177-193 | the graph list holds only absolute values (non-negative numbers); ScanSpacesValid and ScanSpacesAcc state both lists exactly |
| Cells.ScanSpacesValid | preprocessing/preprocessing_graphs_and_targets.py:188-193 | after d cells, the example list is strictly increasing and holds the interior cells not yet scanned plus the scanned interior cells that have data |
| Cells.ScanSpacesAcc | preprocessing/preprocessing_graphs_and_targets.py:188-191 | after d cells, the graph list holds exactly the cells of the 3x3 blocks of the example cells scanned so far |
| Cells.ValidExamplesSpace | preprocessing/preprocessing_graphs_and_targets.py:177-197 | `valid_examples_space` is sorted and holds only interior cells of the grid whose box has a node with data; ValidExamplesSpaceSpec adds the converse |
| Cells.ValidExamplesSpaceSpec | preprocessing/preprocessing_graphs_and_targets.py:177-197 | `valid_examples_space` is sorted and holds exactly the interior cells whose box has a node with data |
| Cells.GraphCellsSpaceSpec | preprocessing/preprocessing_graphs_and_targets.py:188-196 | `graph_cells_space` is sorted without repeats, holds exactly the cells of the 3x3 blocks around example cells, includes every example cell, and all its entries are cells of the grid |
| Cells.ScanCell | preprocessing/preprocessing_graphs_and_targets.py:185-193 | one loop body extends the mapped cells and both lists by one cell |
| Cells.ScanRow | preprocessing/preprocessing_graphs_and_targets.py:184-193 | the inner loop maps one whole row and brings both lists up to the row's end |
| Cells.ScanRows | preprocessing/preprocessing_graphs_and_targets.py:183-193 | the outer loop maps every cell and leaves both lists as the cell-by-cell specification says |
| Cells.ScanCells | preprocessing/preprocessing_graphs_and_targets.py:172-197 | allocates the arrays; afterwards mask_1/mask_9 row c is the 1-/9-cell box of cell c, every node holds its signed cell number, and both lists equal their specifications |
| GraphFilter.GraphNodeMask | preprocessing/preprocessing_graphs_and_targets.py:203 | node n is kept iff the absolute value of its cell number is a graph cell |
| GraphFilter.SelectColumns | preprocessing/preprocessing_graphs_and_targets.py:204-206 | `m[:, mask]` keeps the same columns of every row |
| GraphFilter.FilterGraph | preprocessing/preprocessing_graphs_and_targets.py:203-219 | every node-indexed array is narrowed to the same number of nodes; both masks keep one row per cell |
| GraphFilter.FilterGraphSpec | preprocessing/preprocessing_graphs_and_targets.py:203-219 | a node survives iff its absolute cell number is a graph cell; survivors keep their order and stay aligned across cell numbers, lon/lat/z, pr and both masks |
| GraphFilter.FilterAfterScan | preprocessing/preprocessing_graphs_and_targets.py:195-203 | after the scan, a node survives iff its cell lies in a 3x3 block around an example cell; nodes with data in an example cell always survive |
| TimeSplit.AppendYears | preprocessing/preprocessing_graphs_and_targets.py:95-96 | the loop appends the given years one after the other |
| TimeSplit.AppendTestYears | preprocessing/preprocessing_graphs_and_targets.py:99-100 | the loop appends the test years, or fails at the first year index out of range |
| TimeSplit.RemoveWarmup | preprocessing/preprocessing_graphs_and_targets.py:102-103 | the loop removes steps 0..23 one by one, or fails at the first that is missing |
| TimeSplit.SubdivideTrainTestTimeIndexes | preprocessing/preprocessing_graphs_and_targets.py:91-104 | the function as written returns exactly the specified split or error |
| TimeSplit.YearsFromFails | preprocessing/preprocessing_graphs_and_targets.py:99-100 | once one year cannot be indexed, the whole range fails |
| TimeSplit.RemoveRangeSome | preprocessing/preprocessing_graphs_and_targets.py:102-103 | removing 0..23 succeeds iff each of them is present |
| TimeSplit.RemoveRangeValue | preprocessing/preprocessing_graphs_and_targets.py:102-103 | a successful removal takes exactly one copy of each removed value and keeps a sorted list sorted |
| TimeSplit.Subdivide | preprocessing/preprocessing_graphs_and_targets.py:91-104 | the split fails only with IndexError or ValueError and returns a sorted test list; SubdivideSpec and SubdivideErrors state the lists and when each error occurs |
| TimeSplit.SubdivideOk | preprocessing/preprocessing_graphs_and_targets.py:91-104 | a successful split is the sorted raw test list and the sorted raw training list less steps 0..23 |
| TimeSplit.SubdivideSpec | preprocessing/preprocessing_graphs_and_targets.py:91-104 | both lists are sorted; the test list is a permutation of the last 744 steps of the split year plus the test years; the training list is the earlier years plus the rest of the split year, less one copy of each of 0..23 |
| TimeSplit.SubdivideErrors | preprocessing/preprocessing_graphs_and_targets.py:95-103 | the split fails only with IndexError (a year index out of range, and only then) or ValueError |
| TimeSplit.WarmupPresent | preprocessing/preprocessing_graphs_and_targets.py:101-103 | the warm-up steps can be removed from the sorted list iff each is in the raw list |
| TimeSplit.SubdivideValueError | preprocessing/preprocessing_graphs_and_targets.py:102-103 | ValueError exactly when a step 0..23 is missing from the training years |
| TimeSplit.TrainAfterWarmup | preprocessing/preprocessing_graphs_and_targets.py:102-103 | with distinct non-negative time indices, every training step is at least 24 |
| TimeSplit.NoDuplicatesCount | preprocessing/preprocessing_graphs_and_targets.py:102-103 | in a list without repeats each value occurs at most once, so a removed step leaves no copy behind |
| TimeSplit.DefaultYears | preprocessing/preprocessing_graphs_and_targets.py:91-100 | with the defaults and sixteen years, training is 2001-2014 plus 2015 without its last 744 steps, and testing is those steps plus 2016 |
| Targets.Transpose | preprocessing/preprocessing_graphs_and_targets.py:250 | `swapaxes(0, 1)`: entry (n, t) is pr[t][n] |
| Targets.SliceColumns | preprocessing/preprocessing_graphs_and_targets.py:251-255 | `m[:, a:b]` applies the same Python slice to every row |
| Targets.Max | preprocessing/preprocessing_graphs_and_targets.py:251 | `max` of a non-empty list is an element no smaller than any other |
| Targets.Min | preprocessing/preprocessing_graphs_and_targets.py:255 | `min` of a non-empty list is an element no larger than any other |
| Targets.BuildTargets | preprocessing/preprocessing_graphs_and_targets.py:249-255 | the only error is ValueError (`max`/`min` of an empty list); each matrix has one row per node; TargetsShape, TrainEntry and TestEntry state the columns and entries |
| Targets.TargetsShape | preprocessing/preprocessing_graphs_and_targets.py:249-255 | the targets exist iff both time lists are non-empty (ValueError otherwise); the shapes are one row per node, columns 0..max(train), and min(test)..max(test) |
| Targets.TrainEntry | preprocessing/preprocessing_graphs_and_targets.py:252-254 | the classification target is NaN where pr is NaN, otherwise 1 when pr >= 0.1 and 0 when not; the regression target is log1p(pr) when pr >= 0.1 and NaN otherwise |
| Targets.TestEntry | preprocessing/preprocessing_graphs_and_targets.py:255 | column k of the test matrix is step min(test) + k |
| Targets.RegImpliesCl | preprocessing/preprocessing_graphs_and_targets.py:373-374 | a regression-flagged entry is classification-flagged; both flags stated exactly |
| Edges.EdgeRow | preprocessing/preprocessing_graphs_and_targets.py:292-299 | the inner loop for node i yields at most one edge per target node below m, each from i to a connected node; EdgeRowSpec adds the converse and the order |
| Edges.EdgeList | preprocessing/preprocessing_graphs_and_targets.py:291-300 | every listed edge joins a source among the first k nodes to a node of the graph; EdgeListSpec states exactly which and in what order |
| Edges.EdgeRowSpec | preprocessing/preprocessing_graphs_and_targets.py:292-299 | the row of node i holds exactly the edges i -> j to its connected nodes, with increasing j |
| Edges.EdgeListSpec | preprocessing/preprocessing_graphs_and_targets.py:291-299 | the edge list holds exactly the connected pairs, in increasing (source, target) order |
| Edges.AppendRow | preprocessing/preprocessing_graphs_and_targets.py:297-300 | the inner loop appends node ii's row to edge_index and the matching offsets to edge_attr |
| Edges.BuildEdges | preprocessing/preprocessing_graphs_and_targets.py:288-300 | edge_index is the specified edge list and edge_attr holds `xj - xi` for each edge, in lockstep |
| Edges.EdgesSymmetric | preprocessing/preprocessing_graphs_and_targets.py:291-300 | every edge has its reverse, no edge is a self-loop, and the reverse edge has the opposite offset |
| Edges.Normalize | preprocessing/preprocessing_graphs_and_targets.py:304-305 | dividing by the column maximum fails only on an empty column and keeps the length |
| Edges.MaxR | preprocessing/preprocessing_graphs_and_targets.py:304-305 | `.max()` of a non-empty column is an element no smaller than any other |
| Edges.ClosedBounds | preprocessing/preprocessing_graphs_and_targets.py:304-305 | the maximum of a negation-closed column is non-negative and bounds every entry on both sides |
| Edges.NormalizeRange | preprocessing/preprocessing_graphs_and_targets.py:304-305 | on a negation-closed column every normalised value lies in [-1, 1] and 1 occurs, unless the column is all zeros, in which case every quotient is inf/nan |
| Edges.OffsetColumnsClosed | preprocessing/preprocessing_graphs_and_targets.py:299-305 | both offset columns of the edge list are negation-closed, so the normalisation lands in [-1, 1] |
| Indices.CellExamples | preprocessing/preprocessing_graphs_and_targets.py:209 | one example number `t * space + s` per step, in step order |
| Indices.ExamplesUpToSpec | preprocessing/preprocessing_graphs_and_targets.py:209-212 | the comprehension lists |times| numbers per listed cell, and exactly the (step, listed cell) numbers |
| Indices.ExampleIndices | preprocessing/preprocessing_graphs_and_targets.py:209-212 | the comprehension has |times| entries per listed cell of the grid; ExampleIndicesSpec states which entries and where |
| Indices.ExampleIndicesSpec | preprocessing/preprocessing_graphs_and_targets.py:209-212 | `idx_test`/`idx_train_ae` have |valid| * |times| entries; each decodes to an example cell and a given step, and every such pair is listed; the list is cell-major (`for s` is the outer loop), and (times[k], s) sits at position CellsBelow(s) * |times| + k |
| Indices.ExamplesUpToOrder | preprocessing/preprocessing_graphs_and_targets.py:209 | after cells 0..d-1 the comprehension's numbers are of cells below d, in non-decreasing cell order |
| Indices.ExamplesUpToPosition | preprocessing/preprocessing_graphs_and_targets.py:209 | cell s's block follows the blocks of the listed cells below it, in the order of `times` |
| Indices.AppendCellBlock | preprocessing/preprocessing_graphs_and_targets.py:209-212 | appending the numbers of cell c to a cell-major list of cells below c keeps it cell-major |
| Indices.CellsBelowCount | preprocessing/preprocessing_graphs_and_targets.py:209 | when the example cells are distinct cells of the grid, the comprehension visits each of them once |
| Indices.MaskClTable | preprocessing/preprocessing_graphs_and_targets.py:373 | entry (n, t) is set iff the classification target is not NaN |
| Indices.MaskRegTable | preprocessing/preprocessing_graphs_and_targets.py:374 | entry (n, t) is set iff the regression target is not NaN and at least 0.1 |
| Indices.CellSteps | preprocessing/preprocessing_graphs_and_targets.py:384-389 | the loop over the training steps of one cell returns the numbers appended to each list, or fails at a step that is not a column |
| Indices.BuildTrainIndices | preprocessing/preprocessing_graphs_and_targets.py:370-389 | the index loop returns exactly the specified lists, or IndexError |
| Indices.ClStepsSpec | preprocessing/preprocessing_graphs_and_targets.py:385-387 | a cell is kept at step t iff some node whose stored number equals the cell has its classification flag set at t |
| Indices.RegStepsSpec | preprocessing/preprocessing_graphs_and_targets.py:385-389 | kept for regression iff the classification condition holds and some node of the cell has its regression flag set |
| Indices.TrainUpToSpec | preprocessing/preprocessing_graphs_and_targets.py:377-389 | after cells 0..d-1 both lists hold exactly the numbers of the kept (step, cell) pairs |
| Indices.TrainIndicesErrors | preprocessing/preprocessing_graphs_and_targets.py:377-385 | the loop fails (IndexError) iff there is an example cell and some training step is not a column of the target |
| Indices.TrainIndices | preprocessing/preprocessing_graphs_and_targets.py:370-389 | the loop's result: an error is always IndexError and only happens when a training step is not a column; TrainIndicesErrors and TrainIndicesSpec state when and what |
| Indices.TrainIndicesSpec | preprocessing/preprocessing_graphs_and_targets.py:370-389 | `idx_train_cl` and `idx_train_reg` list exactly the numbers of the (step, example cell) pairs that meet their conditions, and both lists are cell-major (`for s` is the outer loop) |
| Indices.StepsOfCell | preprocessing/preprocessing_graphs_and_targets.py:384-389 | every number the inner loop appends for cell s decodes to cell s |
| Indices.TrainUpToOrder | preprocessing/preprocessing_graphs_and_targets.py:377-389 | after cells 0..d-1 both training lists hold numbers of cells below d, in non-decreasing cell order |
| Indices.TrainIndicesDecode | preprocessing/preprocessing_graphs_and_targets.py:386 | decoding a listed number gives a pair that meets the condition it was listed under |
| Indices.TrainIndicesNested | preprocessing/preprocessing_graphs_and_targets.py:385-389 | `idx_train_reg` is contained in `idx_train_cl`, which is contained in `idx_train_ae` |
| Indices.RegOnlyNeedsRegFlag | preprocessing/preprocessing_graphs_and_targets.py:385-389 | when a regression flag implies the classification flag, the outer classification test changes nothing |
| Indices.TargetFlagsNested | preprocessing/preprocessing_graphs_and_targets.py:252-254 | the target matrices satisfy that implication |
| Datasets.KeyAt | local_single_jan/dataset.py:26-27 | `idx_to_key[idx]` exists iff -len <= idx < len (`__len__` is len(idx_to_key)); otherwise IndexError |
| Datasets.DecodeFlat | local_single_jan/dataset.py:45-48 | for a Python-int key: ZeroDivisionError iff the grid is empty; otherwise the decoded key re-encodes to k and lies in the grid |
| Datasets.FetchWindow | local_single_jan/dataset.py:49-50 | the copy succeeds iff every sliced axis broadcasts into the buffer; otherwise ShapeError |
| Datasets.WindowOfKey | local_single_jan/dataset.py:44-50 | a successful lookup gives a key that re-encodes to k, a row and column inside the grid, and the window cut around them, which fits the buffer; otherwise ZeroDivisionError or ShapeError |
| Datasets.AeItem | local_single_jan/dataset.py:43-51 | `Dataset_pr_ae.__getitem__` fails only with IndexError (exactly when idx is out of range), ZeroDivisionError or ShapeError; a returned window fits the buffer and spans 25 steps; AeItemOfExample and AeItemFits state which window |
| Datasets.EItem | local_single_jan/dataset.py:55-63 | `Dataset_e.__getitem__` fails only with IndexError (exactly when idx is out of range), ZeroDivisionError or ShapeError; it returns one of the stored keys and a window that fits the buffer; EItemSpec relates it to `Dataset_pr_ae` |
| Datasets.AeItemOfExample | local_single_jan/dataset.py:43-51 | for an example number built from step t and cell (i, j), the item is the window around t, i and j whenever the copy fits |
| Datasets.AeItemFits | local_single_jan/dataset.py:43-51 | with pad 2, an interior cell and 24 <= t < steps in a grid padded by two, the copy always fits and every axis is exact |
| Datasets.EItemSpec | local_single_jan/dataset.py:55-63 | `Dataset_e` returns the key unchanged and the same window as `Dataset_pr_ae` for the flat number of the same (step, cell) |
| Datasets.Column | local_single_jan/dataset.py:158 | column c of a (node, time) matrix |
| Datasets.MaskedColumn | local_single_jan/dataset.py:158 | `m[mask, c]` succeeds iff the mask covers every node and c is a column; it then holds the masked nodes' entries at c, in order |
| Datasets.TestItem | local_single_jan/dataset.py:142-160 | `Dataset_pr_test.__getitem__` fails only with IndexError (always when idx is out of range), ZeroDivisionError or ShapeError; a sample's window fits, its step is a column of the test matrix and `y` has at most one entry per node; TestItemSpec states the sample |
| Datasets.KeyOfExample | local_single_jan/dataset.py:143-145 | an example number built from (t, c) decodes to step t and cell c |
| Datasets.TestItemSpec | local_single_jan/dataset.py:142-160 | `time_idx` is t - time_min and `y` holds column t - time_min for the cell's own nodes, in order; it fails exactly when the mask or the column does not fit |
| DatasetJan.CellMask | local_single_jan/dataset.py:117 | `cell_idxs == space_idx` node by node |
| DatasetJan.GnnItem | local_single_jan/dataset.py:92-120 | `Dataset_pr_gnn.__getitem__` fails only with IndexError (always when idx is out of range), ZeroDivisionError or ShapeError; a sample's window fits, the stored cell numbers cover the target rows and `y` has at most one entry per node; GnnItemSpec states the sample |
| DatasetJan.GnnItemSpec | local_single_jan/dataset.py:92-120 | the item exists iff the cell numbers cover the target rows and t is a column; `y` holds, in order, the targets at t of exactly the nodes stored with cell number c |
| DatasetJan.FtCellsSpec | local_single_jan/dataset.py:172 | `cell_idx_list` has nine entries, the centre is the example's cell, and around an interior cell all are grid cells |
| DatasetJan.FtReads | local_single_jan/dataset.py:173-174 | the encoding reads succeed iff every cell and the step index the input; then they are the (cell, step) positions in order |
| DatasetJan.FillEncoding | local_single_jan/dataset.py:173-174 | the loop performs exactly those reads, or stops with IndexError |
| DatasetJan.FtReadsPrefixFails | local_single_jan/dataset.py:173-174 | a failing read stops the whole loop |
| DatasetJan.FtGnnItem | local_single_jan/dataset.py:164-177 | `Dataset_pr_ft_gnn.__getitem__` always raises, IndexError, ZeroDivisionError or AttributeError, and IndexError when idx is out of range; FtGnnItemRaises says which |
| DatasetJan.FtGnnItemRaises | local_single_jan/dataset.py:164-177 | every call raises: AttributeError exactly when the key, the decoding and all nine reads succeed, otherwise the IndexError or (for a Python-int key) ZeroDivisionError of the failing step |
| DatasetSingle.GnnItem | local_single/dataset.py:88-103 | `Dataset_pr_gnn.__getitem__` fails only with IndexError (always when idx is out of range), ZeroDivisionError or ShapeError; `train_mask` has at most one flag per node and `y` one entry per set flag; GnnItemSpec states both |
| DatasetSingle.GnnItemSpec | local_single/dataset.py:88-103 | `train_mask` has one flag per node of the subgraph, read from mask_target at t; `y` holds the targets at t of exactly the nodes that are both in the subgraph and flagged, in order; it fails exactly when the masks or the column do not fit |
| Pipeline.TrainExampleCell | preprocessing/preprocessing_graphs_and_targets.py:377-387 | each `idx_train_cl` number names an interior example cell and a training step |
| Pipeline.TrainExampleKey | local_single_jan/dataset.py:44-48 | the datasets decode it to that cell's row and column and a step of at least 24 |
| Pipeline.TrainExampleWindow | local_single_jan/dataset.py:43-51 | a dataset over the same grid with pad 2 and a stored input padded by two cuts a full (25, 6, 6) window for every `idx_train_cl` example |

## Left out

- File and pickle I/O, xarray loading, argument parsing, timing and `write_log` are left out. The loaded arrays are parameters.
- Floating point is left out. Reals stand in for float32/float64, NaN is `None`, and division by a zero maximum is `NonFinite`.
- `np.log1p` is a parameter of the target functions, because there is no real logarithm to model it with.
- The lon/lat grid from `np.arange` is left out. The grid points are parameters, and their number defines the grid size.
- Standardisation of lon, lat and z (lines 261-282) is left out: it is floating-point statistics from a pickled file.
- The torch `Data` graph objects and their pickling (lines 340-357) are left out.
- The subgraph contents are left out. Only `mask_1_cell` and the existence of the subgraph are modelled, not edges or features.
- `time_train_dim` (line 138) is left out: it is never used.
- The commented-out edge categorisation (lines 307-333) is left out.
- The counter `c` and its logging (lines 376, 380, 390-391) are left out.
- The `i`, `j` and `idx_list` computed at lines 381-383 are left out: they are never used.
- `Dataset_pr_ft_gnn` after line 177 is left out, because the AttributeError there makes it unreachable.
- The width of the (9, 128) encoding rows is left out. Only which positions are read is modelled.
- Tensor contents are not modelled: only the window's slice bounds and whether the copy into the zero buffer broadcasts. The variable and level axes are taken to match.
- The collate functions and the model code are left out. They come after the datasets.
- Datasets.DecodeFlat: keys are taken to be Python ints. The preprocessing stores the example lists as numpy arrays (lines 210, 213 and 393-394 of the preprocessing script), so the keys are numpy int64, and numpy divides an int64 by zero to 0 with a warning instead of raising. For such keys on an empty grid, DecodeFlat, DatasetJan.FtGnnItemRaises and the items that decode a flat number do not raise ZeroDivisionError as stated. Datasets.EItem behaves the same way when its pair holds numpy integers.
- Datasets.EItem: a key that is not a pair, or whose components are not integers, is not modelled.
- DatasetJan.GnnItem: a subgraph that lacks the keys `edge_index`/`x` is not modelled (KeyError). Only the index of `self.subgraphs[space_idx]` is checked.
