# Label tree of LibMultiLabel's linear tree model, in Dafny

This project models the label tree at the core of `libmultilabel/linear/tree.py`
and proves properties of it. Training is divide-and-conquer: the labels are
clustered recursively into a tree of fan-out at most K and depth at most
`dmax` (`_build_tree`). Each node trains a one-vs-rest linear model:

- a leaf on its own labels;
- an internal node on one "metalabel" per child.

Each node trains only on the instances that carry one of its labels.
`_as_mmap` streams every node's sparse weight block into shared growable
buffers. `_flatten_model` numbers the nodes in `dfs` order and concatenates
the blocks column-wise (`_mmap_hstack`, `_hstack_info`). It records where
each node's columns start in the offset table `weight_map`. Prediction
(`_beam_search`) walks the tree level by level from the root. It keeps the
`beam_width` best partial scores, lowering each score by the squared hinge
loss of the child's decision value. The surviving leaves then give their
labels `exp(score - loss)`, and every other label gets `-inf`.

Modules, one per concern, each in its own file:

| module | file | what it holds |
|---|---|---|
| `Common` | `common.dfy` | `Option`, `Result` (Python exceptions become `Err`) |
| `Seqs` | `seqs.dfy` | `np.arange`, boolean-mask selection, sums, concatenation |
| `Sparse` | `sparse.dfy` | CSR matrices and views into the buffers |
| `Tree` | `tree.dfy` | `Node`, `isLeaf`, the `dfs` order, pre-order numbering |
| `Build` | `build.dfy` | `_build_tree` and the partition properties of its result |
| `Targets` | `targets.dfy` | the relevant-instance filter and the per-node 0/1 targets |
| `Buffer` | `buffer.dfy` | `_as_mmap`: cursors, capacity growth, copying, views |
| `Training` | `training.dfy` | the training `dfs` that threads the buffers |
| `Flatten` | `flatten.dfy` | `_flatten_model`, `_mmap_hstack`, `_hstack_info`, `weight_map` |
| `Sorting` | `sorting.dfy` | Python's stable `sorted(..., key=-score)` and `[:w]` |
| `Beam` | `beam.dfy` | `_beam_search` and `predict_values` over cached decision values |
| `BeamPaths` | `beam_paths.dfy` | what the beam keeps, measured against scoring every root-to-leaf path |
| `Pipeline` | `pipeline.dfy` | `train_tree` end to end, and why beam search can read its output |

Several things that come from outside the file become parameters:

- KMeans becomes `cluster`. Given a node's label map and its depth, it gives
  each label a cluster id below K. The source draws a fresh KMeans seed at
  every node, so the same label map can be split differently one level
  down. Passing the depth lets the model represent that.
- The per-node trainer `linear.train_1vsrest` becomes `train`.
- `np.exp` becomes `exp`.
- The rows of decision values that `linear.predict_values` computes are inputs.

The design description of the library states a few things the code does
not do. The model follows the code:

- The description says that empty clusters are skipped. `_build_tree`
  always makes K children, and a cluster that receives no labels becomes an
  empty leaf.
- `weight_map` is therefore non-decreasing, not strictly increasing: an empty
  leaf contributes no columns.
- The description has the buffers grow to the smallest power of two that
  fits. The code grows them to `2 << (n - 1).bit_length()`, which is twice
  that.
- The description says that a beam as wide as the branching factor scores
  exhaustively. For the code the threshold is the number of leaves
  (BeamPaths.ExhaustiveWidth). With K = 2, depth 2 and width 2, the second
  pass keeps 2 of the 4 grandchildren.

## Model

| member | source | states |
|---|---|---|
| Tree.IsLeaf | libmultilabel/linear/tree.py:37-38 | a node is a leaf exactly when its list of children is empty (a definition; Tree.LeafWalk states its meaning for the walk) |
| Tree.LeafWalk | libmultilabel/linear/tree.py:37-44 | a node is a leaf exactly when `dfs` visits it alone, and exactly when its subtree has height 0 |
| Tree.Preorder | libmultilabel/linear/tree.py:40-44 | the `dfs` visit order: the walk is never empty and starts at the node itself, before any child |
| Tree.PreorderAll | libmultilabel/linear/tree.py:43-44 | the walk over a list of siblings visits at least one node per sibling |
| Tree.LeafCount | libmultilabel/linear/tree.py:37-44 | every subtree has at least one leaf (the count BeamPaths.ExhaustiveWidth measures the width against) |
| Tree.Number | libmultilabel/linear/tree.py:312-316 | numbering a subtree from `s` keeps every node's labels, model and number of children, and gives the node itself index `s` |
| Tree.NumberAll | libmultilabel/linear/tree.py:312-316 | numbering a list of siblings gives back one numbered subtree per sibling |
| Tree.NumberPreorder | libmultilabel/linear/tree.py:308-319 | numbering walks the tree in `dfs` order (node, then each child's subtree in list order) and changes nothing but the index: node k of the numbered walk is node k of the original walk with index `s + k` |
| Tree.NumberedIndices | libmultilabel/linear/tree.py:312-316 | after numbering, the node visited k-th carries index k, so indices are exactly 0..num_nodes-1, one per node |
| Tree.NumberChildOffset | libmultilabel/linear/tree.py:312-316 | child j of a node is numbered right after the node and the whole subtrees of children 0..j-1 |
| Tree.PreorderAllIndex | libmultilabel/linear/tree.py:40-44 | position k of the walk below a list of siblings is position k' of the walk of child j, where k is k' plus the sizes of the walks of children 0..j-1; this pins down j, even when siblings are equal |
| Tree.AllTrainedPreorder | libmultilabel/linear/tree.py:202-207 | after the training walk, every node the walk visits has a model |
| Tree.ColumnsMatchPreorder | libmultilabel/linear/tree.py:275-283 | the per-node column rule (labels for a leaf, children for an internal node) holds at every node of the walk |
| Build.Mask | libmultilabel/linear/tree.py:251-252 | `metalabels == i` has one entry per label, true exactly where the label's cluster id is i |
| Build.Part | libmultilabel/linear/tree.py:252 | `label_map[metalabels == i]` keeps the parent's order, and holds a label exactly when some position with cluster id i carries it |
| Build.BuildTree | libmultilabel/linear/tree.py:233-256 | a node is a leaf exactly when `d >= dmax` or at most K labels remain; otherwise it has exactly K children and child i holds, in the parent's order, the labels of cluster i |
| Build.PartsPermutation | libmultilabel/linear/tree.py:249-254 | the K clusters' label maps together are a permutation of the parent's label map |
| Build.BuildChildLabels | libmultilabel/linear/tree.py:249-256 | an internal node's children hold exactly its labels, with multiplicity |
| Build.BuildPartitioned | libmultilabel/linear/tree.py:214-256 | every node of a built tree partitions its labels among its children, each child keeping the parent's relative order |
| Build.BuildDepth | libmultilabel/linear/tree.py:233-234 | a tree built at depth d has height at most `dmax - d`, and is a single leaf once `d >= dmax` |
| Build.BuildFresh | libmultilabel/linear/tree.py:234-256 | the builder returns nodes with no model and no index |
| Build.LeafCoverage | libmultilabel/linear/tree.py:249-256 | the leaves' label maps together hold exactly the root's labels, each as often as the root does |
| Build.PartitionedLabelsWithin | libmultilabel/linear/tree.py:251-252 | any label held by any node of the tree is one of the root's labels |
| Seqs.Select | libmultilabel/linear/tree.py:252 | `s[mask]` is never longer than `s`; its order and contents are stated by the three lemmas below |
| Seqs.SelectIsSubseq | libmultilabel/linear/tree.py:252 | `label_map[metalabels == i]` keeps the selected labels in their original order |
| Seqs.SelectIsGather | libmultilabel/linear/tree.py:252 | the k-th selected label is the label at the k-th position whose mask entry is true |
| Seqs.SelectMembership | libmultilabel/linear/tree.py:252 | a label is selected exactly when it sits at a position whose mask entry is true |
| Targets.Relevance | libmultilabel/linear/tree.py:203 | the relevance mask is true exactly for instances with at least one label of the node |
| Targets.RelevantInstances | libmultilabel/linear/tree.py:203-204 | the node trains on exactly the relevant instances, in their original order |
| Targets.LeafTarget | libmultilabel/linear/tree.py:275-276 | a leaf's target has one column per label of the leaf; entry (i, j) is set exactly when instance i has label j of the leaf |
| Targets.MetaTarget | libmultilabel/linear/tree.py:278-282 | an internal node's target has one column per child; entry (i, j) is set exactly when instance i has some label of child j |
| Targets.Target | libmultilabel/linear/tree.py:275-283 | the target has one column per output of the node, one row per instance |
| Targets.TargetRowPositive | libmultilabel/linear/tree.py:203-204 | in a partitioned tree an instance is positive for some column of a node's target exactly when it is relevant to the node |
| Targets.ChildInstancesWithinParent | libmultilabel/linear/tree.py:281 | every instance a child trains on is also one its parent trains on, and the parent's metalabel for that child is set for it |
| Buffer.BitLength | libmultilabel/linear/tree.py:362 | `int.bit_length`: the number of bits of n, so n lies below the next power of two and at or above the previous one |
| Buffer.GrownCapacity | libmultilabel/linear/tree.py:361-364 | the buffers keep their size while the new nonzeros fit; otherwise they grow to a power of two between 2x and 4x the needed size |
| Buffer.NewMmapInfo | libmultilabel/linear/tree.py:177-200 | the buffers start with `chunk_size` nonzero slots, `num_nodes * (features + has_bias + 1)` row pointers, and both cursors at 0 |
| Buffer.Grow | libmultilabel/linear/tree.py:363-364 | `resize` to n entries keeps the old content as a prefix |
| Buffer.Overwrite | libmultilabel/linear/tree.py:370-372 | `s[at:at+len(t)] = t` keeps the length, puts `t` in the slice and leaves everything before and after it unchanged |
| Buffer.ReadView | libmultilabel/linear/tree.py:366-368 | the block a view designates, read from the buffers' slices, or nothing when the view does not lie inside them (a definition; Buffer.Append and Buffer.AppendAllReads state what it reads) |
| Buffer.Append | libmultilabel/linear/tree.py:349-377 | appending succeeds exactly when the row pointers fit (or the block has no rows); the cursors advance by nnz and rows + 1; earlier content is untouched; the returned view reads back the block |
| Buffer.AppendKeepsViews | libmultilabel/linear/tree.py:361-377 | a view handed out earlier still reads back the same block after a later append, even one that resized the buffers |
| Buffer.AppendAll | libmultilabel/linear/tree.py:349-377 | a successful run of appends leaves consistent buffers with a row-pointer buffer of unchanged size, and hands out one view per block |
| Buffer.AppendAllSingle | libmultilabel/linear/tree.py:349-377 | a run of one append is one `_as_mmap` call: it succeeds exactly when that call does, with the same buffers and view |
| Buffer.AppendAllConcat | libmultilabel/linear/tree.py:374-375 | appending `A + B` is appending `A`, then `B` from the cursors `A` left: the same final buffers, the views of `A` followed by those of `B` |
| Buffer.AppendAllFits | libmultilabel/linear/tree.py:368-372 | with room for the row pointers of all blocks, a run of appends never fails |
| Buffer.AppendAllCursors | libmultilabel/linear/tree.py:374-375 | a run of appends advances the cursors by the blocks' total nonzeros and total `rows + 1` |
| Buffer.BlockView | libmultilabel/linear/tree.py:374-377 | where a run of appends puts block k: behind the nonzeros and row pointers of blocks 0..k-1, with the block's own shape (a definition) |
| Buffer.AppendAllView | libmultilabel/linear/tree.py:374-377 | the view handed out for block k is exactly that place |
| Buffer.AppendAllKeeps | libmultilabel/linear/tree.py:361-377 | later appends, with any number of resizes, keep every earlier block readable |
| Buffer.AppendAllReads | libmultilabel/linear/tree.py:349-377 | with room for every row pointer, each view handed out reads back its own block from the final buffers |
| Training.NodeModel | libmultilabel/linear/tree.py:203-204 | the trainer is called on the node's target over the relevant instances only, with their feature rows (a definition; Targets.RelevantInstances and Targets.Target state its parts) |
| Training.TrainNode | libmultilabel/linear/tree.py:275-288 | a node gets the trainer's bias and a view with the trained block's shape; it fails exactly when the row-pointer buffer is too short for a block with rows |
| Training.TrainTree | libmultilabel/linear/tree.py:202-207 | the training walk changes nothing in the tree but the models, trains every node and keeps the buffers consistent |
| Training.TrainAll | libmultilabel/linear/tree.py:40-44 | the walk over siblings trains each sibling's subtree in list order, leaving labels and shape alone |
| Training.Blocks | libmultilabel/linear/tree.py:285-288 | the blocks the trainer returns for a list of nodes, one per node, in order |
| Training.TrainedAs | libmultilabel/linear/tree.py:202-207 | trained nodes match untrained ones position by position, each holding its own bias and the view handed out for its block (a definition) |
| Training.TrainTreeOk | libmultilabel/linear/tree.py:202-207 | the training walk succeeds exactly when appending the blocks of the `dfs` walk one after another does, and then leaves the same buffers |
| Training.TrainTreeViews | libmultilabel/linear/tree.py:202-207 | on success, the k-th node of the trained walk holds the k-th node's own bias and the k-th view handed out |
| Training.TrainAllOk | libmultilabel/linear/tree.py:40-44 | the same for a list of siblings: their walks' blocks, in list order |
| Training.TrainAllViews | libmultilabel/linear/tree.py:40-44 | the same views-in-order statement for a list of siblings |
| Training.TrainWalkOk | libmultilabel/linear/tree.py:202-207 | the walk succeeds exactly when the row pointers allow the appends, in particular whenever the row-pointer buffer has room for every block, and leaves the cursors after the last block |
| Training.TrainWalkView | libmultilabel/linear/tree.py:285-288 | node k of the trained walk holds the bias trained for node k of the original walk and a view that starts where the blocks of nodes 0..k-1 end |
| Training.TrainWalkReads | libmultilabel/linear/tree.py:285-288 | with room for every row pointer, node k's view reads back, from the final and possibly resized buffers, exactly the block trained for node k |
| Training.IndptrFits | libmultilabel/linear/tree.py:188-192 | with `rows` rows per block, room for `num_nodes * (rows + 1)` row pointers is enough and is used exactly |
| Training.TrainColumns | libmultilabel/linear/tree.py:275-283 | with a trainer giving one column per target column, each trained block has one column per label (leaf) or child (internal node) |
| Flatten.SameBias | libmultilabel/linear/tree.py:313 | every node of the walk has a model with the root's bias: the condition the `assert` checks (a definition; Flatten.FlattenModel states its use) |
| Flatten.WeightMap | libmultilabel/linear/tree.py:329 | `weight_map` has one more entry than there are nodes, starts at 0 and steps by each node's column count |
| Flatten.WeightMapSums | libmultilabel/linear/tree.py:329 | entry i of `weight_map` is the column count of nodes 0..i-1 |
| Flatten.WeightMapMonotone | libmultilabel/linear/tree.py:329 | `weight_map` never decreases |
| Flatten.HstackInfoOf | libmultilabel/linear/tree.py:404-436 | fails on an empty list or when the row counts differ; otherwise the shared row count, the summed columns and nonzeros, and the column counts in order |
| Flatten.MmapHstack | libmultilabel/linear/tree.py:380-401 | an empty list gives a 0x0 matrix; otherwise fails exactly when row counts differ, else has the summed shape and nonzero count |
| Flatten.FlattenModel | libmultilabel/linear/tree.py:308-331 | fails with the bias assertion unless all nodes share the root's bias; otherwise succeeds exactly when the blocks share their row count, numbers node k with k and gives node k the columns `weight_map[k] : weight_map[k + 1]` of the flat matrix |
| Sorting.Rank | libmultilabel/linear/tree.py:110 | the positions of the level in sorted order: each exactly once, higher scores first, ties in their original order |
| Sorting.RankedUnique | libmultilabel/linear/tree.py:110 | two such orderings of the same positions are equal, so the stable sort's result is determined |
| Sorting.TakeRanked | libmultilabel/linear/tree.py:110 | a truncated ranking lists distinct positions, each ahead of every position it leaves out, and all positions when the width is at least the level size |
| Sorting.PyTake | libmultilabel/linear/tree.py:110 | `[:beam_width]` keeps a prefix: the first w entries, or for a negative w all but the last -w |
| Beam.Hinge | libmultilabel/linear/tree.py:107 | `np.maximum(0, 1 - pred) ** 2` is never negative and is 0 for decision values of 1 or more |
| Beam.HingeAntitone | libmultilabel/linear/tree.py:107 | a larger decision value never gets a larger squared hinge loss |
| Beam.Children | libmultilabel/linear/tree.py:105-108 | one candidate per child, in child order, each scored the parent's score minus the loss of the child's decision value |
| Beam.Expand | libmultilabel/linear/tree.py:101-108 | the next level keeps the beam invariant: consistent nodes and scores no higher than 0 |
| Beam.ExpandOrigin | libmultilabel/linear/tree.py:101-108 | every candidate of the next level is a leaf carried over unchanged or a child of an internal node of the current level, scored no higher than its parent |
| Beam.ExpandKeeps | libmultilabel/linear/tree.py:101-108 | every leaf of the current level, and every child of each internal node, appears in the next level |
| Beam.ExpandHeights | libmultilabel/linear/tree.py:101-108 | expanding strictly lowers the tallest candidate |
| Beam.Round | libmultilabel/linear/tree.py:101-111 | one loop pass yields at most `beam_width` candidates, best score first, and keeps the beam invariant |
| Beam.RoundSelects | libmultilabel/linear/tree.py:110 | the kept candidates are distinct candidates of the next level; every kept one outranks every dropped one (higher score, or equal score and emitted earlier); nothing is dropped when the width covers the level |
| Beam.CountInternal | libmultilabel/linear/tree.py:97-99 | `num_internal` is 0 exactly when every candidate is a leaf |
| Beam.RoundLowers | libmultilabel/linear/tree.py:96-111 | while an internal node remains, each pass lowers the tallest candidate, so the loop ends |
| Beam.Search | libmultilabel/linear/tree.py:96-111 | the final level holds only leaves; after at least one pass it has at most `beam_width` candidates, best first; a level of leaves is returned as is |
| Beam.Assign | libmultilabel/linear/tree.py:118 | `scores[label_map] = values` sets exactly the listed labels and leaves the others; a repeated label takes its last write |
| Beam.LeafValues | libmultilabel/linear/tree.py:115-118 | a surviving leaf gives label j of its map `exp(score - loss of its j-th decision value)` |
| Beam.WriteBeam | libmultilabel/linear/tree.py:115-118 | the final loop keeps one score per label; Beam.WriteBeamCoverage states the values |
| Beam.WriteBeamCoverage | libmultilabel/linear/tree.py:113-118 | after the final loop a label keeps `-inf` exactly when no surviving leaf holds it, and otherwise has a value some leaf holding it computed |
| Beam.Survivors | libmultilabel/linear/tree.py:94-111 | the search from the root ends with leaves only; a leaf root is the only survivor, otherwise at most `beam_width` survive |
| Beam.BeamSearch | libmultilabel/linear/tree.py:84-119 | the result has one entry per label of the root |
| Beam.BeamSearchScores | libmultilabel/linear/tree.py:113-119 | label p is finite exactly when a surviving leaf holds it, and then equals `exp(score - loss)` for such a leaf |
| Beam.PredictValues | libmultilabel/linear/tree.py:81-82 | fails exactly on an empty batch, where `np.vstack([])` raises; otherwise one row per instance, and row i is the beam search over instance i's decision values |
| Beam.PredictValuesScores | libmultilabel/linear/tree.py:81-82 | in row i, label p is finite exactly when a leaf surviving instance i's search holds it, and then has the value such a leaf computes from instance i's decision values |
| BeamPaths.LeafCands | libmultilabel/linear/tree.py:101-108 | the leaves below a node in pre-order, one candidate per leaf, each a leaf consistent with the decision values |
| BeamPaths.Paths | libmultilabel/linear/tree.py:94-108 | the exhaustive answer: one candidate per leaf of the tree, scored by the losses along its path from the root |
| BeamPaths.ExpandFrontier | libmultilabel/linear/tree.py:101-108 | a pass of the inner loop keeps the scored leaves below the level unchanged |
| BeamPaths.RoundReorders | libmultilabel/linear/tree.py:110 | when the width covers the next level, the sort and cut only reorder it |
| BeamPaths.SearchSound | libmultilabel/linear/tree.py:96-111 | whatever the width, every leaf the search keeps is a scored leaf below the starting level |
| BeamPaths.SearchExhaustive | libmultilabel/linear/tree.py:96-111 | with a width of at least the number of scored leaves below the level, the search keeps all of them, each as often as it occurs |
| BeamPaths.SurvivorsArePaths | libmultilabel/linear/tree.py:94-111 | every leaf kept for an instance is a leaf of the tree with exactly the score of its path from the root |
| BeamPaths.ExhaustiveWidth | libmultilabel/linear/tree.py:94-111 | for an internal root, the survivors are exactly the scored paths (as a multiset) if and only if the width is at least the number of leaves |
| Pipeline.HasBias | libmultilabel/linear/tree.py:175 | `"-B" in options` holds exactly when the two characters `-B` occur next to each other in the options |
| Pipeline.TrainUniform | libmultilabel/linear/tree.py:202-205 | a trainer with fixed rows and bias trains every node with that row count and bias |
| Pipeline.UniformFlattens | libmultilabel/linear/tree.py:313-316 | such a tree passes the bias assertion and the row-count check of the concatenation |
| Pipeline.TrainedLabelsBelow | libmultilabel/linear/tree.py:158 | every label anywhere in the tree built over `np.arange(L)`, and trained, is below L |
| Pipeline.FlattenedConsistent | libmultilabel/linear/tree.py:298-300 | in the flattened tree every node's slice of `weight_map` has one entry per output and lies inside a row of decision values of the flat model's width |
| Pipeline.WellBehavedTraining | libmultilabel/linear/tree.py:163-207 | with fixed-row, one-column-per-target, fixed-bias blocks the training walk succeeds and its tree passes both checks of `_flatten_model`, with one weight column per output and labels below the label count |
| Pipeline.TrainTreeModel | libmultilabel/linear/tree.py:143-211 | fails with `IndexError` exactly on an empty training set, where the cache fingerprint reads `x[0]`; otherwise the root holds all labels and index 0, a well-behaved trainer never makes training fail, and beam search can walk the flat model's decision values |

## Left out

- KMeans, its `random_state` draw, the label representation `y.T * x` and its
  L2 normalisation. They only produce the cluster ids, which are a parameter
  here, a function of the label map and the depth. The labels start as
  `np.arange(L)` and every split partitions them. So two nodes at one depth
  never share a non-empty label map, and any choice of ids KMeans could
  make at each node is one such function. A node with no labels is a leaf
  and is never clustered.
- `linear.train_1vsrest` and `linear.predict_values`. These are foreign calls:
  the trainer is a parameter and decision values are inputs.
- The contents of the concatenated flat matrix. The `blinkless` hstack kernel
  is foreign code; only its shape and nonzero count are modelled.
- File I/O and bookkeeping: `fileio.Array` memory maps, the `uuid` directory,
  the `tree_cache` pickle keyed by SHA-256, `tqdm` progress bars and logging.
- Floating point. Scores are real numbers and `np.exp` is an uninterpreted
  parameter, so float rounding, NaN and the 32-bit `indptr` dtype are not modelled.
- State mutated before an exception is raised is not modelled. An error
  result discards it.
- Flatten.FlattenModel: nodes keep their weight view after flattening. The
  source pops `weights` off each node's model, so it is weaker on that point.
- Beam.Hinge: the contract states non-negativity and zero from 1 upward, not
  that the loss is positive below 1. Strict positivity of a real square is
  non-linear arithmetic the solver does not settle reliably.
- Buffer.Append: newly resized buffer space is modelled as zero-filled, which
  the memory-mapped file gives in practice but the code does not state.
- Beam.BeamSearch: its own contract states only the length; the per-label
  values are stated by Beam.BeamSearchScores.
- Beam.PredictValues: the decision values are an input. The source computes
  them from the flat model with `linear.predict_values`, which is not part of
  this model.
- Build.BuildTree: requires K >= 1, as do the clustering parameter's
  conditions. With K <= 0 the source returns a leaf when `d >= dmax` and
  otherwise fails inside KMeans; that case is not modelled.
- Beam.Assign: a repeated label takes its last write. This is a modelling
  choice: numpy does not specify which value `scores[idx] = vals` keeps when
  `idx` repeats.
- BeamPaths.ExhaustiveWidth: stated for an internal root and a width of at
  least 0. A leaf root is always the only survivor, whatever the width. A
  negative `beam_width` makes the slice cut from the end of every non-empty
  level; the lemma does not cover that case.
- Seqs.Select: its own contract states only the length. Order and contents
  are stated by Seqs.SelectIsSubseq, Seqs.SelectIsGather and Seqs.SelectMembership.
- Beam.WriteBeam: its own contract states only the length. The values are
  stated by Beam.WriteBeamCoverage.
- `TreeModel` fields that only record file locations (`mmap`, `name`) are
  not modelled.
