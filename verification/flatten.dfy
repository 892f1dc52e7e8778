/** `_flatten_model`, `_mmap_hstack` and `_hstack_info`: number the nodes in
    `dfs` order, check that they share one bias, concatenate their weight
    blocks column-wise and build the offset table `weight_map`. */
module Flatten {
  import opened Common
  import opened Seqs
  import opened Sparse
  import opened Tree

  /** `np.cumsum([0] + cols)`: the exclusive prefix sums of per-node column counts. */
  function WeightMap(cols: seq<nat>): (r: seq<nat>)
    ensures |r| == |cols| + 1
    ensures r[0] == 0
    ensures forall i :: 0 <= i < |cols| ==> r[i + 1] == r[i] + cols[i]
    decreases |cols|
  {
    if |cols| == 0 then [0]
    else
      var w := WeightMap(cols[..|cols| - 1]);
      w + [w[|cols| - 1] + cols[|cols| - 1]]
  }

  /** Each entry of `weight_map` is the column count of all earlier nodes;
      the last one is the total. */
  lemma {:induction false} WeightMapSums(cols: seq<nat>, i: nat)
    requires i <= |cols|
    ensures WeightMap(cols)[i] == Sum(cols[..i])
    decreases i
  {
    if i > 0 {
      WeightMapSums(cols, i - 1);
      assert cols[..i][..i - 1] == cols[..i - 1];
    }
  }

  /** `weight_map` never decreases; it stays flat across a node with no columns. */
  lemma {:induction false} WeightMapMonotone(cols: seq<nat>, i: nat, j: nat)
    requires i <= j <= |cols|
    ensures WeightMap(cols)[i] <= WeightMap(cols)[j]
    decreases j - i
  {
    if i < j {
      WeightMapMonotone(cols, i, j - 1);
    }
  }

  /** `_hstack_info` fails with an IndexError on an empty list (it reads
      `blocks[0]`) and with a ValueError when the row counts differ. */
  datatype HstackError = NoBlocks | RowMismatch

  /** What `_hstack_info` computes: the shared row count, the total column
      and nonzero counts, and the column counts in block order. */
  datatype HstackInfo = HstackInfo(m: nat, n: nat, nnz: nat, cols: seq<nat>)

  /** The column counts of the blocks, in block order. */
  function ColsOf(blocks: seq<View>): (r: seq<nat>)
    ensures |r| == |blocks|
    ensures forall k :: 0 <= k < |blocks| ==> r[k] == blocks[k].cols
  {
    seq(|blocks|, k requires 0 <= k < |blocks| => blocks[k].cols)
  }

  /** The nonzero counts of the blocks, in block order. */
  function NnzOf(blocks: seq<View>): (r: seq<nat>)
    ensures |r| == |blocks|
    ensures forall k :: 0 <= k < |blocks| ==> r[k] == blocks[k].nnz
  {
    seq(|blocks|, k requires 0 <= k < |blocks| => blocks[k].nnz)
  }

  /** Some block's row count differs from the first block's. */
  predicate RowsDiffer(blocks: seq<View>)
  {
    exists k :: 0 <= k < |blocks| && blocks[k].rows != blocks[0].rows
  }

  method HstackInfoOf(blocks: seq<View>) returns (r: Result<HstackInfo, HstackError>)
    ensures |blocks| == 0 ==> r == Err(NoBlocks)
    ensures r.Err? <==> |blocks| == 0 || RowsDiffer(blocks)
    ensures r.Ok? ==>
      && r.value.m == blocks[0].rows
      && r.value.cols == ColsOf(blocks)
      && r.value.n == Sum(ColsOf(blocks))
      && r.value.nnz == Sum(NnzOf(blocks))
  {
    if |blocks| == 0 {
      return Err(NoBlocks);
    }
    var m := blocks[0].rows;
    var n, nnz := 0, 0;
    var cols: seq<nat> := [];
    var i := 0;
    while i < |blocks|
      invariant 0 <= i <= |blocks|
      invariant forall k :: 0 <= k < i ==> blocks[k].rows == m
      invariant cols == ColsOf(blocks)[..i]
      invariant n == Sum(ColsOf(blocks)[..i])
      invariant nnz == Sum(NnzOf(blocks)[..i])
    {
      if blocks[i].rows != m {
        return Err(RowMismatch);
      }
      assert ColsOf(blocks)[..i + 1][..i] == ColsOf(blocks)[..i];
      assert NnzOf(blocks)[..i + 1][..i] == NnzOf(blocks)[..i];
      n := n + blocks[i].cols;
      nnz := nnz + blocks[i].nnz;
      cols := cols + [blocks[i].cols];
      i := i + 1;
    }
    assert ColsOf(blocks)[..i] == ColsOf(blocks);
    assert NnzOf(blocks)[..i] == NnzOf(blocks);
    return Ok(HstackInfo(m, n, nnz, cols));
  }

  /** The shape and nonzero count of a concatenated matrix. Its entries come
      from an external kernel and are not part of this model. */
  datatype FlatMatrix = FlatMatrix(rows: nat, cols: nat, nnz: nat)

  /** `_mmap_hstack(blocks)`: an empty list gives a 0x0 matrix; otherwise the
      blocks must share their row count and the result has the summed
      columns and nonzeros. */
  method MmapHstack(blocks: seq<View>) returns (r: Result<FlatMatrix, HstackError>)
    ensures |blocks| == 0 ==> r == Ok(FlatMatrix(0, 0, 0))
    ensures r.Err? <==> |blocks| > 0 && RowsDiffer(blocks)
    ensures r.Ok? && |blocks| > 0 ==>
      r.value == FlatMatrix(blocks[0].rows, Sum(ColsOf(blocks)), Sum(NnzOf(blocks)))
  {
    if |blocks| == 0 {
      return Ok(FlatMatrix(0, 0, 0));
    }
    var info := HstackInfoOf(blocks);
    if info.Err? {
      return Err(info.error);
    }
    return Ok(FlatMatrix(info.value.m, info.value.n, info.value.nnz));
  }

  /** The flattened model: one weight matrix and the bias all nodes share. */
  datatype FlatModel = FlatModel(weights: FlatMatrix, bias: real)

  /** What `_flatten_model` leaves behind: the numbered tree, the flat model
      and `weight_map`. */
  datatype Flattened = Flattened(root: Node, model: FlatModel, weightMap: seq<nat>)

  /** The bias assertion fails (AssertionError), or the concatenation does. */
  datatype FlattenError = BiasMismatch | Hstack(error: HstackError)

  /** Every node the walk visits has the root's bias. */
  predicate SameBias(root: Node)
  {
    && root.model.Trained?
    && forall k :: 0 <= k < |Preorder(root)| ==>
         Preorder(root)[k].model.Trained? && Preorder(root)[k].model.bias == root.model.bias
  }

  /** The weight blocks of the visited nodes, in visit order. */
  function BlocksOf(nodes: seq<Node>): (r: seq<View>)
    requires forall k :: 0 <= k < |nodes| ==> nodes[k].model.Trained?
    ensures |r| == |nodes|
    ensures forall k :: 0 <= k < |nodes| ==> r[k] == nodes[k].model.weights
  {
    seq(|nodes|, k requires 0 <= k < |nodes| => nodes[k].model.weights)
  }

  /** `_flatten_model(root)`. */
  method FlattenModel(root: Node) returns (r: Result<Flattened, FlattenError>)
    requires AllTrained(root)
    ensures !SameBias(root) ==> r == Err(BiasMismatch)
    ensures r.Ok? <==> SameBias(root) && !RowsDiffer(BlocksOf(Preorder(root)))
    ensures r.Ok? ==>
      var nodes, f := Preorder(root), r.value;
      && |Preorder(f.root)| == |nodes|
      && (forall k :: 0 <= k < |nodes| ==> Preorder(f.root)[k] == Number(nodes[k], k))
      && f.model.bias == root.model.bias
      && f.model.weights.rows == root.model.weights.rows
      && f.weightMap == WeightMap(ColsOf(BlocksOf(nodes)))
      && |f.weightMap| == |nodes| + 1
      && f.weightMap[0] == 0
      && (forall k :: 0 <= k < |nodes| ==> f.weightMap[k + 1] == f.weightMap[k] + nodes[k].model.weights.cols)
      && f.weightMap[|nodes|] == f.model.weights.cols
  {
    var nodes := Preorder(root);
    forall k | 0 <= k < |nodes|
      ensures nodes[k].model.Trained?
    {
      AllTrainedPreorder(root, k);
    }
    var bias := root.model.bias;
    var i := 0;
    while i < |nodes|
      invariant 0 <= i <= |nodes|
      invariant forall k :: 0 <= k < i ==> nodes[k].model.bias == bias
    {
      if nodes[i].model.bias != bias {
        return Err(BiasMismatch);
      }
      i := i + 1;
    }
    var blocks := BlocksOf(nodes);
    var flat := MmapHstack(blocks);
    if flat.Err? {
      return Err(Hstack(flat.error));
    }
    var cols := ColsOf(blocks);
    var weightMap := WeightMap(cols);
    WeightMapSums(cols, |cols|);
    assert cols[..|cols|] == cols;
    NumberPreorder(root, 0);
    return Ok(Flattened(Number(root, 0), FlatModel(flat.value, bias), weightMap));
  }
}
