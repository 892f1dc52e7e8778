/** `train_tree` end to end: build the label tree over all labels, size the
    row-pointer buffer from the node count, train every node in `dfs` order,
    flatten; and the guarantee that ties training to prediction: with a
    well-behaved trainer nothing fails, and the flattened tree gives every
    node the slice of decision values that `_beam_search` reads. */
module Pipeline {
  import opened Common
  import opened Seqs
  import opened Sparse
  import opened Tree
  import opened Build
  import opened Targets
  import opened Buffer
  import opened Training
  import opened Flatten
  import opened Beam

  /** `"-B" in options`: the option string asks for a bias term. */
  function HasBias(options: string): (b: bool)
    ensures b <==> exists i :: 0 <= i && i + 1 < |options| && options[i] == '-' && options[i + 1] == 'B'
    decreases |options|
  {
    if |options| < 2 then false
    else if options[0] == '-' && options[1] == 'B' then true
    else
      var rest := HasBias(options[1..]);
      assert forall i :: 1 <= i && i + 1 < |options| ==> options[i] == options[1..][i - 1] && options[i + 1] == options[1..][i];
      assert rest ==> exists i :: 0 <= i && i + 1 < |options| && options[i] == '-' && options[i + 1] == 'B' by {
        if rest {
          var i :| 0 <= i && i + 1 < |options[1..]| && options[1..][i] == '-' && options[1..][i + 1] == 'B';
          assert options[i + 1] == '-' && options[i + 2] == 'B';
        }
      }
      rest
  }

  /** What `train_tree` returns, without the file locations. */
  datatype TreeModel = TreeModel(root: Node, flat: FlatModel, weightMap: seq<nat>)

  /** The cache fingerprint reads the first and last instance, so an empty
      training set raises `IndexError` before anything is built. Training
      stops at the first failing append; flattening can fail after it. */
  datatype TrainError = EmptyTrainingSet | AppendFailed(append: AppendError) | FlattenFailed(flatten: FlattenError)

  /** The trainer returns the same bias for every node (it comes from the options). */
  ghost predicate FixedBias<X(!new)>(train: (BoolMatrix, seq<X>) -> LinearModel, bias: real)
  {
    forall t, xs :: train(t, xs).bias == bias
  }

  /** Every node is trained, with `rows` weight rows and bias `bias`. */
  predicate Uniform(t: Node, rows: nat, bias: real)
    decreases t
  {
    && t.model.Trained?
    && t.model.weights.rows == rows
    && t.model.bias == bias
    && forall j :: 0 <= j < |t.children| ==> Uniform(t.children[j], rows, bias)
  }

  /** Every label held anywhere in the subtree is below `numLabels`. */
  predicate LabelsBelow(t: Node, numLabels: nat)
    decreases t
  {
    && (forall j :: 0 <= j < |t.labelMap| ==> t.labelMap[j] < numLabels)
    && forall j :: 0 <= j < |t.children| ==> LabelsBelow(t.children[j], numLabels)
  }

  /** A trainer with one row count and one bias yields a tree whose blocks
      all share them. */
  lemma {:induction false} TrainUniform<X(!new)>(t: Node, y: LabelMatrix, x: seq<X>, train: (BoolMatrix, seq<X>) -> LinearModel,
                                                 info: MmapInfo, rows: nat, bias: real)
    requires |x| == |y| && Valid(info) && ProducesCsr(train)
    requires FixedRows(train, rows) && FixedBias(train, bias)
    ensures TrainTree(t, y, x, train, info).Ok? ==> Uniform(TrainTree(t, y, x, train, info).value.0, rows, bias)
    decreases t
  {
    var r := TrainTree(t, y, x, train, info);
    if r.Ok? {
      var visited := TrainNode(t, y, x, train, info);
      TrainUniformAll(t.children, y, x, train, visited.value.1, rows, bias);
    }
  }

  lemma {:induction false} TrainUniformAll<X(!new)>(cs: seq<Node>, y: LabelMatrix, x: seq<X>, train: (BoolMatrix, seq<X>) -> LinearModel,
                                                    info: MmapInfo, rows: nat, bias: real)
    requires |x| == |y| && Valid(info) && ProducesCsr(train)
    requires FixedRows(train, rows) && FixedBias(train, bias)
    ensures TrainAll(cs, y, x, train, info).Ok? ==>
      forall j :: 0 <= j < |cs| ==> Uniform(TrainAll(cs, y, x, train, info).value.0[j], rows, bias)
    decreases cs
  {
    var r := TrainAll(cs, y, x, train, info);
    if r.Ok? && |cs| > 0 {
      var first := TrainTree(cs[0], y, x, train, info);
      TrainUniform(cs[0], y, x, train, info, rows, bias);
      TrainUniformAll(cs[1..], y, x, train, first.value.1, rows, bias);
    }
  }

  lemma {:induction false} UniformPreorder(t: Node, rows: nat, bias: real, k: nat)
    requires Uniform(t, rows, bias)
    requires k < |Preorder(t)|
    ensures Uniform(Preorder(t)[k], rows, bias)
    decreases t
  {
    if k > 0 {
      var j, k' := PreorderAllIndex(t.children, k - 1);
      UniformPreorder(t.children[j], rows, bias, k');
    }
  }

  lemma {:induction false} LabelsBelowPreorder(t: Node, numLabels: nat, k: nat)
    requires LabelsBelow(t, numLabels)
    requires k < |Preorder(t)|
    ensures LabelsBelow(Preorder(t)[k], numLabels)
    decreases t
  {
    if k > 0 {
      var j, k' := PreorderAllIndex(t.children, k - 1);
      LabelsBelowPreorder(t.children[j], numLabels, k');
    }
  }

  /** In a partitioned tree every node's labels are among the root's. */
  lemma {:induction false} PartitionedLabelsBelow(t: Node, numLabels: nat)
    requires Partitioned(t)
    requires forall j :: 0 <= j < |t.labelMap| ==> t.labelMap[j] < numLabels
    ensures LabelsBelow(t, numLabels)
    decreases t
  {
    forall c | c in t.children
      ensures LabelsBelow(c, numLabels)
    {
      var j :| 0 <= j < |t.children| && t.children[j] == c;
      forall i | 0 <= i < |c.labelMap|
        ensures c.labelMap[i] < numLabels
      {
        SubseqMembership(c.labelMap, t.labelMap, c.labelMap[i]);
      }
      PartitionedLabelsBelow(c, numLabels);
    }
  }

  lemma {:induction false} StripAllAt(cs: seq<Node>, j: nat)
    requires j < |cs|
    ensures StripAll(cs)[j] == Strip(cs[j])
    decreases j
  {
    if j > 0 {
      StripAllAt(cs[1..], j - 1);
    }
  }

  /** Training leaves the label maps alone, so the label bound survives it. */
  lemma {:induction false} StripLabelsBelow(t: Node, numLabels: nat)
    ensures LabelsBelow(Strip(t), numLabels) <==> LabelsBelow(t, numLabels)
    decreases t
  {
    forall j | 0 <= j < |t.children|
      ensures LabelsBelow(Strip(t).children[j], numLabels) <==> LabelsBelow(t.children[j], numLabels)
    {
      StripAllAt(t.children, j);
      StripLabelsBelow(t.children[j], numLabels);
    }
  }

  /** A node in a child's walk is in the parent's walk. */
  lemma {:induction false} PreorderAllContains(cs: seq<Node>, j: nat, n: Node)
    requires j < |cs| && n in Preorder(cs[j])
    ensures n in PreorderAll(cs)
    decreases j
  {
    if j > 0 {
      PreorderAllContains(cs[1..], j - 1, n);
    }
  }

  /** `f` is what `_flatten_model` makes of `t`: the numbered walk and the
      running column offsets of its blocks. */
  predicate FlatOf(t: Node, f: Flattened)
  {
    var nodes := Preorder(t);
    && (forall k :: 0 <= k < |nodes| ==> nodes[k].model.Trained?)
    && |Preorder(f.root)| == |nodes|
    && (forall k :: 0 <= k < |nodes| ==> Preorder(f.root)[k] == Number(nodes[k], k))
    && f.weightMap == WeightMap(ColsOf(BlocksOf(nodes)))
  }

  /** `Consistent` holds for a tree when every node of its walk has its
      slice and its labels in range. */
  lemma {:induction false} ConsistentIntro(t: Node, ctx: Context, numLabels: nat)
    requires forall n :: n in Preorder(t) ==>
      HasSlots(n, ctx) && forall j :: 0 <= j < |n.labelMap| ==> n.labelMap[j] < numLabels
    ensures Consistent(t, ctx, numLabels)
    decreases t
  {
    assert t == Preorder(t)[0];
    forall j | 0 <= j < |t.children|
      ensures Consistent(t.children[j], ctx, numLabels)
    {
      forall n | n in Preorder(t.children[j])
        ensures n in Preorder(t)
      {
        PreorderAllContains(t.children, j, n);
      }
      ConsistentIntro(t.children[j], ctx, numLabels);
    }
  }

  /** The flattened tree fits the flat model: node `k` of the walk carries
      index `k`, `weight_map[k] : weight_map[k + 1]` has one entry per output
      of the node, and the slice lies inside a row of decision values of the
      flat model's width. */
  lemma FlattenedConsistent(t: Node, f: Flattened, numLabels: nat)
    requires AllTrained(t) && ColumnsMatch(t) && LabelsBelow(t, numLabels)
    requires FlatOf(t, f)
    ensures forall preds :: |preds| == f.weightMap[|Preorder(t)|] ==> Consistent(f.root, Context(f.weightMap, preds), numLabels)
  {
    forall preds | |preds| == f.weightMap[|Preorder(t)|]
      ensures Consistent(f.root, Context(f.weightMap, preds), numLabels)
    {
      var ctx := Context(f.weightMap, preds);
      forall n | n in Preorder(f.root)
        ensures HasSlots(n, ctx) && forall j :: 0 <= j < |n.labelMap| ==> n.labelMap[j] < numLabels
      {
        var k :| 0 <= k < |Preorder(f.root)| && Preorder(f.root)[k] == n;
        NodeSlots(t, f, preds, numLabels, k);
      }
      ConsistentIntro(f.root, ctx, numLabels);
    }
  }

  /** The `k`-th node of the flattened walk has its slice and its labels in range. */
  lemma NodeSlots(t: Node, f: Flattened, preds: seq<real>, numLabels: nat, k: nat)
    requires AllTrained(t) && ColumnsMatch(t) && LabelsBelow(t, numLabels)
    requires FlatOf(t, f)
    requires |preds| == f.weightMap[|Preorder(t)|]
    requires k < |Preorder(t)|
    ensures var n := Preorder(f.root)[k];
      HasSlots(n, Context(f.weightMap, preds)) && forall j :: 0 <= j < |n.labelMap| ==> n.labelMap[j] < numLabels
  {
    var nodes := Preorder(t);
    var cols := ColsOf(BlocksOf(nodes));
    var n := Preorder(f.root)[k];
    assert n == Number(nodes[k], k);
    assert cols[k] == Outputs(n) by {
      ColumnsMatchPreorder(t, k);
      assert Outputs(n) == Outputs(nodes[k]);
    }
    assert f.weightMap[k] + cols[k] == f.weightMap[k + 1];
    assert f.weightMap[k + 1] <= |preds| by {
      WeightMapMonotone(cols, k + 1, |nodes|);
    }
    LabelsBelowPreorder(t, numLabels, k);
  }

  /** A tree whose blocks share one row count and one bias passes both
      checks of `_flatten_model`. */
  lemma UniformFlattens(t: Node, rows: nat, bias: real)
    requires Uniform(t, rows, bias)
    ensures forall k :: 0 <= k < |Preorder(t)| ==> Preorder(t)[k].model.Trained?
    ensures SameBias(t) && t.model.bias == bias
    ensures !RowsDiffer(BlocksOf(Preorder(t)))
  {
    var nodes := Preorder(t);
    forall k | 0 <= k < |nodes|
      ensures Uniform(nodes[k], rows, bias)
    {
      UniformPreorder(t, rows, bias, k);
    }
  }

  /** The labels of a tree built over `np.arange(numLabels)` and then
      trained all stay below `numLabels`. */
  lemma TrainedLabelsBelow(t: Node, numLabels: nat, K: nat, dmax: int, cluster: (seq<nat>, int) -> seq<nat>)
    requires K >= 1 && ValidClustering(cluster, K)
    requires Strip(t) == Strip(BuildTree(Range(numLabels), 0, K, dmax, cluster))
    ensures LabelsBelow(t, numLabels)
  {
    var root := BuildTree(Range(numLabels), 0, K, dmax, cluster);
    BuildPartitioned(Range(numLabels), 0, K, dmax, cluster);
    PartitionedLabelsBelow(root, numLabels);
    StripLabelsBelow(root, numLabels);
    StripLabelsBelow(t, numLabels);
  }

  /** `train_tree(y, x, options, K, dmax)`. The label clustering and the
      per-node trainer are parameters; `numFeatures` is `x.shape[1]`. When
      the trainer returns blocks with one row per feature (plus the bias
      row), one column per target column and a fixed bias, training cannot
      fail, and every instance's row of decision values from the flat model
      is one `_beam_search` can walk. */
  method TrainTreeModel<X(!new)>(y: LabelMatrix, x: seq<X>, numLabels: nat, numFeatures: nat, options: string,
                                 K: nat, dmax: int, cluster: (seq<nat>, int) -> seq<nat>,
                                 train: (BoolMatrix, seq<X>) -> LinearModel, ghost bias: real)
    returns (r: Result<TreeModel, TrainError>)
    requires |x| == |y| && K >= 1 && ValidClustering(cluster, K) && ProducesCsr(train)
    ensures |x| == 0 <==> r == Err(EmptyTrainingSet)
    ensures r.Ok? ==> r.value.root.labelMap == Range(numLabels) && r.value.root.index == Some(0)
    ensures r.Ok? ==> |r.value.weightMap| == NumNodes(r.value.root) + 1
    ensures var rows := numFeatures + (if HasBias(options) then 1 else 0);
      |x| > 0 && FixedRows(train, rows) && OneColumnPerTarget(train) && FixedBias(train, bias) ==>
        && r.Ok?
        && r.value.flat.bias == bias
        && forall preds :: |preds| == r.value.flat.weights.cols ==>
             Consistent(r.value.root, Context(r.value.weightMap, preds), numLabels)
  {
    if |x| == 0 {
      return Err(EmptyTrainingSet);
    }
    var hasBias := HasBias(options);
    ghost var rows := numFeatures + (if hasBias then 1 else 0);
    var root := BuildTree(Range(numLabels), 0, K, dmax, cluster);
    var info := NewMmapInfo(NumNodes(root), numFeatures, hasBias);
    ghost var good := FixedRows(train, rows) && OneColumnPerTarget(train) && FixedBias(train, bias);
    if good {
      WellBehavedTraining(y, x, numLabels, K, dmax, cluster, train, info, rows, bias);
    }
    var trained := TrainTree(root, y, x, train, info);
    if trained.Err? {
      return Err(AppendFailed(trained.error));
    }
    var troot := trained.value.0;
    var flat := FlattenModel(troot);
    if flat.Err? {
      return Err(FlattenFailed(flat.error));
    }
    var f := flat.value;
    NumberedIndices(troot, 0);
    assert Preorder(f.root)[0] == f.root == Number(troot, 0);
    assert Strip(troot).labelMap == Strip(root).labelMap;
    if good {
      FlattenedConsistent(troot, f, numLabels);
    }
    return Ok(TreeModel(f.root, f.model, f.weightMap));
  }

  /** With a trainer that returns `rows`-row blocks, one column per target
      column and a fixed bias, and row-pointer room for `rows + 1` entries
      per node, training succeeds with a tree that passes both checks of
      `_flatten_model`, whose blocks have one column per output and whose
      labels stay below `numLabels`. */
  lemma WellBehavedTraining<X(!new)>(y: LabelMatrix, x: seq<X>, numLabels: nat, K: nat, dmax: int,
                                     cluster: (seq<nat>, int) -> seq<nat>, train: (BoolMatrix, seq<X>) -> LinearModel,
                                     info: MmapInfo, rows: nat, bias: real)
    requires |x| == |y| && K >= 1 && ValidClustering(cluster, K) && ProducesCsr(train)
    requires FixedRows(train, rows) && OneColumnPerTarget(train) && FixedBias(train, bias)
    requires var root := BuildTree(Range(numLabels), 0, K, dmax, cluster);
      Valid(info) && info.numIndptr + NumNodes(root) * (rows + 1) <= |info.indptr|
    ensures var trained := TrainTree(BuildTree(Range(numLabels), 0, K, dmax, cluster), y, x, train, info);
      && trained.Ok?
      && var t := trained.value.0;
      && AllTrained(t) && SameBias(t) && t.model.bias == bias
      && (forall k :: 0 <= k < |Preorder(t)| ==> Preorder(t)[k].model.Trained?)
      && !RowsDiffer(BlocksOf(Preorder(t)))
      && ColumnsMatch(t) && LabelsBelow(t, numLabels)
  {
    var root := BuildTree(Range(numLabels), 0, K, dmax, cluster);
    IndptrFits(root, y, x, train, info, rows);
    var troot := TrainTree(root, y, x, train, info).value.0;
    TrainUniform(root, y, x, train, info, rows, bias);
    UniformFlattens(troot, rows, bias);
    TrainColumns(root, y, x, train, info);
    TrainedLabelsBelow(troot, numLabels, K, dmax, cluster);
  }
}
