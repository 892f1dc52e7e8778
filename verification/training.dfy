/** The training walk of `train_tree`: a `dfs` whose visit selects the
    node's relevant instances, builds its target, calls the external trainer
    and streams the weight block into the shared buffers with `_as_mmap`. */
module Training {
  import opened Common
  import opened Sparse
  import opened Tree
  import opened Targets
  import opened Buffer

  /** What the external `linear.train_1vsrest` returns. */
  datatype LinearModel = LinearModel(bias: real, weights: Csr)

  /** The trainer returns its weights in canonical CSR form. */
  ghost predicate ProducesCsr<X(!new)>(train: (BoolMatrix, seq<X>) -> LinearModel)
  {
    forall t, xs :: ValidCsr(train(t, xs).weights)
  }

  /** The model the trainer returns for node `n`: trained on the node's
      target over the relevant instances only, with their feature rows. */
  function NodeModel<X>(n: Node, y: LabelMatrix, x: seq<X>, train: (BoolMatrix, seq<X>) -> LinearModel): LinearModel
    requires |x| == |y|
  {
    var idx := RelevantInstances(y, n.labelMap);
    train(Target(n, Rows(y, idx)), Rows(x, idx))
  }

  /** `visit(node)` of the training walk followed by `_train_node`: the node
      gets the trainer's bias and a view of its weights in the buffers. */
  function TrainNode<X(!new)>(n: Node, y: LabelMatrix, x: seq<X>, train: (BoolMatrix, seq<X>) -> LinearModel, info: MmapInfo)
    : (r: Result<(Node, MmapInfo), AppendError>)
    requires |x| == |y| && Valid(info) && ProducesCsr(train)
    ensures var w := NodeModel(n, y, x, train).weights;
      r.Ok? <==> info.numIndptr + w.rows + 1 <= |info.indptr| || w.rows == 0
    ensures r.Ok? ==>
      var (n', info') := r.value;
      && n' == n.(model := n'.model)
      && n'.model.Trained?
      && n'.model.bias == NodeModel(n, y, x, train).bias
      && n'.model.weights.cols == NodeModel(n, y, x, train).weights.cols
      && n'.model.weights.rows == NodeModel(n, y, x, train).weights.rows
      && Valid(info')
      && |info'.indptr| == |info.indptr|
      && info'.numIndptr == info.numIndptr + NodeModel(n, y, x, train).weights.rows + 1
    ensures r.Ok? && info.numIndptr + NodeModel(n, y, x, train).weights.rows + 1 <= |info.indptr| ==>
      ReadView(r.value.1, r.value.0.model.weights) == Some(NodeModel(n, y, x, train).weights)
  {
    var m := NodeModel(n, y, x, train);
    var appended :- Append(info, m.weights);
    Ok((n.(model := Trained(m.bias, appended.1)), appended.0))
  }

  /** `root.dfs(visit)`: train the node, then each child's subtree in order,
      threading the buffer cursors through the walk. */
  function TrainTree<X(!new)>(t: Node, y: LabelMatrix, x: seq<X>, train: (BoolMatrix, seq<X>) -> LinearModel, info: MmapInfo)
    : (r: Result<(Node, MmapInfo), AppendError>)
    requires |x| == |y| && Valid(info) && ProducesCsr(train)
    ensures r.Ok? ==>
      var (t', info') := r.value;
      && Strip(t') == Strip(t)
      && AllTrained(t')
      && Valid(info')
      && |info'.indptr| == |info.indptr|
    decreases t
  {
    var visited :- TrainNode(t, y, x, train, info);
    var rest :- TrainAll(t.children, y, x, train, visited.1);
    Ok((visited.0.(children := rest.0), rest.1))
  }

  function TrainAll<X(!new)>(cs: seq<Node>, y: LabelMatrix, x: seq<X>, train: (BoolMatrix, seq<X>) -> LinearModel, info: MmapInfo)
    : (r: Result<(seq<Node>, MmapInfo), AppendError>)
    requires |x| == |y| && Valid(info) && ProducesCsr(train)
    ensures r.Ok? ==>
      var (cs', info') := r.value;
      && StripAll(cs') == StripAll(cs)
      && (forall j :: 0 <= j < |cs'| ==> AllTrained(cs'[j]))
      && Valid(info')
      && |info'.indptr| == |info.indptr|
    decreases cs
  {
    if |cs| == 0 then Ok(([], info))
    else
      var first :- TrainTree(cs[0], y, x, train, info);
      var rest :- TrainAll(cs[1..], y, x, train, first.1);
      Ok(([first.0] + rest.0, rest.1))
  }

  /** The weight blocks the trainer returns for a list of nodes, in order. */
  function Blocks<X>(nodes: seq<Node>, y: LabelMatrix, x: seq<X>, train: (BoolMatrix, seq<X>) -> LinearModel): (r: seq<Csr>)
    requires |x| == |y|
    ensures |r| == |nodes|
  {
    seq(|nodes|, k requires 0 <= k < |nodes| => NodeModel(nodes[k], y, x, train).weights)
  }

  lemma BlocksValid<X(!new)>(nodes: seq<Node>, y: LabelMatrix, x: seq<X>, train: (BoolMatrix, seq<X>) -> LinearModel)
    requires |x| == |y| && ProducesCsr(train)
    ensures forall k :: 0 <= k < |nodes| ==> ValidCsr(Blocks(nodes, y, x, train)[k])
  {
  }

  lemma BlocksConcat<X>(A: seq<Node>, B: seq<Node>, y: LabelMatrix, x: seq<X>, train: (BoolMatrix, seq<X>) -> LinearModel)
    requires |x| == |y|
    ensures Blocks(A + B, y, x, train) == Blocks(A, y, x, train) + Blocks(B, y, x, train)
  {
    var l, r := Blocks(A + B, y, x, train), Blocks(A, y, x, train) + Blocks(B, y, x, train);
    forall k | 0 <= k < |l| ensures l[k] == r[k] {
      if k < |A| { assert (A + B)[k] == A[k]; } else { assert (A + B)[k] == B[k - |A|]; }
    }
  }

  /** The trained nodes `nodes'` are `nodes` in order, each holding the
      trainer's bias for it and the view handed out for its block. */
  predicate TrainedAs<X>(nodes: seq<Node>, nodes': seq<Node>, views: seq<View>,
                         y: LabelMatrix, x: seq<X>, train: (BoolMatrix, seq<X>) -> LinearModel)
    requires |x| == |y|
  {
    && |nodes'| == |nodes| && |views| == |nodes|
    && forall k :: 0 <= k < |nodes| ==> nodes'[k].model == Trained(NodeModel(nodes[k], y, x, train).bias, views[k])
  }

  lemma TrainedAsConcat<X>(A: seq<Node>, A': seq<Node>, V: seq<View>, B: seq<Node>, B': seq<Node>, U: seq<View>,
                           y: LabelMatrix, x: seq<X>, train: (BoolMatrix, seq<X>) -> LinearModel)
    requires |x| == |y|
    requires TrainedAs(A, A', V, y, x, train) && TrainedAs(B, B', U, y, x, train)
    ensures TrainedAs(A + B, A' + B', V + U, y, x, train)
  {
    forall k | 0 <= k < |A + B|
      ensures (A' + B')[k].model == Trained(NodeModel((A + B)[k], y, x, train).bias, (V + U)[k])
    {
      if k < |A| {
        assert (A + B)[k] == A[k] && (A' + B')[k] == A'[k] && (V + U)[k] == V[k];
      } else {
        assert (A + B)[k] == B[k - |A|] && (A' + B')[k] == B'[k - |A|] && (V + U)[k] == U[k - |A|];
      }
    }
  }

  /** A walk of siblings split at the first sibling. */
  lemma PreorderAllCons(c: Node, cs: seq<Node>)
    ensures PreorderAll([c] + cs) == Preorder(c) + PreorderAll(cs)
  {
    assert ([c] + cs)[0] == c && ([c] + cs)[1..] == cs;
  }

  /** The training walk fails exactly when streaming the blocks of the
      pre-order walk one after another fails. */
  lemma {:induction false} TrainTreeOk<X(!new)>(t: Node, y: LabelMatrix, x: seq<X>, train: (BoolMatrix, seq<X>) -> LinearModel, info: MmapInfo)
    requires |x| == |y| && Valid(info) && ProducesCsr(train)
    ensures forall k :: 0 <= k < |Preorder(t)| ==> ValidCsr(Blocks(Preorder(t), y, x, train)[k])
    ensures TrainTree(t, y, x, train, info).Ok? <==> AppendAll(info, Blocks(Preorder(t), y, x, train)).Ok?
    ensures TrainTree(t, y, x, train, info).Ok? ==>
      TrainTree(t, y, x, train, info).value.1 == AppendAll(info, Blocks(Preorder(t), y, x, train)).value.0
    decreases t, 1
  {
    BlocksValid(Preorder(t), y, x, train);
    var w := NodeModel(t, y, x, train).weights;
    var W, Wc := Blocks(Preorder(t), y, x, train), Blocks(PreorderAll(t.children), y, x, train);
    BlocksConcat([t], PreorderAll(t.children), y, x, train);
    assert Blocks([t], y, x, train) == [w];
    BlocksValid(PreorderAll(t.children), y, x, train);
    AppendAllConcatOk(info, [w], Wc);
    var first := Append(info, w);
    if first.Ok? {
      AppendAllSingle(info, w);
      TrainAllOk(t.children, y, x, train, first.value.0);
      if AppendAll(info, W).Ok? {
        AppendAllConcat(info, [w], Wc);
      }
    }
  }

  lemma {:induction false} TrainAllOk<X(!new)>(cs: seq<Node>, y: LabelMatrix, x: seq<X>, train: (BoolMatrix, seq<X>) -> LinearModel, info: MmapInfo)
    requires |x| == |y| && Valid(info) && ProducesCsr(train)
    ensures forall k :: 0 <= k < |PreorderAll(cs)| ==> ValidCsr(Blocks(PreorderAll(cs), y, x, train)[k])
    ensures TrainAll(cs, y, x, train, info).Ok? <==> AppendAll(info, Blocks(PreorderAll(cs), y, x, train)).Ok?
    ensures TrainAll(cs, y, x, train, info).Ok? ==>
      TrainAll(cs, y, x, train, info).value.1 == AppendAll(info, Blocks(PreorderAll(cs), y, x, train)).value.0
    decreases cs, 0
  {
    BlocksValid(PreorderAll(cs), y, x, train);
    if |cs| > 0 {
      var A, B := Blocks(Preorder(cs[0]), y, x, train), Blocks(PreorderAll(cs[1..]), y, x, train);
      BlocksConcat(Preorder(cs[0]), PreorderAll(cs[1..]), y, x, train);
      BlocksValid(Preorder(cs[0]), y, x, train);
      BlocksValid(PreorderAll(cs[1..]), y, x, train);
      AppendAllConcatOk(info, A, B);
      TrainTreeOk(cs[0], y, x, train, info);
      var first := TrainTree(cs[0], y, x, train, info);
      if first.Ok? {
        TrainAllOk(cs[1..], y, x, train, first.value.1);
        if AppendAll(info, A + B).Ok? {
          AppendAllConcat(info, A, B);
        }
      }
    }
  }

  /** When the walk succeeds, the trained tree's pre-order walk holds, node
      by node, the trainer's bias and the view streamed for that node's
      block. */
  lemma {:induction false} TrainTreeViews<X(!new)>(t: Node, y: LabelMatrix, x: seq<X>, train: (BoolMatrix, seq<X>) -> LinearModel, info: MmapInfo)
    requires |x| == |y| && Valid(info) && ProducesCsr(train)
    requires TrainTree(t, y, x, train, info).Ok?
    ensures forall k :: 0 <= k < |Preorder(t)| ==> ValidCsr(Blocks(Preorder(t), y, x, train)[k])
    ensures AppendAll(info, Blocks(Preorder(t), y, x, train)).Ok?
    ensures TrainedAs(Preorder(t), Preorder(TrainTree(t, y, x, train, info).value.0),
                      AppendAll(info, Blocks(Preorder(t), y, x, train)).value.1, y, x, train)
    decreases t, 1
  {
    TrainTreeOk(t, y, x, train, info);
    var w := NodeModel(t, y, x, train).weights;
    var Wc := Blocks(PreorderAll(t.children), y, x, train);
    BlocksConcat([t], PreorderAll(t.children), y, x, train);
    assert Blocks([t], y, x, train) == [w];
    BlocksValid(PreorderAll(t.children), y, x, train);
    var first := Append(info, w).value;
    AppendAllSingle(info, w);
    AppendAllConcat(info, [w], Wc);
    var t' := TrainTree(t, y, x, train, info).value.0;
    var rest := TrainAll(t.children, y, x, train, first.0).value;
    assert t'.children == rest.0;
    TrainAllViews(t.children, y, x, train, first.0);
    assert TrainedAs([t], [t'], [first.1], y, x, train);
    TrainedAsConcat([t], [t'], [first.1], PreorderAll(t.children), PreorderAll(rest.0),
                    AppendAll(first.0, Wc).value.1, y, x, train);
  }

  lemma {:induction false} TrainAllViews<X(!new)>(cs: seq<Node>, y: LabelMatrix, x: seq<X>, train: (BoolMatrix, seq<X>) -> LinearModel, info: MmapInfo)
    requires |x| == |y| && Valid(info) && ProducesCsr(train)
    requires TrainAll(cs, y, x, train, info).Ok?
    ensures forall k :: 0 <= k < |PreorderAll(cs)| ==> ValidCsr(Blocks(PreorderAll(cs), y, x, train)[k])
    ensures AppendAll(info, Blocks(PreorderAll(cs), y, x, train)).Ok?
    ensures TrainedAs(PreorderAll(cs), PreorderAll(TrainAll(cs, y, x, train, info).value.0),
                      AppendAll(info, Blocks(PreorderAll(cs), y, x, train)).value.1, y, x, train)
    decreases cs, 0
  {
    TrainAllOk(cs, y, x, train, info);
    if |cs| > 0 {
      var A, B := Blocks(Preorder(cs[0]), y, x, train), Blocks(PreorderAll(cs[1..]), y, x, train);
      BlocksConcat(Preorder(cs[0]), PreorderAll(cs[1..]), y, x, train);
      BlocksValid(Preorder(cs[0]), y, x, train);
      BlocksValid(PreorderAll(cs[1..]), y, x, train);
      AppendAllConcat(info, A, B);
      var first := TrainTree(cs[0], y, x, train, info).value;
      TrainTreeViews(cs[0], y, x, train, info);
      TrainTreeOk(cs[0], y, x, train, info);
      TrainAllViews(cs[1..], y, x, train, first.1);
      var rest := TrainAll(cs[1..], y, x, train, first.1).value;
      assert TrainAll(cs, y, x, train, info).value.0 == [first.0] + rest.0;
      PreorderAllCons(first.0, rest.0);
      TrainedAsConcat(Preorder(cs[0]), Preorder(first.0), AppendAll(info, A).value.1,
                      PreorderAll(cs[1..]), PreorderAll(rest.0), AppendAll(AppendAll(info, A).value.0, B).value.1, y, x, train);
    }
  }

  /** `nodes'` is `nodes` trained by streaming their blocks into `b`: the
      blocks are well formed, streaming them succeeds, and each trained node
      holds its bias and the view handed out for its block. */
  predicate Streamed<X>(nodes: seq<Node>, nodes': seq<Node>, b: MmapInfo,
                        y: LabelMatrix, x: seq<X>, train: (BoolMatrix, seq<X>) -> LinearModel)
  {
    && |x| == |y| && Valid(b)
    && (forall i :: 0 <= i < |nodes| ==> ValidCsr(Blocks(nodes, y, x, train)[i]))
    && AppendAll(b, Blocks(nodes, y, x, train)).Ok?
    && TrainedAs(nodes, nodes', AppendAll(b, Blocks(nodes, y, x, train)).value.1, y, x, train)
  }

  /** The training walk is streaming the pre-order blocks: it returns the
      trained walk, whose nodes hold their views, and the final buffers. */
  lemma TrainTreeStreamed<X(!new)>(t: Node, y: LabelMatrix, x: seq<X>, train: (BoolMatrix, seq<X>) -> LinearModel, info: MmapInfo)
    returns (walk: seq<Node>)
    requires |x| == |y| && Valid(info) && ProducesCsr(train)
    requires TrainTree(t, y, x, train, info).Ok?
    ensures walk == Preorder(TrainTree(t, y, x, train, info).value.0)
    ensures Streamed(Preorder(t), Preorder(TrainTree(t, y, x, train, info).value.0), info, y, x, train)
    ensures TrainTree(t, y, x, train, info).value.1 == AppendAll(info, Blocks(Preorder(t), y, x, train)).value.0
  {
    TrainTreeViews(t, y, x, train, info);
    TrainTreeOk(t, y, x, train, info);
    walk := Preorder(TrainTree(t, y, x, train, info).value.0);
  }

  /** The training walk succeeds exactly when streaming the pre-order blocks
      does, and in particular whenever the row-pointer buffer has room for
      every block; it leaves the cursors after the last block. */
  lemma TrainWalkOk<X(!new)>(t: Node, y: LabelMatrix, x: seq<X>, train: (BoolMatrix, seq<X>) -> LinearModel, info: MmapInfo)
    requires |x| == |y| && Valid(info) && ProducesCsr(train)
    ensures var W := Blocks(Preorder(t), y, x, train);
      && (TrainTree(t, y, x, train, info).Ok? <==> AppendAll(info, W).Ok?)
      && (info.numIndptr + IndptrBefore(W, |W|) <= |info.indptr| ==> TrainTree(t, y, x, train, info).Ok?)
    ensures TrainTree(t, y, x, train, info).Ok? ==>
      var W := Blocks(Preorder(t), y, x, train);
      var info' := TrainTree(t, y, x, train, info).value.1;
      && info'.numData == info.numData + DataBefore(W, |W|)
      && info'.numIndptr == info.numIndptr + IndptrBefore(W, |W|)
  {
    var W := Blocks(Preorder(t), y, x, train);
    TrainTreeOk(t, y, x, train, info);
    if info.numIndptr + IndptrBefore(W, |W|) <= |info.indptr| {
      AppendAllFits(info, W);
    }
    if TrainTree(t, y, x, train, info).Ok? {
      AppendAllCursors(info, W);
    }
  }

  /** The `k`-th node of the trained walk (in pre-order) holds the trainer's
      bias for the `k`-th node of the untrained walk and a view that starts
      where the blocks of the `k` nodes visited before it end. */
  lemma TrainWalkView<X(!new)>(t: Node, y: LabelMatrix, x: seq<X>, train: (BoolMatrix, seq<X>) -> LinearModel, info: MmapInfo, k: nat)
    requires |x| == |y| && Valid(info) && ProducesCsr(train)
    requires k < |Preorder(t)| && TrainTree(t, y, x, train, info).Ok?
    ensures |Preorder(TrainTree(t, y, x, train, info).value.0)| == |Preorder(t)|
    ensures Preorder(TrainTree(t, y, x, train, info).value.0)[k].model
      == Trained(NodeModel(Preorder(t)[k], y, x, train).bias, BlockView(Blocks(Preorder(t), y, x, train), info, k))
  {
    var walk := TrainTreeStreamed(t, y, x, train, info);
    TrainedAsView(Preorder(t), walk, info, y, x, train, k);
  }

  /** Streamed node `k` holds its bias and the place block `k` was given. */
  lemma TrainedAsView<X(!new)>(nodes: seq<Node>, nodes': seq<Node>, b: MmapInfo,
                               y: LabelMatrix, x: seq<X>, train: (BoolMatrix, seq<X>) -> LinearModel, k: nat)
    requires Streamed(nodes, nodes', b, y, x, train) && k < |nodes|
    ensures |nodes'| == |nodes|
    ensures nodes'[k].model == Trained(NodeModel(nodes[k], y, x, train).bias, BlockView(Blocks(nodes, y, x, train), b, k))
  {
    AppendAllView(b, Blocks(nodes, y, x, train), k);
  }

  /** With room for every row pointer, streamed node `k` reads back its block. */
  lemma TrainedAsReads<X(!new)>(nodes: seq<Node>, nodes': seq<Node>, b: MmapInfo,
                                y: LabelMatrix, x: seq<X>, train: (BoolMatrix, seq<X>) -> LinearModel, k: nat)
    requires Streamed(nodes, nodes', b, y, x, train) && k < |nodes|
    requires b.numIndptr + IndptrBefore(Blocks(nodes, y, x, train), |nodes|) <= |b.indptr|
    ensures |nodes'| == |nodes| && nodes'[k].model.Trained?
    ensures ReadView(AppendAll(b, Blocks(nodes, y, x, train)).value.0, nodes'[k].model.weights)
      == Some(NodeModel(nodes[k], y, x, train).weights)
  {
    AppendAllReads(b, Blocks(nodes, y, x, train), k);
  }

  /** With room for every row pointer, the `k`-th trained node's view reads
      back, from the final buffers, exactly the block the trainer returned
      for the `k`-th node. */
  lemma TrainWalkReads<X(!new)>(t: Node, y: LabelMatrix, x: seq<X>, train: (BoolMatrix, seq<X>) -> LinearModel, info: MmapInfo, k: nat)
    requires |x| == |y| && Valid(info) && ProducesCsr(train)
    requires k < NumNodes(t)
    requires info.numIndptr + IndptrBefore(Blocks(Preorder(t), y, x, train), NumNodes(t)) <= |info.indptr|
    ensures TrainTree(t, y, x, train, info).Ok?
    ensures var (t', info') := TrainTree(t, y, x, train, info).value;
      && |Preorder(t')| == NumNodes(t)
      && Preorder(t')[k].model.Trained?
      && ReadView(info', Preorder(t')[k].model.weights) == Some(NodeModel(Preorder(t)[k], y, x, train).weights)
  {
    TrainTreeOk(t, y, x, train, info);
    AppendAllFits(info, Blocks(Preorder(t), y, x, train));
    var walk := TrainTreeStreamed(t, y, x, train, info);
    TrainedAsReads(Preorder(t), Preorder(TrainTree(t, y, x, train, info).value.0), info, y, x, train, k);
  }

  /** Every block the trainer returns has `rows` rows: one per feature, plus
      the bias row when the options ask for one. */
  ghost predicate FixedRows<X(!new)>(train: (BoolMatrix, seq<X>) -> LinearModel, rows: nat)
  {
    forall t, xs :: train(t, xs).weights.rows == rows
  }

  /** The trainer returns one weight column per target column. */
  ghost predicate OneColumnPerTarget<X(!new)>(train: (BoolMatrix, seq<X>) -> LinearModel)
  {
    forall t, xs :: train(t, xs).weights.cols == t.cols
  }

  /** Row-pointer sizing: when every block has `rows` rows, a walk that
      starts with room for `NumNodes(t) * (rows + 1)` more row pointers never
      runs out of it, and it uses exactly that many. */
  lemma {:induction false} IndptrFits<X(!new)>(t: Node, y: LabelMatrix, x: seq<X>, train: (BoolMatrix, seq<X>) -> LinearModel,
                                               info: MmapInfo, rows: nat)
    requires |x| == |y| && Valid(info) && ProducesCsr(train) && FixedRows(train, rows)
    requires info.numIndptr + NumNodes(t) * (rows + 1) <= |info.indptr|
    ensures TrainTree(t, y, x, train, info).Ok?
    ensures TrainTree(t, y, x, train, info).value.1.numIndptr == info.numIndptr + NumNodes(t) * (rows + 1)
    decreases t
  {
    var below := |PreorderAll(t.children)|;
    assert NumNodes(t) == 1 + below;
    MulSplit(1, below, rows + 1);
    assert NodeModel(t, y, x, train).weights.rows == rows;
    var visited := TrainNode(t, y, x, train, info);
    assert visited.Ok?;
    var mid := visited.value.1;
    assert mid.numIndptr == info.numIndptr + rows + 1;
    IndptrFitsAll(t.children, y, x, train, mid, rows);
    var rest := TrainAll(t.children, y, x, train, mid);
    assert TrainTree(t, y, x, train, info) == Ok((visited.value.0.(children := rest.value.0), rest.value.1));
  }

  lemma {:induction false} IndptrFitsAll<X(!new)>(cs: seq<Node>, y: LabelMatrix, x: seq<X>, train: (BoolMatrix, seq<X>) -> LinearModel,
                                                  info: MmapInfo, rows: nat)
    requires |x| == |y| && Valid(info) && ProducesCsr(train) && FixedRows(train, rows)
    requires info.numIndptr + |PreorderAll(cs)| * (rows + 1) <= |info.indptr|
    ensures TrainAll(cs, y, x, train, info).Ok?
    ensures TrainAll(cs, y, x, train, info).value.1.numIndptr == info.numIndptr + |PreorderAll(cs)| * (rows + 1)
    decreases cs
  {
    if |cs| > 0 {
      var a, b := NumNodes(cs[0]), |PreorderAll(cs[1..])|;
      assert |PreorderAll(cs)| == a + b;
      MulSplit(a, b, rows + 1);
      IndptrFits(cs[0], y, x, train, info, rows);
      var first := TrainTree(cs[0], y, x, train, info);
      IndptrFitsAll(cs[1..], y, x, train, first.value.1, rows);
      var rest := TrainAll(cs[1..], y, x, train, first.value.1);
      assert TrainAll(cs, y, x, train, info) == Ok(([first.value.0] + rest.value.0, rest.value.1));
    }
  }

  lemma MulSplit(a: nat, b: nat, c: nat)
    ensures (a + b) * c == a * c + b * c
  {
  }

  /** With a trainer that returns one column per target column, every
      trained node's weight block has one column per label (leaf) or per
      child (internal node). */
  lemma {:induction false} TrainColumns<X(!new)>(t: Node, y: LabelMatrix, x: seq<X>, train: (BoolMatrix, seq<X>) -> LinearModel, info: MmapInfo)
    requires |x| == |y| && Valid(info) && ProducesCsr(train) && OneColumnPerTarget(train)
    ensures TrainTree(t, y, x, train, info).Ok? ==> ColumnsMatch(TrainTree(t, y, x, train, info).value.0)
    decreases t
  {
    var r := TrainTree(t, y, x, train, info);
    if r.Ok? {
      var visited := TrainNode(t, y, x, train, info);
      TrainColumnsAll(t.children, y, x, train, visited.value.1);
    }
  }

  lemma {:induction false} TrainColumnsAll<X(!new)>(cs: seq<Node>, y: LabelMatrix, x: seq<X>, train: (BoolMatrix, seq<X>) -> LinearModel, info: MmapInfo)
    requires |x| == |y| && Valid(info) && ProducesCsr(train) && OneColumnPerTarget(train)
    ensures TrainAll(cs, y, x, train, info).Ok? ==>
      forall j :: 0 <= j < |cs| ==> ColumnsMatch(TrainAll(cs, y, x, train, info).value.0[j])
    decreases cs
  {
    var r := TrainAll(cs, y, x, train, info);
    if r.Ok? && |cs| > 0 {
      var first := TrainTree(cs[0], y, x, train, info);
      TrainColumns(cs[0], y, x, train, info);
      TrainColumnsAll(cs[1..], y, x, train, first.value.1);
    }
  }
}
