/** The label tree: `Node`, `isLeaf`, the pre-order walk `dfs`, and the
    pre-order numbering that flattening performs. */
module Tree {
  import opened Common
  import Sparse

  /** A node's trained linear model. Before training a node has none; after
      training its weights live in the growable buffers and the node keeps a view. */
  datatype Model = Untrained | Trained(bias: real, weights: Sparse.View)

  /** One region of the label space. `children` is empty exactly for a leaf;
      `index` is unset until flattening numbers the tree. */
  datatype Node = Node(labelMap: seq<nat>, children: seq<Node>, model: Model, index: Option<nat>)

  /** `Node.isLeaf`. */
  predicate IsLeaf(n: Node)
  {
    |n.children| == 0
  }

  /** The number of output columns a node's model has: one per label for a
      leaf, one per child (metalabel) for an internal node. */
  function Outputs(n: Node): nat
  {
    if IsLeaf(n) then |n.labelMap| else |n.children|
  }

  /** The nodes in the order `dfs` visits them: the node itself, then the
      walk of each child in list order. */
  function Preorder(t: Node): (r: seq<Node>)
    ensures |r| >= 1 && r[0] == t
    decreases t
  {
    [t] + PreorderAll(t.children)
  }

  /** The walks of a list of siblings, one after another. */
  function PreorderAll(cs: seq<Node>): (r: seq<Node>)
    ensures |r| >= |cs|
    decreases cs
  {
    if |cs| == 0 then [] else Preorder(cs[0]) + PreorderAll(cs[1..])
  }

  /** The number of nodes, which `train_tree` counts with a `dfs`. */
  function NumNodes(t: Node): nat
  {
    |Preorder(t)|
  }

  /** `isLeaf` holds exactly for the nodes whose `dfs` visits only the node
      itself, and exactly for the nodes of height 0. */
  lemma LeafWalk(t: Node)
    ensures IsLeaf(t) <==> NumNodes(t) == 1
    ensures IsLeaf(t) <==> Height(t) == 0
  {
    assert Preorder(t) == [t] + PreorderAll(t.children);
    if !IsLeaf(t) {
      assert |PreorderAll(t.children)| >= 1;
    }
  }

  /** The number of leaves of the subtree; a leaf counts itself. */
  function LeafCount(t: Node): (r: nat)
    ensures r >= 1
    decreases t, |t.children| + 1
  {
    if IsLeaf(t) then 1 else LeafCountFrom(t, 0)
  }

  /** The leaves under children `j..` of `t`. */
  function LeafCountFrom(t: Node, j: nat): (r: nat)
    requires j <= |t.children|
    ensures j < |t.children| ==> r >= 1
    decreases t, |t.children| - j
  {
    if j == |t.children| then 0 else LeafCount(t.children[j]) + LeafCountFrom(t, j + 1)
  }

  /** Length of the longest root-to-leaf path; 0 for a leaf. */
  function Height(t: Node): nat
    decreases t
  {
    if IsLeaf(t) then 0 else 1 + HeightAll(t.children)
  }

  /** Largest height among siblings; 0 when there are none. */
  function HeightAll(cs: seq<Node>): nat
    decreases cs
  {
    if |cs| == 0 then 0
    else
      var h := Height(cs[0]);
      var rest := HeightAll(cs[1..]);
      if h < rest then rest else h
  }

  /** A fresh tree from the builder: nothing trained, nothing numbered. */
  predicate Fresh(t: Node)
    decreases t
  {
    && t.model == Untrained
    && t.index == None
    && forall j :: 0 <= j < |t.children| ==> Fresh(t.children[j])
  }

  /** Every node carries a trained model. */
  predicate AllTrained(t: Node)
    decreases t
  {
    && t.model.Trained?
    && forall j :: 0 <= j < |t.children| ==> AllTrained(t.children[j])
  }

  /** Every node's weight block has one column per label (leaf) or per child (internal node). */
  predicate ColumnsMatch(t: Node)
    decreases t
  {
    && t.model.Trained?
    && t.model.weights.cols == Outputs(t)
    && forall j :: 0 <= j < |t.children| ==> ColumnsMatch(t.children[j])
  }

  /** The tree with every model removed: what training must leave unchanged. */
  function Strip(t: Node): Node
    decreases t
  {
    t.(model := Untrained, children := StripAll(t.children))
  }

  function StripAll(cs: seq<Node>): (r: seq<Node>)
    ensures |r| == |cs|
    decreases cs
  {
    if |cs| == 0 then [] else [Strip(cs[0])] + StripAll(cs[1..])
  }

  /** Flattening's visit: give `t` the index `s`, then number each child's
      subtree with the indices that follow the earlier siblings' subtrees. */
  function Number(t: Node, s: nat): (r: Node)
    ensures r.labelMap == t.labelMap && r.model == t.model && |r.children| == |t.children|
    ensures r.index == Some(s)
    decreases t
  {
    t.(index := Some(s), children := NumberAll(t.children, s + 1))
  }

  function NumberAll(cs: seq<Node>, s: nat): (r: seq<Node>)
    ensures |r| == |cs|
    decreases cs
  {
    if |cs| == 0 then [] else [Number(cs[0], s)] + NumberAll(cs[1..], s + |Preorder(cs[0])|)
  }

  lemma {:induction false} ChildHeight(t: Node, j: nat)
    requires j < |t.children|
    ensures Height(t.children[j]) < Height(t)
  {
    ChildHeightAll(t.children, j);
  }

  lemma {:induction false} ChildHeightAll(cs: seq<Node>, j: nat)
    requires j < |cs|
    ensures Height(cs[j]) <= HeightAll(cs)
    decreases j
  {
    if j > 0 {
      ChildHeightAll(cs[1..], j - 1);
    }
  }

  /** Numbering visits in pre-order and changes nothing but the indices: the
      k-th node of the numbered tree is the k-th node of the original tree,
      numbered from `s + k`. In particular its index is `s + k`, so the
      indices are exactly `s, s+1, ..., s+NumNodes(t)-1`, one per node. */
  lemma {:induction false} NumberPreorder(t: Node, s: nat)
    ensures |Preorder(Number(t, s))| == |Preorder(t)|
    ensures forall k :: 0 <= k < |Preorder(t)| ==> Preorder(Number(t, s))[k] == Number(Preorder(t)[k], s + k)
    decreases t
  {
    NumberPreorderAll(t.children, s + 1);
  }

  lemma {:induction false} NumberPreorderAll(cs: seq<Node>, s: nat)
    ensures |PreorderAll(NumberAll(cs, s))| == |PreorderAll(cs)|
    ensures forall k :: 0 <= k < |PreorderAll(cs)| ==> PreorderAll(NumberAll(cs, s))[k] == Number(PreorderAll(cs)[k], s + k)
    decreases cs
  {
    if |cs| > 0 {
      var m := |Preorder(cs[0])|;
      var ncs := NumberAll(cs, s);
      NumberPreorder(cs[0], s);
      NumberPreorderAll(cs[1..], s + m);
      assert ncs[0] == Number(cs[0], s);
      assert ncs[1..] == NumberAll(cs[1..], s + m);
      var a, b := Preorder(ncs[0]), PreorderAll(ncs[1..]);
      var c, d := Preorder(cs[0]), PreorderAll(cs[1..]);
      assert PreorderAll(ncs) == a + b;
      assert PreorderAll(cs) == c + d;
      assert |a| == m;
      forall k | 0 <= k < |c + d|
        ensures (a + b)[k] == Number((c + d)[k], s + k)
      {
        if k >= m {
          assert (a + b)[k] == b[k - m] && (c + d)[k] == d[k - m];
        }
      }
    }
  }

  /** After numbering, the k-th node visited by `dfs` carries index `s + k`. */
  lemma NumberedIndices(t: Node, s: nat)
    ensures |Preorder(Number(t, s))| == NumNodes(t)
    ensures forall k :: 0 <= k < NumNodes(t) ==> Preorder(Number(t, s))[k].index == Some(s + k)
  {
    NumberPreorder(t, s);
  }

  /** A node comes before its descendants and siblings come in list order:
      child `j` is numbered right after the node and the subtrees of the
      children before it. */
  lemma {:induction false} NumberChildOffset(t: Node, s: nat, j: nat)
    requires j < |t.children|
    ensures Number(t, s).children[j].index == Some(s + 1 + |PreorderAll(t.children[..j])|)
  {
    NumberAllOffset(t.children, s + 1, j);
  }

  lemma {:induction false} NumberAllOffset(cs: seq<Node>, s: nat, j: nat)
    requires j < |cs|
    ensures NumberAll(cs, s)[j].index == Some(s + |PreorderAll(cs[..j])|)
    decreases j
  {
    if j > 0 {
      var m := |Preorder(cs[0])|;
      NumberAllOffset(cs[1..], s + m, j - 1);
      assert NumberAll(cs, s)[j] == NumberAll(cs[1..], s + m)[j - 1];
      assert |PreorderAll(cs[..j])| == m + |PreorderAll(cs[1..][..j - 1])| by {
        assert cs[..j][0] == cs[0] && cs[..j][1..] == cs[1..][..j - 1];
      }
    } else {
      assert cs[..0] == [];
    }
  }

  /** Position `k` of a sibling list's walk is position `k'` of sibling
      `j`'s walk, where `k'` counts from the end of the walks of siblings
      `0..j-1`; every walk is non-empty, so `j` and `k'` are determined. */
  lemma {:induction false} PreorderAllIndex(cs: seq<Node>, k: nat) returns (j: nat, k': nat)
    requires k < |PreorderAll(cs)|
    ensures j < |cs| && k' < |Preorder(cs[j])| && PreorderAll(cs)[k] == Preorder(cs[j])[k']
    ensures k == |PreorderAll(cs[..j])| + k'
    decreases cs
  {
    var m := |Preorder(cs[0])|;
    assert PreorderAll(cs) == Preorder(cs[0]) + PreorderAll(cs[1..]);
    if k < m {
      j, k' := 0, k;
      assert cs[..0] == [];
    } else {
      var j', k'' := PreorderAllIndex(cs[1..], k - m);
      j, k' := j' + 1, k'';
      assert |PreorderAll(cs[..j])| == m + |PreorderAll(cs[1..][..j'])| by {
        assert cs[..j][0] == cs[0] && cs[..j][1..] == cs[1..][..j'];
      }
    }
  }

  /** In a trained tree every node the walk visits carries a model. */
  lemma {:induction false} AllTrainedPreorder(t: Node, k: nat)
    requires AllTrained(t)
    requires k < |Preorder(t)|
    ensures Preorder(t)[k].model.Trained?
    decreases t
  {
    if k > 0 {
      var j, k' := PreorderAllIndex(t.children, k - 1);
      AllTrainedPreorder(t.children[j], k');
    }
  }

  /** In a tree whose blocks have matching column counts, so does every node the walk visits. */
  lemma {:induction false} ColumnsMatchPreorder(t: Node, k: nat)
    requires ColumnsMatch(t)
    requires k < |Preorder(t)|
    ensures ColumnsMatch(Preorder(t)[k])
    decreases t
  {
    if k > 0 {
      var j, k' := PreorderAllIndex(t.children, k - 1);
      ColumnsMatchPreorder(t.children[j], k');
    }
  }
}
