/** Per-node training data: which instances a node trains on (the relevance
    filter of `train_tree`'s visit) and the 0/1 targets `_train_node` builds. */
module Targets {
  import opened Seqs
  import opened Tree
  import opened Build

  /** The 0/1 label matrix `y`, one set of label ids per instance. */
  type LabelMatrix = seq<set<nat>>

  /** A dense 0/1 target matrix with `cols` columns. */
  datatype BoolMatrix = BoolMatrix(cols: nat, rows: seq<seq<bool>>)

  /** The instance carries at least one of the labels in `lm`. */
  predicate HasLabelIn(labels: set<nat>, lm: seq<nat>)
  {
    exists j :: 0 <= j < |lm| && lm[j] in labels
  }

  /** `y[:, label_map].getnnz(axis=1) > 0`. */
  function Relevance(y: LabelMatrix, lm: seq<nat>): (m: seq<bool>)
    ensures |m| == |y|
    ensures forall i :: 0 <= i < |y| ==> (m[i] <==> HasLabelIn(y[i], lm))
  {
    seq(|y|, i requires 0 <= i < |y| => HasLabelIn(y[i], lm))
  }

  /** The rows `train_tree` passes to a node, in their original order: an
      instance is passed exactly when it has a label in the node's label map. */
  function RelevantInstances(y: LabelMatrix, lm: seq<nat>): (r: seq<nat>)
    ensures forall i :: i in r <==> 0 <= i < |y| && HasLabelIn(y[i], lm)
    ensures forall p, q :: 0 <= p < q < |r| ==> r[p] < r[q]
  {
    PositionsMembershipAll(Relevance(y, lm));
    Positions(Relevance(y, lm))
  }

  /** `rows[idx]`: the rows at the given positions, in that order. */
  function Rows<T>(rows: seq<T>, idx: seq<nat>): (r: seq<T>)
    requires forall k :: 0 <= k < |idx| ==> idx[k] < |rows|
    ensures |r| == |idx|
  {
    seq(|idx|, k requires 0 <= k < |idx| => rows[idx[k]])
  }

  /** A leaf's target `y[:, label_map]`: one column per label of the leaf. */
  function LeafTarget(y: LabelMatrix, lm: seq<nat>): (t: BoolMatrix)
    ensures t.cols == |lm| && |t.rows| == |y|
    ensures forall i :: 0 <= i < |y| ==> |t.rows[i]| == |lm|
    ensures forall i, j :: 0 <= i < |y| && 0 <= j < |lm| ==> (t.rows[i][j] <==> lm[j] in y[i])
  {
    BoolMatrix(|lm|, seq(|y|, i requires 0 <= i < |y| => seq(|lm|, j requires 0 <= j < |lm| => lm[j] in y[i])))
  }

  /** An internal node's target (the metalabels): column `j` marks the
      instances that have some label in child `j`'s label map. */
  function MetaTarget(y: LabelMatrix, cs: seq<Node>): (t: BoolMatrix)
    ensures t.cols == |cs| && |t.rows| == |y|
    ensures forall i :: 0 <= i < |y| ==> |t.rows[i]| == |cs|
    ensures forall i, j :: 0 <= i < |y| && 0 <= j < |cs| ==> (t.rows[i][j] <==> HasLabelIn(y[i], cs[j].labelMap))
  {
    BoolMatrix(|cs|, seq(|y|, i requires 0 <= i < |y| =>
      seq(|cs|, j requires 0 <= j < |cs| => HasLabelIn(y[i], cs[j].labelMap))))
  }

  /** `_train_node`'s choice of target: direct labels for a leaf, metalabels otherwise. */
  function Target(n: Node, y: LabelMatrix): (t: BoolMatrix)
    ensures t.cols == Outputs(n) && |t.rows| == |y|
    ensures forall i :: 0 <= i < |y| ==> |t.rows[i]| == Outputs(n)
  {
    if IsLeaf(n) then LeafTarget(y, n.labelMap) else MetaTarget(y, n.children)
  }

  /** In a partitioned tree an instance has a positive entry in a node's
      target row exactly when it is relevant to that node: every instance a
      node trains on is a positive example for at least one of its columns,
      and a leaf or internal node sees no instance that is negative everywhere. */
  lemma TargetRowPositive(n: Node, y: LabelMatrix, i: nat)
    requires Partitioned(n)
    requires i < |y|
    ensures (exists j :: 0 <= j < Outputs(n) && Target(n, y).rows[i][j]) <==> HasLabelIn(y[i], n.labelMap)
  {
    var t := Target(n, y);
    if !IsLeaf(n) {
      var cs := n.children;
      if HasLabelIn(y[i], n.labelMap) {
        var k :| 0 <= k < |n.labelMap| && n.labelMap[k] in y[i];
        var x := n.labelMap[k];
        assert x in multiset(ChildLabels(cs));
        FlattenMembership(LabelMaps(cs), x);
        var j :| 0 <= j < |cs| && x in LabelMaps(cs)[j];
        assert t.rows[i][j];
      }
      if exists j :: 0 <= j < |cs| && t.rows[i][j] {
        var j :| 0 <= j < |cs| && t.rows[i][j];
        var k :| 0 <= k < |cs[j].labelMap| && cs[j].labelMap[k] in y[i];
        SubseqMembership(cs[j].labelMap, n.labelMap, cs[j].labelMap[k]);
      }
    } else {
      if HasLabelIn(y[i], n.labelMap) {
        var k :| 0 <= k < |n.labelMap| && n.labelMap[k] in y[i];
        assert t.rows[i][k];
      }
    }
  }

  /** A child's training instances are among its parent's: an instance
      relevant to child `j` is relevant to the parent, and the parent's
      metalabel `j` is set for it. */
  lemma ChildInstancesWithinParent(n: Node, y: LabelMatrix, j: nat)
    requires Partitioned(n)
    requires j < |n.children|
    ensures forall i :: i in RelevantInstances(y, n.children[j].labelMap) ==> i in RelevantInstances(y, n.labelMap)
    ensures forall i :: i in RelevantInstances(y, n.children[j].labelMap) ==> MetaTarget(y, n.children).rows[i][j]
  {
    var c := n.children[j];
    forall i | i in RelevantInstances(y, c.labelMap)
      ensures i in RelevantInstances(y, n.labelMap)
    {
      var k :| 0 <= k < |c.labelMap| && c.labelMap[k] in y[i];
      SubseqMembership(c.labelMap, n.labelMap, c.labelMap[k]);
    }
  }
}
