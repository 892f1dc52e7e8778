/** `_build_tree`: recursive partition of the label set by a clustering
    oracle into exactly K clusters per internal node. */
module Build {
  import opened Common
  import opened Seqs
  import opened Tree

  /** The clustering primitive (KMeans in the source) is a parameter: given
      the labels at a node it returns one cluster id in `[0, K)` per label. */
  ghost predicate ValidClustering(cluster: (seq<nat>, int) -> seq<nat>, K: nat)
  {
    forall s, d :: |cluster(s, d)| == |s| && forall j :: 0 <= j < |s| ==> cluster(s, d)[j] < K
  }

  /** The mask `metalabels == i`. */
  function Mask(ids: seq<nat>, i: nat): (m: seq<bool>)
    ensures |m| == |ids|
    ensures forall j :: 0 <= j < |ids| ==> (m[j] <==> ids[j] == i)
  {
    seq(|ids|, j requires 0 <= j < |ids| => ids[j] == i)
  }

  /** `label_map[metalabels == i]`: the labels of cluster `i`, in order. */
  function Part(lm: seq<nat>, ids: seq<nat>, i: nat): (r: seq<nat>)
    requires |ids| == |lm|
    ensures IsSubseq(r, lm)
    ensures forall x :: x in r <==> exists j :: 0 <= j < |lm| && ids[j] == i && lm[j] == x
  {
    SelectIsSubseq(lm, Mask(ids, i));
    PartMembers(lm, ids, i);
    Select(lm, Mask(ids, i))
  }

  lemma PartMembers(lm: seq<nat>, ids: seq<nat>, i: nat)
    requires |ids| == |lm|
    ensures forall x :: x in Select(lm, Mask(ids, i)) <==> exists j :: 0 <= j < |lm| && ids[j] == i && lm[j] == x
  {
    forall x
      ensures x in Select(lm, Mask(ids, i)) <==> exists j :: 0 <= j < |lm| && ids[j] == i && lm[j] == x
    {
      SelectMembership(lm, Mask(ids, i), x);
    }
  }

  /** The label maps of a list of nodes. */
  function LabelMaps(cs: seq<Node>): (r: seq<seq<nat>>)
    ensures |r| == |cs|
    ensures forall j :: 0 <= j < |cs| ==> r[j] == cs[j].labelMap
  {
    seq(|cs|, j requires 0 <= j < |cs| => cs[j].labelMap)
  }

  /** The children's label maps concatenated in child order. */
  function ChildLabels(cs: seq<Node>): seq<nat>
  {
    Flatten(LabelMaps(cs))
  }

  /** The labels of all leaves below `t`, in `dfs` order. */
  function Leaves(t: Node): seq<nat>
    decreases t
  {
    if IsLeaf(t) then t.labelMap else Flatten(LeavesOf(t.children))
  }

  /** The leaf labels below each of a list of siblings. */
  function LeavesOf(cs: seq<Node>): (r: seq<seq<nat>>)
    ensures |r| == |cs|
    ensures forall j :: 0 <= j < |cs| ==> r[j] == Leaves(cs[j])
    decreases cs
  {
    seq(|cs|, j requires 0 <= j < |cs| => Leaves(cs[j]))
  }

  /** Every internal node's children split its label map: together they hold
      the same labels with the same multiplicities, and each child keeps the
      parent's relative order. */
  predicate Partitioned(t: Node)
    decreases t
  {
    && (!IsLeaf(t) ==> multiset(ChildLabels(t.children)) == multiset(t.labelMap))
    && (forall j :: 0 <= j < |t.children| ==> IsSubseq(t.children[j].labelMap, t.labelMap))
    && (forall j :: 0 <= j < |t.children| ==> Partitioned(t.children[j]))
  }

  /** `_build_tree(label_representation, label_map, d, K, dmax)`. A node is a
      leaf exactly when the depth limit is reached or at most K labels remain;
      otherwise it has exactly K children, one per cluster id, and a cluster
      with no labels becomes an empty leaf. */
  function BuildTree(lm: seq<nat>, d: int, K: nat, dmax: int, cluster: (seq<nat>, int) -> seq<nat>): (r: Node)
    requires K >= 1
    requires ValidClustering(cluster, K)
    ensures r.labelMap == lm
    ensures IsLeaf(r) <==> d >= dmax || |lm| <= K
    ensures !IsLeaf(r) ==> |r.children| == K
    ensures !IsLeaf(r) ==> forall i :: 0 <= i < K ==> r.children[i].labelMap == Part(lm, cluster(lm, d), i)
    decreases dmax - d
  {
    if d >= dmax || |lm| <= K then
      Node(lm, [], Untrained, None)
    else
      var ids := cluster(lm, d);
      var children := seq(K, i requires 0 <= i < K => BuildTree(Part(lm, ids, i), d + 1, K, dmax, cluster));
      Node(lm, children, Untrained, None)
  }

  /** The K clusters' label maps, in cluster order. */
  function Parts(lm: seq<nat>, ids: seq<nat>, K: nat): (r: seq<seq<nat>>)
    requires |ids| == |lm|
    ensures |r| == K
  {
    seq(K, i requires 0 <= i < K => Part(lm, ids, i))
  }

  /** Adding one more label extends exactly the part of its cluster. */
  lemma PartStep(lm: seq<nat>, ids: seq<nat>, i: nat)
    requires |ids| == |lm| > 0
    ensures Part(lm, ids, i) == Part(lm[..|lm| - 1], ids[..|lm| - 1], i) + OneHot(i + 1, ids[|lm| - 1], lm[|lm| - 1])[i]
  {
    var n := |lm| - 1;
    assert Mask(ids, i)[..n] == Mask(ids[..n], i);
  }

  lemma PartsOfNothing(ids: seq<nat>, K: nat)
    requires |ids| == 0
    ensures Flatten(Parts([], ids, K)) == []
  {
    var parts := Parts([], ids, K);
    forall i | 0 <= i < K
      ensures parts[i] == []
    {
      assert Mask(ids, i) == [];
    }
    FlattenAllEmpty(parts);
  }

  /** The clusters' label maps, concatenated in cluster order, are a
      permutation of the parent's label map. */
  lemma {:induction false} PartsPermutation(lm: seq<nat>, ids: seq<nat>, K: nat)
    requires |ids| == |lm|
    requires forall j :: 0 <= j < |ids| ==> ids[j] < K
    ensures multiset(Flatten(Parts(lm, ids, K))) == multiset(lm)
    decreases |lm|
  {
    var parts := Parts(lm, ids, K);
    if |lm| == 0 {
      PartsOfNothing(ids, K);
    } else {
      var n := |lm| - 1;
      var lm', ids' := lm[..n], ids[..n];
      var parts' := Parts(lm', ids', K);
      PartsPermutation(lm', ids', K);
      var hot := OneHot(K, ids[n], lm[n]);
      assert multiset(Flatten(parts)) == multiset(Flatten(parts')) + multiset(Flatten(hot)) by {
        PartsStep(lm, ids, K);
        FlattenZipMultiset(parts', hot);
      }
      assert multiset(Flatten(hot)) == multiset{lm[n]} by {
        FlattenOneHotMultiset(K, ids[n], lm[n]);
      }
      assert multiset(lm) == multiset(lm') + multiset{lm[n]} by {
        assert lm == lm' + [lm[n]];
      }
    }
  }

  /** Adding one more label adds it to its cluster's part and leaves the
      other parts alone. */
  lemma PartsStep(lm: seq<nat>, ids: seq<nat>, K: nat)
    requires |ids| == |lm| > 0
    ensures var n := |lm| - 1;
      Parts(lm, ids, K) == Zip(Parts(lm[..n], ids[..n], K), OneHot(K, ids[n], lm[n]))
  {
    var n := |lm| - 1;
    var parts, parts', hot := Parts(lm, ids, K), Parts(lm[..n], ids[..n], K), OneHot(K, ids[n], lm[n]);
    forall i | 0 <= i < K
      ensures parts[i] == Zip(parts', hot)[i]
    {
      PartStep(lm, ids, i);
      assert hot[i] == OneHot(i + 1, ids[n], lm[n])[i];
    }
  }

  lemma {:induction false} BuildPartitioned(lm: seq<nat>, d: int, K: nat, dmax: int, cluster: (seq<nat>, int) -> seq<nat>)
    requires K >= 1
    requires ValidClustering(cluster, K)
    ensures Partitioned(BuildTree(lm, d, K, dmax, cluster))
    decreases dmax - d
  {
    var r := BuildTree(lm, d, K, dmax, cluster);
    if !IsLeaf(r) {
      var ids := cluster(lm, d);
      BuildChildLabels(lm, d, K, dmax, cluster);
      forall j | 0 <= j < K
        ensures IsSubseq(r.children[j].labelMap, lm)
        ensures Partitioned(r.children[j])
      {
        assert r.children[j] == BuildTree(Part(lm, ids, j), d + 1, K, dmax, cluster);
        SelectIsSubseq(lm, Mask(ids, j));
        BuildPartitioned(Part(lm, ids, j), d + 1, K, dmax, cluster);
      }
      PartitionedIntro(r);
    }
  }

  /** An internal node's children hold a permutation of its labels. */
  lemma BuildChildLabels(lm: seq<nat>, d: int, K: nat, dmax: int, cluster: (seq<nat>, int) -> seq<nat>)
    requires K >= 1
    requires ValidClustering(cluster, K)
    ensures var r := BuildTree(lm, d, K, dmax, cluster);
      !IsLeaf(r) ==> multiset(ChildLabels(r.children)) == multiset(lm)
  {
    var r := BuildTree(lm, d, K, dmax, cluster);
    if !IsLeaf(r) {
      var ids := cluster(lm, d);
      assert forall j :: 0 <= j < |ids| ==> ids[j] < K;
      PartsPermutation(lm, ids, K);
      assert LabelMaps(r.children) == Parts(lm, ids, K);
    }
  }

  lemma PartitionedIntro(t: Node)
    requires !IsLeaf(t) ==> multiset(ChildLabels(t.children)) == multiset(t.labelMap)
    requires forall j :: 0 <= j < |t.children| ==> IsSubseq(t.children[j].labelMap, t.labelMap)
    requires forall j :: 0 <= j < |t.children| ==> Partitioned(t.children[j])
    ensures Partitioned(t)
  {
  }

  /** No node lies deeper than `dmax`: a tree built at depth `d` has height
      at most `dmax - d` (and is a single leaf once `d >= dmax`). */
  lemma {:induction false} BuildDepth(lm: seq<nat>, d: int, K: nat, dmax: int, cluster: (seq<nat>, int) -> seq<nat>)
    requires K >= 1
    requires ValidClustering(cluster, K)
    ensures d >= dmax ==> Height(BuildTree(lm, d, K, dmax, cluster)) == 0
    ensures d < dmax ==> d + Height(BuildTree(lm, d, K, dmax, cluster)) <= dmax
    decreases dmax - d
  {
    var r := BuildTree(lm, d, K, dmax, cluster);
    if !IsLeaf(r) {
      var ids := cluster(lm, d);
      forall j | 0 <= j < K
        ensures d + 1 + Height(r.children[j]) <= dmax
      {
        assert r.children[j] == BuildTree(Part(lm, ids, j), d + 1, K, dmax, cluster);
        BuildDepth(Part(lm, ids, j), d + 1, K, dmax, cluster);
      }
      HeightAllBound(r.children, dmax - d - 1);
      assert Height(r) == 1 + HeightAll(r.children);
    }
  }

  lemma {:induction false} HeightAllBound(cs: seq<Node>, h: nat)
    requires forall j :: 0 <= j < |cs| ==> Height(cs[j]) <= h
    ensures HeightAll(cs) <= h
    decreases |cs|
  {
    if |cs| > 0 {
      HeightAllBound(cs[1..], h);
    }
  }

  /** The builder returns a fresh tree: no node is trained or numbered. */
  lemma {:induction false} BuildFresh(lm: seq<nat>, d: int, K: nat, dmax: int, cluster: (seq<nat>, int) -> seq<nat>)
    requires K >= 1
    requires ValidClustering(cluster, K)
    ensures Fresh(BuildTree(lm, d, K, dmax, cluster))
    decreases dmax - d
  {
    var r := BuildTree(lm, d, K, dmax, cluster);
    if !IsLeaf(r) {
      forall j | 0 <= j < K
        ensures Fresh(r.children[j])
      {
        BuildFresh(Part(lm, cluster(lm, d), j), d + 1, K, dmax, cluster);
      }
    }
  }

  /** Leaf coverage: in a partitioned tree the leaves' label maps together
      hold exactly the root's labels, each as often as the root holds it. */
  lemma {:induction false} LeafCoverage(t: Node)
    requires Partitioned(t)
    ensures multiset(Leaves(t)) == multiset(t.labelMap)
    decreases t
  {
    if !IsLeaf(t) {
      var cs := t.children;
      var leaves := LeavesOf(cs);
      var labels := LabelMaps(cs);
      forall j | 0 <= j < |cs|
        ensures multiset(leaves[j]) == multiset(labels[j])
      {
        LeafCoverage(cs[j]);
      }
      FlattenPointwiseMultiset(leaves, labels);
    }
  }

  /** Every label held anywhere in a partitioned tree is one of the root's labels. */
  lemma {:induction false} PartitionedLabelsWithin(t: Node, n: Node, x: nat)
    requires Partitioned(t)
    requires n in Preorder(t)
    requires x in n.labelMap
    ensures x in t.labelMap
    decreases t
  {
    if n != t {
      var j := PreorderAllMember(t.children, n);
      SubseqMembership(t.children[j].labelMap, t.labelMap, x) by {
        PartitionedLabelsWithin(t.children[j], n, x);
      }
    }
  }

  /** A node in the walk of a list of siblings is in the walk of one of them. */
  lemma {:induction false} PreorderAllMember(cs: seq<Node>, n: Node) returns (j: nat)
    requires n in PreorderAll(cs)
    ensures j < |cs| && n in Preorder(cs[j])
    decreases cs
  {
    if n in Preorder(cs[0]) {
      j := 0;
    } else {
      var j' := PreorderAllMember(cs[1..], n);
      j := j' + 1;
    }
  }

  lemma {:induction false} SubseqMembership(a: seq<nat>, b: seq<nat>, x: nat)
    requires IsSubseq(a, b)
    requires x in a
    ensures x in b
    decreases |b|
  {
    if |b| > 0 {
      var n := |b| - 1;
      if a[|a| - 1] == b[n] && IsSubseq(a[..|a| - 1], b[..n]) {
        if x != b[n] {
          assert a == a[..|a| - 1] + [a[|a| - 1]];
          SubseqMembership(a[..|a| - 1], b[..n], x);
        }
      } else {
        SubseqMembership(a, b[..n], x);
      }
    }
  }
}
