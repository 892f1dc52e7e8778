/** What a beam search can return, measured against the exhaustive answer:
    every root-to-leaf path of the tree, scored by the losses along it.
    Whatever the width, each surviving leaf carries exactly its path score;
    with a width of at least the number of leaves nothing is ever dropped,
    and with any smaller width something is. */
module BeamPaths {
  import opened Tree
  import opened Sorting
  import opened Beam

  /** Every candidate's node is consistent with the context. */
  predicate AllConsistent(beam: seq<Cand>, ctx: Context, numLabels: nat)
  {
    forall k :: 0 <= k < |beam| ==> Consistent(beam[k].node, ctx, numLabels)
  }

  /** The leaves below `n`, in pre-order, each with `score` lowered by the
      loss of every decision value on the way down to it. */
  function LeafCands(n: Node, score: real, ctx: Context, numLabels: nat): (r: seq<Cand>)
    requires Consistent(n, ctx, numLabels)
    ensures |r| == LeafCount(n)
    ensures forall k :: 0 <= k < |r| ==> IsLeaf(r[k].node) && Consistent(r[k].node, ctx, numLabels)
    decreases n, |n.children| + 1
  {
    if IsLeaf(n) then [Cand(n, score)] else LeafCandsFrom(n, 0, score, ctx, numLabels)
  }

  /** The scored leaves below children `j..` of `n`, whose own score is `score`. */
  function LeafCandsFrom(n: Node, j: nat, score: real, ctx: Context, numLabels: nat): (r: seq<Cand>)
    requires Consistent(n, ctx, numLabels) && j <= |n.children|
    ensures |r| == LeafCountFrom(n, j)
    ensures forall k :: 0 <= k < |r| ==> IsLeaf(r[k].node) && Consistent(r[k].node, ctx, numLabels)
    decreases n, |n.children| - j
  {
    if j == |n.children| then []
    else LeafCands(n.children[j], score - Hinge(Pred(n, ctx, j)), ctx, numLabels) + LeafCandsFrom(n, j + 1, score, ctx, numLabels)
  }

  /** The exhaustive answer for an instance: every leaf of the tree with the
      score of its path from the root, which starts at 0. */
  function Paths(root: Node, ctx: Context): (r: seq<Cand>)
    requires Consistent(root, ctx, |root.labelMap|)
    ensures |r| == LeafCount(root)
  {
    LeafCands(root, 0.0, ctx, |root.labelMap|)
  }

  /** The scored leaves below every candidate of a level, in level order. */
  function Frontier(beam: seq<Cand>, ctx: Context, numLabels: nat): (r: seq<Cand>)
    requires AllConsistent(beam, ctx, numLabels)
    ensures |beam| <= |r|
    decreases |beam|
  {
    if |beam| == 0 then []
    else LeafCands(beam[0].node, beam[0].score, ctx, numLabels) + Frontier(beam[1..], ctx, numLabels)
  }

  lemma {:induction false} FrontierConcat(a: seq<Cand>, b: seq<Cand>, ctx: Context, numLabels: nat)
    requires AllConsistent(a, ctx, numLabels) && AllConsistent(b, ctx, numLabels)
    ensures AllConsistent(a + b, ctx, numLabels)
    ensures Frontier(a + b, ctx, numLabels) == Frontier(a, ctx, numLabels) + Frontier(b, ctx, numLabels)
    decreases |a|
  {
    assert forall k :: 0 <= k < |a + b| ==> (a + b)[k] == if k < |a| then a[k] else b[k - |a|];
    if |a| == 0 {
      assert a + b == b;
    } else {
      assert (a + b)[0] == a[0] && (a + b)[1..] == a[1..] + b;
      FrontierConcat(a[1..], b, ctx, numLabels);
    }
  }

  /** A candidate in the frontier lies below some candidate of the level. */
  lemma {:induction false} FrontierWitness(beam: seq<Cand>, ctx: Context, numLabels: nat, y: Cand) returns (k: nat)
    requires AllConsistent(beam, ctx, numLabels)
    requires y in Frontier(beam, ctx, numLabels)
    ensures k < |beam| && y in LeafCands(beam[k].node, beam[k].score, ctx, numLabels)
    decreases |beam|
  {
    if y in LeafCands(beam[0].node, beam[0].score, ctx, numLabels) {
      k := 0;
    } else {
      var k' := FrontierWitness(beam[1..], ctx, numLabels, y);
      k := k' + 1;
    }
  }

  /** Whatever lies below a candidate of the level lies in its frontier. */
  lemma {:induction false} FrontierHas(beam: seq<Cand>, ctx: Context, numLabels: nat, k: nat, y: Cand)
    requires AllConsistent(beam, ctx, numLabels)
    requires k < |beam| && y in LeafCands(beam[k].node, beam[k].score, ctx, numLabels)
    ensures y in Frontier(beam, ctx, numLabels)
    decreases |beam|
  {
    if k > 0 {
      assert beam[1..][k - 1] == beam[k];
      FrontierHas(beam[1..], ctx, numLabels, k - 1, y);
    }
  }

  /** Reordering a level reorders its frontier: the same scored leaves, as
      often as before. */
  lemma {:induction false} FrontierMultiset(a: seq<Cand>, b: seq<Cand>, ctx: Context, numLabels: nat)
    requires AllConsistent(a, ctx, numLabels) && AllConsistent(b, ctx, numLabels)
    requires multiset(a) == multiset(b)
    ensures multiset(Frontier(a, ctx, numLabels)) == multiset(Frontier(b, ctx, numLabels))
    decreases |a|
  {
    if |a| == 0 {
      assert |multiset(b)| == 0;
    } else {
      assert a[0] in multiset(b);
      var i :| 0 <= i < |b| && b[i] == a[0];
      var rest := b[..i] + b[i + 1..];
      MultisetRemove(a, b, i);
      FrontierSplice(b, i, ctx, numLabels);
      FrontierMultiset(a[1..], rest, ctx, numLabels);
    }
  }

  /** Taking the element at `i` out of `b`, whose elements are those of `a`
      with `b[i]` the head of `a`, leaves the elements of `a`'s tail. */
  lemma MultisetRemove<T>(a: seq<T>, b: seq<T>, i: nat)
    requires multiset(a) == multiset(b) && |a| > 0 && i < |b| && b[i] == a[0]
    ensures multiset(b[..i] + b[i + 1..]) == multiset(a[1..])
  {
    assert b == b[..i] + [b[i]] + b[i + 1..];
    assert a == [a[0]] + a[1..];
    assert multiset(b[..i] + b[i + 1..]) == multiset(b) - multiset{a[0]};
    assert multiset(a[1..]) == multiset(a) - multiset{a[0]};
  }

  /** The frontier of `b` with and without its element at `i`. */
  lemma FrontierSplice(b: seq<Cand>, i: nat, ctx: Context, numLabels: nat)
    requires AllConsistent(b, ctx, numLabels) && i < |b|
    ensures AllConsistent(b[..i] + b[i + 1..], ctx, numLabels)
    ensures Frontier(b, ctx, numLabels)
      == Frontier(b[..i], ctx, numLabels) + (LeafCands(b[i].node, b[i].score, ctx, numLabels) + Frontier(b[i + 1..], ctx, numLabels))
    ensures Frontier(b[..i] + b[i + 1..], ctx, numLabels) == Frontier(b[..i], ctx, numLabels) + Frontier(b[i + 1..], ctx, numLabels)
  {
    var L, R := b[..i], b[i + 1..];
    assert b == L + ([b[i]] + R);
    assert AllConsistent(L, ctx, numLabels) && AllConsistent(R, ctx, numLabels) && AllConsistent([b[i]], ctx, numLabels);
    FrontierConcat(L, R, ctx, numLabels);
    FrontierConcat([b[i]], R, ctx, numLabels);
    FrontierConcat(L, [b[i]] + R, ctx, numLabels);
    assert [b[i]][1..] == [];
  }

  /** The children of an internal candidate carry, below them, exactly the
      scored leaves below the candidate. */
  lemma {:induction false} ChildrenFrontier(c: Cand, ctx: Context, numLabels: nat, j: nat)
    requires Consistent(c.node, ctx, numLabels) && !IsLeaf(c.node) && j <= |c.node.children|
    ensures AllConsistent(Children(c, ctx, numLabels)[j..], ctx, numLabels)
    ensures Frontier(Children(c, ctx, numLabels)[j..], ctx, numLabels) == LeafCandsFrom(c.node, j, c.score, ctx, numLabels)
    decreases |c.node.children| - j
  {
    var cs := Children(c, ctx, numLabels);
    if j < |cs| {
      assert cs[j..][0] == cs[j] && cs[j..][1..] == cs[j + 1..];
      ChildrenFrontier(c, ctx, numLabels, j + 1);
    }
  }

  /** One expansion step keeps the frontier: a leaf stands for itself and an
      internal node is replaced by children that carry its leaves. */
  lemma {:induction false} ExpandFrontier(beam: seq<Cand>, ctx: Context, numLabels: nat)
    requires BeamOK(beam, ctx, numLabels)
    ensures AllConsistent(beam, ctx, numLabels) && AllConsistent(Expand(beam, ctx, numLabels), ctx, numLabels)
    ensures Frontier(Expand(beam, ctx, numLabels), ctx, numLabels) == Frontier(beam, ctx, numLabels)
    decreases |beam|
  {
    if |beam| > 0 {
      var c := beam[0];
      var one := ExpandOne(c, ctx, numLabels);
      var rest := Expand(beam[1..], ctx, numLabels);
      assert BeamOK(one, ctx, numLabels);
      ExpandFrontier(beam[1..], ctx, numLabels);
      FrontierConcat(one, rest, ctx, numLabels);
      if IsLeaf(c.node) {
        assert one[1..] == [];
      } else {
        ChildrenFrontier(c, ctx, numLabels, 0);
        assert one[0..] == one;
      }
    }
  }

  /** A level of leaves is its own frontier. */
  lemma {:induction false} LeavesFrontier(beam: seq<Cand>, ctx: Context, numLabels: nat)
    requires AllConsistent(beam, ctx, numLabels)
    requires forall k :: 0 <= k < |beam| ==> IsLeaf(beam[k].node)
    ensures Frontier(beam, ctx, numLabels) == beam
    decreases |beam|
  {
    if |beam| > 0 {
      LeavesFrontier(beam[1..], ctx, numLabels);
      assert beam == [beam[0]] + beam[1..];
    }
  }

  /** `order` lists every position of a sequence of length `n` exactly once. */
  predicate Permutation(order: seq<nat>, n: nat)
  {
    && |order| == n
    && (forall k :: 0 <= k < |order| ==> order[k] < n)
    && (forall p, q :: 0 <= p < q < |order| ==> order[p] != order[q])
    && (forall d :: 0 <= d < n ==> d in order)
  }

  /** Dropping the position of `n - 1` from a permutation of `n` positions
      leaves a permutation of `n - 1`. */
  lemma DropLast(order: seq<nat>, n: nat, i: nat)
    requires Permutation(order, n) && i < |order| && order[i] == n - 1
    ensures Permutation(order[..i] + order[i + 1..], n - 1)
  {
    var o := order[..i] + order[i + 1..];
    assert forall k :: 0 <= k < |o| ==> o[k] == if k < i then order[k] else order[k + 1];
    forall d | 0 <= d < n - 1
      ensures d in o
    {
      assert d in order;
      var k :| 0 <= k < |order| && order[k] == d;
      if k < i { assert o[k] == d; } else { assert o[k - 1] == d; }
    }
  }

  lemma MultisetSplice<T>(x: seq<T>, i: nat)
    requires i < |x|
    ensures multiset(x) == multiset(x[..i] + x[i + 1..]) + multiset{x[i]}
  {
    assert x == x[..i] + [x[i]] + x[i + 1..];
  }

  /** Picking every position once keeps the elements and their counts. */
  lemma {:induction false} GatherPermutation(s: seq<Cand>, order: seq<nat>)
    requires Permutation(order, |s|)
    ensures multiset(Gather(s, order)) == multiset(s)
    decreases |s|
  {
    if |s| > 0 {
      var n := |s|;
      assert n - 1 in order;
      var i :| 0 <= i < |order| && order[i] == n - 1;
      var o := order[..i] + order[i + 1..];
      DropLast(order, n, i);
      var s' := s[..n - 1];
      GatherPermutation(s', o);
      MultisetSplice(Gather(s, order), i);
      GatherDrop(s, order, i);
      LastSplit(s);
    }
  }

  /** Dropping the pick of the last position from `order` gathers the same
      candidates from `s` without its last element. */
  lemma GatherDrop(s: seq<Cand>, order: seq<nat>, i: nat)
    requires Permutation(order, |s|) && i < |order| && order[i] == |s| - 1
    ensures Permutation(order[..i] + order[i + 1..], |s| - 1)
    ensures Gather(s[..|s| - 1], order[..i] + order[i + 1..]) == Gather(s, order)[..i] + Gather(s, order)[i + 1..]
  {
    var o := order[..i] + order[i + 1..];
    DropLast(order, |s|, i);
    assert forall k :: 0 <= k < |o| ==> o[k] == if k < i then order[k] else order[k + 1];
  }

  lemma LastSplit<T>(s: seq<T>)
    requires |s| > 0
    ensures multiset(s) == multiset(s[..|s| - 1]) + multiset{s[|s| - 1]}
  {
    assert s == s[..|s| - 1] + [s[|s| - 1]];
  }

  /** When the width admits all of `next_level`, the sort-and-truncate only
      reorders it. */
  lemma RoundReorders(beam: seq<Cand>, width: int, ctx: Context, numLabels: nat)
    requires BeamOK(beam, ctx, numLabels)
    requires width >= |Expand(beam, ctx, numLabels)|
    ensures multiset(Round(beam, width, ctx, numLabels)) == multiset(Expand(beam, ctx, numLabels))
  {
    var next := Expand(beam, ctx, numLabels);
    var order := Selection(next, width);
    RoundSelects(beam, width, ctx, numLabels);
    assert |order| == |next|;
    GatherPermutation(next, order);
  }

  /** Each kept candidate is some candidate of `next_level`. */
  lemma RoundPick(beam: seq<Cand>, width: int, ctx: Context, numLabels: nat, k: nat) returns (d: nat)
    requires BeamOK(beam, ctx, numLabels)
    requires k < |Round(beam, width, ctx, numLabels)|
    ensures d < |Expand(beam, ctx, numLabels)| && Round(beam, width, ctx, numLabels)[k] == Expand(beam, ctx, numLabels)[d]
  {
    RoundSelects(beam, width, ctx, numLabels);
    d := Selection(Expand(beam, ctx, numLabels), width)[k];
  }

  /** A round never adds to the frontier: whatever lies below the `k`-th
      kept candidate lay below the level it came from. */
  lemma RoundWithinAt(beam: seq<Cand>, width: int, ctx: Context, numLabels: nat, y: Cand, k: nat)
    requires BeamOK(beam, ctx, numLabels)
    requires k < |Round(beam, width, ctx, numLabels)|
    requires y in LeafCands(Round(beam, width, ctx, numLabels)[k].node, Round(beam, width, ctx, numLabels)[k].score, ctx, numLabels)
    ensures y in Frontier(beam, ctx, numLabels)
  {
    var d := RoundPick(beam, width, ctx, numLabels, k);
    ExpandFrontier(beam, ctx, numLabels);
    FrontierVia(Expand(beam, ctx, numLabels), Round(beam, width, ctx, numLabels), d, k, ctx, numLabels, y);
  }

  lemma FrontierVia(next: seq<Cand>, r: seq<Cand>, d: nat, k: nat, ctx: Context, numLabels: nat, y: Cand)
    requires AllConsistent(next, ctx, numLabels) && AllConsistent(r, ctx, numLabels)
    requires d < |next| && k < |r| && r[k] == next[d]
    requires y in LeafCands(r[k].node, r[k].score, ctx, numLabels)
    ensures y in Frontier(next, ctx, numLabels)
  {
    FrontierHas(next, ctx, numLabels, d, y);
  }

  /** Whatever the width, every leaf the search keeps is a leaf below the
      starting level, with the score of its path. */
  lemma {:induction false} SearchSound(beam: seq<Cand>, width: int, ctx: Context, numLabels: nat, y: Cand)
    requires BeamOK(beam, ctx, numLabels)
    requires y in Search(beam, width, ctx, numLabels)
    ensures y in Frontier(beam, ctx, numLabels)
    decreases MaxHeight(beam)
  {
    if CountInternal(beam) == 0 {
      LeavesFrontier(beam, ctx, numLabels);
    } else {
      RoundLowers(beam, width, ctx, numLabels);
      var r := Round(beam, width, ctx, numLabels);
      SearchSound(r, width, ctx, numLabels, y);
      var k := FrontierWitness(r, ctx, numLabels, y);
      RoundWithinAt(beam, width, ctx, numLabels, y, k);
    }
  }

  /** With a width of at least the frontier's size, the search keeps every
      scored leaf below the starting level, each as often as it occurs there. */
  lemma {:induction false} SearchExhaustive(beam: seq<Cand>, width: int, ctx: Context, numLabels: nat)
    requires BeamOK(beam, ctx, numLabels)
    requires width >= |Frontier(beam, ctx, numLabels)|
    ensures multiset(Search(beam, width, ctx, numLabels)) == multiset(Frontier(beam, ctx, numLabels))
    decreases MaxHeight(beam)
  {
    if CountInternal(beam) == 0 {
      LeavesFrontier(beam, ctx, numLabels);
    } else {
      var next := Expand(beam, ctx, numLabels);
      ExpandFrontier(beam, ctx, numLabels);
      RoundReorders(beam, width, ctx, numLabels);
      var r := Round(beam, width, ctx, numLabels);
      FrontierMultiset(r, next, ctx, numLabels);
      assert |Frontier(r, ctx, numLabels)| == |multiset(Frontier(r, ctx, numLabels))|;
      RoundLowers(beam, width, ctx, numLabels);
      SearchExhaustive(r, width, ctx, numLabels);
    }
  }

  lemma StartFrontier(root: Node, ctx: Context)
    requires Consistent(root, ctx, |root.labelMap|)
    ensures BeamOK([Cand(root, 0.0)], ctx, |root.labelMap|)
    ensures Frontier([Cand(root, 0.0)], ctx, |root.labelMap|) == Paths(root, ctx)
  {
    assert [Cand(root, 0.0)][1..] == [];
  }

  /** Every leaf `_beam_search` keeps for an instance is a leaf of the tree
      with exactly the score of its path from the root. */
  lemma SurvivorsArePaths(root: Node, width: int, ctx: Context)
    requires Consistent(root, ctx, |root.labelMap|)
    ensures forall x :: x in Survivors(root, width, ctx) ==> x in Paths(root, ctx)
  {
    StartFrontier(root, ctx);
    forall x | x in Survivors(root, width, ctx)
      ensures x in Paths(root, ctx)
    {
      SearchSound([Cand(root, 0.0)], width, ctx, |root.labelMap|, x);
    }
  }

  /** The beam is exhaustive exactly when it is at least as wide as the tree
      has leaves: then every leaf survives with its path score (each path
      once), and with any narrower beam over an internal root some path is
      lost. A width equal to the branching factor is therefore not enough
      once the tree is deeper than one level. */
  lemma ExhaustiveWidth(root: Node, width: int, ctx: Context)
    requires Consistent(root, ctx, |root.labelMap|)
    requires !IsLeaf(root) && width >= 0
    ensures multiset(Survivors(root, width, ctx)) == multiset(Paths(root, ctx)) <==> width >= LeafCount(root)
  {
    StartFrontier(root, ctx);
    var start := [Cand(root, 0.0)];
    if width >= LeafCount(root) {
      SearchExhaustive(start, width, ctx, |root.labelMap|);
    } else {
      assert |multiset(Survivors(root, width, ctx))| < |multiset(Paths(root, ctx))|;
    }
  }
}
