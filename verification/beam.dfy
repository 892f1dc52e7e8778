/** `TreeModel._beam_search`: walk the tree level by level from the root,
    replacing each internal node of the beam by its children, keeping the
    `beam_width` best-scoring candidates, until only leaves remain; then turn
    the surviving leaves' scores into decision values for their labels. */
module Beam {
  import opened Common
  import opened Tree
  import opened Sorting

  /** What one prediction reads: the flattened model's `weight_map` and the
      cached decision values of one instance (one per column of the flat
      weight matrix). */
  datatype Context = Context(weightMap: seq<nat>, preds: seq<real>)

  /** The node's slice `weight_map[index] : weight_map[index + 1]` exists,
      has one entry per output of the node, and lies inside `preds`. */
  predicate HasSlots(n: Node, ctx: Context)
  {
    && n.index.Some?
    && n.index.value + 1 < |ctx.weightMap|
    && ctx.weightMap[n.index.value] + Outputs(n) == ctx.weightMap[n.index.value + 1]
    && ctx.weightMap[n.index.value + 1] <= |ctx.preds|
  }

  /** Every node of the subtree has its slice, and every label it holds
      indexes the output vector of `numLabels` entries. */
  predicate Consistent(n: Node, ctx: Context, numLabels: nat)
    decreases n
  {
    && HasSlots(n, ctx)
    && (forall j :: 0 <= j < |n.labelMap| ==> n.labelMap[j] < numLabels)
    && forall j :: 0 <= j < |n.children| ==> Consistent(n.children[j], ctx, numLabels)
  }

  /** The cached decision value of output `j` of node `n`. */
  function Pred(n: Node, ctx: Context, j: nat): real
    requires HasSlots(n, ctx) && j < Outputs(n)
  {
    ctx.preds[ctx.weightMap[n.index.value] + j]
  }

  /** `np.maximum(0, 1 - pred) ** 2`, the squared hinge loss of one decision
      value: never negative, and zero for a value of at least 1. */
  function Hinge(p: real): (r: real)
    ensures r >= 0.0
    ensures p >= 1.0 ==> r == 0.0
  {
    var m := if 1.0 - p > 0.0 then 1.0 - p else 0.0;
    m * m
  }

  lemma MulLeft(a: real, b: real, c: real)
    requires a >= 0.0 && b <= c
    ensures a * b <= a * c
  {
  }

  /** A larger decision value never costs more. */
  lemma HingeAntitone(p: real, q: real)
    requires p <= q
    ensures Hinge(q) <= Hinge(p)
  {
    var mp := if 1.0 - p > 0.0 then 1.0 - p else 0.0;
    var mq := if 1.0 - q > 0.0 then 1.0 - q else 0.0;
    MulLeft(mq, mq, mp);
    MulLeft(mp, mq, mp);
    assert mq * mp == mp * mq;
  }

  /** A `(node, score)` pair of `cur_level` / `next_level`. */
  datatype Cand = Cand(node: Node, score: real)

  /** `zip(node.children, score - hinge(pred))`: each child with the
      parent's score lowered by the loss of the child's decision value. */
  function Children(c: Cand, ctx: Context, numLabels: nat): (r: seq<Cand>)
    requires Consistent(c.node, ctx, numLabels)
    ensures |r| == |c.node.children|
    ensures forall j :: 0 <= j < |r| ==>
      && r[j].node == c.node.children[j]
      && r[j].score <= c.score
      && c.score - r[j].score == Hinge(Pred(c.node, ctx, j))
  {
    seq(|c.node.children|, j requires 0 <= j < |c.node.children| =>
      Cand(c.node.children[j], c.score - Hinge(Pred(c.node, ctx, j))))
  }

  /** What one entry of `cur_level` contributes to `next_level`: a leaf
      itself, an internal node its children. */
  function ExpandOne(c: Cand, ctx: Context, numLabels: nat): (r: seq<Cand>)
    requires Consistent(c.node, ctx, numLabels)
  {
    if IsLeaf(c.node) then [c] else Children(c, ctx, numLabels)
  }

  /** The beam invariant: every candidate's node is consistent with the
      context and no score is positive (the root starts at 0 and losses are
      never negative). */
  predicate BeamOK(beam: seq<Cand>, ctx: Context, numLabels: nat)
  {
    forall k :: 0 <= k < |beam| ==> Consistent(beam[k].node, ctx, numLabels) && beam[k].score <= 0.0
  }

  /** `next_level` built from `cur_level`, contributions in beam order. */
  function Expand(beam: seq<Cand>, ctx: Context, numLabels: nat): (r: seq<Cand>)
    requires BeamOK(beam, ctx, numLabels)
    ensures BeamOK(r, ctx, numLabels)
    decreases |beam|
  {
    if |beam| == 0 then []
    else
      var one := ExpandOne(beam[0], ctx, numLabels);
      var rest := Expand(beam[1..], ctx, numLabels);
      assert BeamOK(one, ctx, numLabels);
      one + rest
  }

  /** `x` is what `c` may turn into in one step: `c` itself if it is a leaf,
      otherwise one of its children with a score no higher than `c`'s. */
  predicate Spawns(c: Cand, x: Cand)
  {
    if IsLeaf(c.node) then x == c else x.node in c.node.children && x.score <= c.score
  }

  /** Every candidate of `next_level` comes from one of `cur_level`. */
  lemma {:induction false} ExpandOrigin(beam: seq<Cand>, ctx: Context, numLabels: nat, k: nat) returns (i: nat)
    requires BeamOK(beam, ctx, numLabels)
    requires k < |Expand(beam, ctx, numLabels)|
    ensures i < |beam| && Spawns(beam[i], Expand(beam, ctx, numLabels)[k])
    decreases |beam|
  {
    var one := ExpandOne(beam[0], ctx, numLabels);
    if k < |one| {
      i := 0;
      if !IsLeaf(beam[0].node) {
        assert one[k].node == beam[0].node.children[k];
      }
    } else {
      var i' := ExpandOrigin(beam[1..], ctx, numLabels, k - |one|);
      i := i' + 1;
    }
  }

  /** Nothing is lost in one step: a leaf of `cur_level` is carried into
      `next_level`, and so is every child of an internal node. */
  lemma {:induction false} ExpandKeeps(beam: seq<Cand>, ctx: Context, numLabels: nat, i: nat)
    requires BeamOK(beam, ctx, numLabels)
    requires i < |beam|
    ensures IsLeaf(beam[i].node) ==> beam[i] in Expand(beam, ctx, numLabels)
    ensures !IsLeaf(beam[i].node) ==>
      forall j :: 0 <= j < |beam[i].node.children| ==>
        Children(beam[i], ctx, numLabels)[j] in Expand(beam, ctx, numLabels)
    decreases |beam|
  {
    var one := ExpandOne(beam[0], ctx, numLabels);
    var rest := Expand(beam[1..], ctx, numLabels);
    assert Expand(beam, ctx, numLabels) == one + rest;
    if i == 0 {
      if !IsLeaf(beam[0].node) {
        forall j | 0 <= j < |beam[0].node.children|
          ensures Children(beam[0], ctx, numLabels)[j] in one + rest
        {
          assert (one + rest)[j] == one[j];
        }
      }
    } else {
      ExpandKeeps(beam[1..], ctx, numLabels, i - 1);
      assert beam[1..][i - 1] == beam[i];
    }
  }

  /** One step lowers every candidate below `h` when all were at most `h`
      high: leaves have height 0 and children are lower than their parent. */
  lemma {:induction false} ExpandHeights(beam: seq<Cand>, ctx: Context, numLabels: nat, h: nat)
    requires BeamOK(beam, ctx, numLabels)
    requires h >= 1
    requires forall k :: 0 <= k < |beam| ==> Height(beam[k].node) <= h
    ensures forall k :: 0 <= k < |Expand(beam, ctx, numLabels)| ==> Height(Expand(beam, ctx, numLabels)[k].node) < h
    decreases |beam|
  {
    if |beam| > 0 {
      var one := ExpandOne(beam[0], ctx, numLabels);
      var rest := Expand(beam[1..], ctx, numLabels);
      ExpandHeights(beam[1..], ctx, numLabels, h);
      forall k | 0 <= k < |one|
        ensures Height(one[k].node) < h
      {
        if !IsLeaf(beam[0].node) {
          ChildHeight(beam[0].node, k);
        }
      }
      assert Expand(beam, ctx, numLabels) == one + rest;
    }
  }

  /** The scores of a level, position by position. */
  function Scores(s: seq<Cand>): (r: seq<real>)
    ensures |r| == |s|
    ensures forall k :: 0 <= k < |s| ==> r[k] == s[k].score
  {
    seq(|s|, k requires 0 <= k < |s| => s[k].score)
  }

  /** The candidates at the given positions, in the given order. */
  function Gather(s: seq<Cand>, order: seq<nat>): (r: seq<Cand>)
    requires forall k :: 0 <= k < |order| ==> order[k] < |s|
    ensures |r| == |order|
    ensures forall k :: 0 <= k < |order| ==> r[k] == s[order[k]]
  {
    seq(|order|, k requires 0 <= k < |order| => s[order[k]])
  }

  /** The positions of `next_level` that `sorted(..., key=-score)[:beam_width]` keeps. */
  function Selection(next: seq<Cand>, width: int): seq<nat>
  {
    PyTake(Rank(Scores(next)), width)
  }

  /** One pass of the loop body: expand, sort by descending score (stably),
      keep the first `beam_width`. */
  function Round(beam: seq<Cand>, width: int, ctx: Context, numLabels: nat): (r: seq<Cand>)
    requires BeamOK(beam, ctx, numLabels)
    ensures BeamOK(r, ctx, numLabels)
    ensures width >= 0 ==> |r| <= width
    ensures forall p, q :: 0 <= p < q < |r| ==> r[p].score >= r[q].score
  {
    var next := Expand(beam, ctx, numLabels);
    var order := Selection(next, width);
    var r := Gather(next, order);
    assert forall p, q :: 0 <= p < q < |order| ==> Before(Scores(next), order[p], order[q]);
    r
  }

  /** What the sort-and-truncate keeps: each kept candidate is a distinct
      candidate of `next_level`, every kept one outranks every dropped one
      (a higher score, or the same score and emitted earlier), and with a
      width of at least `|next_level|` nothing is dropped. */
  lemma RoundSelects(beam: seq<Cand>, width: int, ctx: Context, numLabels: nat)
    requires BeamOK(beam, ctx, numLabels)
    ensures var next, order := Expand(beam, ctx, numLabels), Selection(Expand(beam, ctx, numLabels), width);
      && (forall k :: 0 <= k < |order| ==> order[k] < |next|)
      && Round(beam, width, ctx, numLabels) == Gather(next, order)
      && (forall p, q :: 0 <= p < q < |order| ==> order[p] != order[q])
      && (forall k, d :: 0 <= k < |order| && 0 <= d < |next| && d !in order ==>
            Before(Scores(next), order[k], d))
      && (width >= |next| ==> forall d :: 0 <= d < |next| ==> d in order)
  {
    var next := Expand(beam, ctx, numLabels);
    var order := Selection(next, width);
    TakeRanked(Scores(next), width, order);
    assert Round(beam, width, ctx, numLabels) == Gather(next, order);
  }

  /** The tallest node in the beam; 0 for an empty beam. */
  function MaxHeight(beam: seq<Cand>): (h: nat)
    ensures forall k :: 0 <= k < |beam| ==> Height(beam[k].node) <= h
    ensures h > 0 ==> exists k :: 0 <= k < |beam| && Height(beam[k].node) == h
    decreases |beam|
  {
    if |beam| == 0 then 0
    else
      var rest := MaxHeight(beam[1..]);
      var h0 := Height(beam[0].node);
      if h0 < rest then
        (var k :| 0 <= k < |beam[1..]| && Height(beam[1..][k].node) == rest;
         assert beam[k + 1] == beam[1..][k];
         rest)
      else h0
  }

  /** `num_internal`: how many candidates of the level are internal nodes. */
  function CountInternal(beam: seq<Cand>): (n: nat)
    ensures n == 0 <==> forall k :: 0 <= k < |beam| ==> IsLeaf(beam[k].node)
    ensures n <= |beam|
    decreases |beam|
  {
    if |beam| == 0 then 0
    else
      var rest := CountInternal(beam[1..]);
      assert forall k :: 1 <= k < |beam| ==> beam[k] == beam[1..][k - 1];
      (if IsLeaf(beam[0].node) then 0 else 1) + rest
  }

  /** While an internal node remains, a round lowers the tallest node of the
      beam, so the loop ends. */
  lemma RoundLowers(beam: seq<Cand>, width: int, ctx: Context, numLabels: nat)
    requires BeamOK(beam, ctx, numLabels)
    requires CountInternal(beam) > 0
    ensures MaxHeight(Round(beam, width, ctx, numLabels)) < MaxHeight(beam)
  {
    var h := MaxHeight(beam);
    var k0 :| 0 <= k0 < |beam| && !IsLeaf(beam[k0].node);
    assert Height(beam[k0].node) >= 1;
    var next := Expand(beam, ctx, numLabels);
    ExpandHeights(beam, ctx, numLabels, h);
    RoundSelects(beam, width, ctx, numLabels);
    var order := Selection(next, width);
    var r := Round(beam, width, ctx, numLabels);
    assert r == Gather(next, order);
    forall k | 0 <= k < |r|
      ensures Height(r[k].node) < h
    {
      assert r[k] == next[order[k]];
    }
    var m := MaxHeight(r);
    if m > 0 {
      var k :| 0 <= k < |r| && Height(r[k].node) == m;
    }
  }

  /** The `while True` loop: stop as soon as no internal node remains. The
      final level holds only leaves; when the loop ran at least once it holds
      at most `beam_width` candidates, best first. */
  function Search(beam: seq<Cand>, width: int, ctx: Context, numLabels: nat): (r: seq<Cand>)
    requires BeamOK(beam, ctx, numLabels)
    ensures BeamOK(r, ctx, numLabels)
    ensures forall k :: 0 <= k < |r| ==> IsLeaf(r[k].node)
    ensures CountInternal(beam) == 0 ==> r == beam
    ensures CountInternal(beam) > 0 && width >= 0 ==> |r| <= width
    ensures CountInternal(beam) > 0 ==> forall p, q :: 0 <= p < q < |r| ==> r[p].score >= r[q].score
    decreases MaxHeight(beam)
  {
    if CountInternal(beam) == 0 then beam
    else
      RoundLowers(beam, width, ctx, numLabels);
      Search(Round(beam, width, ctx, numLabels), width, ctx, numLabels)
  }

  /** One entry of the returned vector: a label no surviving leaf holds keeps `-inf`. */
  datatype Score = NegInf | Finite(value: real)

  /** `v` is the value the last write to label `p` stores. */
  predicate LastWrite(labels: seq<nat>, vals: seq<real>, p: nat, v: real)
    requires |labels| == |vals|
  {
    exists j :: 0 <= j < |labels| && labels[j] == p && v == vals[j] && LastAt(labels, p, j)
  }

  /** No write after position `j` hits label `p`. */
  predicate LastAt(labels: seq<nat>, p: nat, j: nat)
  {
    forall j' :: j < j' < |labels| ==> labels[j'] != p
  }

  /** `scores[labels] = vals`: entries written in order, so for a repeated
      label the last write wins; untouched entries keep their value. */
  function Assign(scores: seq<Score>, labels: seq<nat>, vals: seq<real>): (r: seq<Score>)
    requires |labels| == |vals|
    requires forall j :: 0 <= j < |labels| ==> labels[j] < |scores|
    ensures |r| == |scores|
    ensures forall p :: 0 <= p < |scores| && p !in labels ==> r[p] == scores[p]
    ensures forall p :: 0 <= p < |scores| && p in labels ==> r[p].Finite? && LastWrite(labels, vals, p, r[p].value)
    decreases |labels|
  {
    if |labels| == 0 then scores
    else
      var s1 := scores[labels[0] := Finite(vals[0])];
      var r := Assign(s1, labels[1..], vals[1..]);
      AssignStep(scores, labels, vals, s1, r);
      r
  }

  /** The step of `Assign`: the first write survives only when no later
      write hits the same label. */
  lemma AssignStep(scores: seq<Score>, labels: seq<nat>, vals: seq<real>, s1: seq<Score>, r: seq<Score>)
    requires |labels| == |vals| && |labels| > 0
    requires labels[0] < |scores| && s1 == scores[labels[0] := Finite(vals[0])]
    requires |r| == |s1|
    requires forall p :: 0 <= p < |s1| && p !in labels[1..] ==> r[p] == s1[p]
    requires forall p :: 0 <= p < |s1| && p in labels[1..] ==> r[p].Finite? && LastWrite(labels[1..], vals[1..], p, r[p].value)
    ensures forall p :: 0 <= p < |scores| && p !in labels ==> r[p] == scores[p]
    ensures forall p :: 0 <= p < |scores| && p in labels ==> r[p].Finite? && LastWrite(labels, vals, p, r[p].value)
  {
    forall p | 0 <= p < |scores| && p in labels
      ensures r[p].Finite? && LastWrite(labels, vals, p, r[p].value)
    {
      if p in labels[1..] {
        var j :| 0 <= j < |labels[1..]| && labels[1..][j] == p && r[p].value == vals[1..][j] && LastAt(labels[1..], p, j);
        assert labels[j + 1] == p && vals[j + 1] == vals[1..][j];
        assert forall j' :: j + 1 < j' < |labels| ==> labels[j'] == labels[1..][j' - 1];
        assert LastAt(labels, p, j + 1);
      } else {
        assert labels[0] == p;
        assert forall j' :: 0 < j' < |labels| ==> labels[j'] == labels[1..][j' - 1];
        assert LastAt(labels, p, 0);
      }
    }
    forall p | 0 <= p < |scores| && p !in labels
      ensures r[p] == scores[p]
    {
      assert p !in labels[1..];
    }
  }

  /** `np.exp(score - hinge(pred))` for each label of a leaf. */
  function LeafValues(c: Cand, ctx: Context, numLabels: nat, exp: real -> real): (r: seq<real>)
    requires Consistent(c.node, ctx, numLabels) && IsLeaf(c.node)
    ensures |r| == |c.node.labelMap|
    ensures forall j :: 0 <= j < |r| ==> r[j] == exp(c.score - Hinge(Pred(c.node, ctx, j)))
  {
    seq(|c.node.labelMap|, j requires 0 <= j < |c.node.labelMap| => exp(c.score - Hinge(Pred(c.node, ctx, j))))
  }

  /** Some surviving leaf holds label `p`. */
  predicate Covers(beam: seq<Cand>, p: nat)
  {
    exists k :: 0 <= k < |beam| && p in beam[k].node.labelMap
  }

  /** Candidate `c` is a leaf holding label `p` at some position `j` of its
      label map, and `v` is the value it computes there. */
  predicate LeafGives(c: Cand, ctx: Context, numLabels: nat, exp: real -> real, p: nat, v: real)
    requires Consistent(c.node, ctx, numLabels)
  {
    && IsLeaf(c.node)
    && exists j :: 0 <= j < |c.node.labelMap| && c.node.labelMap[j] == p
         && v == exp(c.score - Hinge(Pred(c.node, ctx, j)))
  }

  /** Some leaf of the beam gives label `p` the value `v`. */
  predicate ValueFrom(beam: seq<Cand>, ctx: Context, numLabels: nat, exp: real -> real, p: nat, v: real)
    requires BeamOK(beam, ctx, numLabels)
  {
    exists k :: 0 <= k < |beam| && LeafGives(beam[k], ctx, numLabels, exp, p, v)
  }

  /** The final loop: each surviving leaf writes its values into `scores`, in beam order. */
  function WriteBeam(scores: seq<Score>, beam: seq<Cand>, ctx: Context, numLabels: nat, exp: real -> real): (r: seq<Score>)
    requires |scores| == numLabels
    requires BeamOK(beam, ctx, numLabels)
    requires forall k :: 0 <= k < |beam| ==> IsLeaf(beam[k].node)
    ensures |r| == |scores|
    decreases |beam|
  {
    if |beam| == 0 then scores
    else
      var c := beam[0];
      WriteBeam(Assign(scores, c.node.labelMap, LeafValues(c, ctx, numLabels, exp)), beam[1..], ctx, numLabels, exp)
  }

  /** A label is held by a leaf of the beam when the first leaf holds it
      or a later one does. */
  lemma CoversCons(beam: seq<Cand>, p: nat)
    requires |beam| > 0
    ensures Covers(beam, p) <==> p in beam[0].node.labelMap || Covers(beam[1..], p)
  {
    if Covers(beam, p) && p !in beam[0].node.labelMap {
      var k :| 0 <= k < |beam| && p in beam[k].node.labelMap;
      assert beam[1..][k - 1] == beam[k];
    }
    if Covers(beam[1..], p) {
      var k :| 0 <= k < |beam[1..]| && p in beam[1..][k].node.labelMap;
      assert beam[k + 1] == beam[1..][k];
    }
  }

  /** A value computed by a later leaf is computed by a leaf of the whole beam. */
  lemma ValueFromTail(beam: seq<Cand>, ctx: Context, numLabels: nat, exp: real -> real, p: nat, v: real)
    requires |beam| > 0 && BeamOK(beam, ctx, numLabels)
    requires ValueFrom(beam[1..], ctx, numLabels, exp, p, v)
    ensures ValueFrom(beam, ctx, numLabels, exp, p, v)
  {
    var tail := beam[1..];
    var k :| 0 <= k < |tail| && LeafGives(tail[k], ctx, numLabels, exp, p, v);
    assert tail[k] == beam[k + 1];
  }

  /** A value the first leaf computes for one of its labels. */
  lemma ValueFromHead(beam: seq<Cand>, ctx: Context, numLabels: nat, exp: real -> real, p: nat, j: nat)
    requires |beam| > 0 && BeamOK(beam, ctx, numLabels) && IsLeaf(beam[0].node)
    requires j < |beam[0].node.labelMap| && beam[0].node.labelMap[j] == p
    ensures ValueFrom(beam, ctx, numLabels, exp, p, LeafValues(beam[0], ctx, numLabels, exp)[j])
  {
    assert LeafGives(beam[0], ctx, numLabels, exp, p, LeafValues(beam[0], ctx, numLabels, exp)[j]);
  }

  /** After the final loop an entry is untouched exactly when no surviving
      leaf holds its label; otherwise it is the value some leaf holding the
      label computed for it. */
  lemma {:induction false} WriteBeamCoverage(scores: seq<Score>, beam: seq<Cand>, ctx: Context, numLabels: nat, exp: real -> real, p: nat)
    requires |scores| == numLabels
    requires BeamOK(beam, ctx, numLabels)
    requires forall k :: 0 <= k < |beam| ==> IsLeaf(beam[k].node)
    requires p < numLabels
    ensures !Covers(beam, p) ==> WriteBeam(scores, beam, ctx, numLabels, exp)[p] == scores[p]
    ensures Covers(beam, p) ==>
      && WriteBeam(scores, beam, ctx, numLabels, exp)[p].Finite?
      && ValueFrom(beam, ctx, numLabels, exp, p, WriteBeam(scores, beam, ctx, numLabels, exp)[p].value)
    decreases |beam|
  {
    if |beam| > 0 {
      var c := beam[0];
      var vals := LeafValues(c, ctx, numLabels, exp);
      var s1 := Assign(scores, c.node.labelMap, vals);
      var tail := beam[1..];
      WriteBeamCoverage(s1, tail, ctx, numLabels, exp, p);
      var r := WriteBeam(s1, tail, ctx, numLabels, exp);
      assert r == WriteBeam(scores, beam, ctx, numLabels, exp);
      CoversCons(beam, p);
      if Covers(tail, p) {
        ValueFromTail(beam, ctx, numLabels, exp, p, r[p].value);
      } else if p in c.node.labelMap {
        var j :| 0 <= j < |c.node.labelMap| && c.node.labelMap[j] == p && s1[p] == Finite(vals[j]);
        ValueFromHead(beam, ctx, numLabels, exp, p, j);
      }
    }
  }

  /** `_beam_search(instance_preds, beam_width)`: start from the root with
      score 0, search, and write the surviving leaves' values into a vector
      of `-inf` with one entry per label of the root. */
  function BeamSearch(root: Node, width: int, ctx: Context, exp: real -> real): (r: seq<Score>)
    requires Consistent(root, ctx, |root.labelMap|)
    ensures |r| == |root.labelMap|
  {
    var numLabels := |root.labelMap|;
    var start := [Cand(root, 0.0)];
    var final := Search(start, width, ctx, numLabels);
    WriteBeam(seq(numLabels, _ => NegInf), final, ctx, numLabels, exp)
  }

  /** The surviving leaves of a search from the root. */
  function Survivors(root: Node, width: int, ctx: Context): (r: seq<Cand>)
    requires Consistent(root, ctx, |root.labelMap|)
    ensures BeamOK(r, ctx, |root.labelMap|)
    ensures forall k :: 0 <= k < |r| ==> IsLeaf(r[k].node)
    ensures !IsLeaf(root) && width >= 0 ==> |r| <= width
    ensures IsLeaf(root) ==> r == [Cand(root, 0.0)]
  {
    var start := [Cand(root, 0.0)];
    assert !IsLeaf(root) ==> CountInternal(start) > 0;
    Search(start, width, ctx, |root.labelMap|)
  }

  /** What `_beam_search` returns: label `p` gets `-inf` unless a surviving
      leaf holds it, and then `exp(score - hinge(pred))` computed by such a
      leaf from its own score and the decision value for `p`. */
  lemma BeamSearchScores(root: Node, width: int, ctx: Context, exp: real -> real, p: nat)
    requires Consistent(root, ctx, |root.labelMap|)
    requires p < |root.labelMap|
    ensures var r, final := BeamSearch(root, width, ctx, exp), Survivors(root, width, ctx);
      && (r[p].Finite? <==> Covers(final, p))
      && (r[p].Finite? ==> ValueFrom(final, ctx, |root.labelMap|, exp, p, r[p].value))
  {
    var numLabels := |root.labelMap|;
    var final := Survivors(root, width, ctx);
    WriteBeamCoverage(seq(numLabels, _ => NegInf), final, ctx, numLabels, exp, p);
  }

  /** `np.vstack` of an empty list raises `ValueError`: a batch with no
      instances has no rows to stack. */
  datatype PredictError = NoInstances

  /** `predict_values` once the flat model's decision values are known: one
      beam search per instance, row `i` for instance `i`, stacked. */
  function PredictValues(root: Node, width: int, weightMap: seq<nat>, allPreds: seq<seq<real>>, exp: real -> real)
    : (r: Result<seq<seq<Score>>, PredictError>)
    requires forall i :: 0 <= i < |allPreds| ==> Consistent(root, Context(weightMap, allPreds[i]), |root.labelMap|)
    ensures r.Err? <==> |allPreds| == 0
    ensures r.Ok? ==> |r.value| == |allPreds|
    ensures r.Ok? ==> forall i :: 0 <= i < |allPreds| ==> |r.value[i]| == |root.labelMap|
    ensures r.Ok? ==> forall i :: 0 <= i < |allPreds| ==> r.value[i] == BeamSearch(root, width, Context(weightMap, allPreds[i]), exp)
  {
    if |allPreds| == 0 then Err(NoInstances)
    else Ok(seq(|allPreds|, i requires 0 <= i < |allPreds| => BeamSearch(root, width, Context(weightMap, allPreds[i]), exp)))
  }

  /** Row `i` of `predict_values` is instance `i`'s beam search: label `p` is
      finite exactly when a leaf surviving that instance's search holds it,
      and then it is the value such a leaf computes from the instance's own
      decision values. */
  lemma PredictValuesScores(root: Node, width: int, weightMap: seq<nat>, allPreds: seq<seq<real>>, exp: real -> real, i: nat, p: nat)
    requires forall i :: 0 <= i < |allPreds| ==> Consistent(root, Context(weightMap, allPreds[i]), |root.labelMap|)
    requires i < |allPreds| && p < |root.labelMap|
    ensures var row, ctx := PredictValues(root, width, weightMap, allPreds, exp).value[i], Context(weightMap, allPreds[i]);
      && (row[p].Finite? <==> Covers(Survivors(root, width, ctx), p))
      && (row[p].Finite? ==> ValueFrom(Survivors(root, width, ctx), ctx, |root.labelMap|, exp, p, row[p].value))
  {
    BeamSearchScores(root, width, Context(weightMap, allPreds[i]), exp, p);
  }
}
