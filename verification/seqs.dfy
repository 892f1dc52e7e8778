/** Sequence helpers shared by the tree model: index ranges, numpy-style
    boolean-mask selection, sums and concatenation. */
module Seqs {

  /** `np.arange(n)`: the ids 0, 1, ..., n-1. */
  function Range(n: nat): (r: seq<nat>)
    ensures |r| == n
    ensures forall i :: 0 <= i < n ==> r[i] == i
  {
    seq(n, i => i)
  }

  /** `s[mask]`: the elements of `s` whose mask entry is true, in their original order. */
  function Select<T>(s: seq<T>, mask: seq<bool>): (r: seq<T>)
    requires |mask| == |s|
    ensures |r| <= |s|
    decreases |s|
  {
    if |s| == 0 then []
    else Select(s[..|s| - 1], mask[..|s| - 1]) + (if mask[|s| - 1] then [s[|s| - 1]] else [])
  }

  /** `a` is obtained from `b` by deleting elements, so `a` keeps `b`'s relative order. */
  predicate IsSubseq<T(==)>(a: seq<T>, b: seq<T>)
    decreases |b|
  {
    if |a| == 0 then true
    else if |b| == 0 then false
    else (a[|a| - 1] == b[|b| - 1] && IsSubseq(a[..|a| - 1], b[..|b| - 1])) || IsSubseq(a, b[..|b| - 1])
  }

  /** Sum of a sequence of naturals, `sum(s)`. */
  function Sum(s: seq<nat>): nat
    decreases |s|
  {
    if |s| == 0 then 0 else Sum(s[..|s| - 1]) + s[|s| - 1]
  }

  /** Concatenation of a sequence of sequences, in order. */
  function Flatten<T>(ss: seq<seq<T>>): seq<T>
    decreases |ss|
  {
    if |ss| == 0 then [] else Flatten(ss[..|ss| - 1]) + ss[|ss| - 1]
  }

  /** Pointwise concatenation of two equally long sequences of sequences. */
  function Zip<T>(a: seq<seq<T>>, b: seq<seq<T>>): (r: seq<seq<T>>)
    requires |a| == |b|
    ensures |r| == |a|
  {
    seq(|a|, i requires 0 <= i < |a| => a[i] + b[i])
  }

  /** K slots, all empty except slot `c`, which holds `x`. */
  function OneHot<T>(k: nat, c: nat, x: T): (r: seq<seq<T>>)
    ensures |r| == k
  {
    seq(k, i => if i == c then [x] else [])
  }

  lemma {:induction false} SelectMembership<T>(s: seq<T>, mask: seq<bool>, x: T)
    requires |mask| == |s|
    ensures x in Select(s, mask) <==> exists j :: 0 <= j < |s| && mask[j] && s[j] == x
    decreases |s|
  {
    if |s| > 0 {
      var n := |s| - 1;
      SelectMembership(s[..n], mask[..n], x);
      if x in Select(s, mask) && x !in Select(s[..n], mask[..n]) {
        assert mask[n] && s[n] == x;
      }
      if exists j :: 0 <= j < |s| && mask[j] && s[j] == x {
        var j :| 0 <= j < |s| && mask[j] && s[j] == x;
        if j < n {
          assert s[..n][j] == x && mask[..n][j];
        }
      }
    }
  }

  lemma {:induction false} SelectIsSubseq<T>(s: seq<T>, mask: seq<bool>)
    requires |mask| == |s|
    ensures IsSubseq(Select(s, mask), s)
    decreases |s|
  {
    if |s| > 0 {
      var n := |s| - 1;
      SelectIsSubseq(s[..n], mask[..n]);
      var a := Select(s, mask);
      if mask[n] {
        assert a[..|a| - 1] == Select(s[..n], mask[..n]);
      } else {
        assert a == Select(s[..n], mask[..n]);
        SubseqOfPrefix(a, s[..n], s[n]);
      }
    }
  }

  /** A subsequence of `b` is also a subsequence of `b` extended by one element. */
  lemma {:induction false} SubseqOfPrefix<T>(a: seq<T>, b: seq<T>, y: T)
    requires IsSubseq(a, b)
    ensures IsSubseq(a, b + [y])
  {
    if |a| > 0 {
      assert (b + [y])[..|b + [y]| - 1] == b;
    }
  }

  /** `np.flatnonzero(mask)`: the positions whose mask entry is true, in increasing order. */
  function Positions(mask: seq<bool>): (r: seq<nat>)
    ensures forall p :: 0 <= p < |r| ==> r[p] < |mask|
    ensures forall p, q :: 0 <= p < q < |r| ==> r[p] < r[q]
    decreases |mask|
  {
    if |mask| == 0 then []
    else Positions(mask[..|mask| - 1]) + (if mask[|mask| - 1] then [|mask| - 1] else [])
  }

  /** Selecting by a mask is gathering at the mask's positions, so two sequences
      selected by one mask stay aligned element for element. */
  lemma {:induction false} SelectIsGather<T>(s: seq<T>, mask: seq<bool>)
    requires |mask| == |s|
    ensures |Select(s, mask)| == |Positions(mask)|
    ensures forall k :: 0 <= k < |Positions(mask)| ==> Select(s, mask)[k] == s[Positions(mask)[k]]
    decreases |s|
  {
    if |s| > 0 {
      var n := |s| - 1;
      SelectIsGather(s[..n], mask[..n]);
    }
  }

  lemma PositionsMembershipAll(mask: seq<bool>)
    ensures forall i :: i in Positions(mask) <==> 0 <= i < |mask| && mask[i]
  {
    forall i
      ensures i in Positions(mask) <==> 0 <= i < |mask| && mask[i]
    {
      PositionsMembership(mask, i);
    }
  }

  lemma {:induction false} PositionsMembership(mask: seq<bool>, i: int)
    ensures i in Positions(mask) <==> 0 <= i < |mask| && mask[i]
    decreases |mask|
  {
    if |mask| > 0 {
      var n := |mask| - 1;
      PositionsMembership(mask[..n], i);
    }
  }

  lemma {:induction false} FlattenMembership<T>(ss: seq<seq<T>>, x: T)
    ensures x in Flatten(ss) <==> exists j :: 0 <= j < |ss| && x in ss[j]
    decreases |ss|
  {
    if |ss| > 0 {
      var n := |ss| - 1;
      FlattenMembership(ss[..n], x);
      if exists j :: 0 <= j < |ss| && x in ss[j] {
        var j :| 0 <= j < |ss| && x in ss[j];
        if j < n {
          assert ss[..n][j] == ss[j];
        }
      }
    }
  }

  lemma {:induction false} FlattenAllEmpty<T>(ss: seq<seq<T>>)
    requires forall j :: 0 <= j < |ss| ==> ss[j] == []
    ensures Flatten(ss) == []
    decreases |ss|
  {
    if |ss| > 0 {
      FlattenAllEmpty(ss[..|ss| - 1]);
    }
  }

  lemma {:induction false} FlattenZipMultiset<T>(a: seq<seq<T>>, b: seq<seq<T>>)
    requires |a| == |b|
    ensures multiset(Flatten(Zip(a, b))) == multiset(Flatten(a)) + multiset(Flatten(b))
    decreases |a|
  {
    if |a| > 0 {
      var n := |a| - 1;
      assert Zip(a, b)[..n] == Zip(a[..n], b[..n]);
      FlattenZipMultiset(a[..n], b[..n]);
    }
  }

  lemma {:induction false} FlattenOneHotMultiset<T>(k: nat, c: nat, x: T)
    ensures multiset(Flatten(OneHot(k, c, x))) == if c < k then multiset{x} else multiset{}
    decreases k
  {
    if k > 0 {
      assert OneHot(k, c, x)[..k - 1] == OneHot(k - 1, c, x);
      FlattenOneHotMultiset(k - 1, c, x);
    }
  }

  /** Concatenations of pointwise-equal multisets have equal multisets. */
  lemma {:induction false} FlattenPointwiseMultiset<T>(a: seq<seq<T>>, b: seq<seq<T>>)
    requires |a| == |b|
    requires forall j :: 0 <= j < |a| ==> multiset(a[j]) == multiset(b[j])
    ensures multiset(Flatten(a)) == multiset(Flatten(b))
    decreases |a|
  {
    if |a| > 0 {
      var n := |a| - 1;
      FlattenPointwiseMultiset(a[..n], b[..n]);
    }
  }
}
