/** The ordering `_beam_search` gets from Python's stable
    `sorted(next_level, key=lambda pair: -pair[1])`, computed as a ranking of
    positions: higher score first, equal scores in their original order. */
module Sorting {

  /** Candidate `a` comes before candidate `b`: a higher score, or the same
      score and an earlier position. */
  predicate Before(keys: seq<real>, a: nat, b: nat)
    requires a < |keys| && b < |keys|
  {
    keys[a] > keys[b] || (keys[a] == keys[b] && a < b)
  }

  /** `r` lists positions of `keys` in `Before` order. */
  predicate Ranked(keys: seq<real>, r: seq<nat>)
  {
    && (forall k :: 0 <= k < |r| ==> r[k] < |keys|)
    && (forall p, q :: 0 <= p < q < |r| ==> Before(keys, r[p], r[q]))
  }

  /** Insert position `i`, later than every position in `s`, after all
      entries whose score is at least its own. */
  function Insert(keys: seq<real>, s: seq<nat>, i: nat): (r: seq<nat>)
    requires i < |keys|
    requires Ranked(keys, s)
    requires forall k :: 0 <= k < |s| ==> s[k] < i
    ensures Ranked(keys, r)
    ensures |r| == |s| + 1
    ensures multiset(r) == multiset(s) + multiset{i}
    decreases |s|
  {
    if |s| == 0 then [i]
    else if keys[s[0]] < keys[i] then [i] + s
    else
      var rest := Insert(keys, s[1..], i);
      InsertBehindHead(keys, s, i, rest);
      assert s == [s[0]] + s[1..];
      [s[0]] + rest
  }

  /** The head of `s` stays ahead of everything inserted behind it. */
  lemma InsertBehindHead(keys: seq<real>, s: seq<nat>, i: nat, rest: seq<nat>)
    requires i < |keys| && |s| > 0
    requires Ranked(keys, s) && Ranked(keys, rest)
    requires keys[s[0]] >= keys[i] && s[0] < i
    requires multiset(rest) == multiset(s[1..]) + multiset{i}
    ensures Ranked(keys, [s[0]] + rest)
  {
    var r := [s[0]] + rest;
    forall q | 0 < q < |r|
      ensures Before(keys, s[0], r[q])
    {
      var x := rest[q - 1];
      assert x in multiset(rest);
      if x != i {
        assert x in multiset(s[1..]);
        var j :| 0 <= j < |s[1..]| && s[1..][j] == x;
        assert s[j + 1] == x;
      }
    }
  }

  /** The first `n` positions in `Before` order. */
  function RankPrefix(keys: seq<real>, n: nat): (r: seq<nat>)
    requires n <= |keys|
    ensures Ranked(keys, r)
    ensures |r| == n
    ensures forall k :: 0 <= k < |r| ==> r[k] < n
    ensures forall i :: 0 <= i < n ==> i in r
    decreases n
  {
    if n == 0 then []
    else
      var last: nat := n - 1;
      var s := RankPrefix(keys, last);
      var r := Insert(keys, s, last);
      InsertCovers(s, r, last);
      r
  }

  /** Adding position `last` to a listing of exactly the positions below it
      lists exactly the positions up to it. */
  lemma InsertCovers(s: seq<nat>, r: seq<nat>, last: nat)
    requires forall k :: 0 <= k < |s| ==> s[k] < last
    requires forall i :: 0 <= i < last ==> i in s
    requires multiset(r) == multiset(s) + multiset{last}
    ensures forall k :: 0 <= k < |r| ==> r[k] < last + 1
    ensures forall i :: 0 <= i < last + 1 ==> i in r
  {
    forall k | 0 <= k < |r|
      ensures r[k] < last + 1
    {
      assert r[k] in multiset(r);
    }
    forall i | 0 <= i < last + 1
      ensures i in r
    {
      if i < last {
        assert i in s;
        assert i in multiset(s);
      }
      assert i in multiset(r);
    }
  }

  /** The stable descending sort as a permutation of positions: every
      position appears once, higher scores first, ties in original order. */
  function Rank(keys: seq<real>): (r: seq<nat>)
    ensures Ranked(keys, r)
    ensures |r| == |keys|
    ensures forall i :: 0 <= i < |keys| ==> i in r
  {
    RankPrefix(keys, |keys|)
  }

  /** `Before` is a strict order, so a ranking lists each position once and
      is determined by the set of positions it lists: `Rank` is the only
      ranking of all positions, whichever way it was computed. */
  lemma {:induction false} RankedUnique(keys: seq<real>, a: seq<nat>, b: seq<nat>)
    requires Ranked(keys, a) && Ranked(keys, b)
    requires forall x :: x in a <==> x in b
    ensures a == b
    decreases |a|
  {
    if |a| > 0 {
      SameHead(keys, a, b);
      SameTailMembers(keys, a, b);
      RankedTail(keys, a);
      RankedTail(keys, b);
      RankedUnique(keys, a[1..], b[1..]);
      assert a == [a[0]] + a[1..];
      assert b == [b[0]] + b[1..];
    } else if |b| > 0 {
      SameHead(keys, b, a);
    }
  }

  /** Two rankings of the same positions start with the same position: each
      head comes before every other listed position. */
  lemma SameHead(keys: seq<real>, a: seq<nat>, b: seq<nat>)
    requires Ranked(keys, a) && Ranked(keys, b)
    requires forall x :: x in a <==> x in b
    requires |a| > 0
    ensures |b| > 0 && a[0] == b[0]
  {
    assert a[0] in b;
    var q :| 0 <= q < |b| && b[q] == a[0];
    assert b[0] in a;
    var p :| 0 <= p < |a| && a[p] == b[0];
    assert Before(keys, a[0], a[p]) || p == 0;
    assert Before(keys, b[0], b[q]) || q == 0;
  }

  /** With the same head, the rest of two rankings list the same positions. */
  lemma SameTailMembers(keys: seq<real>, a: seq<nat>, b: seq<nat>)
    requires Ranked(keys, a) && Ranked(keys, b)
    requires forall x :: x in a <==> x in b
    requires |a| > 0 && |b| > 0 && a[0] == b[0]
    ensures forall x :: x in a[1..] <==> x in b[1..]
  {
    forall x | x in a[1..]
      ensures x in b[1..]
    {
      var i :| 0 <= i < |a[1..]| && a[1..][i] == x;
      assert a[i + 1] == x;
      assert Before(keys, a[0], a[i + 1]);
      assert x in b;
      var j :| 0 <= j < |b| && b[j] == x;
      assert b[1..][j - 1] == x;
    }
    forall x | x in b[1..]
      ensures x in a[1..]
    {
      var i :| 0 <= i < |b[1..]| && b[1..][i] == x;
      assert b[i + 1] == x;
      assert Before(keys, b[0], b[i + 1]);
      assert x in a;
      var j :| 0 <= j < |a| && a[j] == x;
      assert a[1..][j - 1] == x;
    }
  }

  lemma RankedTail(keys: seq<real>, a: seq<nat>)
    requires Ranked(keys, a) && |a| > 0
    ensures Ranked(keys, a[1..])
  {
    assert forall p, q :: 0 <= p < q < |a| - 1 ==> a[1..][p] == a[p + 1] && a[1..][q] == a[q + 1];
  }

  /** What `sorted(...)[:w]` keeps: distinct positions, each outranking
      every position left out, and all positions when `w` is at least the
      number of keys. */
  lemma TakeRanked(keys: seq<real>, w: int, order: seq<nat>)
    requires order == PyTake(Rank(keys), w)
    ensures forall k :: 0 <= k < |order| ==> order[k] < |keys|
    ensures forall p, q :: 0 <= p < q < |order| ==> order[p] != order[q]
    ensures forall k, d :: 0 <= k < |order| && 0 <= d < |keys| && d !in order ==> Before(keys, order[k], d)
    ensures w >= |keys| ==> forall d :: 0 <= d < |keys| ==> d in order
  {
    var ranked := Rank(keys);
    assert order == ranked[..|order|];
    forall p, q | 0 <= p < q < |order|
      ensures order[p] != order[q]
    {
      assert Before(keys, ranked[p], ranked[q]);
    }
    forall k, d | 0 <= k < |order| && 0 <= d < |keys| && d !in order
      ensures Before(keys, order[k], d)
    {
      assert d in ranked;
      var q :| 0 <= q < |ranked| && ranked[q] == d;
      assert Before(keys, ranked[k], ranked[q]);
    }
    if w >= |keys| {
      assert order == ranked;
    }
  }

  /** Python's `s[:w]`: the first `w` elements, or for a negative `w` all but
      the last `-w`. */
  function PyTake<T>(s: seq<T>, w: int): (r: seq<T>)
    ensures w >= 0 ==> |r| == if w < |s| then w else |s|
    ensures w < 0 ==> |r| == if |s| + w > 0 then |s| + w else 0
    ensures r == s[..|r|]
  {
    if w >= 0 then (if w < |s| then s[..w] else s)
    else (if |s| + w > 0 then s[..|s| + w] else [])
  }
}
