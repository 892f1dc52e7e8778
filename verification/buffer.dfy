/** The growable buffers `_as_mmap` appends each node's weight block to:
    nonzero values and column indices that grow by doubling, and a row-pointer
    buffer sized once up front. The backing files are modelled as sequences. */
module Buffer {
  import opened Common
  import opened Sparse

  /** Initial capacity of the nonzero buffers (`chunk_size`). */
  const ChunkSize: nat := 4096

  function Pow2(e: nat): (r: nat)
    ensures r >= 1
    decreases e
  {
    if e == 0 then 1 else 2 * Pow2(e - 1)
  }

  ghost predicate IsPow2(n: nat)
  {
    exists e: nat :: n == Pow2(e)
  }

  /** Python's `int.bit_length` on a non-negative integer: the number of
      binary digits, so `n` lies in `[2^(r-1), 2^r)`. */
  function BitLength(n: nat): (r: nat)
    ensures n < Pow2(r)
    ensures n > 0 ==> r >= 1 && Pow2(r - 1) <= n
    decreases n
  {
    if n == 0 then 0 else 1 + BitLength(n / 2)
  }

  /** The nonzero capacity after `_as_mmap`'s check: kept when `need`
      entries fit, else `2 << (need - 1).bit_length()`, which is twice the
      least power of two that is at least `need`. */
  function GrownCapacity(cap: nat, need: nat): (r: nat)
    ensures r >= need && r >= cap
    ensures cap >= need ==> r == cap
    ensures cap < need ==> cap < r && IsPow2(r) && 2 * need <= r < 4 * need
  {
    if cap < need then
      var e := BitLength(need - 1);
      assert Pow2(e + 1) == 2 * Pow2(e);
      2 * Pow2(e)
    else cap
  }

  /** The shared cursors and arrays of `mmap_info`. `data` and `indices` are
      resized together, so their lengths (the capacity) agree. */
  datatype MmapInfo = MmapInfo(data: seq<real>, indices: seq<int>, indptr: seq<int>, numData: nat, numIndptr: nat)

  predicate Valid(b: MmapInfo)
  {
    |b.data| == |b.indices| && b.numData <= |b.data|
  }

  /** The buffers `train_tree` allocates before the walk: `chunk_size`
      nonzeros and `num_nodes * (num_features + has_bias + 1)` row pointers.
      Fresh files are modelled as zero-filled. */
  function NewMmapInfo(numNodes: nat, numFeatures: nat, hasBias: bool): (b: MmapInfo)
    ensures Valid(b) && b.numData == 0 && b.numIndptr == 0
    ensures |b.data| == ChunkSize
    ensures |b.indptr| == numNodes * (numFeatures + (if hasBias then 1 else 0) + 1)
  {
    var rowPtrs := numNodes * (numFeatures + (if hasBias then 1 else 0) + 1);
    MmapInfo(seq(ChunkSize, _ => 0.0), seq(ChunkSize, _ => 0), seq(rowPtrs, _ => 0), 0, 0)
  }

  /** `resize`: the content is kept and the new tail is zero-filled. */
  function Grow<T>(s: seq<T>, n: nat, fill: T): (r: seq<T>)
    requires n >= |s|
    ensures |r| == n && r[..|s|] == s
  {
    s + seq(n - |s|, _ => fill)
  }

  /** `s[at:at+len(t)] = t`. */
  function Overwrite<T>(s: seq<T>, at: nat, t: seq<T>): (r: seq<T>)
    requires at + |t| <= |s|
    ensures |r| == |s|
    ensures r[..at] == s[..at] && r[at..at + |t|] == t && r[at + |t|..] == s[at + |t|..]
  {
    s[..at] + t + s[at + |t|..]
  }

  /** numpy refuses to copy a row-pointer array into a slice of another length. */
  datatype AppendError = IndptrShapeMismatch

  /** The block a view designates, read back from the buffers, if it lies inside them. */
  function ReadView(b: MmapInfo, v: View): Option<Csr>
  {
    if v.dataStart + v.nnz <= |b.data| && v.dataStart + v.nnz <= |b.indices| && v.indptrStart + v.rows + 1 <= |b.indptr| then
      Some(Csr(v.rows, v.cols, b.data[v.dataStart..v.dataStart + v.nnz], b.indices[v.dataStart..v.dataStart + v.nnz],
               b.indptr[v.indptrStart..v.indptrStart + v.rows + 1]))
    else None
  }

  /** `_as_mmap(arr, mmap_info)`: grow the nonzero buffers if `arr` does not
      fit, copy its values, column indices and row pointers behind the
      cursors, advance the cursors and return a view of the copy. When the
      row-pointer buffer is too short the copy fails, except that a
      single-entry row-pointer array (a block with no rows) broadcasts into
      the empty slice and writes nothing. */
  function Append(b: MmapInfo, arr: Csr): (r: Result<(MmapInfo, View), AppendError>)
    requires Valid(b) && ValidCsr(arr)
    ensures r.Ok? <==> b.numIndptr + arr.rows + 1 <= |b.indptr| || arr.rows == 0
    ensures r.Ok? ==>
      var (b', v) := r.value;
      && Valid(b')
      && b'.numData == b.numData + |arr.data|
      && b'.numIndptr == b.numIndptr + arr.rows + 1
      && |b'.data| == GrownCapacity(|b.data|, b.numData + |arr.data|)
      && |b'.indptr| == |b.indptr|
      && v == View(b.numData, |arr.data|, b.numIndptr, arr.rows, arr.cols)
    ensures r.Ok? ==>
      var b' := r.value.0;
      && b'.data[..b.numData] == b.data[..b.numData]
      && b'.indices[..b.numData] == b.indices[..b.numData]
      && (forall k :: 0 <= k < b.numIndptr && k < |b.indptr| ==> b'.indptr[k] == b.indptr[k])
    ensures r.Ok? && b.numIndptr + arr.rows + 1 <= |b.indptr| ==> ReadView(r.value.0, r.value.1) == Some(arr)
  {
    var nnz := |arr.data|;
    var cap := GrownCapacity(|b.data|, b.numData + nnz);
    var data := Overwrite(Grow(b.data, cap, 0.0), b.numData, arr.data);
    var indices := Overwrite(Grow(b.indices, cap, 0), b.numData, arr.indices);
    var view := View(b.numData, nnz, b.numIndptr, arr.rows, arr.cols);
    if b.numIndptr + arr.rows + 1 <= |b.indptr| then
      var indptr := Overwrite(b.indptr, b.numIndptr, arr.indptr);
      Ok((MmapInfo(data, indices, indptr, b.numData + nnz, b.numIndptr + arr.rows + 1), view))
    else if arr.rows == 0 then
      Ok((MmapInfo(data, indices, b.indptr, b.numData + nnz, b.numIndptr + 1), view))
    else
      Err(IndptrShapeMismatch)
  }

  /** Views handed out earlier stay valid: after a successful append, even
      one that resized the buffers, every block written before reads back
      unchanged. */
  lemma AppendKeepsViews(b: MmapInfo, arr: Csr, v: View)
    requires Valid(b) && ValidCsr(arr)
    requires v.dataStart + v.nnz <= b.numData && v.indptrStart + v.rows + 1 <= b.numIndptr
    requires v.indptrStart + v.rows + 1 <= |b.indptr|
    requires Append(b, arr).Ok?
    ensures ReadView(Append(b, arr).value.0, v) == ReadView(b, v)
  {
    var b' := Append(b, arr).value.0;
    var lo, hi := v.dataStart, v.dataStart + v.nnz;
    SliceOfPrefix(b'.data, b.data, b.numData, lo, hi);
    SliceOfPrefix(b'.indices, b.indices, b.numData, lo, hi);
    var plo, phi := v.indptrStart, v.indptrStart + v.rows + 1;
    assert b'.indptr[plo..phi] == b.indptr[plo..phi] by {
      forall k | plo <= k < phi
        ensures b'.indptr[k] == b.indptr[k]
      {
      }
    }
  }

  /** `_as_mmap` applied to each block in turn, threading the cursors: the
      final buffers and the view handed out for each block, or the first
      failure. */
  function AppendAll(b: MmapInfo, blocks: seq<Csr>): (r: Result<(MmapInfo, seq<View>), AppendError>)
    requires Valid(b) && forall k :: 0 <= k < |blocks| ==> ValidCsr(blocks[k])
    ensures r.Ok? ==> Valid(r.value.0) && |r.value.0.indptr| == |b.indptr| && |r.value.1| == |blocks|
    decreases |blocks|
  {
    if |blocks| == 0 then Ok((b, []))
    else
      var first :- Append(b, blocks[0]);
      var rest :- AppendAll(first.0, blocks[1..]);
      Ok((rest.0, [first.1] + rest.1))
  }

  /** Nonzeros blocks `0..k-1` occupy together. */
  function DataBefore(blocks: seq<Csr>, k: nat): nat
    requires k <= |blocks|
  {
    if k == 0 then 0 else DataBefore(blocks, k - 1) + |blocks[k - 1].data|
  }

  /** Row-pointer slots blocks `0..k-1` occupy together: `rows + 1` each. */
  function IndptrBefore(blocks: seq<Csr>, k: nat): nat
    requires k <= |blocks|
  {
    if k == 0 then 0 else IndptrBefore(blocks, k - 1) + blocks[k - 1].rows + 1
  }

  /** The totals before block `k`, split at the first block. */
  lemma {:induction false} BeforeShift(blocks: seq<Csr>, k: nat)
    requires 0 < k <= |blocks|
    ensures DataBefore(blocks, k) == |blocks[0].data| + DataBefore(blocks[1..], k - 1)
    ensures IndptrBefore(blocks, k) == blocks[0].rows + 1 + IndptrBefore(blocks[1..], k - 1)
  {
    if k > 1 {
      BeforeShift(blocks, k - 1);
      assert blocks[1..][k - 2] == blocks[k - 1];
    }
  }

  /** A successful sequence of appends is a successful first append
      followed by a successful sequence for the rest. */
  lemma AppendAllStep(b: MmapInfo, blocks: seq<Csr>)
    requires Valid(b) && forall k :: 0 <= k < |blocks| ==> ValidCsr(blocks[k])
    requires |blocks| > 0 && AppendAll(b, blocks).Ok?
    ensures Append(b, blocks[0]).Ok? && AppendAll(Append(b, blocks[0]).value.0, blocks[1..]).Ok?
    ensures AppendAll(b, blocks).value
         == (AppendAll(Append(b, blocks[0]).value.0, blocks[1..]).value.0,
             [Append(b, blocks[0]).value.1] + AppendAll(Append(b, blocks[0]).value.0, blocks[1..]).value.1)
  {
  }

  /** After a successful first append, the rest of a successful sequence
      starts from the buffers that append left behind. */
  lemma AppendAllTail(b: MmapInfo, blocks: seq<Csr>) returns (b1: MmapInfo)
    requires Valid(b) && forall k :: 0 <= k < |blocks| ==> ValidCsr(blocks[k])
    requires AppendAll(b, blocks).Ok? && 0 < |blocks|
    ensures Valid(b1) && b1.numData == b.numData + |blocks[0].data| && b1.numIndptr == b.numIndptr + blocks[0].rows + 1
    ensures |b1.indptr| == |b.indptr| && AppendAll(b1, blocks[1..]).Ok?
    ensures forall k :: 0 <= k < |blocks[1..]| ==> ValidCsr(blocks[1..][k])
    ensures b1.numIndptr + IndptrBefore(blocks[1..], |blocks| - 1) == b.numIndptr + IndptrBefore(blocks, |blocks|)
    ensures AppendAll(b, blocks).value.0 == AppendAll(b1, blocks[1..]).value.0
    ensures forall k :: 0 < k < |blocks| ==> AppendAll(b, blocks).value.1[k] == AppendAll(b1, blocks[1..]).value.1[k - 1]
  {
    AppendAllStep(b, blocks);
    BeforeShift(blocks, |blocks|);
    b1 := Append(b, blocks[0]).value.0;
  }

  /** With room for the row pointers of all blocks, appending them in
      sequence does not fail. */
  lemma {:induction false} AppendAllFits(b: MmapInfo, blocks: seq<Csr>)
    requires Valid(b) && forall k :: 0 <= k < |blocks| ==> ValidCsr(blocks[k])
    requires b.numIndptr + IndptrBefore(blocks, |blocks|) <= |b.indptr|
    ensures AppendAll(b, blocks).Ok?
    decreases |blocks|
  {
    if |blocks| > 0 {
      BeforeShift(blocks, |blocks|);
      AppendAllFits(Append(b, blocks[0]).value.0, blocks[1..]);
    }
  }

  /** Appending in sequence advances the cursors by the blocks' totals. */
  lemma {:induction false} AppendAllCursors(b: MmapInfo, blocks: seq<Csr>)
    requires Valid(b) && forall k :: 0 <= k < |blocks| ==> ValidCsr(blocks[k])
    requires AppendAll(b, blocks).Ok?
    ensures AppendAll(b, blocks).value.0.numData == b.numData + DataBefore(blocks, |blocks|)
    ensures AppendAll(b, blocks).value.0.numIndptr == b.numIndptr + IndptrBefore(blocks, |blocks|)
    decreases |blocks|
  {
    if |blocks| > 0 {
      AppendAllCursors(Append(b, blocks[0]).value.0, blocks[1..]);
      BeforeShift(blocks, |blocks|);
    }
  }

  /** Where streaming `blocks` from cursors `b` puts block `k`: behind the
      nonzeros and row pointers of the blocks before it, with its own shape. */
  function BlockView(blocks: seq<Csr>, b: MmapInfo, k: nat): View
    requires k < |blocks|
  {
    View(b.numData + DataBefore(blocks, k), |blocks[k].data|, b.numIndptr + IndptrBefore(blocks, k), blocks[k].rows, blocks[k].cols)
  }

  /** Block `k`'s place seen from behind block 0 is block `k - 1`'s place
      among the rest. */
  lemma BlockViewShift(blocks: seq<Csr>, b: MmapInfo, b1: MmapInfo, k: nat)
    requires 0 < k < |blocks|
    requires b1.numData == b.numData + |blocks[0].data| && b1.numIndptr == b.numIndptr + blocks[0].rows + 1
    ensures BlockView(blocks[1..], b1, k - 1) == BlockView(blocks, b, k)
  {
    BeforeShift(blocks, k);
    assert blocks[1..][k - 1] == blocks[k];
  }

  /** Appending in sequence lays the blocks out back to back: block `k`'s
      view starts behind the nonzeros and row pointers of blocks `0..k-1`. */
  lemma {:induction false} AppendAllView(b: MmapInfo, blocks: seq<Csr>, k: nat)
    requires Valid(b) && forall k :: 0 <= k < |blocks| ==> ValidCsr(blocks[k])
    requires AppendAll(b, blocks).Ok? && k < |blocks|
    ensures AppendAll(b, blocks).value.1[k] == BlockView(blocks, b, k)
    decreases |blocks|
  {
    AppendAllStep(b, blocks);
    var b1 := Append(b, blocks[0]).value.0;
    if k > 0 {
      AppendAllView(b1, blocks[1..], k - 1);
      BlockViewShift(blocks, b, b1, k);
    }
  }

  /** Later appends keep every block written before readable. */
  lemma {:induction false} AppendAllKeeps(b: MmapInfo, blocks: seq<Csr>, v: View)
    requires Valid(b) && forall k :: 0 <= k < |blocks| ==> ValidCsr(blocks[k])
    requires v.dataStart + v.nnz <= b.numData && v.indptrStart + v.rows + 1 <= b.numIndptr
    requires v.indptrStart + v.rows + 1 <= |b.indptr|
    requires AppendAll(b, blocks).Ok?
    ensures ReadView(AppendAll(b, blocks).value.0, v) == ReadView(b, v)
    decreases |blocks|
  {
    if |blocks| > 0 {
      AppendKeepsViews(b, blocks[0], v);
      AppendAllKeeps(Append(b, blocks[0]).value.0, blocks[1..], v);
    }
  }

  /** The first block written reads back from the final buffers. */
  lemma AppendAllReadsFirst(b: MmapInfo, blocks: seq<Csr>)
    requires Valid(b) && forall k :: 0 <= k < |blocks| ==> ValidCsr(blocks[k])
    requires |blocks| > 0 && b.numIndptr + blocks[0].rows + 1 <= |b.indptr|
    requires AppendAll(b, blocks).Ok?
    ensures ReadView(AppendAll(b, blocks).value.0, AppendAll(b, blocks).value.1[0]) == Some(blocks[0])
  {
    AppendAllStep(b, blocks);
    var first := Append(b, blocks[0]).value;
    AppendAllKeeps(first.0, blocks[1..], first.1);
  }

  /** What the view handed out for block `k` reads from the final buffers
      after streaming `blocks` from `b`. */
  function ReadBack(b: MmapInfo, blocks: seq<Csr>, k: nat): Option<Csr>
    requires Valid(b) && forall k :: 0 <= k < |blocks| ==> ValidCsr(blocks[k])
    requires AppendAll(b, blocks).Ok? && k < |blocks|
  {
    ReadView(AppendAll(b, blocks).value.0, AppendAll(b, blocks).value.1[k])
  }

  /** With room for every row pointer, each view handed out reads back its
      own block from the final buffers, however often they were resized. */
  lemma {:induction false} AppendAllReads(b: MmapInfo, blocks: seq<Csr>, k: nat)
    requires Valid(b) && forall k :: 0 <= k < |blocks| ==> ValidCsr(blocks[k])
    requires b.numIndptr + IndptrBefore(blocks, |blocks|) <= |b.indptr|
    requires k < |blocks|
    ensures AppendAll(b, blocks).Ok?
    ensures ReadBack(b, blocks, k) == Some(blocks[k])
    decreases |blocks|, 1
  {
    AppendAllFits(b, blocks);
    if k == 0 {
      AppendAllReadsFirst(b, blocks);
    } else {
      AppendAllReadsLater(b, blocks, k);
    }
  }

  /** Splitting a non-empty `A` at its head, alone and in front of `B`. */
  lemma ConsSplit<T>(A: seq<T>, B: seq<T>)
    requires |A| > 0
    ensures A + B == [A[0]] + (A[1..] + B) && A == [A[0]] + A[1..]
  {
  }

  lemma EmptyConcat<T, U>(A: seq<T>, B: seq<T>, C: seq<U>)
    requires |A| == 0
    ensures A + B == B && [] + C == C
  {
  }

  lemma ConcatAssoc<T>(a: seq<T>, b: seq<T>, c: seq<T>)
    ensures a + (b + c) == (a + b) + c
  {
  }

  lemma ValidConcat(A: seq<Csr>, B: seq<Csr>)
    requires forall k :: 0 <= k < |A| ==> ValidCsr(A[k])
    requires forall k :: 0 <= k < |B| ==> ValidCsr(B[k])
    ensures forall k :: 0 <= k < |A + B| ==> ValidCsr((A + B)[k])
  {
    forall k | 0 <= k < |A + B| ensures ValidCsr((A + B)[k]) {
      if k < |A| { assert (A + B)[k] == A[k]; } else { assert (A + B)[k] == B[k - |A|]; }
    }
  }

  /** Appending `A + B` succeeds exactly when appending `A` does and then
      appending `B` from where `A` left the cursors does. */
  lemma {:induction false} AppendAllConcatOk(b: MmapInfo, A: seq<Csr>, B: seq<Csr>)
    requires Valid(b)
    requires forall k :: 0 <= k < |A| ==> ValidCsr(A[k])
    requires forall k :: 0 <= k < |B| ==> ValidCsr(B[k])
    requires forall k :: 0 <= k < |A + B| ==> ValidCsr((A + B)[k])
    ensures AppendAll(b, A + B).Ok? <==> AppendAll(b, A).Ok? && AppendAll(AppendAll(b, A).value.0, B).Ok?
    decreases |A|
  {
    if |A| == 0 {
      EmptyConcat(A, B, B);
    } else {
      ConsSplit(A, B);
      ValidConcat(A[1..], B);
      var first := Append(b, A[0]);
      if first.Ok? {
        AppendAllConcatOk(first.value.0, A[1..], B);
      }
    }
  }

  /** A successful sequence of appends of `[c] + R`: the first append's
      buffers and view, and the rest appended from there. */
  lemma AppendAllCons(b: MmapInfo, c: Csr, R: seq<Csr>) returns (b1: MmapInfo, v: View)
    requires Valid(b) && ValidCsr(c) && forall k :: 0 <= k < |R| ==> ValidCsr(R[k])
    requires forall k :: 0 <= k < |[c] + R| ==> ValidCsr(([c] + R)[k])
    requires AppendAll(b, [c] + R).Ok?
    ensures Append(b, c) == Ok((b1, v)) && Valid(b1) && AppendAll(b1, R).Ok?
    ensures AppendAll(b, [c] + R).value == (AppendAll(b1, R).value.0, [v] + AppendAll(b1, R).value.1)
  {
    assert ([c] + R)[0] == c && ([c] + R)[1..] == R;
    AppendAllStep(b, [c] + R);
    b1, v := Append(b, c).value.0, Append(b, c).value.1;
  }

  /** Appending a single block is `_as_mmap` once. */
  lemma AppendAllSingle(b: MmapInfo, c: Csr)
    requires Valid(b) && ValidCsr(c)
    ensures AppendAll(b, [c]).Ok? <==> Append(b, c).Ok?
    ensures Append(b, c).Ok? ==> AppendAll(b, [c]).value == (Append(b, c).value.0, [Append(b, c).value.1])
  {
    assert [c][0] == c && [c][1..] == [];
    if Append(b, c).Ok? {
      var first := Append(b, c).value;
      assert AppendAll(first.0, []) == Ok((first.0, []));
      assert [first.1] + [] == [first.1];
    }
  }

  /** Appending `A + B` is appending `A`, then `B` from where `A` left the
      cursors: the same final buffers, the views of `A` followed by those
      of `B`. */
  lemma {:induction false} AppendAllConcat(b: MmapInfo, A: seq<Csr>, B: seq<Csr>)
    requires Valid(b)
    requires forall k :: 0 <= k < |A| ==> ValidCsr(A[k])
    requires forall k :: 0 <= k < |B| ==> ValidCsr(B[k])
    requires forall k :: 0 <= k < |A + B| ==> ValidCsr((A + B)[k])
    requires AppendAll(b, A + B).Ok?
    ensures AppendAll(b, A).Ok? && AppendAll(AppendAll(b, A).value.0, B).Ok?
    ensures AppendAll(b, A + B).value
         == (AppendAll(AppendAll(b, A).value.0, B).value.0, AppendAll(b, A).value.1 + AppendAll(AppendAll(b, A).value.0, B).value.1)
    decreases |A|
  {
    AppendAllConcatOk(b, A, B);
    if |A| == 0 {
      EmptyConcat(A, B, AppendAll(b, B).value.1);
    } else {
      var c, A', R := A[0], A[1..], A[1..] + B;
      ConsSplit(A, B);
      ValidConcat(A', B);
      var b1, v := AppendAllCons(b, c, R);
      var b1', v' := AppendAllCons(b, c, A');
      AppendAllConcat(b1, A', B);
      var va := AppendAll(b1, A').value;
      var vb := AppendAll(va.0, B).value;
      ConcatAssoc([v], va.1, vb.1);
    }
  }

  /** A later block reads back as it does in the appends that start behind block 0. */
  lemma {:induction false} AppendAllReadsLater(b: MmapInfo, blocks: seq<Csr>, k: nat)
    requires Valid(b) && forall k :: 0 <= k < |blocks| ==> ValidCsr(blocks[k])
    requires b.numIndptr + IndptrBefore(blocks, |blocks|) <= |b.indptr|
    requires 0 < k < |blocks| && AppendAll(b, blocks).Ok?
    ensures ReadBack(b, blocks, k) == Some(blocks[k])
    decreases |blocks|, 0
  {
    var b1 := AppendAllTailReads(b, blocks, k);
    AppendAllReads(b1, blocks[1..], k - 1);
  }

  /** Block `k` reads back from streaming `blocks` as block `k - 1` does
      from streaming the rest behind block 0, which fits as well. */
  lemma AppendAllTailReads(b: MmapInfo, blocks: seq<Csr>, k: nat) returns (b1: MmapInfo)
    requires Valid(b) && forall k :: 0 <= k < |blocks| ==> ValidCsr(blocks[k])
    requires b.numIndptr + IndptrBefore(blocks, |blocks|) <= |b.indptr|
    requires 0 < k < |blocks| && AppendAll(b, blocks).Ok?
    ensures Valid(b1) && forall k :: 0 <= k < |blocks[1..]| ==> ValidCsr(blocks[1..][k])
    ensures b1.numIndptr + IndptrBefore(blocks[1..], |blocks[1..]|) <= |b1.indptr|
    ensures AppendAll(b1, blocks[1..]).Ok?
    ensures ReadBack(b, blocks, k) == ReadBack(b1, blocks[1..], k - 1) && blocks[1..][k - 1] == blocks[k]
  {
    b1 := AppendAllTail(b, blocks);
    FitsTail(b, blocks, b1);
  }

  /** Room for all blocks' row pointers leaves room for the rest's once
      block 0's are written. */
  lemma FitsTail(b: MmapInfo, blocks: seq<Csr>, b1: MmapInfo)
    requires 0 < |blocks| && b.numIndptr + IndptrBefore(blocks, |blocks|) <= |b.indptr|
    requires b1.numIndptr == b.numIndptr + blocks[0].rows + 1 && |b1.indptr| == |b.indptr|
    ensures b1.numIndptr + IndptrBefore(blocks[1..], |blocks[1..]|) <= |b1.indptr|
  {
    BeforeShift(blocks, |blocks|);
  }

  /** Two sequences with a common prefix agree on every slice inside it. */
  lemma SliceOfPrefix<T>(s: seq<T>, t: seq<T>, n: nat, lo: nat, hi: nat)
    requires lo <= hi <= n <= |s| && n <= |t|
    requires s[..n] == t[..n]
    ensures s[lo..hi] == t[lo..hi]
  {
    forall k | 0 <= k < hi - lo
      ensures s[lo..hi][k] == t[lo..hi][k]
    {
      assert s[lo + k] == s[..n][lo + k] == t[..n][lo + k] == t[lo + k];
    }
  }
}
