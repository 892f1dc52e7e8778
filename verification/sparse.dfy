/** The compressed-sparse-row (CSR) blocks exchanged between the trainer,
    the growable buffers and the flattener. */
module Sparse {

  /** A CSR matrix: `indptr` has one entry per row plus one, and row `i`'s
      nonzeros are `data[indptr[i]..indptr[i+1]]` at columns `indices[...]`. */
  datatype Csr = Csr(rows: nat, cols: nat, data: seq<real>, indices: seq<int>, indptr: seq<int>)

  /** The canonical layout scipy produces: no stored entries past the last row pointer. */
  predicate ValidCsr(a: Csr)
  {
    && |a.indptr| == a.rows + 1
    && |a.indices| == |a.data|
    && a.indptr[a.rows] == |a.data|
  }

  /** A block stored inside the growable buffers (the source's `dummy`
      wrapper): where its nonzeros and row pointers start, how many nonzeros
      it has, and its shape. Its row-pointer run has `rows + 1` entries. */
  datatype View = View(dataStart: nat, nnz: nat, indptrStart: nat, rows: nat, cols: nat)
}
