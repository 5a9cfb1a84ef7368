/** Builds the coupling matrix: the strict upper triangle, filtered by the target's pair test. */
module CouplingMatrices {
  import opened Pairs
  import opened ParallelAccessors
  import opened SparseMatrices

  /** Columns from `lo` up to `n` coupled with row `i`, in order. */
  function CoupledRow(coupled: (nat, nat) -> bool, i: nat, lo: nat, n: nat): Row
    decreases n - lo
  {
    if lo >= n then [] else
      (if coupled(i, lo) then [(lo, true)] else []) + CoupledRow(coupled, i, lo + 1, n)
  }

  /** Every pair above the diagonal that passes the test. */
  ghost predicate IsCoupled(coupled: (nat, nat) -> bool, n: nat, p: Pair) {
    p.i < p.j < n && coupled(p.i, p.j)
  }

  class CouplingMatrixBuilder {
    const itemCount: nat
    const coupled: (nat, nat) -> bool
    const matrix: SparseMatrix<bool>

    constructor (itemCount: nat, coupled: (nat, nat) -> bool)
      ensures this.itemCount == itemCount && this.coupled == coupled
      ensures fresh(matrix) && matrix.mat == []
    {
      this.itemCount, this.coupled := itemCount, coupled;
      this.matrix := new SparseMatrix();
    }

    method PrepareInput()
      requires matrix.mat == []
      modifies matrix
      ensures matrix.mat == seq(itemCount, _ => [])
    {
      matrix.Resize(itemCount);
    }

    method ProcessItemPair(i: nat, j: nat)
      requires i < |matrix.mat|
      modifies matrix
      ensures matrix.mat == old(matrix.mat)[i := old(matrix.mat[i]) + if coupled(i, j) then [(j, true)] else []]
    {
      if coupled(i, j) {
        matrix.mat := matrix.mat[i := matrix.mat[i] + [(j, true)]];
      } else {
        assert matrix.mat[i] + [] == matrix.mat[i];
      }
    }

    method ProcessItem(index: nat)
      requires index < |matrix.mat|
      modifies matrix
      ensures matrix.mat ==
                old(matrix.mat)[index := old(matrix.mat[index]) + CoupledRow(coupled, index, index + 1, itemCount)]
    {
      var j := index + 1;
      while j < itemCount
        invariant index + 1 <= j && (index < itemCount ==> j <= itemCount)
        invariant |matrix.mat| == |old(matrix.mat)|
        invariant matrix.mat == old(matrix.mat)[index := matrix.mat[index]]
        invariant matrix.mat[index] + CoupledRow(coupled, index, j, itemCount)
               == old(matrix.mat[index]) + CoupledRow(coupled, index, index + 1, itemCount)
      {
        ProcessItemPair(index, j);
        j := j + 1;
      }
      assert matrix.mat[index] + CoupledRow(coupled, index, j, itemCount) == matrix.mat[index];
    }

    method Process()
      requires matrix.mat == seq(itemCount, _ => [])
      modifies matrix
      ensures |matrix.mat| == itemCount
      ensures forall i :: 0 <= i < itemCount ==> matrix.mat[i] == CoupledRow(coupled, i, i + 1, itemCount)
    {
      for index := 0 to itemCount
        invariant |matrix.mat| == itemCount
        invariant forall i :: 0 <= i < index ==> matrix.mat[i] == CoupledRow(coupled, i, i + 1, itemCount)
        invariant forall i :: index <= i < itemCount ==> matrix.mat[i] == []
      {
        ProcessItem(index);
      }
    }
  }

  lemma {:induction false} CoupledRowMember(coupled: (nat, nat) -> bool, i: nat, lo: nat, n: nat, e: (nat, bool))
    ensures e in CoupledRow(coupled, i, lo, n) <==> e.1 && lo <= e.0 < n && coupled(i, e.0)
    decreases n - lo
  {
    if lo < n {
      CoupledRowMember(coupled, i, lo + 1, n, e);
    }
  }

  /** The pairs handed to the scheduler are exactly the coupled pairs above the diagonal. */
  lemma MatrixPairsAreCoupled(coupled: (nat, nat) -> bool, n: nat, rows: seq<Row>, p: Pair)
    requires |rows| == n && forall i :: 0 <= i < n ==> rows[i] == CoupledRow(coupled, i, i + 1, n)
    ensures p in MatrixPairs(rows) <==> IsCoupled(coupled, n, p)
  {
    if p in MatrixPairs(rows) {
      var i, e :| 0 <= i < |rows| && e in rows[i] && p == Pair(i, e.0);
      CoupledRowMember(coupled, i, i + 1, n, e);
    }
    if IsCoupled(coupled, n, p) {
      var e := (p.j, true);
      CoupledRowMember(coupled, p.i, p.i + 1, n, e);
      assert e in rows[p.i];
    }
  }
}
