/** The row-wise sparse matrix: each row lists (column, value) in insertion order. */
module SparseMatrices {

  type SparseRow<T> = seq<(nat, T)>

  function ElementCount<T>(rows: seq<SparseRow<T>>): nat {
    if rows == [] then 0 else ElementCount(rows[..|rows| - 1]) + |rows[|rows| - 1]|
  }

  class SparseMatrix<T> {
    var mat: seq<SparseRow<T>>

    constructor ()
      ensures mat == []
    {
      mat := [];
    }

    constructor WithRows(rowCount: nat)
      ensures mat == seq(rowCount, _ => [])
    {
      mat := [];
      new;
      Resize(rowCount);
    }

    /** Appends `rowCount` empty rows; on a matrix that has rows already, it adds to them. */
    method Resize(rowCount: nat)
      modifies this
      ensures mat == old(mat) + seq(rowCount, _ => [])
    {
      for j := 0 to rowCount
        invariant mat == old(mat) + seq(j, _ => [])
      {
        mat := mat + [[]];
      }
    }

    method ElementSize() returns (n: nat)
      ensures n == ElementCount(mat)
    {
      n := 0;
      for j := 0 to |mat|
        invariant n == ElementCount(mat[..j])
      {
        assert mat[..j + 1][..j] == mat[..j];
        n := n + |mat[j]|;
      }
      assert mat[..|mat|] == mat;
    }

    /** The guard lets the row one past the end through, where indexing is undefined. */
    method InsertAt(row: nat, col: nat, val: T) returns (ok: bool)
      requires row != |mat|
      modifies this
      ensures ok <==> row < |old(mat)|
      ensures mat == if ok then old(mat)[row := old(mat)[row] + [(col, val)]] else old(mat)
    {
      if |mat| < row {
        return false;
      }
      mat := mat[row := mat[row] + [(col, val)]];
      return true;
    }
  }
}
