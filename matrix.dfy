/** The dense adjacency matrix: a list of rows, indexed by vertex position. */
module Matrix {
  import opened Seqs

  /** `m` has `n` rows of `n` cells each. */
  predicate IsSquare(m: seq<seq<int>>, n: nat) {
    |m| == n && forall i :: 0 <= i < n ==> |m[i]| == n
  }

  /** A row of `n` zero cells. */
  function Zeros(n: nat): (r: seq<int>)
    ensures |r| == n
    ensures forall j :: 0 <= j < n ==> r[j] == 0
  {
    seq(n, _ => 0)
  }

  /** The matrix after a new vertex: a zero row is added at the bottom and a zero
      cell at the end of every row. */
  function Grow(m: seq<seq<int>>): (r: seq<seq<int>>)
    requires IsSquare(m, |m|)
    ensures IsSquare(r, |m| + 1)
    ensures forall i, j {:trigger r[i][j]} :: 0 <= i <= |m| && 0 <= j <= |m| ==>
              r[i][j] == if i < |m| && j < |m| then m[i][j] else 0
  {
    var rows := m + [Zeros(|m|)];
    seq(|rows|, i requires 0 <= i < |rows| => rows[i] + [0])
  }

  /** The matrix with row `k` erased, then column `k` erased from every remaining row. */
  function EraseRowCol(m: seq<seq<int>>, k: nat): (r: seq<seq<int>>)
    requires IsSquare(m, |m|) && k < |m|
    ensures IsSquare(r, |m| - 1)
    ensures forall i, j {:trigger r[i][j]} :: 0 <= i < |m| - 1 && 0 <= j < |m| - 1 ==>
              r[i][j] == m[Skip(i, k)][Skip(j, k)]
  {
    var rows := EraseAt(m, k);
    seq(|rows|, i requires 0 <= i < |rows| => EraseAt(rows[i], k))
  }

  /** Two square matrices that agree off row `k` and column `k` compact to the same matrix. */
  lemma EraseRowColIgnoresErased(m: seq<seq<int>>, m': seq<seq<int>>, k: nat)
    requires IsSquare(m, |m|) && IsSquare(m', |m|) && k < |m|
    requires forall i, j :: 0 <= i < |m| && 0 <= j < |m| && i != k && j != k ==> m[i][j] == m'[i][j]
    ensures EraseRowCol(m, k) == EraseRowCol(m', k)
  {
    var r, r' := EraseRowCol(m, k), EraseRowCol(m', k);
    forall i | 0 <= i < |r| ensures r[i] == r'[i] {
      forall j | 0 <= j < |r| ensures r[i][j] == r'[i][j] {
        assert r[i][j] == m[Skip(i, k)][Skip(j, k)];
      }
    }
  }

  /** Growing the matrix and erasing the new last row and column gives the matrix back. */
  lemma EraseGrown(m: seq<seq<int>>)
    requires IsSquare(m, |m|)
    ensures EraseRowCol(Grow(m), |m|) == m
  {
    var r := EraseRowCol(Grow(m), |m|);
    forall i | 0 <= i < |m| ensures r[i] == m[i] {
      forall j | 0 <= j < |m| ensures r[i][j] == m[i][j] {
        assert r[i][j] == Grow(m)[i][j];
      }
    }
  }
}
