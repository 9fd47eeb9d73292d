/** A symbol as a value: rows of modules, true for dark. */
module QrGrid {

  type Grid = seq<seq<bool>>

  predicate IsSquare(g: Grid, n: nat)
  {
    |g| == n && forall r :: 0 <= r < n ==> |g[r]| == n
  }

  function Snap(m: array2<bool>): (g: Grid)
    reads m
    ensures |g| == m.Length0
    ensures forall r :: 0 <= r < |g| ==> |g[r]| == m.Length1
    ensures forall r, c :: 0 <= r < m.Length0 && 0 <= c < m.Length1 ==> g[r][c] == m[r, c]
  {
    seq(m.Length0, r requires 0 <= r < m.Length0 reads m =>
      seq(m.Length1, c requires 0 <= c < m.Length1 reads m => m[r, c]))
  }

  /** Row i, or column i. */
  function Line(g: Grid, i: nat, isRow: bool): (l: seq<bool>)
    requires IsSquare(g, |g|) && i < |g|
    ensures |l| == |g|
    ensures forall j :: 0 <= j < |g| ==> l[j] == if isRow then g[i][j] else g[j][i]
  {
    if isRow then g[i] else seq(|g|, j requires 0 <= j < |g| => g[j][i])
  }
}
