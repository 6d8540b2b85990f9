/** Tetromino shapes and their clockwise rotation (tetris.js:16-26, 156-169). */
module Shapes {

  /** A shape is a matrix of cells; 0 is empty, any other value is filled. */
  type Shape = seq<seq<int>>

  /** The shape table, indexed by piece type; entry 0 is the unused empty shape. */
  const Table: seq<Shape> := [
    [],                      // empty
    [[1, 1, 1, 1]],          // I
    [[2, 2], [2, 2]],        // O
    [[0, 3, 0], [3, 3, 3]],  // T
    [[0, 4, 4], [4, 4, 0]],  // S
    [[5, 5, 0], [0, 5, 5]],  // Z
    [[6, 0, 0], [6, 6, 6]],  // J
    [[0, 0, 7], [7, 7, 7]]   // L
  ]

  /** At least one row, and every row as long as the first. */
  predicate Rectangular(m: Shape) {
    |m| > 0 && forall i :: 0 <= i < |m| ==> |m[i]| == |m[0]|
  }

  predicate HasFilledCell(m: Shape) {
    exists i, j | 0 <= i < |m| && 0 <= j < |m[i]| :: m[i][j] != 0
  }

  /** What every shape a piece can carry satisfies: a rectangle of at most
      4 by 4 cells with at least one filled cell. */
  predicate ValidShape(m: Shape) {
    Rectangular(m) && |m| <= 4 && 1 <= |m[0]| <= 4 && HasFilledCell(m)
  }

  /** The clockwise rotation of an N x M matrix: the M x N matrix whose
      cell (i, j) is the source cell (N - 1 - j, i). */
  function Rotated(m: Shape): (r: Shape)
    requires Rectangular(m)
    ensures |r| == |m[0]|
    ensures forall i :: 0 <= i < |r| ==> |r[i]| == |m|
  {
    seq(|m[0]|, i requires 0 <= i < |m[0]| =>
      seq(|m|, j requires 0 <= j < |m| => m[|m| - 1 - j][i]))
  }

  /** Builds the rotated matrix row by row, as the source's nested loops do. */
  method Rotate(m: Shape) returns (r: Shape)
    requires Rectangular(m)
    ensures |r| == |m[0]|
    ensures forall i :: 0 <= i < |r| ==> |r[i]| == |m|
    ensures forall i, j :: 0 <= i < |r| && 0 <= j < |m| ==> r[i][j] == m[|m| - 1 - j][i]
    ensures r == Rotated(m)
  {
    var n, w := |m|, |m[0]|;
    r := [];
    var i := 0;
    while i < w
      invariant 0 <= i <= w
      invariant |r| == i
      invariant forall k :: 0 <= k < i ==> |r[k]| == n
      invariant forall k, j :: 0 <= k < i && 0 <= j < n ==> r[k][j] == m[n - 1 - j][k]
    {
      var row := [];
      var j := 0;
      while j < n
        invariant 0 <= j <= n
        invariant |row| == j
        invariant forall l :: 0 <= l < j ==> row[l] == m[n - 1 - l][i]
      {
        row := row + [m[n - 1 - j][i]];
        j := j + 1;
      }
      r := r + [row];
      i := i + 1;
    }
    var spec := Rotated(m);
    forall k | 0 <= k < w
      ensures r[k] == spec[k]
    {
      assert |r[k]| == |spec[k]|;
    }
  }

  /** Rotating twice turns the matrix upside down and mirrors it. */
  lemma HalfTurn(m: Shape)
    requires Rectangular(m) && |m[0]| > 0
    ensures Rectangular(Rotated(m))
    ensures var h := Rotated(Rotated(m));
      |h| == |m| && forall i :: 0 <= i < |h| ==> |h[i]| == |m[0]|
    ensures var h := Rotated(Rotated(m));
      forall i, j :: 0 <= i < |m| && 0 <= j < |m[0]| ==> h[i][j] == m[|m| - 1 - i][|m[0]| - 1 - j]
  {
    var r := Rotated(m);
    assert |r| > 0;
  }

  /** Four clockwise rotations give back the original shape. */
  lemma {:induction false} RotateFourTimes(m: Shape)
    requires Rectangular(m) && |m[0]| > 0
    ensures Rectangular(Rotated(Rotated(Rotated(m))))
    ensures Rotated(Rotated(Rotated(Rotated(m)))) == m
  {
    HalfTurn(m);
    var h := Rotated(Rotated(m));
    assert Rectangular(h) && |h[0]| > 0;
    HalfTurn(h);
    var f := Rotated(Rotated(h));
    assert |f| == |m|;
    forall i | 0 <= i < |m|
      ensures f[i] == m[i]
    {
      assert |f[i]| == |m[i]|;
      forall j | 0 <= j < |m[i]|
        ensures f[i][j] == m[i][j]
      {
        assert f[i][j] == h[|m| - 1 - i][|m[0]| - 1 - j];
      }
    }
  }

  /** Rotation keeps a shape valid: the dimensions swap and every filled
      cell moves to a filled cell. */
  lemma RotatedValid(m: Shape)
    requires ValidShape(m)
    ensures ValidShape(Rotated(m))
  {
    var r := Rotated(m);
    var i, j :| 0 <= i < |m| && 0 <= j < |m[i]| && m[i][j] != 0;
    assert r[j][|m| - 1 - i] == m[i][j];
  }

  /** Every entry of the table a piece can be spawned from is a valid shape. */
  lemma TableValid(k: int)
    requires 1 <= k <= 7
    ensures ValidShape(Table[k])
  {
    var s := Table[k];
    assert s[|s| - 1][1] != 0;
  }
}
