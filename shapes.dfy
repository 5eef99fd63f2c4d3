/** The seven piece shapes and the quarter turn that rotation applies to a shape. */
module Shapes {

  /** One cell of a piece, relative to the piece's origin: x is the column offset,
      y the row offset (rows grow downwards). */
  datatype Offset = Offset(x: int, y: int)

  /** A piece is the list of its cells' offsets. */
  type Shape = seq<Offset>

  /** The shapes in the order the game draws them from: I, O, T, S, Z, J, L. */
  const Tetrominos: seq<Shape> := [
    [Offset(0, 1), Offset(1, 1), Offset(2, 1), Offset(3, 1)],
    [Offset(1, 0), Offset(2, 0), Offset(1, 1), Offset(2, 1)],
    [Offset(1, 0), Offset(0, 1), Offset(1, 1), Offset(2, 1)],
    [Offset(1, 0), Offset(2, 0), Offset(0, 1), Offset(1, 1)],
    [Offset(0, 0), Offset(1, 0), Offset(1, 1), Offset(2, 1)],
    [Offset(0, 0), Offset(0, 1), Offset(1, 1), Offset(2, 1)],
    [Offset(2, 0), Offset(0, 1), Offset(1, 1), Offset(2, 1)]
  ]

  /** No cell is listed twice. */
  predicate Distinct(s: Shape) {
    forall i, j :: 0 <= i < j < |s| ==> s[i] != s[j]
  }

  /** A quarter turn of one offset: (x, y) becomes (y, -x). */
  function Turn(o: Offset): Offset {
    Offset(o.y, -o.x)
  }

  /** The shape after one rotation: every offset turned, in the same order. The turn
      is undone cell by cell by the opposite quarter turn (x, y) -> (-y, x). */
  function Rotated(s: Shape): (r: Shape)
    ensures |r| == |s|
    ensures forall i :: 0 <= i < |s| ==> Offset(-r[i].y, r[i].x) == s[i]
  {
    seq(|s|, i requires 0 <= i < |s| => Turn(s[i]))
  }

  /** Every shape the game draws from has four distinct cells inside the 4x4 box
      with corner (0, 0). */
  lemma ShapesAreTetrominos(k: nat)
    requires k < |Tetrominos|
    ensures |Tetrominos[k]| == 4 && Distinct(Tetrominos[k])
    ensures forall i :: 0 <= i < 4 ==> 0 <= Tetrominos[k][i].x < 4 && 0 <= Tetrominos[k][i].y < 2
  {
  }

  /** Two rotations turn the shape half way round: every offset is negated. */
  lemma RotatedTwice(s: Shape)
    ensures |Rotated(Rotated(s))| == |s|
    ensures forall i :: 0 <= i < |s| ==> Rotated(Rotated(s))[i] == Offset(-s[i].x, -s[i].y)
  {
  }

  /** Rotation has order four: four rotations give back every offset list unchanged. */
  lemma RotatedFourTimes(s: Shape)
    ensures Rotated(Rotated(Rotated(Rotated(s)))) == s
  {
  }

  /** Rotation keeps the number of cells and never merges two cells into one. */
  lemma RotatedKeepsCells(s: Shape)
    requires Distinct(s)
    ensures |Rotated(s)| == |s| && Distinct(Rotated(s))
  {
  }
}
