/** The 20 x 10 board of settled cells and the pure questions asked of it: whether a
    piece fits at a position, which cells settling a piece fills, which rows survive a
    line clear, and where a piece would land. */
module Grid {
  import opened Shapes

  const Width := 10
  const Height := 20

  /** Rows from top to bottom; true marks an occupied cell. */
  type Board = seq<seq<bool>>

  predicate WellFormed(b: Board) {
    |b| == Height && forall r :: 0 <= r < |b| ==> |b[r]| == Width
  }

  function EmptyRow(): seq<bool> {
    seq(Width, _ => false)
  }

  function EmptyRows(n: nat): (rows: Board)
    ensures |rows| == n && forall r :: 0 <= r < n ==> rows[r] == EmptyRow()
  {
    seq(n, _ => EmptyRow())
  }

  function EmptyBoard(): Board {
    EmptyRows(Height)
  }

  /** A board position: a row (which may be above the board, i.e. negative) and a column. */
  datatype Pos = Pos(row: int, col: int)

  /** Where a piece cell lands when the piece's origin is at p. */
  function CellAt(p: Pos, o: Offset): Pos {
    Pos(p.row + o.y, p.col + o.x)
  }

  /** Past a side wall or below the floor; a row above the board is not out of bounds. */
  predicate OutOfBounds(c: Pos) {
    c.col < 0 || c.col >= Width || c.row >= Height
  }

  /** On the board and already occupied. */
  predicate Occupied(b: Board, c: Pos)
    requires WellFormed(b)
  {
    0 <= c.row < Height && 0 <= c.col < Width && b[c.row][c.col]
  }

  /** Every cell of the piece is within the walls and above the floor. */
  predicate InBounds(s: Shape, p: Pos) {
    forall i :: 0 <= i < |s| ==> !OutOfBounds(CellAt(p, s[i]))
  }

  /** Whether piece s may stand with its origin at p: checks the cells in order and
      rejects at the first one that is out of bounds or, when it is on the board,
      occupied. */
  function IsValidPosition(b: Board, s: Shape, p: Pos): (ok: bool)
    requires WellFormed(b)
    ensures ok <==> forall i :: 0 <= i < |s| ==>
                      !OutOfBounds(CellAt(p, s[i])) && !Occupied(b, CellAt(p, s[i]))
  {
    if |s| == 0 then true
    else
      var c := CellAt(p, s[0]);
      if c.col < 0 || c.col >= Width || c.row >= Height then false
      else if c.row >= 0 && b[c.row][c.col] then false
      else
        assert forall i :: 1 <= i < |s| ==> s[i] == s[1..][i - 1];
        IsValidPosition(b, s[1..], p)
  }

  /** Some cell of the piece lies on c. */
  predicate Covers(s: Shape, p: Pos, c: Pos) {
    exists i :: 0 <= i < |s| && CellAt(p, s[i]) == c
  }

  /** The board after marking one cell occupied; a cell above the board is dropped. */
  function Mark(b: Board, c: Pos): Board
    requires WellFormed(b) && !OutOfBounds(c)
  {
    if c.row >= 0 then b[c.row := b[c.row][c.col := true]] else b
  }

  /** The board after marking the piece's cells one by one, in list order. */
  function Stamped(b: Board, s: Shape, p: Pos): (r: Board)
    requires WellFormed(b) && InBounds(s, p)
    ensures WellFormed(r)
    decreases |s|
  {
    if |s| == 0 then b
    else
      var init := s[..|s| - 1];
      assert forall i :: 0 <= i < |init| ==> init[i] == s[i];
      Mark(Stamped(b, init, p), CellAt(p, s[|s| - 1]))
  }

  /** Settling a piece occupies exactly the cells it covers on the board: a cell is
      occupied afterwards when it was before or a piece cell lies on it. */
  lemma {:induction false} StampedCells(b: Board, s: Shape, p: Pos)
    requires WellFormed(b) && InBounds(s, p)
    ensures forall row, col :: 0 <= row < Height && 0 <= col < Width ==>
              Stamped(b, s, p)[row][col] == (b[row][col] || Covers(s, p, Pos(row, col)))
    decreases |s|
  {
    if |s| > 0 {
      var init := s[..|s| - 1];
      assert forall i :: 0 <= i < |init| ==> init[i] == s[i];
      StampedCells(b, init, p);
      var c := CellAt(p, s[|s| - 1]);
      forall row, col | 0 <= row < Height && 0 <= col < Width
        ensures Covers(s, p, Pos(row, col)) <==> Covers(init, p, Pos(row, col)) || c == Pos(row, col)
      {
        if Covers(s, p, Pos(row, col)) {
          var i :| 0 <= i < |s| && CellAt(p, s[i]) == Pos(row, col);
          if i < |init| { assert CellAt(p, init[i]) == Pos(row, col); }
        }
        if Covers(init, p, Pos(row, col)) {
          var i :| 0 <= i < |init| && CellAt(p, init[i]) == Pos(row, col);
          assert CellAt(p, s[i]) == Pos(row, col);
        }
      }
    }
  }

  /** Every cell of the row is occupied. */
  predicate Full(row: seq<bool>) {
    forall c :: 0 <= c < |row| ==> row[c]
  }

  predicate NoFullRow(b: Board) {
    forall r :: 0 <= r < |b| ==> !Full(b[r])
  }

  /** How many rows of the board are full. */
  function CountFull(b: Board): (n: nat)
    ensures n <= |b|
    ensures n == 0 <==> NoFullRow(b)
  {
    if |b| == 0 then 0 else (if Full(b[0]) then 1 else 0) + CountFull(b[1..])
  }

  /** The rows that have at least one empty cell, top to bottom. */
  function NonFull(b: Board): (kept: Board)
    ensures |kept| == |b| - CountFull(b)
    ensures NoFullRow(kept)
    ensures forall row :: row in kept <==> row in b && !Full(row)
  {
    if |b| == 0 then []
    else
      assert forall row :: row in b <==> row == b[0] || row in b[1..];
      (if Full(b[0]) then [] else [b[0]]) + NonFull(b[1..])
  }

  /** The row filter keeps the surviving rows in their order: filtering a board cut in
      two is filtering each part and joining them. */
  lemma {:induction false} NonFullAppend(top: Board, bottom: Board)
    ensures NonFull(top + bottom) == NonFull(top) + NonFull(bottom)
    decreases |top|
  {
    if |top| == 0 {
      assert top + bottom == bottom;
    } else {
      assert (top + bottom)[1..] == top[1..] + bottom;
      NonFullAppend(top[1..], bottom);
    }
  }

  /** When no row is full, the filter keeps every row. */
  lemma {:induction false} NonFullAll(b: Board)
    requires CountFull(b) == 0
    ensures NonFull(b) == b
    decreases |b|
  {
    if |b| > 0 {
      NonFullAll(b[1..]);
      assert b == [b[0]] + b[1..];
    }
  }

  /** The board after a line clear: the rows with an empty cell, in order, under as
      many empty rows as there were full rows. */
  function Cleared(b: Board): (r: Board)
    requires WellFormed(b)
    ensures WellFormed(r) && NoFullRow(r)
  {
    var kept, n := NonFull(b), CountFull(b);
    var r := EmptyRows(n) + kept;
    forall row | n <= row < Height
      ensures |r[row]| == Width && !Full(r[row])
    {
      assert r[row] == kept[row - n];
      assert kept[row - n] in b;
    }
    forall row | 0 <= row < n
      ensures |r[row]| == Width && !Full(r[row])
    {
      assert r[row] == EmptyRow();
      assert !r[row][0];
    }
    r
  }

  /** A line clear puts one empty row on top for every full row removed, and keeps
      every other row in order below them. */
  lemma ClearedRows(b: Board)
    requires WellFormed(b)
    ensures Cleared(b)[..CountFull(b)] == EmptyRows(CountFull(b))
    ensures Cleared(b)[CountFull(b)..] == NonFull(b)
  {
    var r := Cleared(b);
    assert r[..CountFull(b)] == EmptyRows(CountFull(b)) && r[CountFull(b)..] == NonFull(b);
  }

  /** With no full row a line clear changes nothing. */
  lemma ClearedWithoutFullRow(b: Board)
    requires WellFormed(b) && CountFull(b) == 0
    ensures Cleared(b) == b
  {
    NonFullAll(b);
    assert EmptyRows(0) + b == b;
  }

  /** Where the landing preview puts the piece: starting at p, the piece goes down one
      row at a time while the next row down is a valid position. */
  method LandingPosition(b: Board, s: Shape, p: Pos) returns (q: Pos)
    requires WellFormed(b) && |s| > 0
    ensures q.col == p.col && q.row >= p.row
    ensures forall k :: p.row < k <= q.row ==> IsValidPosition(b, s, Pos(k, p.col))
    ensures !IsValidPosition(b, s, Pos(q.row + 1, p.col))
  {
    q := p;
    while IsValidPosition(b, s, Pos(q.row + 1, q.col))
      invariant q.col == p.col && q.row >= p.row
      invariant forall k :: p.row < k <= q.row ==> IsValidPosition(b, s, Pos(k, p.col))
      decreases Height - q.row - s[0].y
    {
      q := Pos(q.row + 1, q.col);
    }
  }
}
