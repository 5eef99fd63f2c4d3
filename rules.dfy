/** The game's state as a value and each operation as a function from the old state to
    the new one. The class Game.Tetris changes its fields step by step and is proved
    to follow these functions. */
module Rules {
  import opened Shapes
  import opened Grid
  import opened HighScores

  /** Tick interval in milliseconds, normally and while the hard drop is active. */
  const Speed := 500
  const FastSpeed := 50

  /** Where a new piece's origin is placed: row 0, column 10 / 2 - 2. */
  const SpawnPos := Pos(0, Width / 2 - 2)

  /** Points for every spawned piece and for every cleared row. */
  const SpawnPoints := 100
  const LinePoints := 500

  datatype Game = Game(
    board: Board,
    current: Shape,         // the falling piece's cells
    next: Shape,            // the piece shown in the preview
    position: Pos,          // the falling piece's origin
    isGameOver: bool,
    isHardDropActive: bool,
    speed: nat,             // the current tick interval
    score: nat,
    highScores: seq<int>)

  /** The falling piece has four distinct cells, none past a wall or the floor, on a
      well-formed board, and the next piece is one of the seven shapes. */
  predicate Playable(g: Game) {
    WellFormed(g.board) && |g.current| == 4 && Distinct(g.current) &&
    InBounds(g.current, g.position) && g.next in Tetrominos
  }

  /** What holds between operations: a playable state, no full row left on the board,
      and a score made of whole hundreds. */
  predicate Inv(g: Game) {
    Playable(g) && NoFullRow(g.board) && g.score % 100 == 0
  }

  /** Each of the seven shapes has four distinct cells, all inside the board when its
      origin is at the spawn position. */
  lemma SpawnedShape(s: Shape)
    requires s in Tetrominos
    ensures |s| == 4 && Distinct(s) && InBounds(s, SpawnPos)
  {
  }

  /** The state right after initialisation: an empty board, no falling piece yet
      (modelled as an empty shape at the origin), a chosen next piece, score 0 and
      the loaded score history. */
  function Init(history: seq<int>, first: nat): (r: Game)
    requires first < |Tetrominos|
    ensures WellFormed(r.board) && NoFullRow(r.board) && r.next in Tetrominos
    ensures r.board == EmptyBoard() && r.next == Tetrominos[first] && r.score == 0
    ensures r.highScores == history && !r.isGameOver && !r.isHardDropActive && r.speed == Speed
  {
    assert NoFullRow(EmptyBoard()) by {
      forall row | 0 <= row < Height ensures !Full(EmptyBoard()[row]) {
        assert !EmptyBoard()[row][0];
      }
    }
    Game(EmptyBoard(), [], Tetrominos[first], Pos(0, 0), false, false, Speed, 0, history)
  }

  /** Game over: the flag is set and the final score joins the ranking, which keeps
      the three highest. */
  function GameOver(g: Game): (r: Game)
    ensures r == g.(isGameOver := true, highScores := r.highScores)
    ensures |r.highScores| == Min(3, |g.highScores| + 1) && Descending(r.highScores)
    ensures multiset(r.highScores) <= multiset(g.highScores + [g.score])
    ensures forall x, y ::
              (x in multiset(g.highScores + [g.score]) - multiset(r.highScores) && y in r.highScores) ==> x <= y
  {
    TopThreeIsRanking(g.highScores + [g.score]);
    g.(isGameOver := true, highScores := TopThree(g.highScores + [g.score]))
  }

  /** A new piece: the previous next piece falls from the spawn position, the picked
      shape becomes the next piece and 100 points are added. If the new piece does not
      fit there the game is over; the board is never touched. */
  function Spawn(g: Game, pick: nat): (r: Game)
    requires WellFormed(g.board) && g.next in Tetrominos && pick < |Tetrominos|
    ensures Playable(r)
    ensures r.board == g.board && r.current == g.next && r.next == Tetrominos[pick]
    ensures r.position == SpawnPos && r.score == g.score + SpawnPoints
    ensures r.isHardDropActive == g.isHardDropActive && r.speed == g.speed
    ensures r.isGameOver <==> g.isGameOver || !IsValidPosition(g.board, g.next, SpawnPos)
    ensures IsValidPosition(g.board, g.next, SpawnPos) ==> r.highScores == g.highScores
    ensures !IsValidPosition(g.board, g.next, SpawnPos) ==>
              r.highScores == TopThree(g.highScores + [g.score + SpawnPoints])
  {
    SpawnedShape(g.next);
    var s := g.(current := g.next, next := Tetrominos[pick], position := SpawnPos,
                score := g.score + SpawnPoints);
    if IsValidPosition(s.board, s.current, s.position) then s else GameOver(s)
  }

  /** The state a spawn leaves, written as the spawn's steps: the new piece, the next
      piece and the points, then game over when the new piece does not fit. */
  lemma SpawnSteps(g: Game, pick: nat)
    requires WellFormed(g.board) && g.next in Tetrominos && pick < |Tetrominos|
    ensures var s := g.(current := g.next, next := Tetrominos[pick], position := SpawnPos,
                        score := g.score + SpawnPoints);
            Spawn(g, pick) == if IsValidPosition(s.board, s.current, s.position) then s else GameOver(s)
  {
  }

  /** A fresh game: initialisation, then the first spawn. On the empty board the first
      piece always fits, so the game is running with a score of 100. */
  function Start(history: seq<int>, first: nat, second: nat): (r: Game)
    requires first < |Tetrominos| && second < |Tetrominos|
    ensures Inv(r)
    ensures r.board == EmptyBoard() && r.current == Tetrominos[first] && r.next == Tetrominos[second]
    ensures r.position == SpawnPos && r.score == 100 && !r.isGameOver
    ensures !r.isHardDropActive && r.speed == Speed && r.highScores == history
  {
    var g := Init(history, first);
    SpawnedShape(g.next);
    assert IsValidPosition(g.board, g.next, SpawnPos) by {
      forall i | 0 <= i < |g.next| ensures !Occupied(g.board, CellAt(SpawnPos, g.next[i])) {
        var c := CellAt(SpawnPos, g.next[i]);
        if 0 <= c.row < Height && 0 <= c.col < Width { assert !g.board[c.row][c.col]; }
      }
    }
    Spawn(g, second)
  }

  /** A move to position p, taken only when the piece fits there. */
  function MoveTo(g: Game, p: Pos): (r: Game)
    requires Inv(g)
    ensures Inv(r)
    ensures r == g.(position := r.position)
    ensures r.position == p <==> IsValidPosition(g.board, g.current, p) || p == g.position
    ensures r.position != p ==> r == g
  {
    if IsValidPosition(g.board, g.current, p) then g.(position := p) else g
  }

  /** One column to the left, when the piece fits there; otherwise nothing changes. */
  function MoveLeft(g: Game): (r: Game)
    requires Inv(g)
    ensures Inv(r)
    ensures r == g.(position := r.position) && r.position.row == g.position.row
    ensures r.position.col == g.position.col - 1 <==>
              IsValidPosition(g.board, g.current, Pos(g.position.row, g.position.col - 1))
    ensures r.position.col != g.position.col - 1 ==> r == g
  {
    MoveTo(g, Pos(g.position.row, g.position.col - 1))
  }

  /** One column to the right, when the piece fits there; otherwise nothing changes. */
  function MoveRight(g: Game): (r: Game)
    requires Inv(g)
    ensures Inv(r)
    ensures r == g.(position := r.position) && r.position.row == g.position.row
    ensures r.position.col == g.position.col + 1 <==>
              IsValidPosition(g.board, g.current, Pos(g.position.row, g.position.col + 1))
    ensures r.position.col != g.position.col + 1 ==> r == g
  {
    MoveTo(g, Pos(g.position.row, g.position.col + 1))
  }

  /** A quarter turn about the piece's origin, kept only when the turned piece fits
      at the same origin; the origin never changes. */
  function Rotate(g: Game): (r: Game)
    requires Inv(g)
    ensures Inv(r)
    ensures r == g.(current := r.current)
    ensures IsValidPosition(g.board, Rotated(g.current), g.position) ==> r.current == Rotated(g.current)
    ensures !IsValidPosition(g.board, Rotated(g.current), g.position) ==> r == g
  {
    var turned := Rotated(g.current);
    if IsValidPosition(g.board, turned, g.position) then
      RotatedKeepsCells(g.current);
      g.(current := turned)
    else g
  }

  /** The hard drop only speeds up the ticks; the piece keeps falling one row a tick. */
  function HardDrop(g: Game): (r: Game)
    requires Inv(g)
    ensures Inv(r)
    ensures r == g.(isHardDropActive := true, speed := FastSpeed)
  {
    g.(isHardDropActive := true, speed := FastSpeed)
  }

  /** Settling: the piece's cells are marked on the board and the tick interval goes
      back to normal. */
  function Place(g: Game): (r: Game)
    requires Playable(g)
    ensures Playable(r)
    ensures r == g.(board := r.board, isHardDropActive := false, speed := Speed)
  {
    g.(board := Stamped(g.board, g.current, g.position), isHardDropActive := false, speed := Speed)
  }

  /** Exactly the piece's cells that are on the board become occupied; every other cell
      keeps its value. */
  lemma PlaceMarksPiece(g: Game)
    requires Playable(g)
    ensures forall row, col :: 0 <= row < Height && 0 <= col < Width ==>
              Place(g).board[row][col] == (g.board[row][col] || Covers(g.current, g.position, Pos(row, col)))
  {
    StampedCells(g.board, g.current, g.position);
  }

  /** Clearing lines: the rows with an empty cell are kept in order at the bottom under
      as many empty rows as there were full rows, and each full row is worth 500 points. */
  function ClearLines(g: Game): (r: Game)
    requires WellFormed(g.board)
    ensures r == g.(board := Cleared(g.board), score := r.score)
    ensures r.score == g.score + LinePoints * CountFull(g.board)
    ensures CountFull(g.board) == 0 ==> r == g
  {
    assert CountFull(g.board) == 0 ==> Cleared(g.board) == g.board by {
      if CountFull(g.board) == 0 { ClearedWithoutFullRow(g.board); }
    }
    var kept := NonFull(g.board);
    var lines := Height - |kept|;
    g.(board := EmptyRows(lines) + kept, score := if lines > 0 then g.score + LinePoints * lines else g.score)
  }

  /** The points a settle adds keep the score a whole number of hundreds. */
  lemma WholeHundreds(score: nat, lines: nat, total: int)
    requires score % 100 == 0 && total == score + LinePoints * lines + SpawnPoints
    ensures total % 100 == 0
  {
    var k := score / 100;
    assert score + LinePoints * lines + SpawnPoints == 100 * (k + 5 * lines + 1);
  }

  /** A settle: the piece is marked on the board, full rows are cleared and the next
      piece spawns. The board then holds no full row, the surviving rows of the marked
      board are at its bottom, and the score grows by 500 per cleared row plus 100. */
  function Settle(g: Game, pick: nat): (r: Game)
    requires Inv(g) && pick < |Tetrominos|
    ensures Inv(r)
    ensures var settled := Stamped(g.board, g.current, g.position);
            && r.board == Cleared(settled)
            && r.board[CountFull(settled)..] == NonFull(settled)
            && r.score == g.score + LinePoints * CountFull(settled) + SpawnPoints
    ensures r.current == g.next && r.next == Tetrominos[pick] && r.position == SpawnPos
    ensures !r.isHardDropActive && r.speed == Speed
    ensures r.isGameOver <==> g.isGameOver || !IsValidPosition(r.board, g.next, SpawnPos)
    ensures IsValidPosition(r.board, g.next, SpawnPos) ==> r.highScores == g.highScores
    ensures !IsValidPosition(r.board, g.next, SpawnPos) ==> r.highScores == TopThree(g.highScores + [r.score])
  {
    var placed := Place(g);
    ClearedRows(placed.board);
    var cleared := ClearLines(placed);
    var r := Spawn(cleared, pick);
    WholeHundreds(g.score, CountFull(placed.board), r.score);
    r
  }

  /** One row down when the piece fits there; otherwise the piece settles. */
  function MoveDown(g: Game, pick: nat): (r: Game)
    requires Inv(g) && pick < |Tetrominos|
    ensures Inv(r)
    ensures r.score >= g.score
    ensures var below := Pos(g.position.row + 1, g.position.col);
            IsValidPosition(g.board, g.current, below) ==> r == g.(position := below)
    ensures var below := Pos(g.position.row + 1, g.position.col);
            !IsValidPosition(g.board, g.current, below) ==> r == Settle(g, pick)
  {
    var below := Pos(g.position.row + 1, g.position.col);
    if IsValidPosition(g.board, g.current, below) then g.(position := below) else Settle(g, pick)
  }

  /** The timer: while the game is not over, a tick is a move down; afterwards it
      changes nothing. */
  function Tick(g: Game, pick: nat): (r: Game)
    requires Inv(g) && pick < |Tetrominos|
    ensures Inv(r)
    ensures r.score >= g.score
    ensures g.isGameOver ==> r == g
    ensures !g.isGameOver ==> r == MoveDown(g, pick)
  {
    if g.isGameOver then g else MoveDown(g, pick)
  }

  /** Starting a game runs one tick at once; on the empty board it moves the first
      piece one row down and leaves everything else as the spawn made it. */
  lemma StartThenTick(history: seq<int>, first: nat, second: nat, third: nat)
    requires first < |Tetrominos| && second < |Tetrominos| && third < |Tetrominos|
    ensures Tick(Start(history, first, second), third) ==
            Start(history, first, second).(position := Pos(1, SpawnPos.col))
  {
    var g := Start(history, first, second);
    ShapesAreTetrominos(first);
    var s := g.current;
    forall i | 0 <= i < |s|
      ensures !OutOfBounds(CellAt(Pos(1, SpawnPos.col), s[i]))
      ensures !Occupied(g.board, CellAt(Pos(1, SpawnPos.col), s[i]))
    {
      var c := CellAt(Pos(1, SpawnPos.col), s[i]);
      assert 0 <= c.row < Height && 0 <= c.col < Width;
      assert !g.board[c.row][c.col];
    }
    assert IsValidPosition(g.board, s, Pos(1, SpawnPos.col));
  }

  /** Once the game is over the timer stops, but the keys still act: when the piece
      cannot go down, the down key settles it, the score still grows, and the game
      stays over. */
  lemma KeysAfterGameOver(g: Game, pick: nat)
    requires Inv(g) && pick < |Tetrominos| && g.isGameOver
    requires !IsValidPosition(g.board, g.current, Pos(g.position.row + 1, g.position.col))
    ensures Tick(g, pick) == g
    ensures MoveDown(g, pick).score > g.score && MoveDown(g, pick).isGameOver
  {
  }

  /** The inputs the game reacts to: the arrow keys, the space bar (hard drop), the
      return key (start a new game) and the timer. pick stands for the random choice of
      a spawn the input may cause; a restart carries the score history it loads and the
      three random choices of its initialisation, first spawn and first tick. */
  datatype Event =
    | KeyLeft | KeyRight | KeyDown(pick: nat) | KeyUp | KeySpace | TimerTick(pick: nat)
    | KeyReturn(history: seq<int>, first: nat, second: nat, third: nat)

  predicate Admissible(e: Event) {
    && ((e.KeyDown? || e.TimerTick?) ==> e.pick < |Tetrominos|)
    && (e.KeyReturn? ==> e.first < |Tetrominos| && e.second < |Tetrominos| && e.third < |Tetrominos|)
  }

  /** A sequence of inputs without a restart: all of it belongs to one game. */
  predicate OneGame(events: seq<Event>) {
    forall i :: 0 <= i < |events| ==> !events[i].KeyReturn?
  }

  /** The handler each input is bound to. */
  function Handle(g: Game, e: Event): (r: Game)
    requires Inv(g) && Admissible(e)
    ensures Inv(r)
    ensures !e.KeyReturn? ==> r.score >= g.score
    ensures !e.KeyReturn? && g.isGameOver ==> r.isGameOver
    ensures e.KeyReturn? ==>
              r.board == EmptyBoard() && r.score == SpawnPoints && !r.isGameOver && r.highScores == e.history
  {
    match e
    case KeyLeft => MoveLeft(g)
    case KeyRight => MoveRight(g)
    case KeyDown(pick) => MoveDown(g, pick)
    case KeyUp => Rotate(g)
    case KeySpace => HardDrop(g)
    case TimerTick(pick) => Tick(g, pick)
    case KeyReturn(history, first, second, third) =>
      StartThenTick(history, first, second, third);
      Tick(Start(history, first, second), third)
  }

  /** The state after a sequence of inputs, handled one at a time in order. Whatever the
      inputs, the invariant holds throughout. Within one game, that is without a restart,
      the score never goes down and a game that is over stays over. */
  function Run(g: Game, events: seq<Event>): (r: Game)
    requires Inv(g) && forall i :: 0 <= i < |events| ==> Admissible(events[i])
    ensures Inv(r)
    ensures OneGame(events) ==> r.score >= g.score
    ensures OneGame(events) && g.isGameOver ==> r.isGameOver
    decreases |events|
  {
    if |events| == 0 then g
    else Run(Handle(g, events[0]), events[1..])
  }

  /** Handling two sequences of inputs one after the other is handling their
      concatenation. */
  lemma {:induction false} RunConcat(g: Game, a: seq<Event>, b: seq<Event>)
    requires Inv(g)
    requires forall i :: 0 <= i < |a| ==> Admissible(a[i])
    requires forall i :: 0 <= i < |b| ==> Admissible(b[i])
    ensures Run(g, a + b) == Run(Run(g, a), b)
    decreases |a|
  {
    assert forall i :: 0 <= i < |a + b| ==> Admissible((a + b)[i]) by {
      forall i | 0 <= i < |a + b| ensures Admissible((a + b)[i]) {
        if i < |a| { assert (a + b)[i] == a[i]; } else { assert (a + b)[i] == b[i - |a|]; }
      }
    }
    if |a| == 0 {
      assert a + b == b;
    } else {
      assert (a + b)[0] == a[0] && (a + b)[1..] == a[1..] + b;
      RunConcat(Handle(g, a[0]), a[1..], b);
    }
  }

  /** A restart forgets the in-memory state of the game it interrupts: whatever came
      before it, what follows is a run from a freshly started game. (Scores that game
      saved to the file reach the restart through the history it loads.) */
  lemma RestartForgets(g: Game, before: seq<Event>, e: Event, after: seq<Event>)
    requires Inv(g) && e.KeyReturn? && Admissible(e)
    requires forall i :: 0 <= i < |before| ==> Admissible(before[i])
    requires forall i :: 0 <= i < |after| ==> Admissible(after[i])
    ensures Run(g, before + [e] + after) ==
            Run(Tick(Start(e.history, e.first, e.second), e.third), after)
  {
    RunConcat(g, before, [e] + after);
    assert before + [e] + after == before + ([e] + after);
    assert ([e] + after)[1..] == after;
  }
}
