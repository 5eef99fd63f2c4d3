/** The game object. Its fields are the game's state; the key handlers, the timer and
    the start key change them in place. Every method is proved to take the state to the
    one the matching function of Rules gives. */
module Game {
  import opened Shapes
  import opened Grid
  import opened HighScores
  import Rules

  /** What the timer callback arranges after a tick: no further tick once the game is
      over, otherwise another tick after the given number of milliseconds. */
  datatype Schedule = Stop | After(delay: nat)

  class Tetris {
    var board: Board
    var current: Shape        // cells of the falling piece (none before the first spawn)
    var next: Shape           // the piece shown in the preview
    var position: Pos         // origin of the falling piece
    var isGameOver: bool
    var isHardDropActive: bool
    var speed: nat            // tick interval in milliseconds
    var score: nat
    var highScores: seq<int>  // the loaded history, then the top three after a game over

    /** The fields as a value. */
    ghost function State(): Rules.Game
      reads this
    {
      Rules.Game(board, current, next, position, isGameOver, isHardDropActive, speed, score, highScores)
    }

    ghost predicate Valid()
      reads this
    {
      Rules.Inv(State())
    }

    /** Construction initialises the game: the player then starts it with StartGame. */
    constructor (history: seq<int>, first: nat)
      requires first < |Tetrominos|
      ensures State() == Rules.Init(history, first)
    {
      new;
      InitGame(history, first);
    }

    /** Empty board, no piece yet, the first next piece, score 0, normal speed, and the
        score history read from storage (passed in). */
    method InitGame(history: seq<int>, first: nat)
      requires first < |Tetrominos|
      modifies this
      ensures State() == Rules.Init(history, first)
    {
      board := EmptyBoard();
      current := [];
      next := Tetrominos[first];
      position := Pos(0, 0);
      isGameOver := false;
      isHardDropActive := false;
      speed := Rules.Speed;
      score := 0;
      highScores := history;
    }

    /** Start (or restart): initialise, spawn the first piece and run the first tick at
        once. The first piece ends one row below the spawn position and the timer is set
        to the normal interval. */
    method StartGame(history: seq<int>, first: nat, second: nat, third: nat) returns (s: Schedule)
      requires first < |Tetrominos| && second < |Tetrominos| && third < |Tetrominos|
      modifies this
      ensures Valid()
      ensures State() == Rules.Tick(Rules.Start(history, first, second), third)
      ensures State() == Rules.Start(history, first, second).(position := Pos(1, Rules.SpawnPos.col))
      ensures s == After(Rules.Speed)
    {
      InitGame(history, first);
      NewTetromino(second);
      s := Tick(third);
      Rules.StartThenTick(history, first, second, third);
    }

    method UpdateScore(points: nat)
      modifies this`score
      ensures State() == old(State()).(score := old(score) + points)
    {
      score := score + points;
    }

    /** The next piece becomes the falling one at the spawn position, a new next piece
        is picked (pick stands for the random choice), 100 points are added, and the game
        is over when the new piece does not fit. */
    method NewTetromino(pick: nat)
      requires pick < |Tetrominos| && WellFormed(board) && next in Tetrominos
      modifies this
      ensures State() == Rules.Spawn(old(State()), pick)
    {
      current := next;
      next := Tetrominos[pick];
      position := Rules.SpawnPos;
      UpdateScore(Rules.SpawnPoints);
      Rules.SpawnSteps(old(State()), pick);
      if !IsValidPosition(board, current, position) {
        GameOver();
      }
    }

    method GameOver()
      modifies this`isGameOver, this`highScores
      ensures State() == Rules.GameOver(old(State()))
    {
      isGameOver := true;
      SaveScore();
    }

    /** The final score is appended to the list, which is then cut to its three highest
        entries in descending order. */
    method SaveScore()
      modifies this`highScores
      ensures State() == old(State()).(highScores := TopThree(old(highScores) + [old(score)]))
      ensures |highScores| == Min(3, |old(highScores)| + 1) && Descending(highScores)
    {
      highScores := highScores + [score];
      highScores := TopThree(highScores);
      TopThreeIsRanking(old(highScores) + [old(score)]);
    }

    /** Marks each cell of the falling piece that is on the board as occupied, then ends
        the hard drop. */
    method Place()
      requires Rules.Playable(State())
      modifies this`board, this`isHardDropActive, this`speed
      ensures State() == Rules.Place(old(State()))
      ensures forall row, col :: 0 <= row < Height && 0 <= col < Width ==>
                board[row][col] == (old(board)[row][col] || Covers(current, position, Pos(row, col)))
    {
      for i := 0 to |current|
        invariant WellFormed(board)
        invariant board == Stamped(old(board), current[..i], position)
      {
        var cell := CellAt(position, current[i]);
        if cell.row >= 0 {
          board := board[cell.row := board[cell.row][cell.col := true]];
        }
        assert current[..i + 1][..i] == current[..i];
      }
      assert current[..|current|] == current;
      isHardDropActive := false;
      speed := Rules.Speed;
      Rules.PlaceMarksPiece(old(State()));
    }

    /** Drops every full row and puts an empty row on top for each; 500 points per
        dropped row. */
    method ClearLines()
      requires WellFormed(board)
      modifies this`board, this`score
      ensures State() == Rules.ClearLines(old(State()))
    {
      var kept := NonFull(board);
      var lines := Height - |kept|;
      if lines > 0 {
        UpdateScore(Rules.LinePoints * lines);
      }
      board := EmptyRows(lines) + kept;
    }

    method MoveLeft()
      requires Valid()
      modifies this
      ensures Valid()
      ensures State() == Rules.MoveLeft(old(State()))
    {
      var candidate := Pos(position.row, position.col - 1);
      if IsValidPosition(board, current, candidate) {
        position := candidate;
      }
    }

    method MoveRight()
      requires Valid()
      modifies this
      ensures Valid()
      ensures State() == Rules.MoveRight(old(State()))
    {
      var candidate := Pos(position.row, position.col + 1);
      if IsValidPosition(board, current, candidate) {
        position := candidate;
      }
    }

    /** One row down, or, when the piece does not fit there, settle it, clear full rows
        and spawn the next piece (pick is the random choice for the spawn). */
    method MoveDown(pick: nat)
      requires Valid() && pick < |Tetrominos|
      modifies this
      ensures Valid()
      ensures State() == Rules.MoveDown(old(State()), pick)
      ensures score >= old(score)
    {
      var candidate := Pos(position.row + 1, position.col);
      if IsValidPosition(board, current, candidate) {
        position := candidate;
      } else {
        ghost var g := State();
        Place();
        ClearLines();
        assert State() == Rules.ClearLines(Rules.Place(g));
        NewTetromino(pick);
        assert State() == Rules.Spawn(Rules.ClearLines(Rules.Place(g)), pick);
        assert State() == Rules.Settle(g, pick);
      }
    }

    method RotateTetromino()
      requires Valid()
      modifies this
      ensures Valid()
      ensures State() == Rules.Rotate(old(State()))
    {
      var turned := Rotated(current);
      if IsValidPosition(board, turned, position) {
        current := turned;
      }
    }

    method HardDrop()
      requires Valid()
      modifies this
      ensures Valid()
      ensures State() == Rules.HardDrop(old(State()))
    {
      isHardDropActive := true;
      speed := Rules.FastSpeed;
    }

    /** The timer callback: unless the game is over, move down and ask for the next
        tick after the (possibly reset) interval. */
    method Tick(pick: nat) returns (s: Schedule)
      requires Valid() && pick < |Tetrominos|
      modifies this
      ensures Valid()
      ensures State() == Rules.Tick(old(State()), pick)
      ensures s == if old(isGameOver) then Stop else After(speed)
    {
      if !isGameOver {
        MoveDown(pick);
        s := After(speed);
      } else {
        s := Stop;
      }
    }
  }
}
