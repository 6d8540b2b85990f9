/** The game as the source runs it: one object whose board, piece, counters
    and flags every operation updates in place (tetris.js:28-40 and the
    functions that change them). Each method is proved to leave the object
    in the state that the matching function of module Rules computes from
    the state before. */
module Engine {
  import opened Shapes
  import opened Playfield
  import opened Rules

  /** A fresh ROWS x COLS board of empty cells, filled row by row. */
  method NewBoard() returns (b: array<Row>)
    ensures fresh(b) && b[..] == EmptyBoard()
  {
    b := new Row[ROWS];
    var r := 0;
    while r < ROWS
      invariant 0 <= r <= ROWS
      invariant forall k :: 0 <= k < r ==> b[k] == EmptyRow()
    {
      var row: Row := [];
      var c := 0;
      while c < COLS
        invariant 0 <= c <= COLS
        invariant |row| == c && forall i :: 0 <= i < c ==> row[i] == 0
      {
        row := row + [0];
        c := c + 1;
      }
      b[r] := row;
      r := r + 1;
    }
  }

  class Game {
    var board: array<Row>
    var current: Piece
    var score: int
    var lines: int
    var level: int
    var dropInterval: int
    var isPaused: bool
    var isGameOver: bool

    /** The object's state as a value. */
    function Snapshot(): State
      reads this, board
    {
      State(board[..], current, score, lines, level, dropInterval, isPaused, isGameOver)
    }

    ghost predicate Valid()
      reads this, board
    {
      board.Length == ROWS && Inv(Snapshot())
    }

    /** Starting the game: an empty board, zeroed counters at level 1, and a
        piece of type k, which always fits. */
    constructor (k: int)
      requires 1 <= k <= 7
      ensures Valid() && fresh(board)
      ensures board[..] == EmptyBoard() && current == NewPiece(k)
      ensures score == 0 && lines == 0 && level == 1 && dropInterval == 1000
      ensures !isPaused && !isGameOver
    {
      var b := NewBoard();
      board := b;
      current := NewPiece(k);
      score, lines, level, dropInterval := 0, 0, 1, 1000;
      isPaused, isGameOver := false, false;
      new;
      SpawnPiece(k);
    }

    /** Scans the piece's filled cells, moved by (dx, dy), and stops at the
        first one that is off the sides or the bottom or on an occupied cell. */
    method CheckCollision(p: Piece, dx: int, dy: int) returns (hit: bool)
      requires board.Length == ROWS && WellFormed(board[..])
      ensures hit == Collides(board[..], p, dx, dy)
    {
      var i := 0;
      while i < |p.shape|
        invariant 0 <= i <= |p.shape|
        invariant forall a, c :: 0 <= a < i && 0 <= c < |p.shape[a]| && p.shape[a][c] != 0 ==>
                    !Hits(board[..], p.x + c + dx, p.y + a + dy)
      {
        var j := 0;
        while j < |p.shape[i]|
          invariant 0 <= j <= |p.shape[i]|
          invariant forall a, c :: 0 <= a < i && 0 <= c < |p.shape[a]| && p.shape[a][c] != 0 ==>
                      !Hits(board[..], p.x + c + dx, p.y + a + dy)
          invariant forall c :: 0 <= c < j && p.shape[i][c] != 0 ==>
                      !Hits(board[..], p.x + c + dx, p.y + i + dy)
        {
          if p.shape[i][j] != 0 {
            var newX, newY := p.x + j + dx, p.y + i + dy;
            if newX < 0 || newX >= COLS || newY >= ROWS {
              CollidesAt(board[..], p, dx, dy, i, j);
              return true;
            }
            if newY >= 0 && board[newY][newX] != 0 {
              CollidesAt(board[..], p, dx, dy, i, j);
              return true;
            }
          }
          j := j + 1;
        }
        i := i + 1;
      }
      return false;
    }

    /** Replaces the piece by a new one of type k; game over if it overlaps. */
    method SpawnPiece(k: int)
      requires board.Length == ROWS && WellFormed(board[..]) && 1 <= k <= 7
      modifies this
      ensures board == old(board)
      ensures Snapshot() == Spawn(old(Snapshot()), k)
      ensures old(Valid()) ==> Valid()
    {
      current := NewPiece(k);
      var hit := CheckCollision(current, 0, 0);
      if hit {
        isGameOver := true;
      }
    }

    method MovePiece(dir: int)
      requires Valid()
      modifies this
      ensures board == old(board)
      ensures Snapshot() == Move(old(Snapshot()), dir)
      ensures Valid()
    {
      if isPaused || isGameOver {
        return;
      }
      var hit := CheckCollision(current, dir, 0);
      if !hit {
        current := current.(x := current.x + dir);
      }
    }

    /** Also the gravity tick. */
    method DropPiece(k: int)
      requires Valid() && 1 <= k <= 7
      modifies this, board
      ensures board == old(board)
      ensures Snapshot() == Drop(old(Snapshot()), k)
      ensures Valid()
    {
      if isPaused || isGameOver {
        return;
      }
      var hit := CheckCollision(current, 0, 1);
      if !hit {
        current := current.(y := current.y + 1);
      } else {
        LockPiece(k);
      }
    }

    /** Moves the piece down while it can, 2 points per row, then locks it. */
    method HardDrop(k: int)
      requires Valid() && 1 <= k <= 7
      modifies this, board
      ensures board == old(board)
      ensures Snapshot() == Rules.HardDrop(old(Snapshot()), k)
      ensures Valid()
    {
      if isPaused || isGameOver {
        return;
      }
      ghost var s0 := Snapshot();
      FallToLanding();
      assert Snapshot() == s0.(piece := Landing(s0.board, s0.piece),
                               score := s0.score + 2 * (Landing(s0.board, s0.piece).y - s0.piece.y));
      LockPiece(k);
    }

    /** The loop of HardDrop. It ends because the landing row exists: the
        piece climbs down towards it and never passes it. */
    method FallToLanding()
      requires board.Length == ROWS && WellFormed(board[..]) && HasFilledCell(current.shape)
      modifies this
      ensures board == old(board)
      ensures current == Landing(old(board[..]), old(current))
      ensures score == old(score) + 2 * (current.y - old(current.y))
      ensures Snapshot() == old(Snapshot()).(piece := current, score := score)
    {
      ghost var target := Landing(board[..], current);
      var blocked := CheckCollision(current, 0, 1);
      while !blocked
        invariant board == old(board)
        invariant Snapshot() == old(Snapshot()).(piece := current, score := score)
        invariant current == old(current).(y := current.y) && old(current.y) <= current.y <= target.y
        invariant score == old(score) + 2 * (current.y - old(current.y))
        invariant blocked == Collides(board[..], current, 0, 1)
        decreases target.y - current.y
      {
        LandingAhead(old(board[..]), old(current), current);
        current := current.(y := current.y + 1);
        score := score + 2;
        blocked := CheckCollision(current, 0, 1);
      }
      LandingReached(old(board[..]), old(current), current);
    }

    /** Tries the rotated shape in place, then one column right, then one
        column left; keeps the piece when none fits. */
    method RotatePiece()
      requires Valid()
      modifies this
      ensures board == old(board)
      ensures Snapshot() == Rules.RotatePiece(old(Snapshot()))
      ensures Valid()
    {
      if isPaused || isGameOver {
        return;
      }
      var shape := Rotate(current.shape);
      var rotated := current.(shape := shape);
      var hit := CheckCollision(rotated, 0, 0);
      if !hit {
        current := current.(shape := shape);
      } else {
        hit := CheckCollision(rotated, 1, 0);
        if !hit {
          current := current.(x := current.x + 1, shape := shape);
        } else {
          hit := CheckCollision(rotated, -1, 0);
          if !hit {
            current := current.(x := current.x - 1, shape := shape);
          }
        }
      }
    }

    /** The lock sequence: write the piece, clear lines, spawn a piece of type k. */
    method LockPiece(k: int)
      requires Valid() && !isGameOver && 1 <= k <= 7
      modifies this, board
      ensures board == old(board)
      ensures Snapshot() == Lock(old(Snapshot()), k)
      ensures Valid()
    {
      ghost var s0 := Snapshot();
      WritePiece();
      ghost var s1 := s0.(board := Stamp(s0.board, s0.piece));
      assert Snapshot() == s1;
      StampCompletesAtMostHeight(s0.board, s0.piece);
      ClearLines();
      ghost var s2 := Rules.ClearLines(s1);
      assert Snapshot() == s2;
      SpawnPiece(k);
      assert Snapshot() == Spawn(s2, k) == Lock(s0, k);
    }

    /** Writes the piece's type into the board cell under each filled cell of
        its shape that is not above the board; no other cell changes. */
    method WritePiece()
      requires board.Length == ROWS && WellFormed(board[..])
      requires 1 <= current.color <= 7 && !Collides(board[..], current, 0, 0)
      modifies board
      ensures board[..] == Stamp(old(board[..]), current)
    {
      ghost var b0 := board[..];
      var p := current;
      var i := 0;
      while i < |p.shape|
        invariant 0 <= i <= |p.shape|
        invariant forall y :: 0 <= y < ROWS ==> |board[y]| == COLS
        invariant forall y, x :: 0 <= y < ROWS && 0 <= x < COLS ==>
                    board[y][x] == if Covers(p, x, y) && y - p.y < i then p.color else b0[y][x]
      {
        var j := 0;
        while j < |p.shape[i]|
          invariant 0 <= j <= |p.shape[i]|
          invariant forall y :: 0 <= y < ROWS ==> |board[y]| == COLS
          invariant forall y, x :: 0 <= y < ROWS && 0 <= x < COLS ==>
                      board[y][x] == if Covers(p, x, y) && (y - p.y < i || (y - p.y == i && x - p.x < j))
                                     then p.color else b0[y][x]
        {
          if p.shape[i][j] != 0 {
            var boardY, boardX := p.y + i, p.x + j;
            if boardY >= 0 {
              PlacedInBounds(b0, p, i, j);
              board[boardY] := board[boardY][boardX := p.color];
            }
          }
          j := j + 1;
        }
        i := i + 1;
      }
      ghost var s := Stamp(b0, p);
      forall y | 0 <= y < ROWS
        ensures board[y] == s[y]
      {
        assert |board[y]| == |s[y]|;
      }
    }

    /** Whether every cell of row y is occupied; stops at the first empty one. */
    method RowComplete(y: int) returns (complete: bool)
      requires 0 <= y < board.Length && |board[y]| == COLS
      ensures complete == IsComplete(board[y])
    {
      complete := true;
      var x := 0;
      while x < COLS
        invariant 0 <= x <= COLS
        invariant forall c :: 0 <= c < x ==> board[y][c] != 0
      {
        if board[y][x] == 0 {
          complete := false;
          break;
        }
        x := x + 1;
      }
    }

    /** Removes row y and pushes an empty row on top: rows above y move down
        by one, rows below y stay. */
    method RemoveRow(y: int)
      requires board.Length == ROWS && 0 <= y < ROWS
      modifies board
      ensures board[..] == [EmptyRow()] + old(board[..])[..y] + old(board[..])[y + 1..]
    {
      var i := y;
      while i > 0
        invariant 0 <= i <= y
        invariant forall r :: 0 <= r <= i ==> board[r] == old(board[r])
        invariant forall r :: i < r <= y ==> board[r] == old(board[r - 1])
        invariant forall r :: y < r < ROWS ==> board[r] == old(board[r])
      {
        board[i] := board[i - 1];
        i := i - 1;
      }
      board[0] := EmptyRow();
    }

    /** Scans rows from the bottom up; a complete row is removed and the same
        row index is examined again, since the row above has moved into it.
        Then the counters are updated from the number of rows removed. */
    method ClearLines()
      requires board.Length == ROWS && WellFormed(board[..]) && CountComplete(board[..]) <= 4
      modifies this, board
      ensures board == old(board)
      ensures Snapshot() == Rules.ClearLines(old(Snapshot()))
    {
      var linesCleared := RemoveCompleteRows();
      if linesCleared > 0 {
        lines := lines + linesCleared;
        score := score + Points(linesCleared) * level;
        level := lines / 10 + 1;
        dropInterval := if 1000 - (level - 1) * 100 < 100 then 100 else 1000 - (level - 1) * 100;
      }
    }

    /** The scan of ClearLines. */
    method RemoveCompleteRows() returns (linesCleared: nat)
      requires board.Length == ROWS && WellFormed(board[..])
      modifies board
      ensures board[..] == Cleared(old(board[..]))
      ensures linesCleared == CountComplete(old(board[..]))
    {
      ghost var b0 := board[..];
      linesCleared := 0;
      var y := ROWS - 1;
      // The number of rows of the original board not yet examined.
      ghost var m := ROWS;
      ScanStart(b0);
      while y >= 0
        invariant -1 <= y < ROWS && 0 <= m <= ROWS
        invariant ScanPosition(y, m, linesCleared)
        invariant board[..] == ScanState(b0, m, linesCleared)
        invariant linesCleared == CountComplete(b0[m..])
        decreases y + 1, m
      {
        y, m, linesCleared := ScanStep(y, b0, m, linesCleared);
      }
      ScanDone(b0, linesCleared);
    }

    /** One step of the scan at row y: the row is tested and, when complete,
        removed with an empty row pushed on top and examined again; otherwise
        the scan moves up one row. */
    method ScanStep(y: int, ghost b0: Board, ghost m: nat, cleared: nat)
      returns (y': int, ghost m': nat, cleared': nat)
      requires board.Length == ROWS && WellFormed(b0) && m <= ROWS && 0 <= y < ROWS
      requires ScanPosition(y, m, cleared)
      requires board[..] == ScanState(b0, m, cleared)
      requires cleared == CountComplete(b0[m..])
      modifies board
      ensures -1 <= y' < ROWS && m' <= ROWS && ScanPosition(y', m', cleared')
      ensures board[..] == ScanState(b0, m', cleared')
      ensures cleared' == CountComplete(b0[m'..])
      ensures y' < y || (y' == y && m' < m)
    {
      ScanRow(b0, m, cleared, y);
      var complete := RowComplete(y);
      if complete {
        ScanRemove(b0, m, cleared);
        RemoveRow(y);
        y', m', cleared' := y, m - 1, cleared + 1;
      } else {
        y', cleared' := y - 1, cleared;
        if m > 0 {
          ScanKeep(b0, m, cleared);
          m' := m - 1;
        } else {
          m' := m;
        }
      }
    }

    method TogglePause()
      modifies this
      ensures board == old(board)
      ensures Snapshot() == old(Snapshot()).(paused := !old(isPaused))
      ensures old(Valid()) ==> Valid()
    {
      isPaused := !isPaused;
    }

    /** A new board, zeroed counters, level 1, both flags cleared, then a
        piece of type k. */
    method Restart(k: int)
      requires 1 <= k <= 7
      modifies this
      ensures fresh(board)
      ensures Snapshot() == Rules.Restart(old(Snapshot()), k)
      ensures Valid()
    {
      board := NewBoard();
      score := 0;
      lines := 0;
      level := 1;
      dropInterval := 1000;
      isPaused := false;
      isGameOver := false;
      SpawnPiece(k);
    }

    /** A key press; a piece of type k is spawned if the key locks the piece. */
    method HandleKeyPress(key: Key, k: int)
      requires Valid() && 1 <= k <= 7
      modifies this, board
      ensures board == old(board)
      ensures Snapshot() == HandleKey(old(Snapshot()), key, k)
      ensures Valid()
    {
      if isGameOver {
        return;
      }
      match key
      case ArrowLeft => MovePiece(-1);
      case ArrowRight => MovePiece(1);
      case ArrowDown =>
        DropPiece(k);
        score := score + 1;
      case ArrowUp => RotatePiece();
      case Space => HardDrop(k);
      case PauseKey => TogglePause();
      case OtherKey =>
    }
  }

  /** The board part way through the line-clearing scan: the empty rows
      pushed so far, the first m rows of the original board (not yet
      examined), and the rows kept from those already examined. */
  function ScanState(b0: Board, m: nat, cleared: nat): Board
    requires m <= |b0|
  {
    Zeros(cleared) + b0[..m] + Remaining(b0[m..])
  }

  /** A position on the way down that can still fall is above the landing
      position. */
  lemma LandingAhead(b: Board, p: Piece, q: Piece)
    requires WellFormed(b) && HasFilledCell(p.shape)
    requires q == p.(y := q.y) && q.y <= Landing(b, p).y && !Collides(b, q, 0, 1)
    ensures q.y < Landing(b, p).y
  {
  }

  /** The first position on the way down that cannot fall is the landing
      position. */
  lemma LandingReached(b: Board, p: Piece, q: Piece)
    requires WellFormed(b) && HasFilledCell(p.shape)
    requires q == p.(y := q.y) && p.y <= q.y <= Landing(b, p).y && Collides(b, q, 0, 1)
    ensures q == Landing(b, p)
  {
  }

  /** How the scan position relates to the rows examined: while original
      rows remain, row y holds the next one, below it are the kept rows and
      above it the pushed empty rows; once none remain, row y is one of the
      pushed empty rows. */
  predicate ScanPosition(y: int, m: int, cleared: int) {
    if m > 0 then y + 1 == cleared + m else y + 1 <= cleared
  }

  /** Before the scan every row is still to be examined. */
  lemma ScanStart(b0: Board)
    ensures ScanState(b0, |b0|, 0) == b0
  {
    assert b0[..|b0|] == b0 && b0[|b0|..] == [];
  }

  /** Once every original row is examined, the board is the cleared one. */
  lemma ScanDone(b0: Board, cleared: nat)
    requires cleared == CountComplete(b0[0..])
    ensures ScanState(b0, 0, cleared) == Cleared(b0)
  {
    assert b0[..0] == [] && b0[0..] == b0;
  }

  /** The row the scan examines at index y is the next original row, or,
      once all original rows are examined, an empty row. */
  lemma ScanRow(b0: Board, m: int, cleared: nat, y: int)
    requires WellFormed(b0) && 0 <= m <= ROWS && 0 <= y < ROWS
    requires ScanPosition(y, m, cleared)
    ensures var c := ScanState(b0, m, cleared);
      y < |c| &&
      (m > 0 ==> c[y] == b0[m - 1]) &&
      (m == 0 ==> !IsComplete(c[y]))
  {
    var c := ScanState(b0, m, cleared);
    if m == 0 {
      assert c[y] == Zeros(cleared)[y];
      assert c[y][0] == 0;
    }
  }

  lemma ScanUnfold(b0: Board, m: int)
    requires 0 < m <= |b0|
    ensures Remaining(b0[m - 1..]) ==
              (if IsComplete(b0[m - 1]) then [] else [b0[m - 1]]) + Remaining(b0[m..])
    ensures CountComplete(b0[m - 1..]) ==
              (if IsComplete(b0[m - 1]) then 1 else 0) + CountComplete(b0[m..])
  {
    assert b0[m - 1..][1..] == b0[m..];
  }

  /** Passing over a row that is not complete leaves the board as it is. */
  lemma ScanKeep(b0: Board, m: int, cleared: nat)
    requires 0 < m <= |b0| && !IsComplete(b0[m - 1])
    ensures ScanState(b0, m, cleared) == ScanState(b0, m - 1, cleared)
    ensures CountComplete(b0[m - 1..]) == CountComplete(b0[m..])
  {
    ScanUnfold(b0, m);
    assert b0[..m] == b0[..m - 1] + [b0[m - 1]];
  }

  /** Removing a complete row and pushing an empty one on top moves the scan
      to the next original row. */
  lemma ScanRemove(b0: Board, m: int, cleared: nat)
    requires 0 < m <= |b0| && IsComplete(b0[m - 1])
    ensures var c := ScanState(b0, m, cleared);
      var y := cleared + m - 1;
      y < |c| && [EmptyRow()] + c[..y] + c[y + 1..] == ScanState(b0, m - 1, cleared + 1)
    ensures CountComplete(b0[m - 1..]) == CountComplete(b0[m..]) + 1
  {
    ScanUnfold(b0, m);
    var c := ScanState(b0, m, cleared);
    var y := cleared + m - 1;
    assert c[..y] == Zeros(cleared) + b0[..m - 1];
    assert c[y + 1..] == Remaining(b0[m..]);
    assert [EmptyRow()] + Zeros(cleared) == Zeros(cleared + 1);
  }
}
