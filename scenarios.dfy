/** Two concrete games worked through the transition functions. */
module Scenarios {
  import opened Shapes
  import opened Playfield
  import opened Rules

  /** A new O piece starts at column 4 of the top row. */
  lemma NewOPiece()
    ensures NewPiece(2) == Piece(Table[2], 2, 4, 0)
  {
  }

  /** An O piece dropped from the top of the empty board comes to rest on
      the bottom two rows. */
  lemma OPieceLanding(b: Board, p: Piece)
    requires b == EmptyBoard() && p == Piece(Table[2], 2, 4, 0)
    ensures HasFilledCell(p.shape) && Landing(b, p) == p.(y := 18)
  {
    assert p.shape == [[2, 2], [2, 2]] && p.shape[0][0] != 0;
    var q := Landing(b, p);
    if q.y > 18 {
      CollidesAt(b, p.(y := 18), 0, 1, 1, 0);
    }
  }

  /** After a restart with an O piece (which puts it at column 4, row 0,
      on the empty board with a zero score), a hard drop lands it on the
      bottom two rows at columns 4 and 5, scores 2 points for each of the 18
      rows fallen, and clears nothing. */
  lemma HardDropOPiece(s: State, k: int)
    requires 1 <= k <= 7 && Inv(s)
    requires s.board == EmptyBoard() && s.piece == Piece(Table[2], 2, 4, 0)
    requires s.score == 0 && !s.paused && !s.over
    ensures Landing(s.board, s.piece).y == 18
    ensures var r := HardDrop(s, k);
      r.score == 36 && r.lines == s.lines &&
      r.board[18][4] == 2 && r.board[18][5] == 2 && r.board[19][4] == 2 && r.board[19][5] == 2 &&
      r.board[17][4] == 0 && r.board[19][3] == 0
  {
    OPieceLanding(s.board, s.piece);
    var t := s.(piece := s.piece.(y := 18), score := 36);
    assert HardDrop(s, k) == Lock(t, k);
    LockOPieceOnFloor(t, k);
  }

  /** The same, starting from a restart that draws an O piece. */
  lemma RestartThenHardDrop(s0: State, k: int)
    requires 1 <= k <= 7
    ensures var r := HardDrop(Restart(s0, 2), k);
      r.score == 36 && r.lines == 0 && r.board[19][4] == 2
  {
    var s := Restart(s0, 2);
    NewOPiece();
    HardDropOPiece(s, k);
  }

  /** Locking the O piece on the floor of the empty board. */
  lemma LockOPieceOnFloor(t: State, k: int)
    requires 1 <= k <= 7 && Inv(t) && !t.over
    requires t.board == EmptyBoard() && t.piece == Piece(Table[2], 2, 4, 18)
    ensures var r := Lock(t, k);
      r.score == t.score && r.lines == t.lines &&
      r.board[18][4] == 2 && r.board[18][5] == 2 && r.board[19][4] == 2 && r.board[19][5] == 2 &&
      r.board[17][4] == 0 && r.board[19][3] == 0
  {
    OPieceStamp(t.board, t.piece);
    LockWithoutClear(t, k);
  }

  lemma OPieceStamp(b: Board, p: Piece)
    requires b == EmptyBoard() && p == Piece(Table[2], 2, 4, 18)
    ensures var st := Stamp(b, p);
      NoCompleteRow(st) &&
      st[18][4] == 2 && st[18][5] == 2 && st[19][4] == 2 && st[19][5] == 2 &&
      st[17][4] == 0 && st[19][3] == 0
  {
    var st := Stamp(b, p);
    assert p.shape == [[2, 2], [2, 2]];
    forall y | 0 <= y < ROWS
      ensures !IsComplete(st[y])
    {
      assert st[y][0] == 0;
    }
  }

  /** A lock that completes no row only writes the piece into the board and
      spawns the next piece: the counters stay as they are. */
  lemma LockWithoutClear(t: State, k: int)
    requires 1 <= k <= 7 && Inv(t) && !t.over
    requires NoCompleteRow(Stamp(t.board, t.piece))
    ensures Lock(t, k) == Spawn(t.(board := Stamp(t.board, t.piece)), k)
  {
    var st := Stamp(t.board, t.piece);
    NothingToClear(st);
    ClearedWellFormed(st);
    assert Rules.ClearLines(t.(board := st)) == t.(board := st);
  }

  /** The bottom row filled from column 4 to the right. */
  function GapRow(): (r: Row)
    ensures |r| == COLS
  {
    seq(COLS, x => if x < 4 then 0 else 5)
  }

  /** An I piece laid flat into the four-cell gap at the left of the bottom
      row completes it: the row is removed, one line is counted, 100 points
      times the level are scored, and the bottom row is empty again. */
  lemma LockCompletesBottomRow(s: State, k: int)
    requires 1 <= k <= 7
    requires s.board == EmptyBoard()[ROWS - 1 := GapRow()]
    requires s.piece == Piece(Table[1], 1, 0, ROWS - 1)
    requires s.score >= 0 && s.lines == 0 && s.level == 1 && s.dropInterval == 1000
    requires !s.over
    ensures Inv(s)
    ensures var r := Lock(s, k);
      r.lines == 1 && r.score == s.score + 100 && r.level == 1 &&
      r.board == EmptyBoard()
  {
    GapBoardInv(s);
    GapStampClears(s.board, s.piece);
  }

  /** The board with the gap row and the I piece over the gap satisfy the
      state invariant. */
  lemma GapBoardInv(s: State)
    requires s.board == EmptyBoard()[ROWS - 1 := GapRow()]
    requires s.piece == Piece(Table[1], 1, 0, ROWS - 1)
    requires s.score >= 0 && s.lines == 0 && s.level == 1 && s.dropInterval == 1000
    ensures Inv(s)
  {
    var b := s.board;
    var p := s.piece;
    assert WellFormed(b);
    assert NoCompleteRow(b) by {
      forall y | 0 <= y < ROWS
        ensures !IsComplete(b[y])
      {
        assert b[y][0] == 0;
      }
    }
    assert p.shape == [[1, 1, 1, 1]];
    TableValid(1);
    assert !Collides(b, p, 0, 0) by {
      forall i, j | 0 <= i < |p.shape| && 0 <= j < |p.shape[i]|
        ensures p.shape[i][j] != 0 ==> !Hits(b, p.x + j, p.y + i)
      {
        assert i == 0 && b[ROWS - 1][j] == 0;
      }
    }
  }

  /** Writing the I piece into the gap completes exactly the bottom row, and
      clearing it leaves the empty board. */
  lemma GapStampClears(b: Board, p: Piece)
    requires b == EmptyBoard()[ROWS - 1 := GapRow()]
    requires p == Piece(Table[1], 1, 0, ROWS - 1)
    ensures WellFormed(b)
    ensures CountComplete(Stamp(b, p)) == 1 && Cleared(Stamp(b, p)) == EmptyBoard()
  {
    assert WellFormed(b);
    assert p.shape == [[1, 1, 1, 1]];
    var st := Stamp(b, p);
    assert IsComplete(st[ROWS - 1]);
    var above := st[..ROWS - 1];
    assert NoCompleteRow(above) by {
      forall y | 0 <= y < ROWS - 1
        ensures !IsComplete(above[y])
      {
        assert above[y] == st[y];
        assert !Covers(p, 0, y) && b[y][0] == 0;
        assert st[y][0] == 0;
      }
    }
    NothingToClear(above);
    assert st == above + [st[ROWS - 1]];
    CountCompleteAppend(above, [st[ROWS - 1]]);
    assert CountComplete([st[ROWS - 1]]) == 1;
    var c := Cleared(st);
    assert Remaining(st) == above by {
      RemainingAppend(above, [st[ROWS - 1]]);
      assert Remaining([st[ROWS - 1]]) == [];
    }
    assert c == [EmptyRow()] + above;
    forall y | 0 <= y < ROWS
      ensures c[y] == EmptyBoard()[y]
    {
      if y > 0 {
        var row := st[y - 1];
        assert c[y] == row;
        assert forall x :: 0 <= x < COLS ==> row[x] == 0;
      }
    }
  }
}
