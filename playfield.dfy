/** The board, the falling piece, collision, locking and line clearing
    (tetris.js:1-3, 80-99, 171-209). */
module Playfield {
  import opened Shapes

  const COLS := 10
  const ROWS := 20

  /** A board row: COLS cells, 0 for empty, 1..7 for the type of the piece
      that was locked there. */
  type Row = seq<int>
  type Board = seq<Row>

  predicate WellFormed(b: Board) {
    |b| == ROWS &&
    forall y :: 0 <= y < |b| ==> |b[y]| == COLS && forall x :: 0 <= x < COLS ==> 0 <= b[y][x] <= 7
  }

  function EmptyRow(): (r: Row)
    ensures |r| == COLS && forall x :: 0 <= x < COLS ==> r[x] == 0
  {
    seq(COLS, _ => 0)
  }

  function EmptyBoard(): (b: Board)
    ensures WellFormed(b)
    ensures forall y, x :: 0 <= y < ROWS && 0 <= x < COLS ==> b[y][x] == 0
  {
    seq(ROWS, _ => EmptyRow())
  }

  /** The active piece: its shape, its type (which is also the value it
      leaves on the board), and the board position of the shape's top-left
      cell. `y` may be negative. */
  datatype Piece = Piece(shape: Shape, color: int, x: int, y: int)

  function Shifted(p: Piece, dx: int, dy: int): Piece {
    p.(x := p.x + dx, y := p.y + dy)
  }

  /** Whether a filled cell placed at board column x, row y is out of bounds
      or on an occupied cell. Rows above the board (y < 0) only meet the side
      walls, never board contents. */
  predicate Hits(b: Board, x: int, y: int)
    requires WellFormed(b)
  {
    x < 0 || x >= COLS || y >= ROWS || (y >= 0 && b[y][x] != 0)
  }

  /** The piece, moved by (dx, dy), has some filled cell that hits. */
  predicate Collides(b: Board, p: Piece, dx: int, dy: int)
    requires WellFormed(b)
  {
    exists i, j | 0 <= i < |p.shape| && 0 <= j < |p.shape[i]| ::
      p.shape[i][j] != 0 && Hits(b, p.x + j + dx, p.y + i + dy)
  }

  /** Checking a piece at an offset is checking the moved piece. */
  lemma CollidesShifted(b: Board, p: Piece, dx: int, dy: int)
    requires WellFormed(b)
    ensures Collides(b, p, dx, dy) <==> Collides(b, Shifted(p, dx, dy), 0, 0)
  {
    var q := Shifted(p, dx, dy);
    if Collides(b, p, dx, dy) {
      var i, j :| 0 <= i < |p.shape| && 0 <= j < |p.shape[i]| &&
        p.shape[i][j] != 0 && Hits(b, p.x + j + dx, p.y + i + dy);
      assert Hits(b, q.x + j, q.y + i);
    }
    if Collides(b, q, 0, 0) {
      var i, j :| 0 <= i < |q.shape| && 0 <= j < |q.shape[i]| &&
        q.shape[i][j] != 0 && Hits(b, q.x + j, q.y + i);
      assert Hits(b, p.x + j + dx, p.y + i + dy);
    }
  }

  /** A piece whose filled cells are all on the board or above it can be
      moved by (dx, dy) only if that does not take a cell off the sides or
      the bottom or onto an occupied cell. */
  lemma CollidesAt(b: Board, p: Piece, dx: int, dy: int, i: int, j: int)
    requires WellFormed(b)
    requires 0 <= i < |p.shape| && 0 <= j < |p.shape[i]| && p.shape[i][j] != 0
    requires Hits(b, p.x + j + dx, p.y + i + dy)
    ensures Collides(b, p, dx, dy)
  {
  }

  /** A collision-free piece has every filled cell on the board or above it. */
  lemma PlacedInBounds(b: Board, p: Piece, i: int, j: int)
    requires WellFormed(b) && !Collides(b, p, 0, 0)
    requires 0 <= i < |p.shape| && 0 <= j < |p.shape[i]| && p.shape[i][j] != 0
    ensures 0 <= p.x + j < COLS && p.y + i < ROWS
    ensures p.y + i >= 0 ==> b[p.y + i][p.x + j] == 0
  {
    if Hits(b, p.x + j, p.y + i) {
      CollidesAt(b, p, 0, 0, i, j);
    }
  }

  /** The piece has a filled cell over board cell (x, y). */
  predicate Covers(p: Piece, x: int, y: int) {
    0 <= y - p.y < |p.shape| && 0 <= x - p.x < |p.shape[y - p.y]| && p.shape[y - p.y][x - p.x] != 0
  }

  /** The board after the piece is written into it: every board cell under a
      filled cell of the piece takes the piece's type, every other cell keeps
      its value. Cells of the piece above the board are dropped. */
  function Stamp(b: Board, p: Piece): (r: Board)
    requires WellFormed(b) && 1 <= p.color <= 7
    ensures WellFormed(r)
  {
    seq(ROWS, y requires 0 <= y < ROWS =>
      seq(COLS, x requires 0 <= x < COLS => if Covers(p, x, y) then p.color else b[y][x]))
  }

  /** Writing a collision-free piece puts its type on exactly the board
      cells under its filled cells that are on the board, each of which is
      within the side walls and above the floor, and leaves every other
      cell as it was. */
  lemma StampWritesPiece(b: Board, p: Piece)
    requires WellFormed(b) && 1 <= p.color <= 7 && !Collides(b, p, 0, 0)
    ensures forall i, j :: 0 <= i < |p.shape| && 0 <= j < |p.shape[i]| && p.shape[i][j] != 0 && p.y + i >= 0 ==>
      0 <= p.x + j < COLS && p.y + i < ROWS && Stamp(b, p)[p.y + i][p.x + j] == p.color
    ensures forall y, x :: 0 <= y < ROWS && 0 <= x < COLS && !Covers(p, x, y) ==> Stamp(b, p)[y][x] == b[y][x]
  {
    var s := Stamp(b, p);
    forall i, j | 0 <= i < |p.shape| && 0 <= j < |p.shape[i]| && p.shape[i][j] != 0 && p.y + i >= 0
      ensures 0 <= p.x + j < COLS && p.y + i < ROWS && s[p.y + i][p.x + j] == p.color
    {
      PlacedInBounds(b, p, i, j);
      assert Covers(p, p.x + j, p.y + i);
    }
  }

  // ---------------------------------------------------------------------
  // Line clearing

  predicate IsComplete(row: Row) {
    forall x :: 0 <= x < |row| ==> row[x] != 0
  }

  predicate NoCompleteRow(b: Board) {
    forall y :: 0 <= y < |b| ==> !IsComplete(b[y])
  }

  function CountComplete(b: Board): nat {
    if b == [] then 0 else (if IsComplete(b[0]) then 1 else 0) + CountComplete(b[1..])
  }

  /** The rows that are not complete, in their original order. */
  function Remaining(b: Board): Board {
    if b == [] then [] else (if IsComplete(b[0]) then [] else [b[0]]) + Remaining(b[1..])
  }

  function Zeros(k: nat): (z: Board)
    ensures |z| == k && forall y :: 0 <= y < k ==> z[y] == EmptyRow()
  {
    seq(k, _ => EmptyRow())
  }

  /** The board once the complete rows are gone: one empty row on top for
      each removed row, then the remaining rows in their original order. */
  function Cleared(b: Board): Board {
    Zeros(CountComplete(b)) + Remaining(b)
  }

  /** Every row is either complete (and counted) or kept, and every kept
      row is a row of the board that is not complete. */
  lemma {:induction false} RemainingRows(b: Board)
    ensures |Remaining(b)| + CountComplete(b) == |b|
    ensures forall r :: r in Remaining(b) ==> r in b && !IsComplete(r)
  {
    if b != [] {
      RemainingRows(b[1..]);
      forall r | r in Remaining(b)
        ensures r in b && !IsComplete(r)
      {
        if r !in Remaining(b[1..]) {
          assert r == b[0] && !IsComplete(b[0]);
        } else {
          assert r in b[1..];
        }
      }
    }
  }

  /** A board without complete rows has nothing to clear. */
  lemma {:induction false} NothingToClear(b: Board)
    requires NoCompleteRow(b)
    ensures CountComplete(b) == 0 && Remaining(b) == b
  {
    if b != [] {
      assert !IsComplete(b[0]);
      NothingToClear(b[1..]);
      assert [b[0]] + b[1..] == b;
    }
  }

  /** No row of the empty board is complete. */
  lemma EmptyBoardHasNoCompleteRow()
    ensures NoCompleteRow(EmptyBoard())
  {
    var e := EmptyBoard();
    forall y | 0 <= y < ROWS
      ensures !IsComplete(e[y])
    {
      assert e[y][0] == 0;
    }
  }

  lemma {:induction false} CountCompleteAppend(a: Board, c: Board)
    ensures CountComplete(a + c) == CountComplete(a) + CountComplete(c)
  {
    if a != [] {
      assert (a + c)[1..] == a[1..] + c;
      CountCompleteAppend(a[1..], c);
    } else {
      assert a + c == c;
    }
  }

  /** The kept rows of two stacked boards are the kept rows of each, in order. */
  lemma {:induction false} RemainingAppend(a: Board, c: Board)
    ensures Remaining(a + c) == Remaining(a) + Remaining(c)
  {
    if a == [] {
      assert a + c == c;
    } else {
      var h := if IsComplete(a[0]) then [] else [a[0]];
      assert (a + c)[0] == a[0];
      assert (a + c)[1..] == a[1..] + c;
      calc {
        Remaining(a + c);
        h + Remaining(a[1..] + c);
        { RemainingAppend(a[1..], c); }
        h + (Remaining(a[1..]) + Remaining(c));
        (h + Remaining(a[1..])) + Remaining(c);
      }
    }
  }

  /** Clearing keeps ROWS rows of COLS cells with values in 0..7, leaves no
      complete row, and changes nothing when no row is complete. */
  lemma ClearedWellFormed(b: Board)
    requires WellFormed(b)
    ensures WellFormed(Cleared(b))
    ensures NoCompleteRow(Cleared(b))
    ensures CountComplete(b) == 0 ==> Cleared(b) == b
  {
    RemainingRows(b);
    var c := Cleared(b);
    var k := CountComplete(b);
    forall y | 0 <= y < |c|
      ensures |c[y]| == COLS && (forall x :: 0 <= x < COLS ==> 0 <= c[y][x] <= 7) && !IsComplete(c[y])
    {
      if y < k {
        assert c[y] == EmptyRow() && c[y][0] == 0;
      } else {
        assert c[y] == Remaining(b)[y - k];
        assert c[y] in Remaining(b);
      }
    }
    if k == 0 {
      assert Zeros(0) == [];
      NoneCompleteKeepsAll(b);
    }
  }

  lemma {:induction false} NoneCompleteKeepsAll(b: Board)
    requires CountComplete(b) == 0
    ensures Remaining(b) == b
  {
    if b != [] {
      NoneCompleteKeepsAll(b[1..]);
      assert [b[0]] + b[1..] == b;
    }
  }

  /** Writing a piece into a board without complete rows completes at most
      as many rows as the piece is tall: rows the piece does not reach are
      unchanged, hence still not complete. */
  lemma StampCompletesAtMostHeight(b: Board, p: Piece)
    requires WellFormed(b) && NoCompleteRow(b) && 1 <= p.color <= 7
    ensures CountComplete(Stamp(b, p)) <= |p.shape|
  {
    var s := Stamp(b, p);
    var lo := if p.y < 0 then 0 else if p.y > ROWS then ROWS else p.y;
    var top := p.y + |p.shape|;
    var hi := if top < lo then lo else if top > ROWS then ROWS else top;
    forall y | 0 <= y < ROWS && (y < p.y || y >= top)
      ensures !IsComplete(s[y])
    {
      assert !IsComplete(b[y]);
      var x :| 0 <= x < |b[y]| && b[y][x] == 0;
      assert !Covers(p, x, y);
      assert s[y][x] == 0;
    }
    assert s == s[..lo] + s[lo..hi] + s[hi..];
    assert NoCompleteRow(s[..lo]);
    assert NoCompleteRow(s[hi..]);
    NothingToClear(s[..lo]);
    NothingToClear(s[hi..]);
    RemainingRows(s[lo..hi]);
    CountCompleteAppend(s[..lo], s[lo..hi]);
    CountCompleteAppend(s[..lo] + s[lo..hi], s[hi..]);
  }
}
