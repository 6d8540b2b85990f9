/** The game's state and its transitions as functions of the state before
    (tetris.js:28-40, 64-78, 101-154, 171-224, 308-385). The class in
    game.dfy performs these transitions in place and is proved to agree
    with them; the lemmas here are about the transitions themselves. */
module Rules {
  import opened Shapes
  import opened Playfield

  /** Everything the simulation keeps: the board, the active piece, the
      counters and the two flags. */
  datatype State = State(
    board: Board,
    piece: Piece,
    score: int,
    lines: int,
    level: int,
    dropInterval: int,
    paused: bool,
    over: bool)

  /** The keys the game reacts to; every other key is ignored. */
  datatype Key = ArrowLeft | ArrowRight | ArrowDown | ArrowUp | Space | PauseKey | OtherKey

  // ---------------------------------------------------------------------
  // Scoring and levels

  /** Points per lock for 1 to 4 cleared rows, before the level factor. */
  function Points(k: nat): (r: nat)
    requires k <= 4
    ensures (k == 0) == (r == 0)
  {
    [0, 100, 300, 500, 800][k]
  }

  /** One level per ten cleared rows, starting at level 1. */
  function LevelFor(lines: int): int {
    lines / 10 + 1
  }

  /** Milliseconds between gravity drops: 100 less per level, never below 100. */
  function IntervalFor(level: int): (r: int)
    ensures level >= 1 ==> 100 <= r <= 1000
    ensures level >= 10 ==> r == 100
  {
    var t := 1000 - (level - 1) * 100;
    if t < 100 then 100 else t
  }

  // ---------------------------------------------------------------------
  // The state invariant

  predicate ValidPiece(p: Piece) {
    ValidShape(p.shape) && 1 <= p.color <= 7
  }

  /** The board is ROWS x COLS with values 0..7 and no complete row; the
      piece is a valid shape with a type in 1..7; unless the game is over,
      the piece overlaps no occupied cell and no wall or floor; the counters
      agree with each other. */
  predicate Inv(s: State) {
    WellFormed(s.board) && NoCompleteRow(s.board) && ValidPiece(s.piece) &&
    (!s.over ==> !Collides(s.board, s.piece, 0, 0)) &&
    s.score >= 0 && s.lines >= 0 &&
    s.level == LevelFor(s.lines) && s.dropInterval == IntervalFor(s.level)
  }

  // ---------------------------------------------------------------------
  // Spawning

  /** A piece of type k, horizontally centred in the top row. */
  function NewPiece(k: int): (p: Piece)
    requires 1 <= k <= 7
    ensures ValidPiece(p) && p.color == k && p.shape == Table[k] && p.y == 0
    ensures p.x == COLS / 2 - |Table[k][0]| / 2
    ensures !Collides(EmptyBoard(), p, 0, 0)
  {
    TableValid(k);
    var p := Piece(Table[k], k, COLS / 2 - |Table[k][0]| / 2, 0);
    SpawnFitsEmpty(p);
    p
  }

  lemma SpawnFitsEmpty(p: Piece)
    requires ValidShape(p.shape) && p.y == 0 && p.x == COLS / 2 - |p.shape[0]| / 2
    ensures !Collides(EmptyBoard(), p, 0, 0)
  {
    var b := EmptyBoard();
    forall i, j | 0 <= i < |p.shape| && 0 <= j < |p.shape[i]|
      ensures p.shape[i][j] != 0 ==> !Hits(b, p.x + j, p.y + i)
    {
      assert |p.shape[i]| == |p.shape[0]|;
    }
  }

  /** A new piece of type k replaces the active one; the game is over when
      it overlaps the board. An earlier game over is never undone here. */
  function Spawn(s: State, k: int): (r: State)
    requires WellFormed(s.board) && 1 <= k <= 7
    ensures r.piece == NewPiece(k)
    ensures r.over <==> s.over || Collides(s.board, NewPiece(k), 0, 0)
    ensures r == s.(piece := r.piece, over := r.over)
  {
    var p := NewPiece(k);
    if Collides(s.board, p, 0, 0) then s.(piece := p, over := true) else s.(piece := p)
  }

  // ---------------------------------------------------------------------
  // Moving

  /** Left or right by dir columns, only when the moved piece fits. */
  function Move(s: State, dir: int): (r: State)
    requires Inv(s)
    ensures Inv(r)
    ensures r == s.(piece := s.piece.(x := r.piece.x))
    ensures r.piece.x == if !s.paused && !s.over && !Collides(s.board, s.piece, dir, 0)
                         then s.piece.x + dir else s.piece.x
  {
    if s.paused || s.over then s
    else if !Collides(s.board, s.piece, dir, 0) then
      CollidesShifted(s.board, s.piece, dir, 0);
      s.(piece := Shifted(s.piece, dir, 0))
    else s
  }

  // ---------------------------------------------------------------------
  // Locking

  /** Clears the complete rows; when there were k > 0 of them, adds k to the
      line count, adds the points for k times the level before this clear,
      and then recomputes the level and the drop interval. */
  function ClearLines(s: State): (r: State)
    requires WellFormed(s.board) && CountComplete(s.board) <= 4
    ensures WellFormed(r.board) && NoCompleteRow(r.board)
    ensures r.board == Cleared(s.board)
    ensures var k := CountComplete(s.board);
      if k == 0 then r == s
      else r == s.(board := r.board, lines := s.lines + k, score := s.score + Points(k) * s.level,
                   level := LevelFor(s.lines + k), dropInterval := IntervalFor(LevelFor(s.lines + k)))
  {
    ClearedWellFormed(s.board);
    var k := CountComplete(s.board);
    if k == 0 then s
    else
      var lines := s.lines + k;
      var level := LevelFor(lines);
      s.(board := Cleared(s.board), lines := lines, score := s.score + Points(k) * s.level,
         level := level, dropInterval := IntervalFor(level))
  }

  /** The lock sequence: write the piece into the board, clear lines, spawn
      the next piece (which may end the game). A piece spans at most four
      rows and the board had no complete row, so at most four rows clear. */
  function Lock(s: State, k: int): (r: State)
    requires Inv(s) && !s.over && 1 <= k <= 7
    ensures Inv(r)
    ensures r.board == Cleared(Stamp(s.board, s.piece))
    ensures r.score >= s.score && r.lines >= s.lines && r.paused == s.paused
    ensures r.piece == NewPiece(k)
    ensures r.over <==> Collides(r.board, r.piece, 0, 0)
    ensures CountComplete(Stamp(s.board, s.piece)) <= 4
    ensures r == Spawn(ClearLines(s.(board := Stamp(s.board, s.piece))), k)
  {
    var b := Stamp(s.board, s.piece);
    StampCompletesAtMostHeight(s.board, s.piece);
    Spawn(ClearLines(s.(board := b)), k)
  }

  /** One step down, or the lock sequence when the piece rests on something. */
  function Drop(s: State, k: int): (r: State)
    requires Inv(s) && 1 <= k <= 7
    ensures Inv(r) && r.score >= s.score
    ensures s.paused || s.over ==> r == s
    ensures !s.paused && !s.over && !Collides(s.board, s.piece, 0, 1) ==>
              r == s.(piece := s.piece.(y := s.piece.y + 1))
    ensures !s.paused && !s.over && Collides(s.board, s.piece, 0, 1) ==> r == Lock(s, k)
  {
    if s.paused || s.over then s
    else if !Collides(s.board, s.piece, 0, 1) then
      CollidesShifted(s.board, s.piece, 0, 1);
      s.(piece := Shifted(s.piece, 0, 1))
    else Lock(s, k)
  }

  /** A piece with a filled cell that can still move down is above the floor. */
  lemma AboveFloor(b: Board, p: Piece)
    requires WellFormed(b) && HasFilledCell(p.shape) && !Collides(b, p, 0, 1)
    ensures p.y < ROWS - 1
  {
    var i, j :| 0 <= i < |p.shape| && 0 <= j < |p.shape[i]| && p.shape[i][j] != 0;
    if p.y >= ROWS - 1 {
      CollidesAt(b, p, 0, 1, i, j);
    }
  }

  /** Where a hard drop leaves the piece: straight down, through positions
      that can all move one further, to the first one that cannot. */
  function Landing(b: Board, p: Piece): (q: Piece)
    requires WellFormed(b) && HasFilledCell(p.shape)
    ensures q == p.(y := q.y) && q.y >= p.y
    ensures Collides(b, q, 0, 1)
    ensures forall y :: p.y <= y < q.y ==> !Collides(b, p.(y := y), 0, 1)
    ensures !Collides(b, p, 0, 0) ==> !Collides(b, q, 0, 0)
    decreases ROWS - p.y
  {
    if Collides(b, p, 0, 1) then p
    else
      AboveFloor(b, p);
      CollidesShifted(b, p, 0, 1);
      Landing(b, Shifted(p, 0, 1))
  }

  /** The state once the piece has fallen to its landing position, with 2
      points for each row fallen; it still satisfies the invariant. */
  function Fallen(s: State): (r: State)
    requires Inv(s) && !s.over
    ensures Inv(r) && !r.over
    ensures r == s.(piece := Landing(s.board, s.piece),
                    score := s.score + 2 * (Landing(s.board, s.piece).y - s.piece.y))
  {
    var q := Landing(s.board, s.piece);
    s.(piece := q, score := s.score + 2 * (q.y - s.piece.y))
  }

  /** Drops the piece as far as it goes, 2 points per row fallen, then locks. */
  function HardDrop(s: State, k: int): (r: State)
    requires Inv(s) && 1 <= k <= 7
    ensures Inv(r)
    ensures s.paused || s.over ==> r == s
    ensures !s.paused && !s.over ==> r == Lock(Fallen(s), k)
  {
    if s.paused || s.over then s
    else Lock(Fallen(s), k)
  }

  // ---------------------------------------------------------------------
  // Rotating

  /** The rotated piece at the first of x, x + 1, x - 1 where it fits, or the
      piece unchanged when it fits at none of them. Never moves vertically. */
  function Kicked(b: Board, p: Piece): (q: Piece)
    requires WellFormed(b) && ValidShape(p.shape)
    ensures q.y == p.y && q.color == p.color
    ensures q == p || (q.shape == Rotated(p.shape) && p.x - 1 <= q.x <= p.x + 1)
    ensures var t := p.(shape := Rotated(p.shape));
      (!Collides(b, t, 0, 0) ==> q == t) &&
      (Collides(b, t, 0, 0) && !Collides(b, t, 1, 0) ==> q == Shifted(t, 1, 0)) &&
      (Collides(b, t, 0, 0) && Collides(b, t, 1, 0) && !Collides(b, t, -1, 0) ==> q == Shifted(t, -1, 0)) &&
      (Collides(b, t, 0, 0) && Collides(b, t, 1, 0) && Collides(b, t, -1, 0) ==> q == p)
    ensures ValidShape(q.shape)
    ensures !Collides(b, p, 0, 0) ==> !Collides(b, q, 0, 0)
  {
    RotatedValid(p.shape);
    var t := p.(shape := Rotated(p.shape));
    CollidesShifted(b, t, 1, 0);
    CollidesShifted(b, t, -1, 0);
    if !Collides(b, t, 0, 0) then t
    else if !Collides(b, t, 1, 0) then Shifted(t, 1, 0)
    else if !Collides(b, t, -1, 0) then Shifted(t, -1, 0)
    else p
  }

  function RotatePiece(s: State): (r: State)
    requires Inv(s)
    ensures Inv(r)
    ensures r == s.(piece := r.piece)
    ensures r.piece == if s.paused || s.over then s.piece else Kicked(s.board, s.piece)
  {
    if s.paused || s.over then s else s.(piece := Kicked(s.board, s.piece))
  }

  // ---------------------------------------------------------------------
  // Restart and keys

  /** Empties the board, zeroes the score and line count, returns to level 1
      with a 1000 ms interval, clears both flags, and spawns a piece of type k,
      which always fits on the empty board. */
  function Restart(s: State, k: int): (r: State)
    requires 1 <= k <= 7
    ensures Inv(r) && !r.over && !r.paused
    ensures r.board == EmptyBoard() && r.piece == NewPiece(k)
    ensures r.score == 0 && r.lines == 0 && r.level == 1 && r.dropInterval == 1000
  {
    EmptyBoardHasNoCompleteRow();
    Spawn(s.(board := EmptyBoard(), score := 0, lines := 0, level := 1, dropInterval := 1000,
             paused := false, over := false), k)
  }

  /** A key press. Nothing happens once the game is over. ArrowDown always
      adds one point after its drop, even when the drop locked the piece,
      did nothing because the game is paused, or ended the game. */
  function HandleKey(s: State, key: Key, k: int): (r: State)
    requires Inv(s) && 1 <= k <= 7
    ensures Inv(r)
    ensures r.score >= s.score
    ensures s.over ==> r == s
    ensures !s.over && key == ArrowDown ==> r.score == Drop(s, k).score + 1
    ensures !s.over && key == ArrowDown ==> r == Drop(s, k).(score := Drop(s, k).score + 1)
    ensures !s.over && key == ArrowLeft ==> r == Move(s, -1)
    ensures !s.over && key == ArrowRight ==> r == Move(s, 1)
    ensures !s.over && key == ArrowUp ==> r == RotatePiece(s)
    ensures !s.over && key == Space ==> r == HardDrop(s, k)
    ensures !s.over && key == PauseKey ==> r == s.(paused := !s.paused)
    ensures !s.over && key == OtherKey ==> r == s
  {
    if s.over then s
    else match key
      case ArrowLeft => Move(s, -1)
      case ArrowRight => Move(s, 1)
      case ArrowDown => var t := Drop(s, k); t.(score := t.score + 1)
      case ArrowUp => RotatePiece(s)
      case Space => HardDrop(s, k)
      case PauseKey => s.(paused := !s.paused)
      case OtherKey => s
  }
}
