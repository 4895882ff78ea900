/**
 The game state machine: the grid, the falling piece, the queued next
 piece, the score, the game-over latch and the time of the last gravity
 drop. Every operation is a pure function from a state to a new state.

 The clock and the random choice of kinds are inputs: `now` is an integer
 timestamp in milliseconds, and each operation that creates a piece is
 given the kind it should have.
 */
module Tetris {
  import opened Shapes
  import opened Grid

  /** The gravity interval: 625 ms (0.625 s). */
  const TickRate: int := 625

  datatype Game = Game(
    board: Board,
    current: Piece,
    next: Piece,
    score: nat,
    gameOver: bool,
    lastDrop: int)

  /** The cells of the falling piece are all between the walls and above the floor. */
  predicate PieceInside(p: Piece)
  {
    forall i :: 0 <= i < 4 ==> Inside(PieceCells(p)[i])
  }

  /** The falling piece collides with the walls, the floor or the locked squares. */
  predicate PieceBlocked(g: Game)
    requires WellFormed(g.board)
  {
    Blocked(g.board, PieceCells(g.current))
  }

  /**
   The state invariant. The grid keeps its size, the rotation index is in
   0..3, the falling piece never pokes through a wall or the floor, the
   queued piece waits in its spawn state, and while the game is not over
   the falling piece collides with nothing.
   */
  predicate Valid(g: Game)
  {
    && WellFormed(g.board)
    && 0 <= g.current.rotation < 4
    && PieceInside(g.current)
    && g.next == Spawn(g.next.kind)
    && (!g.gameOver ==> !PieceBlocked(g))
  }

  /** A freshly spawned piece is inside the walls and above the floor. */
  lemma SpawnInside(k: Kind)
    ensures PieceInside(Spawn(k))
  {
    SpawnCells(k);
  }

  /** A fresh piece fits whenever the 4x4 spawn area (columns 4..7, rows 0..3) is empty. */
  lemma SpawnFits(b: Board, k: Kind)
    requires WellFormed(b)
    requires forall y, x :: 0 <= y < 4 && 4 <= x < 8 ==> b[y][x] == Empty
    ensures !Blocked(b, PieceCells(Spawn(k)))
  {
    SpawnCells(k);
  }

  /** A fresh piece is blocked as soon as one of its squares is already filled. */
  lemma SpawnBlockedByFilledSquare(b: Board, k: Kind, i: int)
    requires WellFormed(b) && 0 <= i < 4
    requires var c := PieceCells(Spawn(k))[i]; b[c.1][c.0].Filled?
    ensures Blocked(b, PieceCells(Spawn(k)))
  {
    SpawnCells(k);
    assert CellBlocked(b, PieceCells(Spawn(k))[i]);
  }

  /**
   A new game: an empty grid, the first piece falling from its spawn
   position, the second one queued, score 0, not over, and the gravity
   clock started at `now`.
   */
  function Init(first: Kind, second: Kind, now: int): (g: Game)
    ensures Valid(g)
    ensures forall y, x :: 0 <= y < BoardHeight && 0 <= x < BoardWidth ==> g.board[y][x] == Empty
    ensures g.current == Spawn(first) && g.next == Spawn(second)
    ensures g.score == 0 && !g.gameOver && g.lastDrop == now
  {
    SpawnFits(EmptyBoard(), first);
    SpawnInside(first);
    Game(EmptyBoard(), Spawn(first), Spawn(second), 0, false, now)
  }

  /**
   Moves the falling piece by (dx, dy) if it fits there, reporting whether
   it moved. It is all or nothing: either the origin shifts by exactly
   (dx, dy), or nothing at all changes.
   */
  function Move(g: Game, dx: int, dy: int): (r: (Game, bool))
    requires WellFormed(g.board)
    ensures r.1 <==> !Blocked(g.board, Cells(g.current, g.current.rotation, dx, dy))
    ensures r.1 ==> r.0 == g.(current := g.current.(x := g.current.x + dx, y := g.current.y + dy))
    ensures !r.1 ==> r.0 == g
    ensures r.1 ==> !PieceBlocked(r.0) && PieceInside(r.0.current)
    ensures Valid(g) ==> Valid(r.0)
  {
    if !Blocked(g.board, Cells(g.current, g.current.rotation, dx, dy)) then
      CellsTranslate(g.current, g.current.rotation, dx, dy);
      (g.(current := g.current.(x := g.current.x + dx, y := g.current.y + dy)), true)
    else
      (g, false)
  }

  /**
   Turns the falling piece by `d` quarter turns to the rotation state
   (rotation + d) mod 4, which is always in 0..3, if the piece fits in
   that state where it is; otherwise nothing changes. There is no kick:
   the origin never moves.
   */
  function Rotate(g: Game, d: int): (r: Game)
    requires WellFormed(g.board)
    ensures var rot := (g.current.rotation + d) % 4;
      && 0 <= rot < 4
      && (!Blocked(g.board, Cells(g.current, rot, 0, 0)) ==>
            r == g.(current := g.current.(rotation := rot)) && !PieceBlocked(r))
      && (Blocked(g.board, Cells(g.current, rot, 0, 0)) ==> r == g)
    ensures r.current.x == g.current.x && r.current.y == g.current.y
    ensures r.board == g.board
    ensures Valid(g) ==> Valid(r)
  {
    var rot := (g.current.rotation + d) % 4;
    if !Blocked(g.board, Cells(g.current, rot, 0, 0)) then
      g.(current := g.current.(rotation := rot))
    else
      g
  }

  /**
   Removes the full rows, keeps the others in their order below as many
   new empty rows as were removed, and adds 100 points per removed row.
   Nothing but the grid and the score changes.
   */
  function ClearLines(g: Game): (r: Game)
    requires WellFormed(g.board)
    ensures WellFormed(r.board)
    ensures r.score == g.score + 100 * |FullRows(g.board)|
    ensures var idx := KeptIndices(g.board);
      && |FullRows(g.board)| + |idx| == BoardHeight
      && forall j :: 0 <= j < |idx| ==> r.board[|FullRows(g.board)| + j] == g.board[idx[j]]
    ensures forall y :: 0 <= y < |FullRows(g.board)| ==> r.board[y] == EmptyRow()
    ensures r == g.(board := r.board, score := r.score)
  {
    var (cleared, lines) := Collapse(g.board);
    g.(board := cleared, score := g.score + lines * 100)
  }

  /** The grid with the falling piece written into it, before any line is cleared. */
  function Placed(g: Game): (b: Board)
    requires Valid(g)
    ensures WellFormed(b)
  {
    var cells := PieceCells(g.current);
    assert forall i :: 0 <= i < |cells| ==> Inside(cells[i]);
    Stamp(g.board, cells, g.current.kind)
  }

  /**
   Locks the falling piece: writes its kind into its squares that lie on
   the grid (squares still above the board are lost), clears lines,
   promotes the queued piece, queues a fresh piece of kind `k`, and ends
   the game if the promoted piece is blocked where it spawns.
   */
  function Lock(g: Game, k: Kind): (r: Game)
    requires Valid(g)
    ensures WellFormed(r.board)
    ensures Valid(r)
    ensures r.board == Collapse(Placed(g)).0
    ensures r.score == g.score + 100 * |FullRows(Placed(g))|
    ensures r.current == g.next && r.next == Spawn(k)
    ensures r.gameOver <==> g.gameOver || PieceBlocked(r)
    ensures r.lastDrop == g.lastDrop
  {
    var cleared := ClearLines(g.(board := Placed(g)));
    var promoted := cleared.(current := g.next, next := Spawn(k));
    SpawnInside(g.next.kind);
    SpawnInside(k);
    if PieceBlocked(promoted) then promoted.(gameOver := true) else promoted
  }

  /**
   When locking completes no row, the grid afterwards is the grid before
   with exactly the piece's on-grid squares set to its kind, and the score
   is unchanged.
   */
  lemma LockWithoutLines(g: Game, k: Kind)
    requires Valid(g)
    requires forall y :: 0 <= y < BoardHeight ==> !Full(Placed(g)[y])
    ensures forall y, x :: 0 <= y < BoardHeight && 0 <= x < BoardWidth ==>
      Lock(g, k).board[y][x] ==
        if (x, y) in PieceCells(g.current) then Filled(g.current.kind) else g.board[y][x]
    ensures Lock(g, k).score == g.score
  {
    var placed := Placed(g);
    assert FullRows(placed) == {};
    CollapseNoFullRow(placed);
  }

  /**
   One downward step of the falling piece, as done by gravity and by the
   soft-drop key: move down one row, or lock if that is blocked.
   */
  function DropOrLock(g: Game, k: Kind): (r: Game)
    requires Valid(g)
    ensures Valid(r)
    ensures !Blocked(g.board, Cells(g.current, g.current.rotation, 0, 1)) ==>
      r == g.(current := g.current.(y := g.current.y + 1))
    ensures Blocked(g.board, Cells(g.current, g.current.rotation, 0, 1)) ==>
      r == Lock(g, k) && r.current == g.next && r.next == Spawn(k)
    ensures g.gameOver ==> r.gameOver
    ensures r.lastDrop == g.lastDrop
  {
    var (moved, ok) := Move(g, 0, 1);
    if ok then moved else Lock(moved, k)
  }

  /**
   The gravity tick. If more than TickRate has passed since the last drop,
   the piece drops one row or locks, once, and the drop time becomes
   `now`; otherwise nothing changes.
   */
  function Step(g: Game, now: int, k: Kind): (r: Game)
    requires Valid(g)
    ensures Valid(r)
    ensures now - g.lastDrop <= TickRate ==> r == g
    ensures now - g.lastDrop > TickRate ==>
      r.lastDrop == now && r.(lastDrop := g.lastDrop) == DropOrLock(g, k)
    ensures
      || r.current == g.current
      || r.current == g.current.(y := g.current.y + 1)
      || r.current == g.next
    ensures g.gameOver ==> r.gameOver
  {
    if now - g.lastDrop > TickRate then
      DropOrLock(g, k).(lastDrop := now)
    else
      g
  }

  /**
   No catch-up after a stall: a late tick does the same single drop or
   lock however late it is; only the recorded drop time differs.
   */
  lemma StepNoCatchUp(g: Game, now1: int, now2: int, k: Kind)
    requires Valid(g)
    requires now1 - g.lastDrop > TickRate && now2 - g.lastDrop > TickRate
    ensures Step(g, now1, k).(lastDrop := now2) == Step(g, now2, k)
  {
  }

  /** A piece touching the left wall cannot move left, and the move changes nothing. */
  lemma LeftWallStops(g: Game, i: int)
    requires Valid(g) && 0 <= i < 4
    requires PieceCells(g.current)[i].0 == 0
    ensures Move(g, -1, 0) == (g, false)
  {
    assert Cells(g.current, g.current.rotation, -1, 0)[i].0 == -1;
    assert CellBlocked(g.board, Cells(g.current, g.current.rotation, -1, 0)[i]);
  }

  /**
   The 'O' piece can always turn while the game runs, because all its
   rotation states coincide; its squares stay where they were.
   */
  lemma RotateO(g: Game, d: int)
    requires Valid(g) && !g.gameOver && g.current.kind == O
    ensures Rotate(g, d).current.rotation == (g.current.rotation + d) % 4
    ensures PieceCells(Rotate(g, d).current) == PieceCells(g.current)
  {
    var rot := (g.current.rotation + d) % 4;
    OCellsIgnoreRotation(g.current, rot, g.current.rotation, 0, 0);
    assert !PieceBlocked(g);
    assert !Blocked(g.board, Cells(g.current, rot, 0, 0));
    var turned := g.current.(rotation := rot);
    assert Rotate(g, d) == g.(current := turned);
    OCellsIgnoreRotation(turned, rot, g.current.rotation, 0, 0);
  }

  /** One driver request: a move, a turn, a soft-drop step, or a clock reading. */
  datatype Action =
    | MoveBy(dx: int, dy: int)
    | RotateBy(d: int)
    | SoftDrop(k: Kind)
    | Tick(now: int, k: Kind)

  /** Carries out one request. */
  function Apply(g: Game, a: Action): (r: Game)
    requires Valid(g)
    ensures Valid(r)
    ensures g.gameOver ==> r.gameOver
    ensures r.score >= g.score
  {
    match a
    case MoveBy(dx, dy) => Move(g, dx, dy).0
    case RotateBy(d) => Rotate(g, d)
    case SoftDrop(k) => DropOrLock(g, k)
    case Tick(now, k) => Step(g, now, k)
  }

  /**
   Any sequence of requests keeps the invariant (so, while the game is not
   over, the falling piece never collides), never lowers the score, and
   never takes back game over.
   */
  function Run(g: Game, actions: seq<Action>): (r: Game)
    requires Valid(g)
    ensures Valid(r)
    ensures g.gameOver ==> r.gameOver
    ensures r.score >= g.score
    decreases |actions|
  {
    if |actions| == 0 then g else Run(Apply(g, actions[0]), actions[1..])
  }
}
