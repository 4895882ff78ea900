/**
 The tetromino catalogue and the falling-piece value.

 Every kind has four rotation states, each a fixed list of four (dx, dy)
 offsets inside a 4x4 box. Rotation is a table lookup, not a geometric
 rotation, so the per-kind pivots (and the four identical 'O' states) are
 part of the data. A piece is a kind, a rotation index and a board origin;
 its occupied cells are the selected offsets translated by the origin.
 */
module Shapes {

  /** Board dimensions, in cells. */
  const BoardWidth: int := 12
  const BoardHeight: int := 22

  /** The seven tetromino kinds, in the catalogue's order. */
  datatype Kind = I | O | T | S | Z | J | L

  /** A board coordinate or an offset: (x, y), with y growing downwards. */
  type Pos = (int, int)

  /** An offset inside the 4x4 box every state is drawn in. */
  predicate InBox(d: Pos)
  {
    0 <= d.0 <= 3 && 0 <= d.1 <= 3
  }

  /** The four offsets of one rotation state are distinct and lie in the 4x4 box. */
  predicate GoodState(s: seq<Pos>)
  {
    && |s| == 4
    && InBox(s[0]) && InBox(s[1]) && InBox(s[2]) && InBox(s[3])
    && Distinct4(s)
  }

  /** The four entries of `s` are pairwise different. */
  predicate Distinct4(s: seq<Pos>)
    requires |s| == 4
  {
    && s[0] != s[1] && s[0] != s[2] && s[0] != s[3]
    && s[1] != s[2] && s[1] != s[3]
    && s[2] != s[3]
  }

  /** The offset table, one entry per kind in the order I, O, T, S, Z, J, L. */
  const Catalogue: seq<seq<seq<Pos>>> := [
    // I
    [
      [(0,1),(1,1),(2,1),(3,1)],
      [(2,0),(2,1),(2,2),(2,3)],
      [(0,2),(1,2),(2,2),(3,2)],
      [(1,0),(1,1),(1,2),(1,3)]],
    // O
    [
      [(1,0),(2,0),(1,1),(2,1)],
      [(1,0),(2,0),(1,1),(2,1)],
      [(1,0),(2,0),(1,1),(2,1)],
      [(1,0),(2,0),(1,1),(2,1)]],
    // T
    [
      [(1,0),(0,1),(1,1),(2,1)],
      [(1,0),(1,1),(2,1),(1,2)],
      [(0,1),(1,1),(2,1),(1,2)],
      [(1,0),(0,1),(1,1),(1,2)]],
    // S
    [
      [(1,0),(2,0),(0,1),(1,1)],
      [(1,0),(1,1),(2,1),(2,2)],
      [(1,1),(2,1),(0,2),(1,2)],
      [(0,0),(0,1),(1,1),(1,2)]],
    // Z
    [
      [(0,0),(1,0),(1,1),(2,1)],
      [(2,0),(1,1),(2,1),(1,2)],
      [(0,1),(1,1),(1,2),(2,2)],
      [(1,0),(0,1),(1,1),(0,2)]],
    // J
    [
      [(0,0),(0,1),(1,1),(2,1)],
      [(1,0),(2,0),(1,1),(1,2)],
      [(0,1),(1,1),(2,1),(2,2)],
      [(1,0),(1,1),(0,2),(1,2)]],
    // L
    [
      [(2,0),(0,1),(1,1),(2,1)],
      [(1,0),(1,1),(1,2),(2,2)],
      [(0,1),(1,1),(2,1),(0,2)],
      [(0,0),(1,0),(1,1),(1,2)]]
  ]

  /** The position of a kind in the catalogue. */
  function Index(k: Kind): (n: int)
    ensures 0 <= n < 7
  {
    match k
    case I => 0
    case O => 1
    case T => 2
    case S => 3
    case Z => 4
    case J => 5
    case L => 6
  }

  /** The rotation states of kind `k`, indexed by rotation 0..3. */
  function Rotations(k: Kind): (states: seq<seq<Pos>>)
    ensures |states| == 4
    ensures forall r :: 0 <= r < 4 ==> GoodState(states[r])
  {
    Catalogue[Index(k)]
  }

  /** The 'O' kind looks the same in every rotation state. */
  lemma OStatesIdentical(r: int, r': int)
    requires 0 <= r < 4 && 0 <= r' < 4
    ensures Rotations(O)[r] == Rotations(O)[r']
  {
  }

  /**
   Every other kind changes shape (or position) when rotated by one step:
   some square of state r is not a square of the next state.
   */
  lemma OthersRotateVisibly(k: Kind, r: int)
    requires k != O && 0 <= r < 4
    ensures exists i :: 0 <= i < 4 && Rotations(k)[r][i] !in Rotations(k)[(r + 1) % 4]
  {
    // The first offset of state r that state r + 1 does not contain.
    var i :=
      match k
      case T => [1, 0, 2, 3][r]
      case S => [1, 0, 1, 0][r]
      case Z => [0, 0, 2, 1][r]
      case _ => 0;
    assert Rotations(k)[r][i] !in Rotations(k)[(r + 1) % 4];
  }

  /** A falling piece: its kind, rotation index and the origin its offsets are translated by. */
  datatype Piece = Piece(kind: Kind, rotation: int, x: int, y: int)

  /** A fresh piece: rotation 0 at the spawn origin (BoardWidth / 2 - 2, 0). */
  function Spawn(k: Kind): Piece
  {
    Piece(k, 0, BoardWidth / 2 - 2, 0)
  }

  /** The offsets of one state translated by (ox, oy): four distinct cells in the 4x4 box at (ox, oy). */
  function Translate(s: seq<Pos>, ox: int, oy: int): (cs: seq<Pos>)
    requires GoodState(s)
    ensures |cs| == 4
    ensures Distinct4(cs)
    ensures forall i :: 0 <= i < 4 ==> ox <= cs[i].0 <= ox + 3 && oy <= cs[i].1 <= oy + 3
    ensures forall i :: 0 <= i < 4 ==> cs[i] == (s[i].0 + ox, s[i].1 + oy)
  {
    [(s[0].0 + ox, s[0].1 + oy), (s[1].0 + ox, s[1].1 + oy),
     (s[2].0 + ox, s[2].1 + oy), (s[3].0 + ox, s[3].1 + oy)]
  }

  /**
   The cells `p` would occupy in rotation `rot` (taken modulo 4) after a
   shift by (dx, dy). The piece itself is a value and is not changed.
   */
  function Cells(p: Piece, rot: int, dx: int, dy: int): (cs: seq<Pos>)
    ensures |cs| == 4
    ensures Distinct4(cs)
    ensures forall i :: 0 <= i < 4 ==>
      && p.x + dx <= cs[i].0 <= p.x + dx + 3
      && p.y + dy <= cs[i].1 <= p.y + dy + 3
  {
    CellsAt(p.kind, rot, p.x + dx, p.y + dy)
  }

  /** The cells of kind `k` in rotation `rot` (taken modulo 4) with origin (ox, oy). */
  function CellsAt(k: Kind, rot: int, ox: int, oy: int): (cs: seq<Pos>)
    ensures |cs| == 4
    ensures Distinct4(cs)
    ensures forall i :: 0 <= i < 4 ==> ox <= cs[i].0 <= ox + 3 && oy <= cs[i].1 <= oy + 3
  {
    Translate(Rotations(k)[rot % 4], ox, oy)
  }

  /** The cells the piece occupies where it is. */
  function PieceCells(p: Piece): seq<Pos>
  {
    Cells(p, p.rotation, 0, 0)
  }

  /** Shifting the candidate cells is the same as moving the origin first. */
  lemma CellsTranslate(p: Piece, rot: int, dx: int, dy: int)
    ensures Cells(p, rot, dx, dy) == Cells(p.(x := p.x + dx, y := p.y + dy), rot, 0, 0)
  {
    var q := p.(x := p.x + dx, y := p.y + dy);
    assert q.kind == p.kind && q.x + 0 == p.x + dx && q.y + 0 == p.y + dy;
    assert Cells(q, rot, 0, 0) == CellsAt(q.kind, rot, q.x + 0, q.y + 0);
  }

  /** The cells are exactly the offsets of rotation state `rot mod 4`, each shifted by the origin plus (dx, dy). */
  lemma CellsOffsets(p: Piece, rot: int, dx: int, dy: int)
    ensures forall i :: 0 <= i < 4 ==>
      Cells(p, rot, dx, dy)[i] ==
        (Rotations(p.kind)[rot % 4][i].0 + p.x + dx, Rotations(p.kind)[rot % 4][i].1 + p.y + dy)
  {
    var s := Rotations(p.kind)[rot % 4];
    assert Cells(p, rot, dx, dy) == Translate(s, p.x + dx, p.y + dy);
  }

  /** An 'O' piece occupies the same cells in every rotation. */
  lemma OCellsIgnoreRotation(p: Piece, rot: int, rot': int, dx: int, dy: int)
    requires p.kind == O
    ensures Cells(p, rot, dx, dy) == Cells(p, rot', dx, dy)
  {
    OStatesIdentical(rot % 4, rot' % 4);
    assert Cells(p, rot, dx, dy) == Translate(Rotations(O)[rot % 4], p.x + dx, p.y + dy);
    assert Cells(p, rot', dx, dy) == Translate(Rotations(O)[rot' % 4], p.x + dx, p.y + dy);
  }

  /** A fresh piece occupies columns 4..7 and rows 0..3 only. */
  lemma SpawnCells(k: Kind)
    ensures Spawn(k).x == 4 && Spawn(k).y == 0 && Spawn(k).rotation == 0
    ensures forall i :: 0 <= i < 4 ==>
      4 <= PieceCells(Spawn(k))[i].0 <= 7 && 0 <= PieceCells(Spawn(k))[i].1 <= 3
    ensures PieceCells(Spawn(k)) == Cells(Piece(k, 0, 0, 0), 0, 4, 0)
  {
  }
}
