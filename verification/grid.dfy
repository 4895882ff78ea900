/**
 The playing field: a BoardHeight x BoardWidth grid of squares, each empty
 or tagged with the kind that locked there. This module holds the collision
 predicate, the write of a locked piece into the grid, and the removal of
 full rows.
 */
module Grid {
  import opened Shapes

  /** A grid square: empty, or filled by the kind of the piece that locked there. */
  datatype Cell = Empty | Filled(kind: Kind)

  type Row = seq<Cell>

  /** Rows from top (index 0) to bottom; within a row, columns from left to right. */
  type Board = seq<Row>

  /** The grid keeps its dimensions for its whole life. */
  predicate WellFormed(b: Board)
  {
    |b| == BoardHeight && forall y :: 0 <= y < |b| ==> |b[y]| == BoardWidth
  }

  function EmptyRow(): Row
  {
    seq(BoardWidth, _ => Empty)
  }

  function EmptyBoard(): Board
  {
    seq(BoardHeight, _ => EmptyRow())
  }

  /** Between the walls and above the floor; a position above row 0 is still inside. */
  predicate Inside(c: Pos)
  {
    0 <= c.0 < BoardWidth && c.1 < BoardHeight
  }

  /**
   One position collides: it is left of the left wall, right of the right
   wall or below the floor, or it is a grid square (y >= 0) already filled.
   The grid is consulted only for y >= 0.
   */
  predicate CellBlocked(b: Board, c: Pos)
    requires WellFormed(b)
  {
    if c.0 < 0 || c.0 >= BoardWidth || c.1 >= BoardHeight then true
    else c.1 >= 0 && b[c.1][c.0].Filled?
  }

  /** A position above the board collides only with the walls, whatever the grid holds. */
  lemma AboveBoardIsFree(b: Board, c: Pos)
    requires WellFormed(b) && c.1 < 0
    ensures CellBlocked(b, c) <==> c.0 < 0 || c.0 >= BoardWidth
  {
  }

  /**
   The collision check over a list of positions, scanning in order and
   stopping at the first one that collides.
   */
  function Blocked(b: Board, cells: seq<Pos>): (r: bool)
    requires WellFormed(b)
    ensures r <==> exists i :: 0 <= i < |cells| && CellBlocked(b, cells[i])
    ensures !r ==> forall i :: 0 <= i < |cells| ==> Inside(cells[i])
  {
    if |cells| == 0 then false
    else if CellBlocked(b, cells[0]) then true
    else
      var rest := Blocked(b, cells[1..]);
      assert forall i :: 1 <= i < |cells| ==> cells[i] == cells[1..][i - 1];
      rest
  }

  /**
   Writes kind `k` into every position of `cells` that lies on a grid row
   (0 <= y < BoardHeight), in order; positions above the board are dropped.
   Only the row is range-checked, so every such position must already be
   between the walls.
   */
  function Stamp(b: Board, cells: seq<Pos>, k: Kind): (r: Board)
    requires WellFormed(b)
    requires forall i :: 0 <= i < |cells| && 0 <= cells[i].1 < BoardHeight ==>
      0 <= cells[i].0 < BoardWidth
    ensures WellFormed(r)
    ensures forall y, x :: 0 <= y < BoardHeight && 0 <= x < BoardWidth ==>
      r[y][x] == if (x, y) in cells then Filled(k) else b[y][x]
    decreases |cells|
  {
    if |cells| == 0 then b
    else
      var x, y := cells[0].0, cells[0].1;
      var b' := if 0 <= y < BoardHeight then b[y := b[y][x := Filled(k)]] else b;
      assert forall i :: 1 <= i < |cells| ==> cells[i] == cells[1..][i - 1];
      assert forall c :: c in cells <==> c == cells[0] || c in cells[1..];
      Stamp(b', cells[1..], k)
  }

  /** Every square of the row is filled. */
  predicate Full(row: Row)
  {
    forall x :: 0 <= x < |row| ==> row[x].Filled?
  }

  /** The rows of `rows` that are not full, in their original order. */
  function NonFullRows(rows: seq<Row>): seq<Row>
  {
    if |rows| == 0 then []
    else
      var n := |rows| - 1;
      if Full(rows[n]) then NonFullRows(rows[..n]) else NonFullRows(rows[..n]) + [rows[n]]
  }

  /** The indices of the full rows. */
  function FullRows(rows: seq<Row>): set<int>
  {
    set i | 0 <= i < |rows| && Full(rows[i])
  }

  /**
   The indices of the rows that are not full, in increasing order: each
   appears once, and every non-full row's index appears.
   */
  function KeptIndices(rows: seq<Row>): (idx: seq<int>)
    ensures forall j :: 0 <= j < |idx| ==> 0 <= idx[j] < |rows| && !Full(rows[idx[j]])
    ensures forall j, j' :: 0 <= j < j' < |idx| ==> idx[j] < idx[j']
    ensures forall i :: 0 <= i < |rows| && !Full(rows[i]) ==> i in idx
  {
    if |rows| == 0 then []
    else
      var n := |rows| - 1;
      var front := KeptIndices(rows[..n]);
      assert forall i :: 0 <= i < n ==> rows[..n][i] == rows[i];
      if Full(rows[n]) then front else front + [n]
  }

  /** The filter keeps exactly the rows at the kept indices, in the same order. */
  lemma {:induction false} NonFullRowsAtKeptIndices(rows: seq<Row>)
    ensures |NonFullRows(rows)| == |KeptIndices(rows)|
    ensures forall j :: 0 <= j < |KeptIndices(rows)| ==>
      NonFullRows(rows)[j] == rows[KeptIndices(rows)[j]]
  {
    if |rows| > 0 {
      var n := |rows| - 1;
      var init := rows[..n];
      NonFullRowsAtKeptIndices(init);
      var front, fidx := NonFullRows(init), KeptIndices(init);
      var kept, idx := NonFullRows(rows), KeptIndices(rows);
      if Full(rows[n]) {
        assert kept == front && idx == fidx;
      } else {
        assert kept == front + [rows[n]] && idx == fidx + [n];
      }
      forall j | 0 <= j < |idx|
        ensures kept[j] == rows[idx[j]]
      {
        if j < |fidx| {
          assert kept[j] == front[j] && idx[j] == fidx[j];
          assert init[fidx[j]] == rows[fidx[j]];
        }
      }
    }
  }

  /** Every row is either kept or counted as full. */
  lemma {:induction false} KeptPlusFull(rows: seq<Row>)
    ensures |KeptIndices(rows)| + |FullRows(rows)| == |rows|
  {
    if |rows| > 0 {
      var n := |rows| - 1;
      var init := rows[..n];
      KeptPlusFull(init);
      var full := FullRows(init);
      assert n !in full;
      FullRowsExtend(rows);
      if Full(rows[n]) {
        assert KeptIndices(rows) == KeptIndices(init);
        assert FullRows(rows) == full + {n};
      } else {
        assert KeptIndices(rows) == KeptIndices(init) + [n];
        assert FullRows(rows) == full;
      }
    }
  }

  /** The full rows of a grid are those of all but its last row, plus the last row if full. */
  lemma FullRowsExtend(rows: seq<Row>)
    requires |rows| > 0
    ensures var n := |rows| - 1;
      FullRows(rows) == FullRows(rows[..n]) + (if Full(rows[n]) then {n} else {})
  {
    var n := |rows| - 1;
    var init := rows[..n];
    forall i | 0 <= i < n
      ensures init[i] == rows[i]
    {
    }
  }

  /**
   Line clearing on the grid: the full rows are removed, the others keep
   their order and move down, and as many empty rows as were removed are
   put on top. Returns the new grid and the number of rows removed.
   */
  function Collapse(b: Board): (r: (Board, nat))
    requires WellFormed(b)
    ensures WellFormed(r.0)
    ensures r.1 == |FullRows(b)| <= BoardHeight
    ensures forall y :: 0 <= y < r.1 ==> r.0[y] == EmptyRow()
    ensures var idx := KeptIndices(b);
      && r.1 + |idx| == BoardHeight
      && forall j :: 0 <= j < |idx| ==> r.0[r.1 + j] == b[idx[j]]
  {
    var kept := NonFullRows(b);
    NonFullRowsAtKeptIndices(b);
    KeptPlusFull(b);
    var lines := BoardHeight - |kept|;
    (seq(lines, _ => EmptyRow()) + kept, lines)
  }

  /** With no full row, every index is kept. */
  lemma KeptIndicesAllRows(b: Board)
    requires WellFormed(b)
    requires FullRows(b) == {}
    ensures |KeptIndices(b)| == BoardHeight
    ensures forall j :: 0 <= j < BoardHeight ==> KeptIndices(b)[j] == j
  {
    KeptPlusFull(b);
    var idx := KeptIndices(b);
    forall j | 0 <= j < |idx|
      ensures idx[j] == j
    {
      IncreasingIndicesFill(idx, j);
    }
  }

  /** With no full row, clearing lines leaves the grid as it was. */
  lemma CollapseNoFullRow(b: Board)
    requires WellFormed(b)
    requires FullRows(b) == {}
    ensures Collapse(b) == (b, 0)
  {
    KeptIndicesAllRows(b);
    var r := Collapse(b);
    var idx := KeptIndices(b);
    assert r.1 == 0;
    forall y | 0 <= y < BoardHeight
      ensures r.0[y] == b[y]
    {
      assert r.0[0 + y] == b[idx[y]];
    }
    assert r.0 == b;
  }

  /** A strictly increasing list of indices below its own length is 0, 1, 2, ... */
  lemma {:induction false} IncreasingIndicesFill(idx: seq<int>, j: int)
    requires forall i :: 0 <= i < |idx| ==> 0 <= idx[i] < |idx|
    requires forall i, i' :: 0 <= i < i' < |idx| ==> idx[i] < idx[i']
    requires 0 <= j < |idx|
    ensures idx[j] == j
  {
    IncreasingLowerBound(idx, j);
    IncreasingUpperBound(idx, j);
  }

  /** Each entry of a strictly increasing list of naturals is at least its position. */
  lemma {:induction false} IncreasingLowerBound(idx: seq<int>, j: int)
    requires forall i :: 0 <= i < |idx| ==> 0 <= idx[i]
    requires forall i, i' :: 0 <= i < i' < |idx| ==> idx[i] < idx[i']
    requires 0 <= j < |idx|
    ensures idx[j] >= j
  {
    if j > 0 {
      IncreasingLowerBound(idx, j - 1);
    }
  }

  /** Each entry of a strictly increasing list bounded by its length is at most its position. */
  lemma {:induction false} IncreasingUpperBound(idx: seq<int>, j: int)
    requires forall i :: 0 <= i < |idx| ==> idx[i] < |idx|
    requires forall i, i' :: 0 <= i < i' < |idx| ==> idx[i] < idx[i']
    requires 0 <= j < |idx|
    ensures idx[j] <= j
    decreases |idx| - j
  {
    if j < |idx| - 1 {
      IncreasingUpperBound(idx, j + 1);
    }
  }
}
