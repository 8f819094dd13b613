/** The 10x10 board of the monster-capture game as a value: cells, their owners,
    and how many cells each player owns. */
module Board {

  /** Side length of the square board. */
  const Size := 10

  /** What a cell can hold; `None` is what an empty cell stores. */
  datatype Monster = None | Vampire | Werewolf | Ghost

  /** A real creature, the kind a player places or moves. */
  type Kind = m: Monster | m != None witness Vampire

  /** A cell: `player` is 0 for an empty cell, otherwise the owner 1 or 2. */
  datatype Cell = Cell(player: int, monster: Monster)

  const EmptyCell := Cell(0, None)

  /** The board as rows of cells. */
  type Grid = seq<seq<Cell>>

  predicate OnBoard(row: int, column: int) {
    0 <= row < Size && 0 <= column < Size
  }

  predicate WellFormed(b: Grid) {
    |b| == Size && forall i | 0 <= i < Size :: |b[i]| == Size
  }

  /** Owner and creature are set and cleared together. */
  predicate Consistent(c: Cell) {
    (c.player == 0 || c.player == 1 || c.player == 2) && (c.player == 0 <==> c.monster == None)
  }

  predicate AllConsistent(b: Grid)
    requires WellFormed(b)
  {
    forall i, j | 0 <= i < Size && 0 <= j < Size :: Consistent(b[i][j])
  }

  /** 1 if `c` belongs to `p`, else 0. */
  function Owns(c: Cell, p: int): nat {
    if c.player == p then 1 else 0
  }

  /** Number of cells of `row` that belong to `p`. */
  function RowCount(row: seq<Cell>, p: int): (n: nat)
    ensures n <= |row|
  {
    if row == [] then 0 else RowCount(row[..|row| - 1], p) + Owns(row[|row| - 1], p)
  }

  /** Number of cells of `b` that belong to `p`. */
  function BoardCount(b: Grid, p: int): nat {
    if b == [] then 0 else BoardCount(b[..|b| - 1], p) + RowCount(b[|b| - 1], p)
  }

  /** The cells of `row` that belong to `p`, left to right. */
  function RowOwned(row: seq<Cell>, p: int): seq<Cell> {
    if row == [] then []
    else RowOwned(row[..|row| - 1], p) + (if row[|row| - 1].player == p then [row[|row| - 1]] else [])
  }

  /** The cells of `b` that belong to `p`, row after row. */
  function BoardOwned(b: Grid, p: int): seq<Cell> {
    if b == [] then [] else BoardOwned(b[..|b| - 1], p) + RowOwned(b[|b| - 1], p)
  }

  /** The board with the one cell at (r, c) replaced by `x`. */
  function SetCell(b: Grid, r: int, c: int, x: Cell): (b': Grid)
    requires 0 <= r < |b| && 0 <= c < |b[r]|
  {
    b[r := b[r][c := x]]
  }

  /** The board right after reset: every cell empty. */
  function EmptyGrid(): (b: Grid)
    ensures WellFormed(b)
    ensures forall i, j | 0 <= i < Size && 0 <= j < Size :: b[i][j] == EmptyCell
  {
    seq(Size, _ => seq(Size, _ => EmptyCell))
  }

  lemma {:induction false} RowCountPrefix(row: seq<Cell>, j: int, p: int)
    requires 0 <= j < |row|
    ensures RowCount(row[..j + 1], p) == RowCount(row[..j], p) + Owns(row[j], p)
  {
    assert row[..j + 1][..j] == row[..j];
  }

  lemma {:induction false} BoardCountPrefix(b: Grid, i: int, p: int)
    requires 0 <= i < |b|
    ensures BoardCount(b[..i + 1], p) == BoardCount(b[..i], p) + RowCount(b[i], p)
  {
    assert b[..i + 1][..i] == b[..i];
  }

  lemma {:induction false} RowOwnedPrefix(row: seq<Cell>, j: int, p: int)
    requires 0 <= j < |row|
    ensures RowOwned(row[..j + 1], p) == RowOwned(row[..j], p) + (if row[j].player == p then [row[j]] else [])
  {
    assert row[..j + 1][..j] == row[..j];
  }

  lemma {:induction false} BoardOwnedPrefix(b: Grid, i: int, p: int)
    requires 0 <= i < |b|
    ensures BoardOwned(b[..i + 1], p) == BoardOwned(b[..i], p) + RowOwned(b[i], p)
  {
    assert b[..i + 1][..i] == b[..i];
  }

  lemma {:induction false} RowOwnedCount(row: seq<Cell>, p: int)
    ensures |RowOwned(row, p)| == RowCount(row, p)
    ensures forall k | 0 <= k < |RowOwned(row, p)| :: RowOwned(row, p)[k].player == p
  {
    if row != [] {
      RowOwnedCount(row[..|row| - 1], p);
    }
  }

  /** The cells a player owns number exactly BoardCount and all belong to them. */
  lemma {:induction false} BoardOwnedCount(b: Grid, p: int)
    ensures |BoardOwned(b, p)| == BoardCount(b, p)
    ensures forall k | 0 <= k < |BoardOwned(b, p)| :: BoardOwned(b, p)[k].player == p
  {
    if b != [] {
      BoardOwnedCount(b[..|b| - 1], p);
      RowOwnedCount(b[|b| - 1], p);
    }
  }

  /** Replacing one cell changes the owner counts only by what left and what arrived. */
  lemma {:induction false} RowCountSet(row: seq<Cell>, c: int, x: Cell, p: int)
    requires 0 <= c < |row|
    ensures RowCount(row[c := x], p) == RowCount(row, p) - Owns(row[c], p) + Owns(x, p)
  {
    var n := |row|;
    var row' := row[c := x];
    if c == n - 1 {
      assert row'[..n - 1] == row[..n - 1];
    } else {
      assert row'[..n - 1] == row[..n - 1][c := x];
      RowCountSet(row[..n - 1], c, x, p);
    }
  }

  lemma {:induction false} BoardCountSet(b: Grid, r: int, c: int, x: Cell, p: int)
    requires 0 <= r < |b| && 0 <= c < |b[r]|
    ensures BoardCount(SetCell(b, r, c, x), p) == BoardCount(b, p) - Owns(b[r][c], p) + Owns(x, p)
  {
    var n := |b|;
    var b' := SetCell(b, r, c, x);
    if r == n - 1 {
      assert b'[..n - 1] == b[..n - 1];
      RowCountSet(b[r], c, x, p);
    } else {
      assert b'[..n - 1] == SetCell(b[..n - 1], r, c, x);
      BoardCountSet(b[..n - 1], r, c, x, p);
    }
  }

  /** A row whose cells all belong to `p` counts all of them. */
  lemma {:induction false} FullRowCount(row: seq<Cell>, p: int)
    requires forall j | 0 <= j < |row| :: row[j].player == p
    ensures RowCount(row, p) == |row|
  {
    if row != [] {
      FullRowCount(row[..|row| - 1], p);
    }
  }

  /** No row holds more of `p`'s cells than the whole board. */
  lemma {:induction false} RowWithinBoard(b: Grid, r: int, p: int)
    requires 0 <= r < |b|
    ensures RowCount(b[r], p) <= BoardCount(b, p)
  {
    if r < |b| - 1 {
      RowWithinBoard(b[..|b| - 1], r, p);
    }
  }

  /** Cells outside row `r` that `p` does not own leave `p`'s count to row `r`. */
  lemma {:induction false} OnlyRowCounts(b: Grid, r: int, p: int)
    requires 0 <= r < |b|
    requires forall i, j | 0 <= i < |b| && i != r && 0 <= j < |b[i]| :: b[i][j].player != p
    ensures BoardCount(b, p) == RowCount(b[r], p)
  {
    var n := |b|;
    if n - 1 != r {
      NoneOwned(b[n - 1], p);
      OnlyRowCounts(b[..n - 1], r, p);
    } else {
      NoCountAbove(b[..n - 1], p);
    }
  }

  lemma {:induction false} NoneOwned(row: seq<Cell>, p: int)
    requires forall j | 0 <= j < |row| :: row[j].player != p
    ensures RowCount(row, p) == 0
  {
    if row != [] {
      NoneOwned(row[..|row| - 1], p);
    }
  }

  lemma {:induction false} NoCountAbove(b: Grid, p: int)
    requires forall i, j | 0 <= i < |b| && 0 <= j < |b[i]| :: b[i][j].player != p
    ensures BoardCount(b, p) == 0
  {
    if b != [] {
      NoneOwned(b[|b| - 1], p);
      NoCountAbove(b[..|b| - 1], p);
    }
  }

  /** A player owning at least one cell has a positive count, and back. */
  lemma {:induction false} CountPositiveIffOwned(b: Grid, p: int)
    ensures BoardCount(b, p) > 0 <==> exists i, j | 0 <= i < |b| && 0 <= j < |b[i]| :: b[i][j].player == p
  {
    if exists i, j | 0 <= i < |b| && 0 <= j < |b[i]| :: b[i][j].player == p {
      var i, j :| 0 <= i < |b| && 0 <= j < |b[i]| && b[i][j].player == p;
      RowWithinBoard(b, i, p);
      RowPositive(b[i], j, p);
    } else {
      NoCountAbove(b, p);
    }
  }

  lemma {:induction false} RowPositive(row: seq<Cell>, j: int, p: int)
    requires 0 <= j < |row| && row[j].player == p
    ensures RowCount(row, p) > 0
  {
    if j < |row| - 1 {
      RowPositive(row[..|row| - 1], j, p);
    }
  }

  /** A row holding only empty cells and cells of `p`, while `p` owns fewer
      than a row's worth of cells, still has an empty cell. */
  lemma RoomInRow(b: Grid, r: int, p: int)
    requires WellFormed(b) && 0 <= r < Size
    requires forall j | 0 <= j < Size :: b[r][j].player == 0 || b[r][j].player == p
    requires BoardCount(b, p) < Size
    ensures exists j | 0 <= j < Size :: b[r][j].player == 0
  {
    if forall j | 0 <= j < Size :: b[r][j].player != 0 {
      FullRowCount(b[r], p);
      RowWithinBoard(b, r, p);
      assert false;
    }
  }
}
