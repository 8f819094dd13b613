/** Move geometry: which start/end pairs form a legal move shape, and the
    cells a move passes over. */
module Geometry {
  import opened Board

  function Abs(x: int): nat {
    if x < 0 then -x else x
  }

  function Max(a: int, b: int): int {
    if a < b then b else a
  }

  /** The unit direction of `x`: -1, 0 or 1. */
  function Sign(x: int): int {
    if x > 0 then 1 else if x < 0 then -1 else 0
  }

  /** `k` unit steps along direction `s` (-1, 0 or 1). */
  function Step(k: int, s: int): int {
    if s > 0 then k else if s < 0 then -k else 0
  }

  /** The shape rule of isValidMove: any distance straight along a row or a
      column (written as "at most 10"), or at most 2 along a diagonal. */
  predicate LegalShape(sr: int, sc: int, er: int, ec: int) {
    var rowDiff := Abs(er - sr);
    var colDiff := Abs(ec - sc);
    (rowDiff == 0 && colDiff <= 10) || (colDiff == 0 && rowDiff <= 10) || (rowDiff == colDiff && rowDiff <= 2)
  }

  /** The eight compass directions as (row step, column step). */
  const Compass: seq<(int, int)> := [(-1, -1), (-1, 0), (-1, 1), (0, -1), (0, 1), (1, -1), (1, 0), (1, 1)]

  /** How far a move may go along a direction: 2 on a diagonal, 10 straight. */
  function Reach(d: (int, int)): int {
    if d.0 != 0 && d.1 != 0 then 2 else 10
  }

  /** The cell `k` steps from (r, c) along direction `d`. */
  function Walk(r: int, c: int, d: (int, int), k: int): (int, int) {
    (r + Step(k, d.0), c + Step(k, d.1))
  }

  /** The position of a non-zero unit direction in `Compass`. */
  function CompassIndex(dr: int, dc: int): (i: int)
    requires -1 <= dr <= 1 && -1 <= dc <= 1 && (dr, dc) != (0, 0)
    ensures 0 <= i < |Compass| && Compass[i] == (dr, dc)
  {
    var i := 3 * (dr + 1) + (dc + 1);
    if i > 4 then i - 1 else i
  }

  lemma CompassUnits(i: int)
    requires 0 <= i < |Compass|
    ensures -1 <= Compass[i].0 <= 1 && -1 <= Compass[i].1 <= 1 && Compass[i] != (0, 0)
  {
  }

  /** A move has a legal shape exactly when it stays put or goes 1 to Reach(d)
      steps along one compass direction d. */
  lemma {:induction false} LegalShapeIsCompassMove(sr: int, sc: int, er: int, ec: int)
    ensures LegalShape(sr, sc, er, ec) <==>
      (sr, sc) == (er, ec) ||
      exists i, k | 0 <= i < |Compass| && 1 <= k <= Reach(Compass[i]) :: Walk(sr, sc, Compass[i], k) == (er, ec)
  {
    var dr, dc := er - sr, ec - sc;
    if LegalShape(sr, sc, er, ec) && (sr, sc) != (er, ec) {
      var i := CompassIndex(Sign(dr), Sign(dc));
      var k := Max(Abs(dr), Abs(dc));
      assert Walk(sr, sc, Compass[i], k) == (er, ec);
    }
    if exists i, k | 0 <= i < |Compass| && 1 <= k <= Reach(Compass[i]) :: Walk(sr, sc, Compass[i], k) == (er, ec) {
      var i, k :| 0 <= i < |Compass| && 1 <= k <= Reach(Compass[i]) && Walk(sr, sc, Compass[i], k) == (er, ec);
      CompassUnits(i);
    }
  }

  /** The cells strictly between start and end on the straight or diagonal
      line joining them, nearest the start first; empty when the two are not
      on such a line. */
  function Between(sr: int, sc: int, er: int, ec: int): seq<(int, int)>
    requires (sr, sc) != (er, ec)
  {
    var dr, dc := er - sr, ec - sc;
    if dr == 0 || dc == 0 || Abs(dr) == Abs(dc) then
      seq(Max(Abs(dr), Abs(dc)) - 1, k => Walk(sr, sc, (Sign(dr), Sign(dc)), k + 1))
    else
      []
  }

  /** For a legal move between two board cells, the path has exactly
      max(|dr|, |dc|) - 1 cells, each on the board and distinct from both ends,
      and one more step along the same direction reaches the end. */
  lemma {:induction false} PathInside(sr: int, sc: int, er: int, ec: int)
    requires OnBoard(sr, sc) && OnBoard(er, ec) && (sr, sc) != (er, ec)
    requires LegalShape(sr, sc, er, ec)
    ensures |Between(sr, sc, er, ec)| == Max(Abs(er - sr), Abs(ec - sc)) - 1
    ensures Walk(sr, sc, (Sign(er - sr), Sign(ec - sc)), Max(Abs(er - sr), Abs(ec - sc))) == (er, ec)
    ensures forall k | 0 <= k < |Between(sr, sc, er, ec)| ::
      var cell := Between(sr, sc, er, ec)[k];
      OnBoard(cell.0, cell.1) && cell != (sr, sc) && cell != (er, ec)
  {
    var path := Between(sr, sc, er, ec);
    var n := Max(Abs(er - sr), Abs(ec - sc));
    forall k | 0 <= k < |path|
      ensures OnBoard(path[k].0, path[k].1) && path[k] != (sr, sc) && path[k] != (er, ec)
    {
      assert path[k] == Walk(sr, sc, (Sign(er - sr), Sign(ec - sc)), k + 1);
      assert 1 <= k + 1 < n;
    }
  }

  /** The direction one of getPath's counters moves in: +1 toward a larger
      end coordinate, otherwise -1 (also when the two are equal). */
  function LoopStep(from: int, to: int): int {
    if from < to then 1 else -1
  }

  /** A getPath counter that starts at `from` and adds LoopStep(from, to) each
      round reaches `to` after some number of rounds exactly when `from` and
      `to` differ; with equal coordinates it walks away for ever. */
  lemma {:induction false} CounterReachesIff(from: int, to: int)
    ensures (exists k: nat | k >= 1 :: from + Step(k, LoopStep(from, to)) == to) <==> from != to
  {
    if from != to {
      var k: nat := Abs(to - from);
      assert from + Step(k, LoopStep(from, to)) == to;
    }
  }
}
