/** Combat between an attacking and a defending monster, and what a fight
    does to the board and to the live-monster counts. */
module Combat {
  import opened Board

  /** The attacker's win condition exactly as the engine tests it. */
  predicate Beats(a: Monster, d: Monster) {
    (a == Vampire && d == Werewolf) || (a == Werewolf && d == Ghost) || (a == Ghost && d == Vampire)
  }

  /** The dominance cycle Vampire > Werewolf > Ghost > Vampire: the one kind
      each kind defeats. */
  function Prey(k: Kind): Kind {
    match k
    case Vampire => Werewolf
    case Werewolf => Ghost
    case Ghost => Vampire
  }

  datatype Clash = AttackerWins | DefenderWins | BothFall | NoContest

  /** The branch resolveConflict takes for attacker `a` and defender `d`.
      Between two creatures exactly one of the first three happens. */
  function Confront(a: Monster, d: Monster): (o: Clash)
    ensures o == AttackerWins <==> a != None && d != None && d == Prey(a)
    ensures o == DefenderWins <==> a != None && d != None && a == Prey(d)
    ensures o == BothFall <==> a == d
    ensures o == NoContest <==> a != d && (a == None || d == None)
  {
    if Beats(a, d) then AttackerWins
    else if Beats(d, a) then DefenderWins
    else if a == d then BothFall
    else NoContest
  }

  /** The board after the attacker at (sr, sc) fights the defender at
      (er, ec), written cell by cell in the order the engine writes them. */
  function ClashBoard(b: Grid, sr: int, sc: int, er: int, ec: int): Grid
    requires WellFormed(b) && OnBoard(sr, sc) && OnBoard(er, ec)
  {
    var s, e := b[sr][sc], b[er][ec];
    var b1 := match Confront(s.monster, e.monster)
      case AttackerWins => SetCell(b, er, ec, s)
      case DefenderWins => SetCell(b, sr, sc, EmptyCell)
      case BothFall => SetCell(SetCell(b, sr, sc, EmptyCell), er, ec, EmptyCell)
      case NoContest => b;
    SetCell(b1, sr, sc, EmptyCell)
  }

  /** What a fight leaves behind: the start cell is empty; the destination
      holds the attacker if it preys on the defender, nothing if both are of
      one kind, and otherwise still the defender; no other cell changes. */
  lemma ClashBoardCells(b: Grid, sr: int, sc: int, er: int, ec: int)
    requires WellFormed(b) && OnBoard(sr, sc) && OnBoard(er, ec) && (sr, sc) != (er, ec)
    ensures var b' := ClashBoard(b, sr, sc, er, ec);
      var s, e := b[sr][sc], b[er][ec];
      WellFormed(b') &&
      b'[sr][sc] == EmptyCell &&
      b'[er][ec] == (if s.monster != None && e.monster != None && e.monster == Prey(s.monster) then s
                     else if s.monster == e.monster then EmptyCell
                     else e) &&
      forall i, j | 0 <= i < Size && 0 <= j < Size && (i, j) != (sr, sc) && (i, j) != (er, ec) :: b'[i][j] == b[i][j]
  {
  }

  /** Who loses a monster in a fight between two different players'
      creatures: the defender's owner when the attacker preys on it, the
      attacker's owner when the defender preys on it, both on a tie. */
  lemma ClashCountsLoser(m: map<int, int>, s: Cell, e: Cell)
    requires s.player in m && e.player in m && s.player != e.player
    requires s.monster != None && e.monster != None
    ensures ClashCounts(m, s, e)[s.player] ==
      m[s.player] - (if s.monster == Prey(e.monster) || s.monster == e.monster then 1 else 0)
    ensures ClashCounts(m, s, e)[e.player] ==
      m[e.player] - (if e.monster == Prey(s.monster) || s.monster == e.monster then 1 else 0)
    ensures forall q | q in m && q != s.player && q != e.player :: ClashCounts(m, s, e)[q] == m[q]
  {
  }

  /** The live-monster counts after that fight: the loser's owner loses one;
      on a draw the attacker's owner and then the defender's owner lose one. */
  function ClashCounts(m: map<int, int>, s: Cell, e: Cell): (m': map<int, int>)
    requires s.player in m && e.player in m
    ensures m'.Keys == m.Keys
  {
    match Confront(s.monster, e.monster)
    case AttackerWins => m[e.player := m[e.player] - 1]
    case DefenderWins => m[s.player := m[s.player] - 1]
    case BothFall =>
      var m1 := m[s.player := m[s.player] - 1];
      m1[e.player := m1[e.player] - 1]
    case NoContest => m
  }

  /** A fight between monsters of two different players removes from the
      board exactly the monsters whose owners' counts it decrements: for every
      player, count minus owned cells is the same before and after. */
  lemma {:induction false} ClashKeepsSurplus(b: Grid, sr: int, sc: int, er: int, ec: int, m: map<int, int>, p: int)
    requires WellFormed(b) && OnBoard(sr, sc) && OnBoard(er, ec) && (sr, sc) != (er, ec)
    requires Consistent(b[sr][sc]) && Consistent(b[er][ec])
    requires b[sr][sc].player != 0 && b[er][ec].player != 0 && b[sr][sc].player != b[er][ec].player
    requires b[sr][sc].player in m && b[er][ec].player in m && p in m && p != 0
    ensures ClashCounts(m, b[sr][sc], b[er][ec])[p] - BoardCount(ClashBoard(b, sr, sc, er, ec), p)
         == m[p] - BoardCount(b, p)
  {
    var s, e := b[sr][sc], b[er][ec];
    var after := ClashBoard(b, sr, sc, er, ec);
    var m' := ClashCounts(m, s, e);
    match Confront(s.monster, e.monster)
    case AttackerWins =>
      var b1 := SetCell(b, er, ec, s);
      assert after == SetCell(b1, sr, sc, EmptyCell);
      BoardCountSet(b, er, ec, s, p);
      BoardCountSet(b1, sr, sc, EmptyCell, p);
      assert BoardCount(after, p) == BoardCount(b, p) - Owns(e, p);
      assert m'[p] == m[p] - Owns(e, p);
    case DefenderWins =>
      var b1 := SetCell(b, sr, sc, EmptyCell);
      assert after == SetCell(b1, sr, sc, EmptyCell);
      BoardCountSet(b, sr, sc, EmptyCell, p);
      BoardCountSet(b1, sr, sc, EmptyCell, p);
      assert BoardCount(after, p) == BoardCount(b, p) - Owns(s, p);
      assert m'[p] == m[p] - Owns(s, p);
    case BothFall =>
      var b1 := SetCell(b, sr, sc, EmptyCell);
      var b2 := SetCell(b1, er, ec, EmptyCell);
      assert after == SetCell(b2, sr, sc, EmptyCell);
      BoardCountSet(b, sr, sc, EmptyCell, p);
      BoardCountSet(b1, er, ec, EmptyCell, p);
      BoardCountSet(b2, sr, sc, EmptyCell, p);
      assert BoardCount(after, p) == BoardCount(b, p) - Owns(s, p) - Owns(e, p);
      assert m'[p] == m[p] - Owns(s, p) - Owns(e, p);
  }

  /** The board after a move that does not fight: the start cell's content is
      copied to the end and the start is cleared. */
  function Relocate(b: Grid, sr: int, sc: int, er: int, ec: int): Grid
    requires WellFormed(b) && OnBoard(sr, sc) && OnBoard(er, ec)
  {
    SetCell(SetCell(b, er, ec, b[sr][sc]), sr, sc, EmptyCell)
  }

  /** The destination now holds the mover's cell, the start is empty, and no
      other cell changed. */
  lemma RelocateCells(b: Grid, sr: int, sc: int, er: int, ec: int)
    requires WellFormed(b) && OnBoard(sr, sc) && OnBoard(er, ec) && (sr, sc) != (er, ec)
    ensures var b' := Relocate(b, sr, sc, er, ec);
      WellFormed(b') && b'[er][ec] == b[sr][sc] && b'[sr][sc] == EmptyCell &&
      forall i, j | 0 <= i < Size && 0 <= j < Size && (i, j) != (sr, sc) && (i, j) != (er, ec) :: b'[i][j] == b[i][j]
  {
  }

  /** Moving onto an empty cell keeps every player's owned-cell count; moving
      onto one's own monster destroys it, so the mover owns one cell fewer. */
  lemma {:induction false} RelocateCounts(b: Grid, sr: int, sc: int, er: int, ec: int, p: int)
    requires WellFormed(b) && OnBoard(sr, sc) && OnBoard(er, ec) && (sr, sc) != (er, ec)
    requires b[sr][sc].player != 0
    requires b[er][ec].player == 0 || b[er][ec].player == b[sr][sc].player
    requires p != 0
    ensures BoardCount(Relocate(b, sr, sc, er, ec), p)
         == BoardCount(b, p) - (if p == b[sr][sc].player && b[er][ec].player == p then 1 else 0)
  {
    var b1 := SetCell(b, er, ec, b[sr][sc]);
    BoardCountSet(b, er, ec, b[sr][sc], p);
    BoardCountSet(b1, sr, sc, EmptyCell, p);
  }
}
