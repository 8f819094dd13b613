/** The rules engine of one game: the board, the per-player counters, the
    placement phase, the turn pointer, the round counter and the outcome. */
module Game {
  import opened Board
  import opened Geometry
  import opened Combat

  datatype Outcome<E> = Pass | Fail(error: E)

  /** The engine's rejections, one per thrown error. */
  datatype GameError =
    | NotYourTurn         // "Not your turn!"
    | BoardIndexError     // a placement outside the grid fails while reading the cell
    | InvalidPlacement    // occupied cell or outside the player's half
    | PlacementLimit      // a 4th placement during the placement phase
    | PlacementPhase      // a move during the placement phase
    | InvalidMove         // bad coordinates, foreign start cell or bad shape
    | PathBlocked         // an opposing monster between start and end
    | NeverReturns        // a zero-length move: the path loop never stops

  datatype Winner = NoWinner | Draw | Won(player: int)

  /** What getGameBoard hands out: the live board itself, not a copy. */
  datatype Snapshot = Snapshot(board: array2<Cell>, currentPlayer: int, initialPlacement: bool, winner: Winner, round: int)

  const Players: seq<int> := [1, 2]

  /** The kinds a random monster is drawn from. */
  const MonsterTypes: seq<Kind> := [Vampire, Werewolf, Ghost]

  /** Number of monsters auto-placed per player on reset. */
  const AutoPlaced := 7

  /** Number of monsters each player places by hand in the placement phase. */
  const PlacementQuota := 3

  /** Rows 0-4 belong to player 1, rows 5-9 to player 2. */
  predicate InHalf(playerId: int, row: int) {
    (playerId == 1 && row >= 0 && row <= 4) || (playerId == 2 && row >= 5 && row <= 9)
  }

  /** The home (border) row a player's auto-placed monsters go to. */
  function HomeRow(playerId: int): int {
    if playerId == 1 then 0 else 9
  }

  /** The outcome checkForWin derives from the two live-monster counts. */
  function Verdict(c1: int, c2: int): (w: Winner)
    ensures w == Draw <==> c1 <= 0 && c2 <= 0
    ensures w == Won(1) <==> c2 <= 0 < c1
    ensures w == Won(2) <==> c1 <= 0 < c2
    ensures w == NoWinner <==> 0 < c1 && 0 < c2
  {
    if c1 <= 0 && c2 <= 0 then Draw
    else if c1 <= 0 then Won(2)
    else if c2 <= 0 then Won(1)
    else NoWinner
  }

  /** The players tied at the minimal live-monster count, in id order. */
  function TiedPlayers(m: map<int, int>, minCount: int): seq<int>
    requires 1 in m && 2 in m
  {
    (if m[1] == minCount then [1] else []) + (if m[2] == minCount then [2] else [])
  }

  function IndexOf(s: seq<int>, x: int): (i: int)
    requires x in s
    ensures 0 <= i < |s| && s[i] == x
  {
    if s[0] == x then 0 else 1 + IndexOf(s[1..], x)
  }

  /** The mobility policy: every monster counts as able to move. */
  function CanMonsterMove(monster: Cell): (r: bool)
    ensures r
  {
    true
  }

  predicate Hostile(c: Cell, playerId: int) {
    c.player != 0 && c.player != playerId
  }

  /** Some cell of `path` holds a monster of another player. */
  predicate Blocks(b: Grid, playerId: int, path: seq<(int, int)>)
    requires WellFormed(b)
  {
    exists k | 0 <= k < |path| :: OnBoard(path[k].0, path[k].1) && Hostile(b[path[k].0][path[k].1], playerId)
  }

  /** The turn, phase and outcome fields of the engine. */
  datatype Turn = Turn(turnIndex: int, currentPlayer: int, initialPlacement: bool, round: int,
                       winner: Winner, isGameOver: bool)

  /** What endTurn does to the turn fields `t`, judged against the placement
      counts and live-monster counts it sees: a finished game is left alone;
      once both players have placed 3 the placement phase ends and the turn
      index goes to a player with the fewest monsters while currentPlayer
      stays as it was; otherwise the turn passes to the other player, with a
      new round when it returns to player 1. Then the outcome is recorded. */
  ghost predicate NextTurn(t: Turn, t': Turn, placed: map<int, int>, counts: map<int, int>) {
    1 in placed && 2 in placed && 1 in counts && 2 in counts &&
    if t.isGameOver then
      t' == t
    else
      (if t.initialPlacement && placed[1] >= PlacementQuota && placed[2] >= PlacementQuota then
         !t'.initialPlacement && 0 <= t'.turnIndex < |Players| &&
         counts[Players[t'.turnIndex]] <= counts[1] && counts[Players[t'.turnIndex]] <= counts[2] &&
         t'.currentPlayer == t.currentPlayer && t'.round == t.round
       else
         t'.initialPlacement == t.initialPlacement &&
         t'.turnIndex == (t.turnIndex + 1) % |Players| &&
         t'.round == t.round + (if t'.turnIndex == 0 then 1 else 0) &&
         t'.currentPlayer == Players[t'.turnIndex]) &&
      t'.winner == Verdict(counts[1], counts[2]) && (t'.isGameOver <==> t'.winner != NoWinner)
  }

  /** Outside the placement phase, two ends of turn in a game nobody has won
      return the turn index to where it was, advance the round by exactly one
      and leave the turn with the player at that index. */
  lemma TwoTurnsMakeARound(t: Turn, t1: Turn, t2: Turn, placed: map<int, int>, counts: map<int, int>)
    requires !t.isGameOver && !t.initialPlacement && (t.turnIndex == 0 || t.turnIndex == 1)
    requires NextTurn(t, t1, placed, counts) && NextTurn(t1, t2, placed, counts)
    requires counts[1] > 0 && counts[2] > 0
    ensures t2.turnIndex == t.turnIndex && t2.round == t.round + 1
    ensures t2.currentPlayer == Players[t.turnIndex] && t2.winner == NoWinner
  {
  }

  /** When the placement phase ends on player 2's third placement and the turn
      index goes to player 1, currentPlayer stays 2, and the next end of turn
      moves the index back to player 2: player 2 then has two turns in a row. */
  lemma SecondPlacerMovesTwice(t: Turn, t1: Turn, t2: Turn, placed: map<int, int>, counts: map<int, int>)
    requires t.initialPlacement && !t.isGameOver && t.turnIndex == 1 && t.currentPlayer == 2
    requires 1 in placed && 2 in placed && placed[1] >= PlacementQuota && placed[2] >= PlacementQuota
    requires NextTurn(t, t1, placed, counts) && t1.turnIndex == 0
    requires NextTurn(t1, t2, placed, counts) && counts[1] > 0 && counts[2] > 0
    ensures t1.currentPlayer == 2 && Players[t1.turnIndex] == 1
    ensures t2.currentPlayer == 2 && t2.turnIndex == 1
  {
  }

  /** A player's live-monster count minus the cells they own. */
  function Surplus(m: map<int, int>, b: Grid, p: int): int
    requires p in m
  {
    m[p] - BoardCount(b, p)
  }

  /** Both players' surpluses are the same in the two states. */
  predicate SameSurplus(m: map<int, int>, b: Grid, m': map<int, int>, b': Grid)
    requires 1 in m && 2 in m && 1 in m' && 2 in m'
  {
    Surplus(m', b', 1) == Surplus(m, b, 1) && Surplus(m', b', 2) == Surplus(m, b, 2)
  }

  /** The board and counts after the piece of `playerId` at (sr, sc) goes to
      (er, ec): a fight when the destination holds an opposing monster,
      otherwise the piece is carried over, replacing whatever was there. */
  ghost predicate MoveOutcome(b: Grid, m: map<int, int>, b': Grid, m': map<int, int>,
                              playerId: int, sr: int, sc: int, er: int, ec: int)
    requires WellFormed(b) && OnBoard(sr, sc) && OnBoard(er, ec)
  {
    if Hostile(b[er][ec], playerId) then
      b[sr][sc].player in m && b[er][ec].player in m &&
      b' == ClashBoard(b, sr, sc, er, ec) && m' == ClashCounts(m, b[sr][sc], b[er][ec])
    else
      b' == Relocate(b, sr, sc, er, ec) && m' == m
  }

  /** A move keeps every player's surplus, except that capturing one's own
      monster destroys it without a decrement and so raises the mover's
      surplus by one. */
  lemma MoveSurplus(b: Grid, m: map<int, int>, b': Grid, m': map<int, int>,
                    playerId: int, sr: int, sc: int, er: int, ec: int, p: int)
    requires WellFormed(b) && AllConsistent(b) && OnBoard(sr, sc) && OnBoard(er, ec) && (sr, sc) != (er, ec)
    requires (playerId == 1 || playerId == 2) && b[sr][sc].player == playerId
    requires 1 in m && 2 in m && (p == 1 || p == 2)
    requires MoveOutcome(b, m, b', m', playerId, sr, sc, er, ec)
    ensures p in m'
    ensures Surplus(m', b', p) == Surplus(m, b, p) + (if p == playerId && b[er][ec].player == playerId then 1 else 0)
  {
    if Hostile(b[er][ec], playerId) {
      ClashKeepsSurplus(b, sr, sc, er, ec, m, p);
    } else {
      RelocateCounts(b, sr, sc, er, ec, p);
    }
  }

  /** A fight leaves no player with fewer live monsters counted than owned. */
  lemma ClashCovered(b: Grid, m: map<int, int>, sr: int, sc: int, er: int, ec: int)
    requires WellFormed(b) && AllConsistent(b) && OnBoard(sr, sc) && OnBoard(er, ec) && (sr, sc) != (er, ec)
    requires b[sr][sc].player != 0 && b[er][ec].player != 0 && b[sr][sc].player != b[er][ec].player
    requires Covered(m, b)
    ensures Covered(ClashCounts(m, b[sr][sc], b[er][ec]), ClashBoard(b, sr, sc, er, ec))
  {
    ClashKeepsSurplus(b, sr, sc, er, ec, m, 1);
    ClashKeepsSurplus(b, sr, sc, er, ec, m, 2);
  }

  /** Neither does any accepted move. */
  lemma MoveCovered(b: Grid, m: map<int, int>, b': Grid, m': map<int, int>,
                    playerId: int, sr: int, sc: int, er: int, ec: int)
    requires WellFormed(b) && AllConsistent(b) && OnBoard(sr, sc) && OnBoard(er, ec) && (sr, sc) != (er, ec)
    requires (playerId == 1 || playerId == 2) && b[sr][sc].player == playerId
    requires Covered(m, b)
    requires MoveOutcome(b, m, b', m', playerId, sr, sc, er, ec)
    ensures Covered(m', b')
  {
    MoveSurplus(b, m, b', m', playerId, sr, sc, er, ec, 1);
    MoveSurplus(b, m, b', m', playerId, sr, sc, er, ec, 2);
  }

  /** The board reset leaves: seven monsters per player, player 1's all in
      row 0 and player 2's all in row 9. */
  ghost predicate HomeRowsOnly(b: Grid)
    requires WellFormed(b)
  {
    BoardCount(b, 1) == AutoPlaced && BoardCount(b, 2) == AutoPlaced && AtHome(b)
  }

  /** Every occupied cell lies in its owner's home row. */
  ghost predicate AtHome(b: Grid)
    requires WellFormed(b)
  {
    forall i, j | 0 <= i < Size && 0 <= j < Size && b[i][j].player != 0 ::
      (i == 0 && b[i][j].player == 1) || (i == Size - 1 && b[i][j].player == 2)
  }

  /** Putting a player's monster into their home row keeps every monster at home. */
  lemma AtHomeAfterPlacing(b: Grid, p: int, column: int, k: Kind)
    requires WellFormed(b) && AtHome(b) && (p == 1 || p == 2) && 0 <= column < Size
    ensures WellFormed(SetCell(b, HomeRow(p), column, Cell(p, k)))
    ensures AtHome(SetCell(b, HomeRow(p), column, Cell(p, k)))
  {
  }

  /** No player's count falls below the number of cells they own. */
  predicate Covered(m: map<int, int>, b: Grid) {
    1 in m && 2 in m && Surplus(m, b, 1) >= 0 && Surplus(m, b, 2) >= 0
  }

  class GameState {
    var gameBoard: array2<Cell>
    /** The contents of gameBoard as a value. */
    ghost var cells: Grid
    var playerEliminationCount: map<int, int>
    var playerMonsterCount: map<int, int>
    var isGameOver: bool
    var turnIndex: int
    var currentPlayer: int
    var initialPlacement: bool
    var initialMonstersPlaced: map<int, int>
    var winner: Winner
    var round: int

    /** gameBoard is 10x10, `cells` mirrors it and every cell is consistent. */
    ghost predicate Synced()
      reads this`gameBoard, this`cells, gameBoard
    {
      gameBoard.Length0 == Size && gameBoard.Length1 == Size &&
      WellFormed(cells) &&
      (forall i, j | 0 <= i < Size && 0 <= j < Size :: gameBoard[i, j] == cells[i][j]) &&
      AllConsistent(cells)
    }

    /** The invariant of the counters, the turn pointer and the outcome. */
    ghost predicate Fields()
      reads this`playerMonsterCount, this`initialMonstersPlaced, this`turnIndex, this`currentPlayer,
        this`round, this`isGameOver, this`winner, this`initialPlacement
    {
      1 in playerMonsterCount && 2 in playerMonsterCount &&
      1 in initialMonstersPlaced && 2 in initialMonstersPlaced &&
      (turnIndex == 0 || turnIndex == 1) &&
      (currentPlayer == 1 || currentPlayer == 2) &&
      round >= 0 &&
      (isGameOver <==> winner != NoWinner) &&
      (winner.Won? ==> winner.player == 1 || winner.player == 2) &&
      initialMonstersPlaced[1] >= 0 && initialMonstersPlaced[2] >= 0 &&
      (initialPlacement ==> initialMonstersPlaced[1] <= PlacementQuota && initialMonstersPlaced[2] <= PlacementQuota)
    }

    /** The invariant every operation keeps. */
    ghost predicate Valid()
      reads this, gameBoard
    {
      Synced() && Fields() && Covered(playerMonsterCount, cells)
    }

    /** Each player's count is exactly the number of cells they own. */
    ghost predicate CountsMatch()
      reads this
    {
      1 in playerMonsterCount && 2 in playerMonsterCount &&
      Surplus(playerMonsterCount, cells, 1) == 0 && Surplus(playerMonsterCount, cells, 2) == 0
    }

    /** The state right after reset. */
    ghost predicate Initial()
      reads this
    {
      WellFormed(cells) && HomeRowsOnly(cells) &&
      playerMonsterCount == map[1 := AutoPlaced, 2 := AutoPlaced] &&
      initialMonstersPlaced == map[1 := 0, 2 := 0] &&
      playerEliminationCount == map[1 := 0, 2 := 0] &&
      initialPlacement && turnIndex == 0 && currentPlayer == 1 && round == 0 &&
      winner == NoWinner && !isGameOver
    }

    /** Nothing at all changed. */
    twostate predicate Unchanged()
      reads this
    {
      gameBoard == old(gameBoard) && cells == old(cells) &&
      playerEliminationCount == old(playerEliminationCount) &&
      playerMonsterCount == old(playerMonsterCount) &&
      initialMonstersPlaced == old(initialMonstersPlaced) &&
      isGameOver == old(isGameOver) && turnIndex == old(turnIndex) &&
      currentPlayer == old(currentPlayer) && initialPlacement == old(initialPlacement) &&
      winner == old(winner) && round == old(round)
    }

    /** The turn, phase and outcome fields as one value. */
    ghost function TurnOf(): Turn
      reads this`turnIndex, this`currentPlayer, this`initialPlacement, this`round, this`winner, this`isGameOver
    {
      Turn(turnIndex, currentPlayer, initialPlacement, round, winner, isGameOver)
    }

    /** What a successful placement of `monsterType` at (row, column) by
        `playerId` did to the board and the two counters. */
    twostate predicate Placed(playerId: int, row: int, column: int, monsterType: Kind)
      reads this`cells, this`playerMonsterCount, this`initialMonstersPlaced
    {
      OnBoard(row, column) && |old(cells)| == Size && |old(cells)[row]| == Size &&
      playerId in old(playerMonsterCount) && playerId in old(initialMonstersPlaced) &&
      cells == SetCell(old(cells), row, column, Cell(playerId, monsterType)) &&
      playerMonsterCount == old(playerMonsterCount)[playerId := old(playerMonsterCount)[playerId] + 1] &&
      initialMonstersPlaced == old(initialMonstersPlaced)[playerId := old(initialMonstersPlaced)[playerId] + 1]
    }

    constructor ()
      ensures Valid() && fresh(gameBoard) && Initial() && CountsMatch()
    {
      var board := NewBoard();
      gameBoard := board;
      cells := EmptyGrid();
      new;
      ResetGameState();
    }

    /** Clears the game and auto-places 7 monsters per player. */
    method ResetGameState()
      modifies this
      ensures Valid() && fresh(gameBoard) && Initial() && CountsMatch()
    {
      gameBoard := NewBoard();
      cells := EmptyGrid();
      playerEliminationCount := map[1 := 0, 2 := 0];
      playerMonsterCount := map[1 := 0, 2 := 0];
      isGameOver := false;
      turnIndex := 0;
      currentPlayer := Players[turnIndex];
      initialPlacement := true;
      initialMonstersPlaced := map[1 := 0, 2 := 0];
      RandomPlaceRemainingMonsters();
      winner := NoWinner;
      round := 0;
    }

    /** A fresh 10x10 board of empty cells. */
    static method NewBoard() returns (a: array2<Cell>)
      ensures fresh(a) && a.Length0 == Size && a.Length1 == Size
      ensures forall i, j | 0 <= i < Size && 0 <= j < Size :: a[i, j] == EmptyCell
    {
      a := new Cell[Size, Size]((_, _) => EmptyCell);
    }

    method Reset()
      modifies this
      ensures Valid() && fresh(gameBoard) && Initial() && CountsMatch()
    {
      ResetGameState();
    }

    /** Writes one cell and keeps `cells` in step. */
    method Put(r: int, c: int, x: Cell)
      requires Synced() && OnBoard(r, c) && Consistent(x)
      modifies gameBoard, this`cells
      ensures Synced()
      ensures cells == SetCell(old(cells), r, c, x)
    {
      gameBoard[r, c] := x;
      cells := SetCell(cells, r, c, x);
    }

    /** For each player, 7 times: a monster goes to the player's home row. */
    method RandomPlaceRemainingMonsters()
      requires Synced() && cells == EmptyGrid()
      requires playerMonsterCount == map[1 := 0, 2 := 0]
      modifies gameBoard, this`cells, this`playerMonsterCount
      ensures Synced()
      ensures playerMonsterCount == map[1 := AutoPlaced, 2 := AutoPlaced]
      ensures HomeRowsOnly(cells)
    {
      NoCountAbove(cells, 1);
      NoCountAbove(cells, 2);
      for pi := 0 to |Players|
        invariant Synced() && AtHome(cells)
        invariant playerMonsterCount == map[1 := if pi >= 1 then AutoPlaced else 0, 2 := if pi >= 2 then AutoPlaced else 0]
        invariant BoardCount(cells, 1) == playerMonsterCount[1] && BoardCount(cells, 2) == playerMonsterCount[2]
      {
        PlacePlayerMonsters(Players[pi]);
      }
    }

    /** The seven auto-placements of one player. */
    method PlacePlayerMonsters(playerId: int)
      requires Synced() && AtHome(cells) && (playerId == 1 || playerId == 2)
      requires playerId in playerMonsterCount && BoardCount(cells, playerId) == 0
      modifies gameBoard, this`cells, this`playerMonsterCount
      ensures Synced() && AtHome(cells)
      ensures BoardCount(cells, playerId) == AutoPlaced
      ensures BoardCount(cells, 3 - playerId) == old(BoardCount(cells, 3 - playerId))
      ensures forall i, j | 0 <= i < Size && 0 <= j < Size && old(cells)[i][j] != EmptyCell :: cells[i][j] == old(cells)[i][j]
      ensures playerMonsterCount == old(playerMonsterCount)[playerId := old(playerMonsterCount[playerId]) + AutoPlaced]
    {
      for n := 0 to AutoPlaced
        invariant Synced() && AtHome(cells)
        invariant BoardCount(cells, playerId) == n
        invariant BoardCount(cells, 3 - playerId) == old(BoardCount(cells, 3 - playerId))
        invariant forall i, j | 0 <= i < Size && 0 <= j < Size && old(cells)[i][j] != EmptyCell :: cells[i][j] == old(cells)[i][j]
        invariant playerMonsterCount == old(playerMonsterCount)[playerId := old(playerMonsterCount[playerId]) + n]
      {
        PlaceAtRandom(playerId);
      }
    }

    /** One auto-placement: some empty cell of the home row (the engine
        retries random columns until it finds one) gets a monster of some kind. */
    method PlaceAtRandom(playerId: int)
      requires Synced() && AtHome(cells) && (playerId == 1 || playerId == 2)
      requires playerId in playerMonsterCount && BoardCount(cells, playerId) < Size
      modifies gameBoard, this`cells, this`playerMonsterCount
      ensures Synced() && AtHome(cells)
      ensures exists column, kind: Kind | 0 <= column < Size ::
        old(cells)[HomeRow(playerId)][column] == EmptyCell &&
        cells == SetCell(old(cells), HomeRow(playerId), column, Cell(playerId, kind))
      ensures BoardCount(cells, playerId) == old(BoardCount(cells, playerId)) + 1
      ensures BoardCount(cells, 3 - playerId) == old(BoardCount(cells, 3 - playerId))
      ensures playerMonsterCount == old(playerMonsterCount)[playerId := old(playerMonsterCount[playerId]) + 1]
    {
      var row := HomeRow(playerId);
      RoomInRow(cells, row, playerId);
      var column :| 0 <= column < Size && gameBoard[row, column].player == 0;
      var kindIndex :| 0 <= kindIndex < |MonsterTypes|;
      var placed := Cell(playerId, MonsterTypes[kindIndex]);
      ghost var b0 := cells;
      BoardCountSet(cells, row, column, placed, playerId);
      BoardCountSet(cells, row, column, placed, 3 - playerId);
      AtHomeAfterPlacing(cells, playerId, column, placed.monster);
      Put(row, column, placed);
      playerMonsterCount := playerMonsterCount[playerId := playerMonsterCount[playerId] + 1];
      assert b0[row][column] == EmptyCell && cells == SetCell(b0, row, column, Cell(playerId, placed.monster));
    }

    /** Read-only view of the game; the board is shared, not copied. */
    function GetGameBoard(): (s: Snapshot)
      reads this
      ensures s.board == gameBoard && s.currentPlayer == currentPlayer
      ensures s.initialPlacement == initialPlacement && s.winner == winner && s.round == round
    {
      Snapshot(gameBoard, currentPlayer, initialPlacement, winner, round)
    }

    /** The target cell is empty and in the player's half. */
    function IsValidPlacement(playerId: int, row: int, column: int): (ok: bool)
      reads this, gameBoard
      requires Valid() && OnBoard(row, column)
      ensures ok <==> cells[row][column] == EmptyCell && InHalf(playerId, row)
    {
      if gameBoard[row, column].player != 0 then false
      else if playerId == 1 && row >= 0 && row <= 4 then true
      else if playerId == 2 && row >= 5 && row <= 9 then true
      else false
    }

    /** Places a monster for the player whose turn it is. The coordinates
        are checked by the cell read inside isValidPlacement. */
    method AddMonster(playerId: int, row: int, column: int, monsterType: Kind) returns (r: Outcome<GameError>)
      requires Valid()
      modifies gameBoard, this`cells, this`playerMonsterCount, this`initialMonstersPlaced,
        this`initialPlacement, this`turnIndex, this`round, this`currentPlayer, this`winner, this`isGameOver
      ensures Valid()
      ensures playerId != old(currentPlayer) ==> r == Fail(NotYourTurn)
      ensures playerId == old(currentPlayer) && !OnBoard(row, column) ==> r == Fail(BoardIndexError)
      ensures playerId == old(currentPlayer) && OnBoard(row, column) ==>
        (r == Fail(InvalidPlacement) <==> !(old(cells[row][column]) == EmptyCell && InHalf(playerId, row)))
      ensures playerId == old(currentPlayer) && OnBoard(row, column) &&
              old(cells[row][column]) == EmptyCell && InHalf(playerId, row) ==>
        (r == Fail(PlacementLimit) <==> old(initialPlacement) && old(initialMonstersPlaced[playerId]) >= PlacementQuota)
      ensures playerId == old(currentPlayer) && OnBoard(row, column) &&
              old(cells[row][column]) == EmptyCell && InHalf(playerId, row) &&
              !(old(initialPlacement) && old(initialMonstersPlaced[playerId]) >= PlacementQuota) ==>
        r == Pass
      ensures r.Fail? ==> Unchanged()
      ensures r.Pass? ==>
        Placed(playerId, row, column, monsterType) &&
        SameSurplus(old(playerMonsterCount), old(cells), playerMonsterCount, cells) &&
        (if old(initialPlacement) && initialMonstersPlaced[playerId] >= PlacementQuota then NextTurn(old(TurnOf()), TurnOf(), initialMonstersPlaced, playerMonsterCount) else TurnOf() == old(TurnOf()))
    {
      if playerId != currentPlayer {
        return Fail(NotYourTurn);
      }
      if !OnBoard(row, column) {
        return Fail(BoardIndexError);
      }
      if !IsValidPlacement(playerId, row, column) {
        return Fail(InvalidPlacement);
      }
      if initialPlacement && initialMonstersPlaced[playerId] >= PlacementQuota {
        return Fail(PlacementLimit);
      }
      PlaceMonster(playerId, row, column, monsterType);
      return Pass;
    }

    /** The effect of an accepted placement: write the cell, bump both
        counters, and end the turn on the third placement of the phase. */
    method PlaceMonster(playerId: int, row: int, column: int, monsterType: Kind)
      requires Valid() && OnBoard(row, column) && cells[row][column] == EmptyCell && InHalf(playerId, row)
      requires !(initialPlacement && initialMonstersPlaced[playerId] >= PlacementQuota)
      modifies gameBoard, this`cells, this`playerMonsterCount, this`initialMonstersPlaced,
        this`initialPlacement, this`turnIndex, this`round, this`currentPlayer, this`winner, this`isGameOver
      ensures Valid()
      ensures Placed(playerId, row, column, monsterType)
      ensures SameSurplus(old(playerMonsterCount), old(cells), playerMonsterCount, cells)
      ensures if old(initialPlacement) && initialMonstersPlaced[playerId] >= PlacementQuota then NextTurn(old(TurnOf()), TurnOf(), initialMonstersPlaced, playerMonsterCount) else TurnOf() == old(TurnOf())
    {
      WriteMonster(playerId, row, column, monsterType);
      if initialPlacement && initialMonstersPlaced[playerId] >= PlacementQuota {
        EndTurn();
      }
    }

    /** Writes the new monster and bumps the player's two counters. */
    method WriteMonster(playerId: int, row: int, column: int, monsterType: Kind)
      requires Valid() && OnBoard(row, column) && cells[row][column] == EmptyCell && InHalf(playerId, row)
      requires !(initialPlacement && initialMonstersPlaced[playerId] >= PlacementQuota)
      modifies gameBoard, this`cells, this`playerMonsterCount, this`initialMonstersPlaced
      ensures Valid()
      ensures Placed(playerId, row, column, monsterType)
      ensures SameSurplus(old(playerMonsterCount), old(cells), playerMonsterCount, cells)
    {
      var placed := Cell(playerId, monsterType);
      BoardCountSet(cells, row, column, placed, 1);
      BoardCountSet(cells, row, column, placed, 2);
      Put(row, column, placed);
      playerMonsterCount := playerMonsterCount[playerId := playerMonsterCount[playerId] + 1];
      initialMonstersPlaced := initialMonstersPlaced[playerId := initialMonstersPlaced[playerId] + 1];
    }

    /** Bounds, ownership of the start cell and the shape rule. */
    function IsValidMove(playerId: int, sr: int, sc: int, er: int, ec: int): (ok: bool)
      reads this, gameBoard
      requires Valid()
      ensures ok <==>
        OnBoard(sr, sc) && OnBoard(er, ec) && cells[sr][sc].player == playerId &&
        ((sr, sc) == (er, ec) ||
         exists i, k | 0 <= i < |Compass| && 1 <= k <= Reach(Compass[i]) :: Walk(sr, sc, Compass[i], k) == (er, ec))
    {
      LegalShapeIsCompassMove(sr, sc, er, ec);
      if sr < 0 || sr >= 10 || sc < 0 || sc >= 10 || er < 0 || er >= 10 || ec < 0 || ec >= 10 then false
      else if gameBoard[sr, sc].player != playerId then false
      else LegalShape(sr, sc, er, ec)
    }

    /** The cells strictly between start and end, walked one step at a time. */
    method GetPath(sr: int, sc: int, er: int, ec: int) returns (path: seq<(int, int)>)
      requires (sr, sc) != (er, ec)
      ensures path == Between(sr, sc, er, ec)
    {
      path := [];
      var rowStep := LoopStep(sr, er);
      var colStep := LoopStep(sc, ec);
      if sr == er {
        var col := sc + colStep;
        while col != ec
          invariant col == sc + Step(|path| + 1, colStep)
          invariant |path| < Abs(ec - sc)
          invariant forall k | 0 <= k < |path| :: path[k] == (sr, sc + Step(k + 1, colStep))
          decreases Abs(ec - col)
        {
          path := path + [(sr, col)];
          col := col + colStep;
        }
      } else if sc == ec {
        var row := sr + rowStep;
        while row != er
          invariant row == sr + Step(|path| + 1, rowStep)
          invariant |path| < Abs(er - sr)
          invariant forall k | 0 <= k < |path| :: path[k] == (sr + Step(k + 1, rowStep), sc)
          decreases Abs(er - row)
        {
          path := path + [(row, sc)];
          row := row + rowStep;
        }
      } else if Abs(er - sr) == Abs(ec - sc) {
        var row, col := sr + rowStep, sc + colStep;
        while row != er && col != ec
          invariant row == sr + Step(|path| + 1, rowStep) && col == sc + Step(|path| + 1, colStep)
          invariant |path| < Abs(er - sr)
          invariant forall k | 0 <= k < |path| :: path[k] == (sr + Step(k + 1, rowStep), sc + Step(k + 1, colStep))
          decreases Abs(er - row)
        {
          path := path + [(row, col)];
          row, col := row + rowStep, col + colStep;
        }
      }
    }

    /** Scans the path for a monster of another player. */
    method PathIsClear(playerId: int, path: seq<(int, int)>) returns (clear: bool)
      requires Synced()
      requires forall k | 0 <= k < |path| :: OnBoard(path[k].0, path[k].1)
      ensures clear <==> !Blocks(cells, playerId, path)
    {
      for k := 0 to |path|
        invariant forall q | 0 <= q < k :: !Hostile(cells[path[q].0][path[q].1], playerId)
      {
        var (row, column) := path[k];
        if gameBoard[row, column].player != 0 && gameBoard[row, column].player != playerId {
          return false;
        }
      }
      return true;
    }

    /** The fight between the mover's monster at (sr, sc) and the opposing
        monster at (er, ec). */
    method ResolveConflict(sr: int, sc: int, er: int, ec: int)
      requires Valid() && OnBoard(sr, sc) && OnBoard(er, ec)
      requires cells[sr][sc].player != 0 && cells[er][ec].player != 0
      requires cells[sr][sc].player != cells[er][ec].player
      modifies gameBoard, this`cells, this`playerMonsterCount
      ensures Valid()
      ensures cells == ClashBoard(old(cells), sr, sc, er, ec)
      ensures playerMonsterCount == ClashCounts(old(playerMonsterCount), old(cells[sr][sc]), old(cells[er][ec]))
    {
      var startCell := gameBoard[sr, sc];
      var endCell := gameBoard[er, ec];
      ghost var b0, m0 := cells, playerMonsterCount;
      // the three branches of the engine's test, in its order
      var clash := Confront(startCell.monster, endCell.monster);
      if clash == AttackerWins {
        Put(er, ec, startCell);
        playerMonsterCount := playerMonsterCount[endCell.player := playerMonsterCount[endCell.player] - 1];
      } else if clash == DefenderWins {
        Put(sr, sc, EmptyCell);
        playerMonsterCount := playerMonsterCount[startCell.player := playerMonsterCount[startCell.player] - 1];
      } else if clash == BothFall {
        Put(sr, sc, EmptyCell);
        Put(er, ec, EmptyCell);
        playerMonsterCount := playerMonsterCount[startCell.player := playerMonsterCount[startCell.player] - 1];
        playerMonsterCount := playerMonsterCount[endCell.player := playerMonsterCount[endCell.player] - 1];
      }
      Put(sr, sc, EmptyCell);
      assert cells == ClashBoard(b0, sr, sc, er, ec);
      assert playerMonsterCount == ClashCounts(m0, startCell, endCell);
      ClashCovered(b0, m0, sr, sc, er, ec);
    }

    /** Moves a monster of the player whose turn it is; a move onto an
        opposing monster is a fight. */
    method MoveMonster(playerId: int, sr: int, sc: int, er: int, ec: int) returns (r: Outcome<GameError>)
      requires Valid()
      modifies gameBoard, this`cells, this`playerMonsterCount,
        this`initialPlacement, this`turnIndex, this`round, this`currentPlayer, this`winner, this`isGameOver
      ensures Valid()
      ensures old(initialPlacement) ==> r == Fail(PlacementPhase)
      ensures !old(initialPlacement) && playerId != old(currentPlayer) ==> r == Fail(NotYourTurn)
      ensures !old(initialPlacement) && playerId == old(currentPlayer) ==>
        (r == Fail(InvalidMove) <==> !old(IsValidMove(playerId, sr, sc, er, ec)))
      ensures !old(initialPlacement) && playerId == old(currentPlayer) && old(IsValidMove(playerId, sr, sc, er, ec)) ==>
        (r == Fail(NeverReturns) <==> (sr, sc) == (er, ec))
      ensures !old(initialPlacement) && playerId == old(currentPlayer) && old(IsValidMove(playerId, sr, sc, er, ec)) &&
              (sr, sc) != (er, ec) ==>
        (r == Fail(PathBlocked) <==> Blocks(old(cells), playerId, Between(sr, sc, er, ec)))
      ensures !old(initialPlacement) && playerId == old(currentPlayer) && old(IsValidMove(playerId, sr, sc, er, ec)) &&
              (sr, sc) != (er, ec) && !Blocks(old(cells), playerId, Between(sr, sc, er, ec)) ==>
        r == Pass
      ensures r.Fail? ==> Unchanged()
      ensures r.Pass? ==>
        OnBoard(sr, sc) && OnBoard(er, ec) && (sr, sc) != (er, ec) &&
        MoveOutcome(old(cells), old(playerMonsterCount), cells, playerMonsterCount, playerId, sr, sc, er, ec) &&
        (if BoardCount(cells, playerId) == 0 then NextTurn(old(TurnOf()), TurnOf(), initialMonstersPlaced, playerMonsterCount) else TurnOf() == old(TurnOf()))
    {
      ghost var turn := TurnOf();
      if initialPlacement {
        return Fail(PlacementPhase);
      }
      if playerId != currentPlayer {
        return Fail(NotYourTurn);
      }
      if !IsValidMove(playerId, sr, sc, er, ec) {
        return Fail(InvalidMove);
      }
      if (sr, sc) == (er, ec) {
        // getPath's column loop starts one step away from the end column and
        // keeps moving away from it
        return Fail(NeverReturns);
      }
      var path := GetPath(sr, sc, er, ec);
      PathInside(sr, sc, er, ec);
      var clear := PathIsClear(playerId, path);
      if !clear {
        return Fail(PathBlocked);
      }
      MovePiece(playerId, sr, sc, er, ec);
      assert TurnOf() == turn;
      CheckForNoMovesLeft();
      return Pass;
    }

    /** The effect of an accepted move on the board and the counts. */
    method MovePiece(playerId: int, sr: int, sc: int, er: int, ec: int)
      requires Valid() && OnBoard(sr, sc) && OnBoard(er, ec) && (sr, sc) != (er, ec)
      requires (playerId == 1 || playerId == 2) && cells[sr][sc].player == playerId
      modifies gameBoard, this`cells, this`playerMonsterCount
      ensures Valid()
      ensures MoveOutcome(old(cells), old(playerMonsterCount), cells, playerMonsterCount, playerId, sr, sc, er, ec)
    {
      var startCell := gameBoard[sr, sc];
      var endCell := gameBoard[er, ec];
      if endCell.player != 0 && endCell.player != playerId {
        ResolveConflict(sr, sc, er, ec);
      } else {
        ghost var b0, m0 := cells, playerMonsterCount;
        Put(er, ec, startCell);
        Put(sr, sc, EmptyCell);
        MoveCovered(b0, m0, cells, playerMonsterCount, playerId, sr, sc, er, ec);
      }
    }

    /** gameBoard.flat().filter(...): the current player's cells, row by row. */
    method CurrentPlayerMonsters() returns (mine: seq<Cell>)
      requires Synced()
      ensures mine == BoardOwned(cells, currentPlayer)
    {
      mine := [];
      for r := 0 to Size
        invariant mine == BoardOwned(cells[..r], currentPlayer)
      {
        for c := 0 to Size
          invariant mine == BoardOwned(cells[..r], currentPlayer) + RowOwned(cells[r][..c], currentPlayer)
        {
          RowOwnedPrefix(cells[r], c, currentPlayer);
          if gameBoard[r, c].player == currentPlayer {
            mine := mine + [gameBoard[r, c]];
          }
        }
        assert cells[r][..Size] == cells[r];
        BoardOwnedPrefix(cells, r, currentPlayer);
      }
      assert cells[..Size] == cells;
    }

    /** Ends the current player's turn when none of their monsters can move,
        which under the always-true mobility policy means they own no cell. */
    method CheckForNoMovesLeft()
      requires Valid()
      modifies this`initialPlacement, this`turnIndex, this`round, this`currentPlayer, this`winner, this`isGameOver
      ensures Valid()
      ensures if BoardCount(cells, old(currentPlayer)) == 0 then NextTurn(old(TurnOf()), TurnOf(), initialMonstersPlaced, playerMonsterCount) else TurnOf() == old(TurnOf())
    {
      var currentPlayerMonsters := CurrentPlayerMonsters();
      BoardOwnedCount(cells, currentPlayer);
      var anyCanMove := exists k | 0 <= k < |currentPlayerMonsters| :: CanMonsterMove(currentPlayerMonsters[k]);
      assert |currentPlayerMonsters| > 0 ==> CanMonsterMove(currentPlayerMonsters[0]);
      if |currentPlayerMonsters| == 0 || !anyCanMove {
        EndTurn();
      }
    }

    /** A player with the fewest live monsters; the engine picks at random
        among tied players. */
    method DetermineFirstPlayer() returns (p: int)
      requires 1 in playerMonsterCount && 2 in playerMonsterCount
      ensures p == 1 || p == 2
      ensures playerMonsterCount[p] <= playerMonsterCount[1] && playerMonsterCount[p] <= playerMonsterCount[2]
    {
      var minCount := if playerMonsterCount[1] <= playerMonsterCount[2] then playerMonsterCount[1] else playerMonsterCount[2];
      var tiedPlayers := TiedPlayers(playerMonsterCount, minCount);
      var pick :| 0 <= pick < |tiedPlayers|;
      p := tiedPlayers[pick];
    }

    /** Records a draw or a win once some count has dropped to 0 or below. */
    method CheckForWin()
      requires Fields()
      modifies this`winner, this`isGameOver
      ensures Fields()
      ensures var v := Verdict(playerMonsterCount[1], playerMonsterCount[2]);
        if v == NoWinner then winner == old(winner) && isGameOver == old(isGameOver)
        else winner == v && isGameOver
    {
      if playerMonsterCount[1] <= 0 && playerMonsterCount[2] <= 0 {
        winner := Draw;
        isGameOver := true;
      } else if playerMonsterCount[1] <= 0 {
        winner := Won(2);
        isGameOver := true;
      } else if playerMonsterCount[2] <= 0 {
        winner := Won(1);
        isGameOver := true;
      }
    }

    /** Leaves the placement phase once both players have placed 3, otherwise
        passes the turn; a finished game is left alone. */
    method EndTurn()
      requires Fields()
      modifies this`initialPlacement, this`turnIndex, this`round, this`currentPlayer, this`winner, this`isGameOver
      ensures Fields()
      ensures NextTurn(old(TurnOf()), TurnOf(), initialMonstersPlaced, playerMonsterCount)
    {
      if isGameOver {
        return;
      }
      if initialPlacement && initialMonstersPlaced[1] >= PlacementQuota && initialMonstersPlaced[2] >= PlacementQuota {
        initialPlacement := false;
        var first := DetermineFirstPlayer();
        turnIndex := IndexOf(Players, first);
      } else {
        turnIndex := (turnIndex + 1) % |Players|;
        if turnIndex == 0 {
          round := round + 1;
        }
        currentPlayer := Players[turnIndex];
      }
      CheckForWin();
    }
  }
}
