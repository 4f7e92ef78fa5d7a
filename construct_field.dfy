/** The board projection and the player to move, derived from a game's move log
    (frontend/src/features/currentGame/constructField.ts). */
module ConstructField {
  import opened TicTacToeTypes

  /** The all-empty 3 x 3 board every projection starts from. */
  const InitialField: Board := [
    [Nothing, Nothing, Nothing],
    [Nothing, Nothing, Nothing],
    [Nothing, Nothing, Nothing]
  ]

  const FirstPlayer: Player := Circle

  /** Reference definition of the board: the first k moves replayed, in order, onto InitialField. */
  function Project(turns: seq<Turn>, k: nat): (b: Board)
    requires k <= |turns|
    ensures IsField(b)
    decreases k
  {
    if k == 0 then InitialField
    else
      var t := turns[k - 1];
      SetCell(Project(turns, k - 1), t.y, t.x, t.turn)
  }

  /** Replays the moves before the cursor onto a fresh copy of the empty board. */
  method GetCurrentField(game: Game) returns (field: Board)
    requires game.Valid()
    ensures field == Project(game.turns, game.nextTurnIndex)
  {
    field := InitialField;
    var i := 0;
    while i < game.nextTurnIndex
      invariant i <= game.nextTurnIndex
      invariant field == Project(game.turns, i)
    {
      var turn := game.turns[i];
      field := field[turn.y := field[turn.y][turn.x := turn.turn]];
      i := i + 1;
    }
  }

  /** Whose turn it is: the opponent of the last move before the cursor, or Circle at the start. */
  function GetCurrentPlayer(game: Game): (p: Player)
    requires game.Valid()
    ensures game.nextTurnIndex == 0 ==> p == FirstPlayer
    ensures game.nextTurnIndex > 0 ==> PlayerToValue(p) != game.turns[game.nextTurnIndex - 1].turn
  {
    if game.nextTurnIndex > 0 then
      NextPlayer(FieldValueToPlayer(game.turns[game.nextTurnIndex - 1].turn).value)
    else
      FirstPlayer
  }

  /** Move t was played on cell (row, col). */
  predicate WritesCell(t: Turn, row: int, col: int) {
    t.y == row && t.x == col
  }

  /** Cell (row, col) of the projection holds the mark of the last move before k played there,
      and is empty exactly when no move before k played there. */
  lemma {:induction false} ProjectCell(turns: seq<Turn>, k: nat, row: Coord, col: Coord)
    requires k <= |turns|
    ensures Project(turns, k)[row][col] == Nothing <==>
              forall i :: 0 <= i < k ==> !WritesCell(turns[i], row, col)
    ensures Project(turns, k)[row][col] != Nothing ==>
              exists i :: 0 <= i < k && WritesCell(turns[i], row, col) &&
                Project(turns, k)[row][col] == turns[i].turn &&
                forall j :: i < j < k ==> !WritesCell(turns[j], row, col)
  {
    if k > 0 {
      ProjectCell(turns, k - 1, row, col);
      var b := Project(turns, k);
      if WritesCell(turns[k - 1], row, col) {
        assert b[row][col] == turns[k - 1].turn;
      } else {
        assert b[row][col] == Project(turns, k - 1)[row][col];
      }
    }
  }

  /** Moves at or after the cursor have no effect on the board. */
  lemma {:induction false} ProjectIgnoresFuture(turns: seq<Turn>, other: seq<Turn>, k: nat)
    requires k <= |turns| && k <= |other|
    requires turns[..k] == other[..k]
    ensures Project(turns, k) == Project(other, k)
  {
    if k > 0 {
      assert turns[..k - 1] == other[..k - 1] by {
        assert turns[..k - 1] == turns[..k][..k - 1];
        assert other[..k - 1] == other[..k][..k - 1];
      }
      ProjectIgnoresFuture(turns, other, k - 1);
      assert turns[k - 1] == turns[..k][k - 1] == other[k - 1];
    }
  }

  /** No two moves of the log were played on the same cell. */
  predicate DistinctCells(turns: seq<Turn>) {
    forall i, j :: 0 <= i < j < |turns| ==> !WritesCell(turns[j], turns[i].y, turns[i].x)
  }

  lemma DistinctPrefix(turns: seq<Turn>, m: nat)
    requires m <= |turns| && DistinctCells(turns)
    ensures DistinctCells(turns[..m])
  {
  }

  /** The occupied cells of a board, as (row, column) pairs. */
  function FilledCells(b: Board): set<(int, int)>
    requires IsField(b)
  {
    set row, col | 0 <= row < FieldSize && 0 <= col < FieldSize && b[row][col] != Nothing :: (row, col)
  }

  /** If the first k moves hit distinct cells, the board has exactly k occupied cells,
      each holding the mark of the move played there. */
  lemma {:induction false} DistinctMovesFillCells(turns: seq<Turn>, k: nat)
    requires k <= |turns|
    requires DistinctCells(turns[..k])
    ensures |FilledCells(Project(turns, k))| == k
    ensures forall i :: 0 <= i < k ==> Project(turns, k)[turns[i].y][turns[i].x] == turns[i].turn
  {
    if k > 0 {
      assert turns[..k - 1] == turns[..k][..k - 1];
      DistinctPrefix(turns[..k], k - 1);
      DistinctMovesFillCells(turns, k - 1);
      var t := turns[k - 1];
      var before := Project(turns, k - 1);
      var after := Project(turns, k);
      LastMoveOnFreshCell(turns, k);
      ProjectCell(turns, k - 1, t.y, t.x);
      FillEmptyCell(before, t.y, t.x, t.turn);
    }
  }

  /** With distinct cells, no earlier move was played on the cell of move k - 1. */
  lemma LastMoveOnFreshCell(turns: seq<Turn>, k: nat)
    requires 0 < k <= |turns| && DistinctCells(turns[..k])
    ensures forall i :: 0 <= i < k - 1 ==> !WritesCell(turns[i], turns[k - 1].y, turns[k - 1].x)
  {
    forall i | 0 <= i < k - 1
      ensures !WritesCell(turns[i], turns[k - 1].y, turns[k - 1].x)
    {
      assert turns[..k][i] == turns[i] && turns[..k][k - 1] == turns[k - 1];
    }
  }

  /** Writing a mark into an empty cell adds exactly that cell to the filled ones. */
  lemma FillEmptyCell(b: Board, row: Coord, col: Coord, v: PlayerFieldValue)
    requires IsField(b) && b[row][col] == Nothing
    ensures (row, col) !in FilledCells(b)
    ensures FilledCells(SetCell(b, row, col, v)) == FilledCells(b) + {(row, col)}
  {
  }
}
