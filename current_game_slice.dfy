/** The store slice holding the game being played: its reducers reset, claimField and
    clickHistory (frontend/src/features/currentGame/currentGameSlice.ts). */
module CurrentGameSlice {
  import opened TicTacToeTypes
  import opened ConstructField

  /** A fresh game: no moves, cursor at the start. */
  const InitialGame: Game := Game(0, [])

  /** The claim a click dispatches: the cell and the mark to put there. */
  datatype ClaimActionPayload = ClaimActionPayload(rowIdx: Coord, colIdx: Coord, value: PlayerFieldValue)

  /** What Array.prototype.splice(k) leaves of the log: its first k moves, or all of it when k is past the end. */
  function Spliced(turns: seq<Turn>, k: nat): (r: seq<Turn>)
    ensures |r| <= |turns| && r == turns[..|r|]
    ensures k <= |turns| ==> |r| == k
    ensures k > |turns| ==> r == turns
  {
    if k <= |turns| then turns[..k] else turns
  }

  /** The game after claimField: the log cut at the cursor, the new move appended, the cursor past it. */
  function Claimed(game: Game, payload: ClaimActionPayload): (r: Game)
    ensures r.nextTurnIndex == game.nextTurnIndex + 1
    ensures game.Valid() ==>
              && r.Valid()
              && |r.turns| == r.nextTurnIndex
              && r.turns[..game.nextTurnIndex] == game.turns[..game.nextTurnIndex]
              && r.turns[game.nextTurnIndex] == Turn(payload.value, payload.colIdx, payload.rowIdx)
  {
    Game(game.nextTurnIndex + 1,
         Spliced(game.turns, game.nextTurnIndex) + [Turn(payload.value, payload.colIdx, payload.rowIdx)])
  }

  /** The slice state: `value` is the game being played. */
  class GameState {
    var value: Game

    predicate Valid()
      reads this
    {
      value.Valid()
    }

    constructor ()
      ensures value == InitialGame && Valid()
    {
      value := InitialGame;
    }

    /** Replaces the game by the initial one; nothing of the old game is kept. */
    method Reset()
      modifies this
      ensures value == InitialGame && Valid()
    {
      value := InitialGame;
    }

    /** Truncates the log at the cursor, appends the move and advances the cursor. */
    method ClaimField(payload: ClaimActionPayload)
      modifies this
      ensures value == Claimed(old(value), payload)
      ensures old(Valid()) ==> Valid() && value.nextTurnIndex == |value.turns|
    {
      var newIndex := value.nextTurnIndex + 1;
      value := value.(turns := Spliced(value.turns, value.nextTurnIndex));
      value := value.(turns := value.turns + [Turn(payload.value, payload.colIdx, payload.rowIdx)]);
      value := value.(nextTurnIndex := newIndex);
    }

    /** Moves the cursor only; the log is left as it is. */
    method ClickHistory(index: nat)
      modifies this
      ensures value.turns == old(value.turns) && value.nextTurnIndex == index
      ensures Valid() <==> index <= |value.turns|
    {
      value := value.(nextTurnIndex := index);
    }
  }

  /** Going back in the history to k and forward again to the end of the log restores the board
      shown before, because moving the cursor never touches the log. */
  method RewindAndReturn(state: GameState, k: nat)
    requires state.Valid() && k <= |state.value.turns|
    requires state.value.nextTurnIndex == |state.value.turns|
    modifies state
    ensures state.value == old(state.value)
    ensures Project(state.value.turns, state.value.nextTurnIndex)
            == old(Project(state.value.turns, state.value.nextTurnIndex))
  {
    state.ClickHistory(k);
    state.ClickHistory(|state.value.turns|);
  }

  /** Claiming after going back to k discards the moves from k on: the boards up to k are the old ones
      and the board after the claim is the one at k with the new move added. */
  lemma {:induction false} ClaimAfterRewind(game: Game, k: nat, payload: ClaimActionPayload)
    requires game.Valid() && k <= |game.turns|
    ensures var r := Claimed(game.(nextTurnIndex := k), payload);
            && |r.turns| == k + 1
            && r.nextTurnIndex == k + 1
            && (forall i :: 0 <= i <= k ==> Project(r.turns, i) == Project(game.turns, i))
            && Project(r.turns, k + 1)
               == SetCell(Project(game.turns, k), payload.rowIdx, payload.colIdx, payload.value)
  {
    var r := Claimed(game.(nextTurnIndex := k), payload);
    forall i | 0 <= i <= k
      ensures Project(r.turns, i) == Project(game.turns, i)
    {
      assert r.turns[..i] == r.turns[..k][..i];
      assert game.turns[..i] == game.turns[..k][..i];
      ProjectIgnoresFuture(r.turns, game.turns, i);
    }
  }
}
