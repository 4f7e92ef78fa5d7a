/** The earlier design of the game state: a list of board snapshots and an index into it
    (frontend/src/features/history/history.ts, with the types of frontend/src/ticTacToeTypes.ts). */
module SnapshotHistory {
  import opened TicTacToeTypes
  import opened ConstructField

  /** A board with its size. */
  datatype Field = Field(size: int, fieldItems: Board)

  /** One snapshot: the player to move and the board. */
  datatype State = State(turn: Player, field: Field)

  /** All snapshots so far and the one shown. */
  datatype History = History(index: nat, states: seq<State>) {
    /** The index names a snapshot, and every snapshot holds a 3 x 3 board. */
    predicate Valid() {
      && index < |states|
      && forall i :: 0 <= i < |states| ==> WellFormed(states[i].field)
    }
  }

  predicate WellFormed(field: Field) {
    field.size == FieldSize && IsField(field.fieldItems)
  }

  /** Circle to move on the empty board, and nothing else. */
  const InitialHistory: History := History(0, [State(Circle, Field(FieldSize, InitialField))])

  /** The claim a click dispatches: the cell, the value to write there and the player to move next. */
  datatype ClaimActionPayload = ClaimActionPayload(rowIdx: Coord, colIdx: Coord, value: FieldValue, nextPlayer: Player)

  /** The history after claimField: snapshots after the shown one dropped, and a new snapshot whose
      board is the shown board with one cell written and whose player is the one in the payload. */
  function ClaimedHistory(h: History, payload: ClaimActionPayload): (r: History)
    requires h.Valid()
    ensures r.Valid()
    ensures r.index == h.index + 1 && |r.states| == h.index + 2
    ensures r.states[..h.index + 1] == h.states[..h.index + 1]
    ensures r.states[r.index].turn == payload.nextPlayer
    ensures r.states[r.index].field.size == h.states[h.index].field.size
    ensures forall row, col :: 0 <= row < FieldSize && 0 <= col < FieldSize ==>
              r.states[r.index].field.fieldItems[row][col] ==
                if row == payload.rowIdx && col == payload.colIdx then payload.value
                else h.states[h.index].field.fieldItems[row][col]
  {
    var current := h.states[h.index];
    var newIndex := h.index + 1;
    var newFieldItems := SetCell(current.field.fieldItems, payload.rowIdx, payload.colIdx, payload.value);
    History(newIndex, h.states[..newIndex] + [State(payload.nextPlayer, Field(current.field.size, newFieldItems))])
  }

  /** The slice state: `value` is the history. */
  class HistoryState {
    var value: History

    constructor ()
      ensures value == InitialHistory && value.Valid()
    {
      value := InitialHistory;
    }

    /** Back to the initial history. */
    method Reset()
      modifies this
      ensures value == InitialHistory && value.Valid()
    {
      value := InitialHistory;
    }

    /** Copies the shown board, writes one cell, drops the later snapshots and appends the new one. */
    method ClaimField(payload: ClaimActionPayload)
      requires value.Valid()
      modifies this
      ensures value == ClaimedHistory(old(value), payload)
      ensures value.Valid()
    {
      var currentState := value.states[value.index];
      var newIndex := value.index + 1;
      var newFieldItems := SetCell(currentState.field.fieldItems, payload.rowIdx, payload.colIdx, payload.value);
      value := value.(states := value.states[..newIndex]);
      value := value.(index := newIndex);
      value := value.(states := value.states + [State(payload.nextPlayer, Field(currentState.field.size, newFieldItems))]);
    }

    /** Shows another snapshot; the snapshots themselves are left as they are. */
    method ClickHistory(index: nat)
      modifies this
      ensures value.states == old(value.states) && value.index == index
      ensures old(value.Valid()) && index < |value.states| ==> value.Valid()
    {
      value := value.(index := index);
    }
  }
}
