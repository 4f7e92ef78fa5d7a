/** The game component of the earlier snapshot design: win check, draw rule and click guard over
    the snapshot history (src/TicTacToe.tsx), and how that design relates to the move-log design. */
module LegacyTicTacToe {
  import opened TicTacToeTypes
  import opened ConstructField
  import opened SnapshotHistory
  import CurrentGameSlice
  import TicTacToe

  /** The snapshot on display; its player and board drive everything else. */
  function CurrentState(h: History): (s: State)
    requires h.Valid()
    ensures WellFormed(s.field)
  {
    h.states[h.index]
  }

  /** playerWon over a sized field: a full row, column or diagonal of field.size cells of the player's mark. */
  method PlayerWonOnField(player: Player, field: Field) returns (won: bool)
    requires WellFormed(field)
    ensures won <==> TicTacToe.HasWon(field.fieldItems, PlayerToValue(player))
  {
    won := TicTacToe.PlayerWon(player, field.fieldItems);
  }

  /** gameOver: the player before the one to move has a full line on the shown board. Nobody has
      won on the empty board, so the initial history is never over. */
  predicate GameOver(h: History): (over: bool)
    requires h.Valid()
    ensures CurrentState(h).field.fieldItems == InitialField ==> !over
  {
    var s := CurrentState(h);
    TicTacToe.NoMarkNoWin(InitialField, PlayerToValue(PreviousPlayer(s.turn)));
    TicTacToe.HasWon(s.field.fieldItems, PlayerToValue(PreviousPlayer(s.turn)))
  }

  /** draw: the tenth snapshot is shown and nobody won. A draw is never also a win, and it can only be
      reached after nine claims, with ten snapshots in the history. */
  predicate Draw(h: History): (d: bool)
    requires h.Valid()
    ensures d ==> !GameOver(h)
    ensures d ==> h.index == 9 && |h.states| >= 10
  {
    h.index == 9 && !GameOver(h)
  }

  /** The effect of a click: nothing on a taken cell or a finished game; otherwise a claim with the
      mark of the player to move, the next snapshot going to the other player. Either way the history
      stays valid; a claim keeps the snapshots up to the shown one, drops the later ones and adds one. */
  function ClickOutcome(h: History, rowIdx: Coord, cellIdx: Coord): (r: History)
    requires h.Valid()
    ensures r.Valid()
    ensures r == h
            || (&& r.index == h.index + 1 == |r.states| - 1
                && r.states[..h.index + 1] == h.states[..h.index + 1])
  {
    var s := CurrentState(h);
    if s.field.fieldItems[rowIdx][cellIdx] != Nothing || GameOver(h) || Draw(h) then h
    else ClaimedHistory(h, ClaimActionPayload(rowIdx, cellIdx, PlayerToValue(s.turn), NextPlayer(s.turn)))
  }

  /** A click changes nothing on a taken cell or a finished game; a click on a free cell of a game
      still in progress is claimed: it adds one snapshot, the shown board with the mover's mark in
      that cell and the other player to move, and keeps the snapshots up to the shown one. */
  lemma ClickEffect(h: History, rowIdx: Coord, cellIdx: Coord)
    requires h.Valid()
    ensures var board := CurrentState(h).field.fieldItems;
            board[rowIdx][cellIdx] != Nothing || GameOver(h) || Draw(h) ==> ClickOutcome(h, rowIdx, cellIdx) == h
    ensures var s := CurrentState(h);
            var r := ClickOutcome(h, rowIdx, cellIdx);
            s.field.fieldItems[rowIdx][cellIdx] == Nothing && !GameOver(h) && !Draw(h) ==>
              && r != h
              && r == ClaimedHistory(h, ClaimActionPayload(rowIdx, cellIdx, PlayerToValue(s.turn), NextPlayer(s.turn)))
              && r.index == h.index + 1 && |r.states| == h.index + 2
              && r.states[..h.index + 1] == h.states[..h.index + 1]
              && CurrentState(r) == State(NextPlayer(s.turn),
                                          Field(FieldSize, SetCell(s.field.fieldItems, rowIdx, cellIdx, PlayerToValue(s.turn))))
  {
  }

  /** onClickField of the snapshot design. */
  method OnClickField(state: HistoryState, rowIdx: Coord, cellIdx: Coord)
    requires state.value.Valid()
    modifies state
    ensures state.value.Valid()
    ensures state.value == ClickOutcome(old(state.value), rowIdx, cellIdx)
  {
    var history := state.value;
    var currState := history.states[history.index];
    var turn := currState.turn;
    var field := currState.field;
    var previousTurn := PreviousPlayer(turn);
    var gameOver := PlayerWonOnField(previousTurn, field);
    var draw := history.index == 9 && !gameOver;
    if field.fieldItems[rowIdx][cellIdx] != Nothing {
      return;
    }
    if gameOver || draw {
      return;
    }
    state.ClaimField(ClaimActionPayload(rowIdx, cellIdx, PlayerToValue(turn), NextPlayer(turn)));
  }

  /** The snapshot the move-log design shows at cursor i. */
  function Snapshot(log: seq<Turn>, i: nat): State
    requires i <= |log|
  {
    State(GetCurrentPlayer(Game(i, log)), Field(FieldSize, Project(log, i)))
  }

  /** The snapshots are exactly what replaying the log shows at each cursor position. */
  predicate SnapshotsOf(states: seq<State>, log: seq<Turn>) {
    |states| == |log| + 1 && forall i :: 0 <= i < |states| ==> states[i] == Snapshot(log, i)
  }

  /** The initial history is the snapshot list of the empty log. */
  lemma InitialHistoryIsEmptyLog()
    ensures SnapshotsOf(InitialHistory.states, [])
  {
  }

  /** The snapshot at cursor i depends only on the first i moves. */
  lemma SnapshotIgnoresFuture(log: seq<Turn>, other: seq<Turn>, i: nat)
    requires i <= |log| && i <= |other| && log[..i] == other[..i]
    ensures Snapshot(log, i) == Snapshot(other, i)
  {
    ProjectIgnoresFuture(log, other, i);
    if i > 0 {
      assert log[i - 1] == log[..i][i - 1] == other[i - 1];
    }
  }

  /** Both designs see the same board, the same player to move and so the same click guard. */
  lemma SameGuard(h: History, log: seq<Turn>, rowIdx: Coord, cellIdx: Coord)
    requires h.Valid() && SnapshotsOf(h.states, log)
    ensures CurrentState(h) == Snapshot(log, h.index)
    ensures GameOver(h) == TicTacToe.GameOver(Game(h.index, log))
    ensures Draw(h) == TicTacToe.Draw(Game(h.index, log))
    ensures (ClickOutcome(h, rowIdx, cellIdx) == h)
            == (TicTacToe.ClickOutcome(Game(h.index, log), rowIdx, cellIdx) == Game(h.index, log))
  {
  }

  /** Cutting both lists after position k keeps the snapshots up to k those of the log. */
  lemma SnapshotsPrefix(states: seq<State>, log: seq<Turn>, newStates: seq<State>, newLog: seq<Turn>, k: nat)
    requires SnapshotsOf(states, log) && k < |states|
    requires k < |newStates| && newStates[..k + 1] == states[..k + 1]
    requires k <= |newLog| && newLog[..k] == log[..k]
    ensures forall i :: 0 <= i <= k ==> newStates[i] == Snapshot(newLog, i)
  {
    forall i | 0 <= i <= k
      ensures newStates[i] == Snapshot(newLog, i)
    {
      assert newStates[i] == newStates[..k + 1][i] == states[i];
      assert newLog[..i] == newLog[..k][..i] == log[..k][..i] == log[..i];
      SnapshotIgnoresFuture(newLog, log, i);
    }
  }

  /** A claim in both designs: the new snapshot list is that of the new log. */
  lemma ClaimAgrees(h: History, log: seq<Turn>, rowIdx: Coord, cellIdx: Coord)
    requires h.Valid() && SnapshotsOf(h.states, log)
    ensures var p := CurrentState(h).turn;
            var r := ClaimedHistory(h, ClaimActionPayload(rowIdx, cellIdx, PlayerToValue(p), NextPlayer(p)));
            var g := CurrentGameSlice.Claimed(Game(h.index, log), CurrentGameSlice.ClaimActionPayload(rowIdx, cellIdx, PlayerToValue(p)));
            SnapshotsOf(r.states, g.turns)
  {
    var k := h.index;
    var p := CurrentState(h).turn;
    var r := ClaimedHistory(h, ClaimActionPayload(rowIdx, cellIdx, PlayerToValue(p), NextPlayer(p)));
    var payload := CurrentGameSlice.ClaimActionPayload(rowIdx, cellIdx, PlayerToValue(p));
    var g := CurrentGameSlice.Claimed(Game(k, log), payload);
    SnapshotsPrefix(h.states, log, r.states, g.turns, k);
    CurrentGameSlice.ClaimAfterRewind(Game(k, log), k, payload);
    ValueToPlayerRoundTrip(PlayerToValue(p));
    assert r.states[k + 1] == Snapshot(g.turns, k + 1);
  }

  /** The two designs agree on clicks: if the snapshots are those of a log, a click on the snapshot
      history gives the snapshots of the log the same click produces in the move-log design, and
      both show the same position. */
  lemma ClickAgrees(h: History, log: seq<Turn>, rowIdx: Coord, cellIdx: Coord)
    requires h.Valid() && SnapshotsOf(h.states, log)
    ensures var g := TicTacToe.ClickOutcome(Game(h.index, log), rowIdx, cellIdx);
            var r := ClickOutcome(h, rowIdx, cellIdx);
            SnapshotsOf(r.states, g.turns) && r.index == g.nextTurnIndex
  {
    SameGuard(h, log, rowIdx, cellIdx);
    ClaimAgrees(h, log, rowIdx, cellIdx);
  }

  /** Along the snapshots of a log whose marks alternate, the player to move alternates from Circle. */
  lemma SnapshotsAlternate(states: seq<State>, log: seq<Turn>)
    requires SnapshotsOf(states, log) && TicTacToe.Alternating(log)
    ensures states[0].turn == Circle
    ensures forall i :: 0 <= i < |states| - 1 ==> states[i + 1].turn == NextPlayer(states[i].turn)
  {
    forall i | 0 <= i < |states|
      ensures states[i].turn == TicTacToe.PlayerAt(i)
    {
      TicTacToe.AlternatingCurrentPlayer(Game(i, log));
    }
  }
}
