# Tic-tac-toe game engine

A Dafny model of the game engine of the tic-tac-toe React/Redux front end, in its two generations.

The **turn-log design** (`frontend/src/...`) keeps a game as a log of moves `turns` and a cursor
`nextTurnIndex`, and never stores the board. The model covers:

- `getCurrentField`, which replays the first `nextTurnIndex` moves onto an empty 3 x 3 board;
- `getCurrentPlayer`, which gives Circle at the start and otherwise the opponent of the last move's mark;
- `playerWon`, which scans rows, columns and both diagonals with a run counter;
- the game-over and draw rules, and the click guard in front of `claimField`;
- the `currentGame` slice reducers `reset`, `claimField` (truncate, append, advance) and `clickHistory`;
- loading a saved game: sort the server's turns by `turnOrder`, strip them to moves, put the cursor
  at the end, and map the fetch result to an action.

The **snapshot design** (`frontend/src/features/history/history.ts`, `src/TicTacToe.tsx`) keeps a list
of `{turn, field}` snapshots and an index. The model covers its reducers, win check, draw rule and
click guard. The lemma `LegacyTicTacToe.ClickAgrees` shows the two designs agree click for click:
if the snapshots are the replays of a log, then after a click they are the replays of the new log.

Modules follow the source files:

| module | file |
|---|---|
| `TicTacToeTypes` | `types.dfy`, from `frontend/src/components/ticTacToeTypes.ts` |
| `ConstructField` | `construct_field.dfy`, from `frontend/src/features/currentGame/constructField.ts` |
| `CurrentGameSlice` | `current_game_slice.dfy`, from `frontend/src/features/currentGame/currentGameSlice.ts` |
| `TicTacToe` | `tic_tac_toe.dfy`, from `frontend/src/components/TicTacToe.tsx` |
| `CurrentGameFetchSaga` | `current_game_fetch_saga.dfy`, from `frontend/src/sagas/currentGameFetchSaga.ts` |
| `SnapshotHistory` | `history.dfy`, from `frontend/src/features/history/history.ts` |
| `LegacyTicTacToe` | `legacy_tic_tac_toe.dfy`, from `src/TicTacToe.tsx` |

How the source's structure maps to the model:

- The Redux slices become classes (`GameState`, `HistoryState`) with a field `value` that the
  reducers reassign.
- `getCurrentField` and `playerWon` become methods with loops. Each method is proved against a
  specification function (`Project`, `HasWon`).
- The click handlers become methods `OnClickField` that call the slice methods. Each is proved
  equal to a pure `ClickOutcome`, which the lemmas reason about.

Naming and other conventions:

- **Move coordinates.** The source is inconsistent about move field names:
  - the `Turn` type declares `x_coord`/`y_coord` (`frontend/src/components/ticTacToeTypes.ts:53-57`);
  - `claimField` writes `x_coord: colIdx, y_coord: rowIdx`;
  - `getCurrentField` and the fetch saga use `xCoord`/`yCoord`.

  The model has one `Turn(turn, x, y)`, with x the column and y the row, used by all of them.
- **Legacy helpers.** `src/TicTacToe.tsx:90-97,144-147` define `nextPlayer`, `previousPlayer` and
  `playerToValue` again, identical to those of `ticTacToeTypes.ts`. Both are modelled by the
  `TicTacToeTypes` functions.
- **Legacy win check.** The legacy `playerWon` compares against `field.size` rather than the number
  of rows. Every snapshot has `size == 3` and a 3 x 3 board (`SnapshotHistory.WellFormed`), so both
  generations share `TicTacToe.PlayerWon`.

## Model

| member | source | states |
|---|---|---|
| TicTacToeTypes.PlayerToValue | frontend/src/components/ticTacToeTypes.ts:22-25 | the mark of a player is a player mark (never ''), and converting it back gives the player |
| TicTacToeTypes.FieldValueToPlayer | frontend/src/components/ticTacToeTypes.ts:27-37 | gives no player exactly for the empty value '' |
| TicTacToeTypes.ValueToPlayerRoundTrip | frontend/src/components/ticTacToeTypes.ts:22-37 | converting a player mark to its player and back gives the mark |
| TicTacToeTypes.NextPlayer | frontend/src/components/ticTacToeTypes.ts:39-42 | the next player is never the same player |
| TicTacToeTypes.PreviousPlayer | frontend/src/components/ticTacToeTypes.ts:44-46 | the previous player differs from the player and NextPlayer undoes it; as it is NextPlayer itself, this is also nextPlayer(nextPlayer(p)) == p |
| TicTacToeTypes.SetCell | frontend/src/features/currentGame/constructField.ts:23 | writing one cell keeps the board's shape and changes that cell only |
| ConstructField.Project | frontend/src/features/currentGame/constructField.ts:20-24 | replaying any prefix of the log gives a 3 x 3 board |
| ConstructField.GetCurrentField | frontend/src/features/currentGame/constructField.ts:19-26 | the loop over a fresh copy of the empty board returns the replay of the first nextTurnIndex moves |
| ConstructField.GetCurrentPlayer | frontend/src/features/currentGame/constructField.ts:28-33 | Circle when no move is shown; otherwise a player whose mark differs from the last shown move's |
| ConstructField.ProjectCell | frontend/src/features/currentGame/constructField.ts:21-24 | a cell is empty iff no shown move was played on it (so the empty log gives the empty board); otherwise it holds the mark of the last shown move played on it |
| ConstructField.ProjectIgnoresFuture | frontend/src/features/currentGame/constructField.ts:21 | moves at or after the cursor have no effect on the board |
| ConstructField.DistinctMovesFillCells | frontend/src/features/currentGame/constructField.ts:21-24 | if the first k moves hit distinct cells, the board has exactly k filled cells, each holding its move's mark |
| CurrentGameSlice.Spliced | frontend/src/features/currentGame/currentGameSlice.ts:35 | splice(k) leaves a prefix of the log: the first k moves when k is within the log, the whole log when k is past its end |
| CurrentGameSlice.Claimed | frontend/src/features/currentGame/currentGameSlice.ts:31-38 | the cursor advances by one; on a valid game the log keeps its first nextTurnIndex moves, ends with the move {value, x = colIdx, y = rowIdx}, and has the new cursor as its length |
| CurrentGameSlice.GameState.constructor | frontend/src/features/currentGame/currentGameSlice.ts:5-16 | the slice starts with no moves and the cursor at 0 |
| CurrentGameSlice.GameState.Reset | frontend/src/features/currentGame/currentGameSlice.ts:28-30 | reset replaces the game with the empty one |
| CurrentGameSlice.GameState.ClaimField | frontend/src/features/currentGame/currentGameSlice.ts:31-38 | the new game is Claimed of the old one; a valid game stays valid with the cursor at the end of the log |
| CurrentGameSlice.GameState.ClickHistory | frontend/src/features/currentGame/currentGameSlice.ts:39-41 | the cursor becomes k and the log is untouched; the game is valid iff k is within the log |
| CurrentGameSlice.RewindAndReturn | frontend/src/features/currentGame/currentGameSlice.ts:39-41 | rewinding to k and returning to the end restores the game and its board |
| CurrentGameSlice.ClaimAfterRewind | frontend/src/features/currentGame/currentGameSlice.ts:35-37 | claiming after rewinding to k leaves k+1 moves, keeps the boards up to k, and the new board is the board at k with the one cell written |
| TicTacToe.ScanLine | frontend/src/components/TicTacToe.tsx:76-87 | the run counter reaches the line length iff the line is non-empty and every cell holds the wanted mark |
| TicTacToe.PlayerWon | frontend/src/components/TicTacToe.tsx:72-116 | true iff some row, some column, the diagonal or the anti-diagonal is entirely the player's mark |
| TicTacToe.WinCheckedForLastMover | frontend/src/components/TicTacToe.tsx:14-18 | the win is checked for the mark of the move just played |
| TicTacToe.NoMarkNoWin | frontend/src/components/TicTacToe.tsx:75-77 | a mark absent from the board never wins, so nobody has won on the empty board and a line of the opponent's mark does not count |
| TicTacToe.NotOverAtStart | frontend/src/components/TicTacToe.tsx:17-19 | with the cursor at 0 the game is neither won nor drawn |
| TicTacToe.GameOver | frontend/src/components/TicTacToe.tsx:14-18 | the game is over iff some move is shown and the mark of the last shown move has a full line on the shown board |
| TicTacToe.Draw | frontend/src/components/TicTacToe.tsx:19 | a draw is never also a win; it holds iff nine moves are shown and the ninth did not complete a line of its mark |
| TicTacToe.ClickOutcome | frontend/src/components/TicTacToe.tsx:21-31 | a click keeps the game valid and either changes nothing or keeps the shown moves, drops the later ones and appends one move, with the cursor at the end |
| TicTacToe.ClickEffect | frontend/src/components/TicTacToe.tsx:21-31 | a click on a taken cell or a won or drawn game changes nothing; a click on a free cell of a game in progress is claimed with the mover's mark (claimField with playerToValue(turn)), writes that cell and no other, advances the cursor to the end of the log and hands the move to the other player |
| TicTacToe.OnClickField | frontend/src/components/TicTacToe.tsx:21-33 | the handler leaves the game as ClickOutcome says and keeps it valid |
| TicTacToe.AlternatingCurrentPlayer | frontend/src/features/currentGame/constructField.ts:28-33 | with marks alternating from Circle, the player to move at cursor k is Circle for even k and Cross for odd k |
| TicTacToe.ClickKeepsLegal | frontend/src/components/TicTacToe.tsx:21-31 | clicks keep the game legal: cursor in range, marks alternating from Circle, no cell played twice |
| TicTacToe.LegalGameBoard | frontend/src/components/TicTacToe.tsx:19 | in a legal game the board has as many filled cells as the cursor, the log has at most 9 moves, and a draw means a full board |
| CurrentGameFetchSaga.Insert | frontend/src/sagas/currentGameFetchSaga.ts:43 | inserting into a list sorted by turnOrder keeps it sorted and adds exactly that element |
| CurrentGameFetchSaga.SortByTurnOrder | frontend/src/sagas/currentGameFetchSaga.ts:43 | the result is ordered by non-decreasing turnOrder and is a permutation of the input |
| CurrentGameFetchSaga.ToTurns | frontend/src/sagas/currentGameFetchSaga.ts:44 | each move keeps turn, xCoord and yCoord of the server turn at the same position |
| CurrentGameFetchSaga.ToTurnsMultiset | frontend/src/sagas/currentGameFetchSaga.ts:42-44 | stripping a permutation of server turns gives a permutation of moves |
| CurrentGameFetchSaga.ConvertedAndSortedTurns | frontend/src/sagas/currentGameFetchSaga.ts:41-45 | the loaded log has the response's length and moves, and is the stripping of a turnOrder-sorted permutation of the response |
| CurrentGameFetchSaga.ResponseToStateType | frontend/src/sagas/currentGameFetchSaga.ts:30-39 | id and title are copied, the turns are the converted ones, and the cursor is at the end of the log |
| CurrentGameFetchSaga.CurrentGameFetch | frontend/src/sagas/currentGameFetchSaga.ts:13-24 | success becomes a succeeded action with the converted game; an error status or a thrown error becomes a failed action with its message |
| CurrentGameFetchSaga.SortedPermutationUnique | frontend/src/sagas/currentGameFetchSaga.ts:43 | two turnOrder-sorted permutations of each other are equal when turnOrders are distinct |
| CurrentGameFetchSaga.SaveLoadRoundTrip | frontend/src/sagas/currentGameFetchSaga.ts:41-45 | if move i was stored with turn_order i, loading the rows in any order gives back the saved log |
| SnapshotHistory.ClaimedHistory | frontend/src/features/history/history.ts:37-51 | the index advances by one, the snapshots up to the old index are kept, and there is one more: the old board with (rowIdx, colIdx) set to value, the same size, and nextPlayer to move |
| SnapshotHistory.HistoryState.constructor | frontend/src/features/history/history.ts:5-21 | the history starts at index 0 with one snapshot: Circle to move on the empty 3 x 3 board |
| SnapshotHistory.HistoryState.Reset | frontend/src/features/history/history.ts:34-36 | reset restores the initial history exactly |
| SnapshotHistory.HistoryState.ClaimField | frontend/src/features/history/history.ts:37-51 | the new history is ClaimedHistory of the old one and stays valid |
| SnapshotHistory.HistoryState.ClickHistory | frontend/src/features/history/history.ts:52-54 | the index becomes k and the snapshots are untouched; a k naming a snapshot keeps the history valid |
| LegacyTicTacToe.CurrentState | src/TicTacToe.tsx:11-13 | the shown snapshot is states[index] and holds a 3 x 3 board of size 3 |
| LegacyTicTacToe.PlayerWonOnField | src/TicTacToe.tsx:99-142 | true iff some row, column or diagonal of the snapshot's board is entirely the player's mark |
| LegacyTicTacToe.GameOver | src/TicTacToe.tsx:15-16 | the win is checked for the player before the one to move; nobody has won on the empty board, so the initial history is never over |
| LegacyTicTacToe.Draw | src/TicTacToe.tsx:17 | a draw is never also a win, and it needs the tenth snapshot shown, so ten snapshots exist |
| LegacyTicTacToe.ClickOutcome | src/TicTacToe.tsx:19-33 | a click keeps the history valid and either changes nothing or keeps the snapshots up to the shown one, drops the later ones and adds exactly one, which is shown |
| LegacyTicTacToe.ClickEffect | src/TicTacToe.tsx:21-31 | a click on a taken cell or after a win or draw changes nothing; a click on a free cell of a game in progress is claimed with value playerToValue(turn) and nextPlayer(turn), adding one snapshot with the mover's mark in that cell and the next player to move |
| LegacyTicTacToe.OnClickField | src/TicTacToe.tsx:19-33 | the handler leaves the history as ClickOutcome says and keeps it valid |
| LegacyTicTacToe.InitialHistoryIsEmptyLog | frontend/src/features/history/history.ts:10-13 | the initial history is the snapshot list of the empty move log |
| LegacyTicTacToe.SameGuard | src/TicTacToe.tsx:15-27 | for snapshots replaying a log, both designs see the same board and player, reach the same game-over and draw verdicts, and reject the same clicks |
| LegacyTicTacToe.ClaimAgrees | frontend/src/features/history/history.ts:37-51 | a snapshot claim turns the snapshots of a log into the snapshots of the log after the same claim |
| LegacyTicTacToe.ClickAgrees | src/TicTacToe.tsx:19-33 | both designs agree click for click: snapshots that replay a log still replay the new log after the same click, at the same position |
| LegacyTicTacToe.SnapshotsAlternate | src/TicTacToe.tsx:30 | along the snapshots of an alternating log, Circle moves first and consecutive snapshots alternate the player |

## Left out

- Coordinates outside 0..2 are excluded by the `Coord` type. In the source such a click cannot happen, because cells come from rendering the 3 x 3 board, and a write outside the board would throw or extend the array.
- The moves' `x_coord`/`xCoord` naming clash is resolved to one record, as described above. The model does not capture that an object written with one spelling and read with the other would have undefined coordinates.
- `ConvertedAndSortedTurns` models `Array.prototype.sort` as a pure insertion sort. It does not model that `.sort` also reorders `response.turns` in place, nor the stability of the engine's sort. Only the order by `turnOrder` and the permutation are stated.
- `SaveLoadRoundTrip` assumes the server stores move i with `turn_order` i (tictactoe-server/src/handlers.rs:146-150). The Rust server itself (handlers, model, schema, main) is not part of this model.
- The fetch saga's effects (`call`, `put`, `takeLatest` scheduling and cancellation) are not modelled. `CurrentGameFetch` maps the request's outcome, given as a parameter, to the action it puts. The HTTP client `api.ts` is not part of this model.
- The save saga, the games list saga and slice, the store wiring and all rendering (the JSX, turn text, history tables and games list) are not modelled.
- `CurrentGameSlice.GameState.Reset`: reset replaces the game with the initial one, as the source does; no identity or title of a loaded game is kept.
- `PlayerWon`: columns and diagonals are collected into sequences (`Column`, `Diagonal`, `AntiDiagonal`) and scanned by the same `ScanLine` loop as rows. The counter, early return and result are those of the source; only the indexing into the board is factored out.
- `LegacyTicTacToe.OnClickField`: the snapshot reducers and the handler require a history whose index names a snapshot. The source would read `undefined` and throw; the model does not capture that failure.
