/** The game component of the front end: the win check, the game-over and draw rules and the
    click guard in front of claimField (frontend/src/components/TicTacToe.tsx). */
module TicTacToe {
  import opened TicTacToeTypes
  import opened ConstructField
  import opened CurrentGameSlice

  /** An N x N board, N being its number of rows. */
  predicate IsSquare(f: Board) {
    forall r :: 0 <= r < |f| ==> |f[r]| == |f|
  }

  predicate RowFull(f: Board, r: nat, w: FieldValue)
    requires IsSquare(f) && r < |f|
  {
    forall c :: 0 <= c < |f| ==> f[r][c] == w
  }

  predicate ColumnFull(f: Board, c: nat, w: FieldValue)
    requires IsSquare(f) && c < |f|
  {
    forall r :: 0 <= r < |f| ==> f[r][c] == w
  }

  predicate DiagonalFull(f: Board, w: FieldValue)
    requires IsSquare(f)
  {
    forall i :: 0 <= i < |f| ==> f[i][i] == w
  }

  predicate AntiDiagonalFull(f: Board, w: FieldValue)
    requires IsSquare(f)
  {
    forall i :: 0 <= i < |f| ==> f[i][|f| - 1 - i] == w
  }

  /** Reference definition of a win: some row, some column or one of the two diagonals
      of a non-empty board holds w in every cell. */
  predicate HasWon(f: Board, w: FieldValue)
    requires IsSquare(f)
  {
    && |f| > 0
    && (|| (exists r :: 0 <= r < |f| && RowFull(f, r, w))
        || (exists c :: 0 <= c < |f| && ColumnFull(f, c, w))
        || DiagonalFull(f, w)
        || AntiDiagonalFull(f, w))
  }

  /** The run of wanted values ending at the current cell: one longer, or back to 0. */
  function UpdateConsecutive(consecutiveFields: nat, value: FieldValue, wanted: FieldValue): nat {
    if value == wanted then consecutiveFields + 1 else 0
  }

  /** Walks one line counting consecutive wanted values and stops as soon as the count reaches
      the line's length. */
  method ScanLine(line: seq<FieldValue>, wanted: FieldValue) returns (complete: bool)
    ensures complete <==> |line| > 0 && forall i :: 0 <= i < |line| ==> line[i] == wanted
  {
    var consecutiveFields := 0;
    var i := 0;
    while i < |line|
      invariant 0 <= consecutiveFields <= i <= |line|
      invariant consecutiveFields == i <==> forall t :: 0 <= t < i ==> line[t] == wanted
      invariant i > 0 ==> consecutiveFields < |line|
    {
      consecutiveFields := UpdateConsecutive(consecutiveFields, line[i], wanted);
      if consecutiveFields == |line| {
        return true;
      }
      i := i + 1;
    }
    return false;
  }

  function Column(f: Board, c: nat): (line: seq<FieldValue>)
    requires IsSquare(f) && c < |f|
    ensures |line| == |f| && forall i :: 0 <= i < |f| ==> line[i] == f[i][c]
  {
    seq(|f|, i requires 0 <= i < |f| => f[i][c])
  }

  function Diagonal(f: Board): (line: seq<FieldValue>)
    requires IsSquare(f)
    ensures |line| == |f| && forall i :: 0 <= i < |f| ==> line[i] == f[i][i]
  {
    seq(|f|, i requires 0 <= i < |f| => f[i][i])
  }

  function AntiDiagonal(f: Board): (line: seq<FieldValue>)
    requires IsSquare(f)
    ensures |line| == |f| && forall i :: 0 <= i < |f| ==> line[i] == f[i][|f| - 1 - i]
  {
    seq(|f|, i requires 0 <= i < |f| => f[i][|f| - i - 1])
  }

  /** playerWon: rows, then columns, then the two diagonals, each scanned for a full line of
      the player's mark. */
  method PlayerWon(player: Player, field: Board) returns (won: bool)
    requires IsSquare(field)
    ensures won <==> HasWon(field, PlayerToValue(player))
  {
    var fieldSize := |field|;
    var wantedFieldValue := PlayerToValue(player);
    // rows
    var r := 0;
    while r < fieldSize
      invariant r <= fieldSize
      invariant forall r' :: 0 <= r' < r ==> !RowFull(field, r', wantedFieldValue)
    {
      var full := ScanLine(field[r], wantedFieldValue);
      if full {
        assert RowFull(field, r, wantedFieldValue);
        return true;
      }
      r := r + 1;
    }
    // columns
    var c := 0;
    while c < fieldSize
      invariant c <= fieldSize
      invariant forall c' :: 0 <= c' < c ==> !ColumnFull(field, c', wantedFieldValue)
    {
      var full := ScanLine(Column(field, c), wantedFieldValue);
      if full {
        assert ColumnFull(field, c, wantedFieldValue);
        return true;
      }
      c := c + 1;
    }
    // diagonals
    won := ScanLine(Diagonal(field), wantedFieldValue);
    if won {
      return;
    }
    won := ScanLine(AntiDiagonal(field), wantedFieldValue);
  }

  /** gameOver: the player who just moved (the one before the player to move) has a full line.
      Equivalently, some move is shown and its mark has a full line; at the start nobody has won. */
  predicate GameOver(game: Game): (over: bool)
    requires game.Valid()
    ensures over <==> game.nextTurnIndex > 0
                      && HasWon(Project(game.turns, game.nextTurnIndex), game.turns[game.nextTurnIndex - 1].turn)
  {
    NoMarkNoWin(InitialField, X);
    HasWon(Project(game.turns, game.nextTurnIndex), PlayerToValue(PreviousPlayer(GetCurrentPlayer(game))))
  }

  /** draw: nine moves are on the board and none of them won. A draw is never also a win, and it
      needs the ninth move not to have completed a line. */
  predicate Draw(game: Game): (d: bool)
    requires game.Valid()
    ensures d ==> !GameOver(game)
    ensures d <==> game.nextTurnIndex == 9
                   && !HasWon(Project(game.turns, 9), game.turns[8].turn)
  {
    game.nextTurnIndex == 9 && !GameOver(game)
  }

  /** The effect of a click on cell (rowIdx, cellIdx): nothing when the cell is taken or the game is
      won or drawn; otherwise a claim of the cell with the mark of the player to move. Either way the
      game stays valid; a claim keeps the shown moves, drops the later ones and appends one move. */
  function ClickOutcome(game: Game, rowIdx: Coord, cellIdx: Coord): (r: Game)
    requires game.Valid()
    ensures r.Valid()
    ensures r == game
            || (&& r.nextTurnIndex == game.nextTurnIndex + 1 == |r.turns|
                && r.turns[..game.nextTurnIndex] == game.turns[..game.nextTurnIndex])
  {
    if Project(game.turns, game.nextTurnIndex)[rowIdx][cellIdx] != Nothing || GameOver(game) || Draw(game) then
      game
    else
      Claimed(game, ClaimActionPayload(rowIdx, cellIdx, PlayerToValue(GetCurrentPlayer(game))))
  }

  /** A click changes nothing on a taken cell or a finished game; a click on a free cell of a game
      still in progress is claimed: it puts the mover's mark there and nowhere else, advances the
      cursor to the end of the log and hands the move to the other player. */
  lemma ClickEffect(game: Game, rowIdx: Coord, cellIdx: Coord)
    requires game.Valid()
    ensures var board := Project(game.turns, game.nextTurnIndex);
            board[rowIdx][cellIdx] != Nothing || GameOver(game) || Draw(game) ==> ClickOutcome(game, rowIdx, cellIdx) == game
    ensures var board := Project(game.turns, game.nextTurnIndex);
            var p := GetCurrentPlayer(game);
            var r := ClickOutcome(game, rowIdx, cellIdx);
            board[rowIdx][cellIdx] == Nothing && !GameOver(game) && !Draw(game) ==>
              && r != game
              && r == Claimed(game, ClaimActionPayload(rowIdx, cellIdx, PlayerToValue(p)))
              && r.Valid() && r.nextTurnIndex == game.nextTurnIndex + 1 == |r.turns|
              && Project(r.turns, r.nextTurnIndex) == SetCell(board, rowIdx, cellIdx, PlayerToValue(p))
              && GetCurrentPlayer(r) == NextPlayer(p)
  {
    var p := GetCurrentPlayer(game);
    var payload := ClaimActionPayload(rowIdx, cellIdx, PlayerToValue(p));
    ClaimAfterRewind(game, game.nextTurnIndex, payload);
    ValueToPlayerRoundTrip(PlayerToValue(p));
  }

  /** onClickField: derives the player, the board, gameOver and draw, and dispatches claimField
      only for a free cell of a game still in progress. */
  method OnClickField(state: GameState, rowIdx: Coord, cellIdx: Coord)
    requires state.Valid()
    modifies state
    ensures state.Valid()
    ensures state.value == ClickOutcome(old(state.value), rowIdx, cellIdx)
  {
    var currentGame := state.value;
    var turn := GetCurrentPlayer(currentGame);
    var field := GetCurrentField(currentGame);
    var previousTurn := PreviousPlayer(turn);
    var gameOver := PlayerWon(previousTurn, field);
    var draw := currentGame.nextTurnIndex == 9 && !gameOver;
    if field[rowIdx][cellIdx] != Nothing {
      return;
    }
    if gameOver || draw {
      return;
    }
    state.ClaimField(ClaimActionPayload(rowIdx, cellIdx, PlayerToValue(turn)));
  }

  /** The player whose mark the i-th move carries when players alternate from Circle. */
  function PlayerAt(i: nat): Player {
    if i % 2 == 0 then FirstPlayer else NextPlayer(FirstPlayer)
  }

  /** Marks alternate along the log, starting with Circle's. */
  predicate Alternating(turns: seq<Turn>) {
    forall i :: 0 <= i < |turns| ==> turns[i].turn == PlayerToValue(PlayerAt(i))
  }

  /** A game reachable from a reset by clicks: cursor in range, marks alternating, no cell played twice. */
  predicate Legal(game: Game) {
    game.Valid() && Alternating(game.turns) && DistinctCells(game.turns)
  }

  /** The mark whose win is checked is the mark of the last move before the cursor. */
  lemma WinCheckedForLastMover(game: Game)
    requires game.Valid() && game.nextTurnIndex > 0
    ensures PlayerToValue(PreviousPlayer(GetCurrentPlayer(game))) == game.turns[game.nextTurnIndex - 1].turn
  {
    ValueToPlayerRoundTrip(game.turns[game.nextTurnIndex - 1].turn);
  }

  /** A board on which w appears nowhere is not won by w; in particular the empty board is won by nobody. */
  lemma NoMarkNoWin(f: Board, w: FieldValue)
    requires IsSquare(f)
    requires forall r, c :: 0 <= r < |f| && 0 <= c < |f| ==> f[r][c] != w
    ensures !HasWon(f, w)
  {
    if |f| > 0 {
      assert !DiagonalFull(f, w) by { assert f[0][0] != w; }
      assert !AntiDiagonalFull(f, w) by { assert f[0][|f| - 1] != w; }
      forall r | 0 <= r < |f| ensures !RowFull(f, r, w) && !ColumnFull(f, r, w) {
        assert f[r][0] != w && f[0][r] != w;
      }
    }
  }

  /** At the start of a game nobody has won and it is not a draw. */
  lemma NotOverAtStart(turns: seq<Turn>)
    ensures !GameOver(Game(0, turns)) && !Draw(Game(0, turns))
  {
    NoMarkNoWin(InitialField, PlayerToValue(PreviousPlayer(FirstPlayer)));
  }

  /** With alternating marks the player to move is fixed by the parity of the cursor. */
  lemma AlternatingCurrentPlayer(game: Game)
    requires game.Valid() && Alternating(game.turns)
    ensures GetCurrentPlayer(game) == PlayerAt(game.nextTurnIndex)
  {
    var k := game.nextTurnIndex;
    if k > 0 {
      var p := PlayerAt(k - 1);
      assert game.turns[k - 1].turn == PlayerToValue(p);
      assert FieldValueToPlayer(game.turns[k - 1].turn).value == p;
      if (k - 1) % 2 == 0 {
        assert k % 2 == 1;
      } else {
        assert k % 2 == 0;
      }
    }
  }

  /** Clicks keep a game legal: a claim only goes to a free cell and carries the mark of the
      player whose turn the parity of the cursor says it is. */
  lemma ClickKeepsLegal(game: Game, rowIdx: Coord, cellIdx: Coord)
    requires Legal(game)
    ensures Legal(ClickOutcome(game, rowIdx, cellIdx))
  {
    var k := game.nextTurnIndex;
    var r := ClickOutcome(game, rowIdx, cellIdx);
    if r != game {
      var t := Turn(PlayerToValue(GetCurrentPlayer(game)), cellIdx, rowIdx);
      assert r.turns == game.turns[..k] + [t];
      AlternatingCurrentPlayer(game);
      ProjectCell(game.turns, k, rowIdx, cellIdx);
      forall i, j | 0 <= i < j < |r.turns|
        ensures !WritesCell(r.turns[j], r.turns[i].y, r.turns[i].x)
      {
        if j == k {
          assert r.turns[i] == game.turns[i];
        } else {
          assert r.turns[i] == game.turns[i] && r.turns[j] == game.turns[j];
        }
      }
      forall i | 0 <= i < |r.turns|
        ensures r.turns[i].turn == PlayerToValue(PlayerAt(i))
      {
        if i < k {
          assert r.turns[i] == game.turns[i];
        }
      }
    }
  }

  /** All cells of the board, as (row, column) pairs: FieldSize * FieldSize of them. */
  function AllCells(): (cells: set<(int, int)>)
    ensures forall row, col :: (row, col) in cells <==> 0 <= row < FieldSize && 0 <= col < FieldSize
    ensures |cells| == FieldSize * FieldSize
  {
    var cells := {(0, 0), (0, 1), (0, 2), (1, 0), (1, 1), (1, 2), (2, 0), (2, 1), (2, 2)};
    assert |{(0, 0), (0, 1), (0, 2)}| == 3;
    assert |{(0, 0), (0, 1), (0, 2), (1, 0), (1, 1), (1, 2)}| == 6;
    cells
  }

  /** In a legal game the board holds exactly as many marks as the cursor counts, the log has at
      most nine moves, and a drawn game has every cell taken. */
  lemma LegalGameBoard(game: Game)
    requires Legal(game)
    ensures |FilledCells(Project(game.turns, game.nextTurnIndex))| == game.nextTurnIndex
    ensures |game.turns| <= 9
    ensures Draw(game) ==> FilledCells(Project(game.turns, game.nextTurnIndex)) == AllCells()
  {
    var k := game.nextTurnIndex;
    DistinctPrefix(game.turns, k);
    DistinctMovesFillCells(game.turns, k);
    assert game.turns[..|game.turns|] == game.turns;
    DistinctMovesFillCells(game.turns, |game.turns|);
    BoardCells(Project(game.turns, |game.turns|));
    BoardCells(Project(game.turns, k));
  }

  /** A board has at most nine filled cells, and exactly nine only when every cell is filled. */
  lemma BoardCells(b: Board)
    requires IsField(b)
    ensures |FilledCells(b)| <= 9
    ensures |FilledCells(b)| == 9 ==> FilledCells(b) == AllCells()
  {
    assert FilledCells(b) <= AllCells();
    SubsetCardinality(FilledCells(b), AllCells());
  }

  /** A subset is no larger than its superset, and equal to it when as large. */
  lemma SubsetCardinality<T>(a: set<T>, b: set<T>)
    requires a <= b
    ensures |a| <= |b|
    ensures |a| == |b| ==> a == b
  {
    assert b == a + (b - a);
    assert |b| == |a| + |b - a|;
  }
}
