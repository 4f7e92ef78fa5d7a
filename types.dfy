/** Players, field values, moves and games of the tic-tac-toe front end
    (frontend/src/components/ticTacToeTypes.ts). */
module TicTacToeTypes {

  datatype Option<T> = None | Some(value: T)

  /** The two players; Circle moves first. */
  datatype Player = Circle | Cross

  /** What a board cell holds: '' (Nothing), 'O' (Circle's mark) or 'X' (Cross's mark). */
  datatype FieldValue = Nothing | O | X

  /** The values a player can put on the board. */
  type PlayerFieldValue = v: FieldValue | v != Nothing witness O

  /** The board is FieldSize x FieldSize. */
  const FieldSize: nat := 3

  /** A row or column index of the 3 x 3 board. */
  type Coord = i: int | 0 <= i < FieldSize

  /** A board as rows of cells: board[row][column]. */
  type Board = seq<seq<FieldValue>>

  /** One move: the mark placed, its column x and its row y. */
  datatype Turn = Turn(turn: PlayerFieldValue, x: Coord, y: Coord)

  /** A game is its move log and a cursor; the board is never stored. */
  datatype Game = Game(nextTurnIndex: nat, turns: seq<Turn>) {
    /** The cursor points into the log (or just past it). */
    predicate Valid() {
      nextTurnIndex <= |turns|
    }
  }

  /** A well-formed board of the game: FieldSize rows of FieldSize cells. */
  predicate IsField(b: Board) {
    |b| == FieldSize && forall r :: 0 <= r < |b| ==> |b[r]| == FieldSize
  }

  function PlayerToValue(player: Player): (v: PlayerFieldValue)
    ensures FieldValueToPlayer(v) == Some(player)
  {
    match player
    case Circle => O
    case Cross => X
  }

  function FieldValueToPlayer(value: FieldValue): (p: Option<Player>)
    ensures p == None <==> value == Nothing
  {
    match value
    case O => Some(Circle)
    case X => Some(Cross)
    case Nothing => None
  }

  /** Every player mark belongs to exactly one player: the two conversions are inverse. */
  lemma ValueToPlayerRoundTrip(value: PlayerFieldValue)
    ensures PlayerToValue(FieldValueToPlayer(value).value) == value
  {
  }

  function NextPlayer(player: Player): (q: Player)
    ensures q != player
  {
    if player == Circle then Cross else Circle
  }

  /** The player who moved before `player`: undoing NextPlayer. */
  function PreviousPlayer(player: Player): (q: Player)
    ensures NextPlayer(q) == player
    ensures q != player
  {
    NextPlayer(player)
  }

  /** Writes value v into cell (row, col), leaving every other cell and every row length as it was. */
  function SetCell(b: Board, row: nat, col: nat, v: FieldValue): (r: Board)
    requires row < |b| && col < |b[row]|
    ensures |r| == |b|
    ensures forall i :: 0 <= i < |b| ==> |r[i]| == |b[i]|
    ensures forall i, j :: 0 <= i < |b| && 0 <= j < |b[i]| ==>
              r[i][j] == (if i == row && j == col then v else b[i][j])
  {
    b[row := b[row][col := v]]
  }
}
