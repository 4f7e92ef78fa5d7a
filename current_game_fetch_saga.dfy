/** Loading a saved game: the server's turns sorted by turn order and stripped to moves, the
    resulting game, and the action the fetch ends in (frontend/src/sagas/currentGameFetchSaga.ts). */
module CurrentGameFetchSaga {
  import opened TicTacToeTypes

  /** A stored move as the server returns it (api.ts, TurnResponse). */
  datatype TurnResponse = TurnResponse(id: int, turnOrder: int, turn: PlayerFieldValue, xCoord: Coord, yCoord: Coord)

  /** A stored game with its moves, in whatever order the server lists them. */
  datatype GameWithTurnsResponse =
    GameWithTurnsResponse(id: int, title: string, createdAt: string, updatedAt: string, turns: seq<TurnResponse>)

  /** A game loaded from the server: an identity, a title, its log and its cursor. */
  datatype ExistingGame = ExistingGame(id: int, title: string, turns: seq<Turn>, nextTurnIndex: nat) {
    /** The game part the board and the rules work on. */
    function ToGame(): Game {
      Game(nextTurnIndex, turns)
    }
  }

  /** What the request for one game produced: a parsed response, or an exception with its message. */
  datatype ApiResult = Success(data: GameWithTurnsResponse) | Error(message: string)
  datatype FetchOutcome = Returned(result: ApiResult) | Threw(errorMessage: string)

  /** The actions the fetch puts on the store. */
  datatype FetchAction = CurrGameFetchSucceeded(game: ExistingGame) | CurrGameFetchFailed(message: string)

  predicate SortedByTurnOrder(s: seq<TurnResponse>) {
    forall i, j :: 0 <= i < j < |s| ==> s[i].turnOrder <= s[j].turnOrder
  }

  /** Puts t in front of the first element whose turnOrder is not smaller. */
  function Insert(t: TurnResponse, s: seq<TurnResponse>): (r: seq<TurnResponse>)
    requires SortedByTurnOrder(s)
    ensures SortedByTurnOrder(r)
    ensures multiset(r) == multiset(s) + multiset{t}
    ensures r[0] == t || r[0] == s[0]
  {
    if s == [] || t.turnOrder <= s[0].turnOrder then
      ConsSorted(t, s);
      [t] + s
    else
      assert s == [s[0]] + s[1..];
      SortedTail(s);
      var rest := Insert(t, s[1..]);
      ConsSorted(s[0], rest);
      [s[0]] + rest
  }

  /** An element no later in turnOrder than the head of a sorted list can go in front of it. */
  lemma ConsSorted(x: TurnResponse, s: seq<TurnResponse>)
    requires SortedByTurnOrder(s) && (s == [] || x.turnOrder <= s[0].turnOrder)
    ensures SortedByTurnOrder([x] + s)
  {
    forall i, j | 0 <= i < j < |s| + 1
      ensures ([x] + s)[i].turnOrder <= ([x] + s)[j].turnOrder
    {
      if i == 0 {
        assert s[0].turnOrder <= s[j - 1].turnOrder;
      } else {
        assert ([x] + s)[i] == s[i - 1] && ([x] + s)[j] == s[j - 1];
      }
    }
  }

  /** The comparator sort of line 43: ascending turnOrder, a permutation of its input. */
  function SortByTurnOrder(s: seq<TurnResponse>): (r: seq<TurnResponse>)
    ensures SortedByTurnOrder(r)
    ensures multiset(r) == multiset(s)
  {
    if s == [] then []
    else
      assert s == [s[0]] + s[1..];
      Insert(s[0], SortByTurnOrder(s[1..]))
  }

  /** A server turn stripped to the move: id and turnOrder are dropped. */
  function ToTurn(res: TurnResponse): Turn {
    Turn(res.turn, res.xCoord, res.yCoord)
  }

  /** The moves of a list of server turns, position by position. */
  function ToTurns(s: seq<TurnResponse>): (r: seq<Turn>)
    ensures |r| == |s| && forall i :: 0 <= i < |s| ==> r[i] == ToTurn(s[i])
  {
    seq(|s|, i requires 0 <= i < |s| => ToTurn(s[i]))
  }

  lemma ToTurnsAppend(a: seq<TurnResponse>, b: seq<TurnResponse>)
    ensures ToTurns(a + b) == ToTurns(a) + ToTurns(b)
  {
  }

  /** Stripping keeps permutations: equal multisets of server turns give equal multisets of moves. */
  lemma {:induction false} ToTurnsMultiset(a: seq<TurnResponse>, b: seq<TurnResponse>)
    requires multiset(a) == multiset(b)
    ensures multiset(ToTurns(a)) == multiset(ToTurns(b))
    decreases |a|
  {
    if a != [] {
      var j := IndexIn(a[0], a, b);
      RemoveOne(a, b, j);
      ToTurnsMultiset(a[1..], b[..j] + b[j + 1..]);
      ToTurnsMultisetStep(a, b, j);
    }
  }

  /** Matching the first element of a with the j-th of b reduces the claim to the rest of both. */
  lemma ToTurnsMultisetStep(a: seq<TurnResponse>, b: seq<TurnResponse>, j: nat)
    requires a != [] && j < |b| && b[j] == a[0]
    requires multiset(ToTurns(a[1..])) == multiset(ToTurns(b[..j] + b[j + 1..]))
    ensures multiset(ToTurns(a)) == multiset(ToTurns(b))
  {
    ToTurnsSplit(b, j);
    var x := ToTurn(a[0]);
    assert a == [a[0]] + a[1..];
    ToTurnsAppend([a[0]], a[1..]);
    assert ToTurns([a[0]]) == [x];
    assert multiset(ToTurns(a)) == multiset{x} + multiset(ToTurns(a[1..]));
  }

  /** The moves of a list are those of the list without its j-th element, plus that element's move. */
  lemma ToTurnsSplit(s: seq<TurnResponse>, j: nat)
    requires j < |s|
    ensures multiset(ToTurns(s)) == multiset(ToTurns(s[..j] + s[j + 1..])) + multiset{ToTurn(s[j])}
  {
    var left, right := s[..j], s[j + 1..];
    assert s == left + [s[j]] + right;
    ToTurnsAppend(left + [s[j]], right);
    ToTurnsAppend(left, [s[j]]);
    ToTurnsAppend(left, right);
    assert ToTurns([s[j]]) == [ToTurn(s[j])];
  }

  /** Where an element of a sits in b, when the two hold the same elements. */
  lemma IndexIn<T>(x: T, a: seq<T>, b: seq<T>) returns (j: nat)
    requires x in a && multiset(a) == multiset(b)
    ensures j < |b| && b[j] == x
  {
    assert x in multiset(a);
    assert x in b;
    j :| j < |b| && b[j] == x;
  }

  /** Taking the first element of a out of a and the same element out of b keeps the multisets equal. */
  lemma RemoveOne<T>(a: seq<T>, b: seq<T>, j: nat)
    requires a != [] && j < |b| && b[j] == a[0]
    requires multiset(a) == multiset(b)
    ensures multiset(a[1..]) == multiset(b[..j] + b[j + 1..])
  {
    assert a == [a[0]] + a[1..];
    assert b == b[..j] + [b[j]] + b[j + 1..];
    assert multiset(a) == multiset{a[0]} + multiset(a[1..]);
    assert multiset(b) == multiset(b[..j]) + multiset{b[j]} + multiset(b[j + 1..]);
    assert multiset(b[..j] + b[j + 1..]) == multiset(b[..j]) + multiset(b[j + 1..]);
    assert multiset(a[1..]) == multiset(a) - multiset{a[0]};
  }

  lemma RemoveHead<T>(a: seq<T>, b: seq<T>)
    requires a != [] && b != [] && a[0] == b[0]
    requires multiset(a) == multiset(b)
    ensures multiset(a[1..]) == multiset(b[1..])
  {
    assert a == [a[0]] + a[1..];
    assert b == [b[0]] + b[1..];
    assert multiset(a) == multiset{a[0]} + multiset(a[1..]);
    assert multiset(b) == multiset{b[0]} + multiset(b[1..]);
    assert multiset(a[1..]) == multiset(a) - multiset{a[0]};
  }

  /** The loaded log: the server's turns sorted by turnOrder, then stripped to moves. It has the same
      moves as the response, each once. */
  function ConvertedAndSortedTurns(responseTurns: seq<TurnResponse>): (turns: seq<Turn>)
    ensures |turns| == |responseTurns|
    ensures multiset(turns) == multiset(ToTurns(responseTurns))
    ensures exists sorted :: SortedByTurnOrder(sorted) && multiset(sorted) == multiset(responseTurns)
                             && turns == ToTurns(sorted)
  {
    var sorted := SortByTurnOrder(responseTurns);
    ToTurnsMultiset(sorted, responseTurns);
    assert |sorted| == |multiset(sorted)| == |responseTurns|;
    ToTurns(sorted)
  }

  /** The game a response becomes: identity and title copied, the sorted moves, fully played back. */
  function ResponseToStateType(response: GameWithTurnsResponse): (game: ExistingGame)
    ensures game.id == response.id && game.title == response.title
    ensures game.turns == ConvertedAndSortedTurns(response.turns)
    ensures game.nextTurnIndex == |game.turns| == |response.turns|
    ensures game.ToGame().Valid()
  {
    var turns := ConvertedAndSortedTurns(response.turns);
    ExistingGame(response.id, response.title, turns, |turns|)
  }

  /** A successful response becomes a succeeded action with the converted game; an error response
      and a thrown error both become a failed action carrying their message. */
  function CurrentGameFetch(outcome: FetchOutcome): (action: FetchAction)
    ensures action.CurrGameFetchSucceeded? <==> outcome.Returned? && outcome.result.Success?
    ensures action.CurrGameFetchSucceeded? ==> action.game == ResponseToStateType(outcome.result.data)
    ensures outcome.Threw? ==> action == CurrGameFetchFailed(outcome.errorMessage)
    ensures outcome.Returned? && outcome.result.Error? ==> action == CurrGameFetchFailed(outcome.result.message)
  {
    match outcome
    case Returned(Success(data)) => CurrGameFetchSucceeded(ResponseToStateType(data))
    case Returned(Error(message)) => CurrGameFetchFailed(message)
    case Threw(message) => CurrGameFetchFailed(message)
  }

  lemma SortedTail(s: seq<TurnResponse>)
    requires s != [] && SortedByTurnOrder(s)
    ensures SortedByTurnOrder(s[1..])
  {
    forall i, j | 0 <= i < j < |s| - 1 ensures s[1..][i].turnOrder <= s[1..][j].turnOrder {
      assert s[1..][i] == s[i + 1] && s[1..][j] == s[j + 1];
    }
  }

  predicate StrictlySortedByTurnOrder(s: seq<TurnResponse>) {
    forall i, j :: 0 <= i < j < |s| ==> s[i].turnOrder < s[j].turnOrder
  }

  lemma StrictlySortedTail(s: seq<TurnResponse>)
    requires s != [] && StrictlySortedByTurnOrder(s)
    ensures StrictlySortedByTurnOrder(s[1..])
  {
    forall i, j | 0 <= i < j < |s| - 1 ensures s[1..][i].turnOrder < s[1..][j].turnOrder {
      assert s[1..][i] == s[i + 1] && s[1..][j] == s[j + 1];
    }
  }

  /** Two lists sorted by turnOrder with the same elements are equal when one of them has no
      repeated turnOrder. */
  lemma {:induction false} SortedPermutationUnique(a: seq<TurnResponse>, b: seq<TurnResponse>)
    requires SortedByTurnOrder(a)
    requires StrictlySortedByTurnOrder(b)
    requires multiset(a) == multiset(b)
    ensures a == b
    decreases |a|
  {
    assert |a| == |multiset(a)| == |multiset(b)| == |b|;
    if a != [] {
      HeadsEqual(a, b);
      var a', b' := a[1..], b[1..];
      RemoveHead(a, b);
      SortedTail(a);
      StrictlySortedTail(b);
      SortedPermutationUnique(a', b');
      assert a == [a[0]] + a' && b == [b[0]] + b';
    }
  }

  lemma HeadsEqual(a: seq<TurnResponse>, b: seq<TurnResponse>)
    requires a != [] && SortedByTurnOrder(a)
    requires StrictlySortedByTurnOrder(b)
    requires multiset(a) == multiset(b)
    ensures b != [] && a[0] == b[0]
  {
    var j := IndexIn(a[0], a, b);
    var i := IndexIn(b[0], b, a);
    assert a[0].turnOrder <= a[i].turnOrder == b[0].turnOrder;
  }

  /** Saving and loading gives the log back: if the server stored move i of a log with turn_order i
      and returns those rows in any order, the loaded log is the saved one. */
  lemma SaveLoadRoundTrip(log: seq<Turn>, rows: seq<TurnResponse>, responseTurns: seq<TurnResponse>)
    requires |rows| == |log|
    requires forall i :: 0 <= i < |rows| ==> rows[i].turnOrder == i && ToTurn(rows[i]) == log[i]
    requires multiset(responseTurns) == multiset(rows)
    ensures ConvertedAndSortedTurns(responseTurns) == log
  {
    var sorted := SortByTurnOrder(responseTurns);
    SortedPermutationUnique(sorted, rows);
  }
}
