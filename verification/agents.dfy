/** The agents' move choice: the reflex agent, the one-ply search agent, the
    random agent, and the default score evaluation. */
module Agents {
  import opened Results
  import opened Extrema
  import Lists
  import Selection
  import Reflex

  /** The moves of the game; `Stop` is the no-op move. */
  datatype Direction = North | South | East | West | Stop

  /** `scoreEvaluationFunction`: the agent's own entry of the state's score
      vector, with Python's subscript rules (negative indices count from the
      back, anything else out of range raises IndexError). */
  function ScoreEvaluation(state: Reflex.GameView, index: int): (r: Result<int>)
    ensures r.Ok? <==> -|state.score| <= index < |state.score|
    ensures r.Err? ==> r.error == IndexOutOfRange
    ensures 0 <= index < |state.score| ==> r == Ok(state.score[index])
    ensures r.Ok? ==> r.value in state.score
  {
    Lists.PyIndex(state.score, index)
  }

  /** `[eval(m) for m in moves]`: evaluates the moves in order, and the first
      evaluation that raises aborts the whole list. */
  function EvaluateAll<M>(moves: seq<M>, eval: M -> Result<int>): (r: Result<seq<int>>)
    ensures r.Ok? <==> forall i :: 0 <= i < |moves| ==> eval(moves[i]).Ok?
    ensures r.Ok? ==> |r.value| == |moves|
    ensures r.Ok? ==> forall i :: 0 <= i < |moves| ==> r.value[i] == eval(moves[i]).value
    ensures r.Err? ==> exists i :: FirstFailure(moves, eval, i) && eval(moves[i]) == Err(r.error)
  {
    if |moves| == 0 then Ok([])
    else
      match eval(moves[0])
      case Err(e) =>
        assert FirstFailure(moves, eval, 0);
        Err(e)
      case Ok(v) =>
        match EvaluateAll(moves[1..], eval)
        case Err(e) =>
          var i :| FirstFailure(moves[1..], eval, i) && eval(moves[1..][i]) == Err(e);
          assert FirstFailure(moves, eval, i + 1);
          Err(e)
        case Ok(vs) => Ok([v] + vs)
  }

  /** True when moves[i] is the first move whose evaluation fails. */
  predicate FirstFailure<M>(moves: seq<M>, eval: M -> Result<int>, i: int) {
    0 <= i < |moves| && eval(moves[i]).Err? && forall j :: 0 <= j < i ==> eval(moves[j]).Ok?
  }

  /** True when moves[i] evaluates, and no move evaluates higher. */
  predicate IsBestMove<M>(moves: seq<M>, eval: M -> Result<int>, i: int) {
    && 0 <= i < |moves|
    && (forall j :: 0 <= j < |moves| ==> eval(moves[j]).Ok?)
    && forall j :: 0 <= j < |moves| ==> eval(moves[j]).value <= eval(moves[i]).value
  }

  /** The selection shared by both searching agents: score every move, take
      the maximum, and return a move at any index attaining it. Fails when an
      evaluation fails, and, like max(), when there are no moves. */
  method ChooseBest<M>(moves: seq<M>, eval: M -> Result<int>) returns (r: Result<M>)
    ensures r.Ok? <==> (|moves| > 0 && forall i :: 0 <= i < |moves| ==> eval(moves[i]).Ok?)
    ensures |moves| == 0 ==> r == Err(EmptySequence)
    ensures r.Err? && |moves| > 0 ==> exists i :: FirstFailure(moves, eval, i) && eval(moves[i]) == Err(r.error)
    ensures r.Ok? ==> exists i :: IsBestMove(moves, eval, i) && r.value == moves[i]
    ensures r.Ok? ==> r.value in moves && eval(r.value).Ok?
    ensures r.Ok? ==> forall m :: m in moves ==> eval(m).Ok? && eval(m).value <= eval(r.value).value
  {
    match EvaluateAll(moves, eval)
    case Err(e) =>
      r := Err(e);
    case Ok(scores) =>
      var pick := Selection.PickBest(scores);
      match pick
      case Err(e) =>
        r := Err(e);
      case Ok(i) =>
        assert IsArgMax(scores, i);
        assert IsBestMove(moves, eval, i);
        r := Ok(moves[i]);
  }

  /** `ReflexAgent.getAction`: scores each legal move with the reflex
      heuristic on its successor and returns one of the best. The successor
      function stands for the game's successor generation. */
  method ReflexGetAction(current: Reflex.GameView, legalMoves: seq<Direction>,
                         successor: Direction -> Reflex.GameView, index: int,
                         dist: (Reflex.Pos, Reflex.Pos) -> int)
    returns (r: Result<Direction>)
    ensures r.Ok? <==> (|legalMoves| > 0 &&
              forall m :: m in legalMoves ==> Reflex.Evaluate(current, successor(m), index, dist).Ok?)
    ensures |legalMoves| == 0 ==> r == Err(EmptySequence)
    ensures r.Err? && |legalMoves| > 0 ==>
              exists i :: 0 <= i < |legalMoves| &&
                Reflex.Evaluate(current, successor(legalMoves[i]), index, dist) == Err(r.error) &&
                forall j :: 0 <= j < i ==> Reflex.Evaluate(current, successor(legalMoves[j]), index, dist).Ok?
    ensures r.Ok? ==> r.value in legalMoves
    ensures r.Ok? ==> forall m :: m in legalMoves ==>
              Reflex.Evaluate(current, successor(m), index, dist).value
              <= Reflex.Evaluate(current, successor(r.value), index, dist).value
    ensures r.Ok? && (exists m :: m in legalMoves &&
                        Reflex.Evaluate(current, successor(m), index, dist).value > Reflex.StayPenalty) ==>
              successor(r.value).pacman != current.pacman
  {
    var eval := (m: Direction) => Reflex.Evaluate(current, successor(m), index, dist);
    r := ChooseBest(legalMoves, eval);
    if r.Err? && |legalMoves| > 0 {
      var i :| FirstFailure(legalMoves, eval, i) && eval(legalMoves[i]) == Err(r.error);
    }
  }

  /** The legal moves with the first `Stop` removed: the moves the searching
      agent considers. */
  function Candidates(legalMoves: seq<Direction>): Result<seq<Direction>> {
    Lists.RemoveFirst(legalMoves, Stop)
  }

  /** `MultiPacmanAgent.getAction`: drops the first `Stop` from the legal
      moves (an error when there is none), evaluates the successor of each
      remaining move one ply ahead, and returns one of the best. There is no
      recursion and no ghost turn. */
  method MultiGetAction(legalMoves: seq<Direction>, successor: Direction -> Reflex.GameView,
                        evaluation: Reflex.GameView -> Result<int>)
    returns (r: Result<Direction>)
    ensures Stop !in legalMoves ==> r == Err(NotInList)
    ensures legalMoves == [Stop] ==> r == Err(EmptySequence)
    ensures Stop in legalMoves ==>
              (r.Ok? <==> (|legalMoves| > 1 &&
                           forall m :: m in Candidates(legalMoves).value ==> evaluation(successor(m)).Ok?))
    ensures r.Err? && Stop in legalMoves && |legalMoves| > 1 ==>
              exists i :: 0 <= i < |Candidates(legalMoves).value| &&
                evaluation(successor(Candidates(legalMoves).value[i])) == Err(r.error) &&
                forall j :: 0 <= j < i ==> evaluation(successor(Candidates(legalMoves).value[j])).Ok?
    ensures r.Ok? ==> Stop in legalMoves && r.value in Candidates(legalMoves).value && r.value in legalMoves
    ensures r.Ok? ==> forall m :: m in Candidates(legalMoves).value ==>
              evaluation(successor(m)).value <= evaluation(successor(r.value)).value
    ensures r.Ok? && multiset(legalMoves)[Stop] == 1 ==> r.value != Stop
  {
    match Candidates(legalMoves)
    case Err(e) =>
      r := Err(e);
    case Ok(moves) =>
      Lists.RemoveFirstMultiset(legalMoves, Stop);
      var eval := (m: Direction) => evaluation(successor(m));
      r := ChooseBest(moves, eval);
      if r.Err? && |moves| > 0 {
        var i :| FirstFailure(moves, eval, i) && eval(moves[i]) == Err(r.error);
      }
      if r.Ok? {
        assert r.value in multiset(moves);
        if multiset(legalMoves)[Stop] == 1 {
          Lists.RemoveFirstOnlyOccurrence(legalMoves, Stop);
        }
      }
  }

  /** `RandomAgent.getAction`: any one of the legal moves; random.choice
      raises IndexError when there is none. */
  method RandomGetAction(legalMoves: seq<Direction>) returns (r: Result<Direction>)
    ensures r.Err? <==> |legalMoves| == 0
    ensures r.Err? ==> r.error == IndexOutOfRange
    ensures r.Ok? ==> r.value in legalMoves
  {
    if |legalMoves| == 0 {
      r := Err(IndexOutOfRange);
    } else {
      assert legalMoves[0] in legalMoves;
      var m :| m in legalMoves;
      r := Ok(m);
    }
  }

  /** The default configuration of the searching agent: moves are scored by
      `scoreEvaluationFunction` for agent 0, Pacman, so the chosen move's
      successor has the highest Pacman score among the candidate moves. */
  method DefaultMultiGetAction(legalMoves: seq<Direction>, successor: Direction -> Reflex.GameView)
    returns (r: Result<Direction>)
    ensures Stop !in legalMoves ==> r == Err(NotInList)
    ensures legalMoves == [Stop] ==> r == Err(EmptySequence)
    ensures Stop in legalMoves ==>
              (r.Ok? <==> (|legalMoves| > 1 &&
                           forall m :: m in Candidates(legalMoves).value ==> |successor(m).score| > 0))
    ensures r.Err? && Stop in legalMoves && |legalMoves| > 1 ==>
              r.error == IndexOutOfRange &&
              exists i :: 0 <= i < |Candidates(legalMoves).value| &&
                |successor(Candidates(legalMoves).value[i]).score| == 0 &&
                forall j :: 0 <= j < i ==> |successor(Candidates(legalMoves).value[j]).score| > 0
    ensures r.Ok? ==> Stop in legalMoves && r.value in Candidates(legalMoves).value
    ensures r.Ok? ==> Stop in legalMoves && forall m :: m in Candidates(legalMoves).value ==>
              |successor(m).score| > 0 && successor(m).score[0] <= successor(r.value).score[0]
  {
    r := MultiGetAction(legalMoves, successor, (s: Reflex.GameView) => ScoreEvaluation(s, 0));
  }
}
