/** The reflex agent's evaluation heuristic: penalise standing still, prefer
    being near food and far from ghosts. */
module Reflex {
  import opened Results
  import opened Extrema
  import Lists

  /** A grid cell, (x, y). */
  type Pos = (int, int)

  /** The part of a game state the heuristic reads: Pacman's position, the
      remaining food cells, the ghost positions and the per-agent score vector. */
  datatype GameView = GameView(pacman: Pos, food: seq<Pos>, ghosts: seq<Pos>, score: seq<int>)

  /** The value returned for a move that leaves Pacman where it was. */
  const StayPenalty: int := -1000

  /** Weight of the nearest-food distance (subtracted). */
  const FoodWeight: int := 2

  /** Weight of the nearest-ghost distance (added). */
  const GhostWeight: int := 3

  function Abs(x: int): nat {
    if x < 0 then -x else x
  }

  /** The Manhattan distance |dx| + |dy|, the usual instance of the distance
      parameter below. */
  function Manhattan(a: Pos, b: Pos): (d: int)
    ensures d >= 0
    ensures d == 0 <==> a == b
  {
    Abs(a.0 - b.0) + Abs(a.1 - b.1)
  }

  /** The distances from p to each target, in the targets' order. */
  function Distances(p: Pos, targets: seq<Pos>, dist: (Pos, Pos) -> int): (ds: seq<int>)
    ensures |ds| == |targets|
    ensures forall i :: 0 <= i < |targets| ==> ds[i] == dist(p, targets[i])
  {
    seq(|targets|, i requires 0 <= i < |targets| => dist(p, targets[i]))
  }

  /** True when targets[k] is a target closest to p. */
  predicate IsNearest(p: Pos, targets: seq<Pos>, dist: (Pos, Pos) -> int, k: int) {
    0 <= k < |targets| && forall j :: 0 <= j < |targets| ==> dist(p, targets[k]) <= dist(p, targets[j])
  }

  /** The distance to the nearest food cell, or 0 when no food is left. */
  function NearestFood(p: Pos, food: seq<Pos>, dist: (Pos, Pos) -> int): (d: int)
    ensures |food| == 0 ==> d == 0
    ensures |food| > 0 ==> exists k :: 0 <= k < |food| && d == dist(p, food[k])
    ensures forall k :: 0 <= k < |food| ==> d <= dist(p, food[k])
  {
    if |food| == 0 then 0
    else
      var ds := Distances(p, food, dist);
      var m := MinOf(ds).value;
      assert exists k :: 0 <= k < |ds| && ds[k] == m;
      m
  }

  /** The distance to the nearest ghost; min() of an empty list fails, so no
      ghosts is an error. */
  function NearestGhost(p: Pos, ghosts: seq<Pos>, dist: (Pos, Pos) -> int): (r: Result<int>)
    ensures r.Err? <==> |ghosts| == 0
    ensures r.Err? ==> r.error == EmptySequence
    ensures r.Ok? ==> exists k :: 0 <= k < |ghosts| && r.value == dist(p, ghosts[k])
    ensures r.Ok? ==> forall k :: 0 <= k < |ghosts| ==> r.value <= dist(p, ghosts[k])
  {
    var ds := Distances(p, ghosts, dist);
    match MinOf(ds)
    case Err(e) => Err(e)
    case Ok(m) =>
      assert exists k :: 0 <= k < |ds| && ds[k] == m;
      Ok(m)
  }

  /** `ReflexAgent.evaluationFunction`, given the state before the move and
      the state after it. Standing still scores StayPenalty whatever else
      holds; otherwise the nearest ghost (an error when there is none) and
      the agent's own entry of the successor's score vector (an error when
      `index` is out of range) must exist, and the score is that entry, minus
      FoodWeight per step to the nearest food, plus GhostWeight per step to
      the nearest ghost. */
  function Evaluate(current: GameView, next: GameView, index: int, dist: (Pos, Pos) -> int): (r: Result<int>)
    ensures current.pacman == next.pacman ==> r == Ok(StayPenalty)
    ensures current.pacman != next.pacman ==>
              (r.Ok? <==> |next.ghosts| > 0 && -|next.score| <= index < |next.score|)
    ensures current.pacman != next.pacman && |next.ghosts| == 0 ==> r == Err(EmptySequence)
    ensures current.pacman != next.pacman && |next.ghosts| > 0 && r.Err? ==> r.error == IndexOutOfRange
  {
    if current.pacman == next.pacman then Ok(StayPenalty)
    else
      match NearestGhost(next.pacman, next.ghosts, dist)
      case Err(e) => Err(e)
      case Ok(ghostDist) =>
        var foodDist := NearestFood(next.pacman, next.food, dist);
        match Lists.PyIndex(next.score, index)
        case Err(e) => Err(e)
        case Ok(s) => Ok(s - FoodWeight * foodDist + GhostWeight * ghostDist)
  }

  /** For a move, the heuristic's value in terms of any nearest food cell kf
      and any nearest ghost kg: score − 2·d(food[kf]) + 3·d(ghost[kg]). */
  lemma EvaluateAtNearest(current: GameView, next: GameView, index: int,
                           dist: (Pos, Pos) -> int, kf: int, kg: int)
    requires current.pacman != next.pacman
    requires -|next.score| <= index < |next.score|
    requires IsNearest(next.pacman, next.food, dist, kf)
    requires IsNearest(next.pacman, next.ghosts, dist, kg)
    ensures Evaluate(current, next, index, dist) ==
            Ok(Lists.PyIndex(next.score, index).value
               - FoodWeight * dist(next.pacman, next.food[kf])
               + GhostWeight * dist(next.pacman, next.ghosts[kg]))
  {
  }

  /** With no food left, the food term vanishes: the value is
      score + 3·d(ghost[kg]) for any nearest ghost kg. */
  lemma EvaluateNoFood(current: GameView, next: GameView, index: int,
                        dist: (Pos, Pos) -> int, kg: int)
    requires current.pacman != next.pacman
    requires -|next.score| <= index < |next.score|
    requires |next.food| == 0
    requires IsNearest(next.pacman, next.ghosts, dist, kg)
    ensures Evaluate(current, next, index, dist) ==
            Ok(Lists.PyIndex(next.score, index).value + GhostWeight * dist(next.pacman, next.ghosts[kg]))
  {
  }

  /** Both minima equal the distance to any nearest target. */
  lemma NearestAtArgMin(p: Pos, targets: seq<Pos>, dist: (Pos, Pos) -> int, k: int)
    requires IsNearest(p, targets, dist, k)
    ensures NearestFood(p, targets, dist) == dist(p, targets[k])
    ensures NearestGhost(p, targets, dist) == Ok(dist(p, targets[k]))
  {
  }

  /** Two successors that differ only in their food: each step nearer the
      nearest food is worth exactly FoodWeight, so the heuristic never
      prefers the one whose nearest food is farther. */
  lemma EvaluateFoodTradeoff(current: GameView, next: GameView, food': seq<Pos>, index: int,
                             dist: (Pos, Pos) -> int)
    requires current.pacman != next.pacman
    requires Evaluate(current, next, index, dist).Ok?
    ensures Evaluate(current, next.(food := food'), index, dist).Ok?
    ensures Evaluate(current, next, index, dist).value - Evaluate(current, next.(food := food'), index, dist).value
            == FoodWeight * (NearestFood(next.pacman, food', dist) - NearestFood(next.pacman, next.food, dist))
    ensures NearestFood(next.pacman, next.food, dist) <= NearestFood(next.pacman, food', dist) ==>
            Evaluate(current, next, index, dist).value >= Evaluate(current, next.(food := food'), index, dist).value
  {
  }

  /** Two successors that differ only in their ghosts: each step farther from
      the nearest ghost is worth exactly GhostWeight, so the heuristic never
      prefers the one whose nearest ghost is closer. */
  lemma EvaluateGhostTradeoff(current: GameView, next: GameView, ghosts': seq<Pos>, index: int,
                              dist: (Pos, Pos) -> int)
    requires current.pacman != next.pacman
    requires Evaluate(current, next, index, dist).Ok?
    requires |ghosts'| > 0
    ensures Evaluate(current, next.(ghosts := ghosts'), index, dist).Ok?
    ensures Evaluate(current, next.(ghosts := ghosts'), index, dist).value - Evaluate(current, next, index, dist).value
            == GhostWeight * (NearestGhost(next.pacman, ghosts', dist).value
                              - NearestGhost(next.pacman, next.ghosts, dist).value)
    ensures NearestGhost(next.pacman, next.ghosts, dist).value <= NearestGhost(next.pacman, ghosts', dist).value ==>
            Evaluate(current, next, index, dist).value <= Evaluate(current, next.(ghosts := ghosts'), index, dist).value
  {
  }

  /** Removing food (eating it) never brings the nearest remaining food
      closer, as long as some food remains: every cell of the smaller list is
      also in the larger one. */
  lemma {:induction false} NearestFoodAntitone(p: Pos, fewer: seq<Pos>, more: seq<Pos>, dist: (Pos, Pos) -> int)
    requires |fewer| > 0
    requires forall f :: f in fewer ==> f in more
    ensures NearestFood(p, more, dist) <= NearestFood(p, fewer, dist)
  {
    var k :| 0 <= k < |fewer| && NearestFood(p, fewer, dist) == dist(p, fewer[k]);
    assert fewer[k] in more;
    var j :| 0 <= j < |more| && more[j] == fewer[k];
  }

  /** Likewise, an extra ghost can only bring the nearest ghost closer. */
  lemma {:induction false} NearestGhostAntitone(p: Pos, fewer: seq<Pos>, more: seq<Pos>, dist: (Pos, Pos) -> int)
    requires |fewer| > 0
    requires forall g :: g in fewer ==> g in more
    ensures NearestGhost(p, more, dist).Ok? && NearestGhost(p, fewer, dist).Ok?
    ensures NearestGhost(p, more, dist).value <= NearestGhost(p, fewer, dist).value
  {
    var k :| 0 <= k < |fewer| && NearestGhost(p, fewer, dist).value == dist(p, fewer[k]);
    assert fewer[k] in more;
    var j :| 0 <= j < |more| && more[j] == fewer[k];
  }

  /** With Manhattan distance and food left, the value of a move is bounded
      by the score and the ghost term: food can only lower it. */
  lemma EvaluateManhattanBound(current: GameView, next: GameView, index: int)
    requires current.pacman != next.pacman
    requires Evaluate(current, next, index, Manhattan).Ok?
    ensures Evaluate(current, next, index, Manhattan).value
            <= Lists.PyIndex(next.score, index).value + GhostWeight * NearestGhost(next.pacman, next.ghosts, Manhattan).value
  {
  }
}
