/** Greedy move selection: the indices of every move that attains the best
    score, and a pick of any one of them. */
module Selection {
  import opened Results
  import opened Extrema

  /** True when the indices in xs strictly increase. */
  predicate Ascending(xs: seq<nat>) {
    forall k, l :: 0 <= k < l < |xs| ==> xs[k] < xs[l]
  }

  /** The indices i of s with s[i] == v, in ascending order: the list
      comprehension over `range(len(s))`. */
  function IndicesWhere(s: seq<int>, v: int): (r: seq<nat>)
    ensures forall k :: 0 <= k < |r| ==> r[k] < |s| && s[r[k]] == v
    ensures forall i :: 0 <= i < |s| && s[i] == v ==> i in r
    ensures Ascending(r)
  {
    if |s| == 0 then []
    else
      var front := IndicesWhere(s[..|s| - 1], v);
      if s[|s| - 1] == v then front + [|s| - 1] else front
  }

  /** The tie set: every index whose score equals the maximum, ascending.
      Fails like max() when there are no scores. */
  function BestIndices(scores: seq<int>): (r: Result<seq<nat>>)
    ensures r.Err? <==> |scores| == 0
    ensures r.Err? ==> r.error == EmptySequence
    ensures r.Ok? ==> |r.value| > 0
    ensures r.Ok? ==> forall k :: 0 <= k < |r.value| ==> IsArgMax(scores, r.value[k])
    ensures r.Ok? ==> forall i :: IsArgMax(scores, i) ==> i in r.value
    ensures r.Ok? ==> Ascending(r.value)
  {
    match MaxOf(scores)
    case Err(e) => Err(e)
    case Ok(best) =>
      var tied := IndicesWhere(scores, best);
      assert forall i :: IsArgMax(scores, i) ==> scores[i] == best by {
        forall i | IsArgMax(scores, i) ensures scores[i] == best {
          MaxOfAtArgMax(scores, i);
        }
      }
      assert exists i :: 0 <= i < |scores| && scores[i] == best;
      Ok(tied)
  }

  /** `random.choice(bestIndices)`: any one index of the tie set. The pick is
      nondeterministic; nothing is promised about its distribution. */
  method PickBest(scores: seq<int>) returns (r: Result<nat>)
    ensures r.Err? <==> |scores| == 0
    ensures r.Err? ==> r.error == EmptySequence
    ensures r.Ok? ==> BestIndices(scores).Ok? && r.value in BestIndices(scores).value
    ensures r.Ok? ==> IsArgMax(scores, r.value)
  {
    match BestIndices(scores)
    case Err(e) =>
      r := Err(e);
    case Ok(tied) =>
      var k :| k in tied;
      r := Ok(k);
  }

  /** With pairwise distinct scores there is no tie: the tie set holds exactly
      one index, so the pick is deterministic. */
  lemma DistinctScoresSingleBest(scores: seq<int>)
    requires |scores| > 0
    requires forall i, j :: 0 <= i < j < |scores| ==> scores[i] != scores[j]
    ensures BestIndices(scores).Ok?
    ensures |BestIndices(scores).value| == 1
  {
    var tied := BestIndices(scores).value;
    forall k | 0 <= k < |tied| ensures tied[k] == tied[0] {
      assert IsArgMax(scores, tied[k]) && IsArgMax(scores, tied[0]);
      assert scores[tied[k]] == scores[tied[0]];
    }
    AscendingConstantIsSingleton(tied);
  }

  /** An ascending list whose entries all equal its first has at most one entry. */
  lemma AscendingConstantIsSingleton(xs: seq<nat>)
    requires Ascending(xs)
    requires forall k :: 0 <= k < |xs| ==> xs[k] == xs[0]
    ensures |xs| <= 1
  {
    AscendingHead(xs);
  }

  /** The first two entries of an ascending list are in order. */
  lemma AscendingHead(xs: seq<nat>)
    ensures Ascending(xs) && |xs| > 1 ==> xs[0] < xs[1]
  {
  }

  /** Every index in the tie set has the same score, the maximum. */
  lemma TiedScoresEqual(scores: seq<int>, k: nat, l: nat)
    requires BestIndices(scores).Ok?
    requires k in BestIndices(scores).value && l in BestIndices(scores).value
    ensures scores[k] == scores[l] == MaxOf(scores).value
  {
  }
}
