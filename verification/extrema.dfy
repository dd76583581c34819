/** Python's built-in max() and min() over a list of numbers. */
module Extrema {
  import opened Results

  /** True when i indexes a greatest element of s. */
  predicate IsArgMax(s: seq<int>, i: int) {
    0 <= i < |s| && forall j :: 0 <= j < |s| ==> s[j] <= s[i]
  }

  /** True when i indexes a least element of s. */
  predicate IsArgMin(s: seq<int>, i: int) {
    0 <= i < |s| && forall j :: 0 <= j < |s| ==> s[i] <= s[j]
  }

  /** max(s): fails with ValueError on an empty list, otherwise returns an
      element of s that no element exceeds. */
  function MaxOf(s: seq<int>): (r: Result<int>)
    ensures r.Err? <==> |s| == 0
    ensures r.Err? ==> r.error == EmptySequence
    ensures r.Ok? ==> r.value in s
    ensures r.Ok? ==> forall j :: 0 <= j < |s| ==> s[j] <= r.value
  {
    if |s| == 0 then Err(EmptySequence)
    else if |s| == 1 then Ok(s[0])
    else
      var rest := MaxOf(s[1..]).value;
      Ok(if s[0] >= rest then s[0] else rest)
  }

  /** min(s): fails with ValueError on an empty list, otherwise returns an
      element of s that exceeds no element. */
  function MinOf(s: seq<int>): (r: Result<int>)
    ensures r.Err? <==> |s| == 0
    ensures r.Err? ==> r.error == EmptySequence
    ensures r.Ok? ==> r.value in s
    ensures r.Ok? ==> forall j :: 0 <= j < |s| ==> r.value <= s[j]
  {
    if |s| == 0 then Err(EmptySequence)
    else if |s| == 1 then Ok(s[0])
    else
      var rest := MinOf(s[1..]).value;
      Ok(if s[0] <= rest then s[0] else rest)
  }

  /** The maximum is exactly the score at any argmax index. */
  lemma MaxOfAtArgMax(s: seq<int>, i: int)
    requires IsArgMax(s, i)
    ensures MaxOf(s) == Ok(s[i])
  {
  }

  /** The minimum is exactly the value at any argmin index. */
  lemma MinOfAtArgMin(s: seq<int>, i: int)
    requires IsArgMin(s, i)
    ensures MinOf(s) == Ok(s[i])
  {
  }
}
