/** The two Python list operations the agents rely on: `xs.remove(x)` and
    the subscript `s[i]`. */
module Lists {
  import opened Results

  /** The position of the first occurrence of x in xs. */
  function FirstIndex<T(==)>(xs: seq<T>, x: T): (i: nat)
    requires x in xs
    ensures i < |xs| && xs[i] == x
    ensures x !in xs[..i]
  {
    if xs[0] == x then 0
    else
      var j := FirstIndex(xs[1..], x);
      assert xs[..j + 1] == [xs[0]] + xs[1..][..j];
      j + 1
  }

  /** `xs.remove(x)`: deletes the first occurrence of x and keeps every other
      element in order; raises ValueError when x does not occur. */
  function RemoveFirst<T(==)>(xs: seq<T>, x: T): (r: Result<seq<T>>)
    ensures r.Err? <==> x !in xs
    ensures r.Err? ==> r.error == NotInList
    ensures r.Ok? ==> x in xs && r.value == xs[..FirstIndex(xs, x)] + xs[FirstIndex(xs, x) + 1..]
  {
    if |xs| == 0 then Err(NotInList)
    else if xs[0] == x then Ok(xs[1..])
    else
      match RemoveFirst(xs[1..], x)
      case Err(e) => Err(e)
      case Ok(rest) =>
        assert xs[..FirstIndex(xs, x)] == [xs[0]] + xs[1..][..FirstIndex(xs[1..], x)];
        Ok([xs[0]] + rest)
  }

  /** Putting x back at the position it was removed from restores the list. */
  lemma RemoveFirstRestores<T>(xs: seq<T>, x: T)
    requires x in xs
    ensures RemoveFirst(xs, x).Ok?
    ensures var i := FirstIndex(xs, x); var r := RemoveFirst(xs, x).value;
            i <= |r| && r[..i] + [x] + r[i..] == xs
  {
    var i := FirstIndex(xs, x);
    var r := RemoveFirst(xs, x).value;
    assert r[..i] == xs[..i];
    assert r[i..] == xs[i + 1..];
    assert xs == xs[..i] + [xs[i]] + xs[i + 1..];
  }

  /** Removal takes away exactly one copy of x and nothing else. */
  lemma RemoveFirstMultiset<T>(xs: seq<T>, x: T)
    requires x in xs
    ensures RemoveFirst(xs, x).Ok?
    ensures multiset(RemoveFirst(xs, x).value) + multiset{x} == multiset(xs)
    ensures |RemoveFirst(xs, x).value| == |xs| - 1
  {
    RemoveFirstRestores(xs, x);
    var i := FirstIndex(xs, x);
    var r := RemoveFirst(xs, x).value;
    assert r == r[..i] + r[i..];
    calc {
      multiset(xs);
      multiset(r[..i] + [x] + r[i..]);
      multiset(r[..i]) + multiset{x} + multiset(r[i..]);
      multiset(r) + multiset{x};
    }
  }

  /** When x occurs exactly once, it no longer occurs after removal. */
  lemma RemoveFirstOnlyOccurrence<T>(xs: seq<T>, x: T)
    requires multiset(xs)[x] == 1
    ensures RemoveFirst(xs, x).Ok?
    ensures x !in RemoveFirst(xs, x).value
  {
    RemoveFirstMultiset(xs, x);
    assert multiset(RemoveFirst(xs, x).value)[x] == 0;
  }

  /** The subscript `s[i]`: a non-negative i counts from the front, a negative
      i from the back (`s[-1]` is the last element); anything outside
      `-len(s) <= i < len(s)` raises IndexError. */
  function PyIndex<T>(s: seq<T>, i: int): (r: Result<T>)
    ensures r.Ok? <==> -|s| <= i < |s|
    ensures r.Err? ==> r.error == IndexOutOfRange
    ensures r.Ok? ==> r.value in s
  {
    if 0 <= i < |s| then Ok(s[i])
    else if -|s| <= i < 0 then Ok(s[|s| + i])
    else Err(IndexOutOfRange)
  }

  /** A negative subscript names the same element as its offset from the front. */
  lemma PyIndexNegativeAlias<T>(s: seq<T>, i: int)
    requires 0 <= i < |s|
    ensures PyIndex(s, i - |s|) == PyIndex(s, i) == Ok(s[i])
  {
  }
}
