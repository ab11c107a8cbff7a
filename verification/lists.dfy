/** The list operations the application builds its state updates from:
    JavaScript's `Array.prototype.filter`, `map` with a conditional
    replacement, `findIndex`/`find`, and the single-element move of the
    drag-and-drop library (`arrayMove`). Each is given a recursive or
    slice-based definition and a contract that characterises its result
    independently of that definition. */
module Lists {

  import opened Types

  /** `a` is obtained from `b` by deleting zero or more elements: the
      elements of `a` occur in `b` in the same relative order. */
  ghost predicate SubsequenceOf<T>(a: seq<T>, b: seq<T>)
    decreases |b|
  {
    |a| == 0 ||
    (|b| > 0 && ((a[0] == b[0] && SubsequenceOf(a[1..], b[1..])) || SubsequenceOf(a, b[1..])))
  }

  /** How many elements of `xs` satisfy `p`. */
  function Count<T>(xs: seq<T>, p: T -> bool): nat
  {
    if |xs| == 0 then 0 else (if p(xs[0]) then 1 else 0) + Count(xs[1..], p)
  }

  /** `xs.filter(p)`. */
  function Filter<T>(xs: seq<T>, p: T -> bool): (r: seq<T>)
    ensures |r| == Count(xs, p)
    ensures forall i :: 0 <= i < |r| ==> p(r[i])
    ensures forall i :: 0 <= i < |r| ==> r[i] in xs
    ensures forall i :: 0 <= i < |xs| && p(xs[i]) ==> xs[i] in r
    ensures SubsequenceOf(r, xs)
  {
    if |xs| == 0 then []
    else if p(xs[0]) then [xs[0]] + Filter(xs[1..], p)
    else Filter(xs[1..], p)
  }

  /** A subsequence made only of elements satisfying `p` is no longer than
      the number of such elements. */
  lemma {:induction false} SubsequenceCount<T>(a: seq<T>, b: seq<T>, p: T -> bool)
    requires SubsequenceOf(a, b)
    requires forall i :: 0 <= i < |a| ==> p(a[i])
    ensures |a| <= Count(b, p)
    decreases |b|
  {
    if |a| == 0 {
    } else if a[0] == b[0] && SubsequenceOf(a[1..], b[1..]) {
      SubsequenceCount(a[1..], b[1..], p);
    } else {
      SubsequenceCount(a, b[1..], p);
    }
  }

  /** The filter is the ONLY order-preserving selection of exactly the
      elements satisfying `p`: any subsequence of `xs` whose elements all
      satisfy `p` and which has as many elements as `xs` has such elements
      is the filter itself. */
  lemma {:induction false} FilterUnique<T>(xs: seq<T>, p: T -> bool, r: seq<T>)
    requires SubsequenceOf(r, xs)
    requires forall i :: 0 <= i < |r| ==> p(r[i])
    requires |r| == Count(xs, p)
    ensures r == Filter(xs, p)
    decreases |xs|
  {
    if |r| == 0 {
    } else if p(xs[0]) {
      if r[0] == xs[0] && SubsequenceOf(r[1..], xs[1..]) {
        FilterUnique(xs[1..], p, r[1..]);
        assert r == [r[0]] + r[1..];
      } else {
        SubsequenceCount(r, xs[1..], p);
        assert false;
      }
    } else {
      assert !(r[0] == xs[0]);
      FilterUnique(xs[1..], p, r);
    }
  }

  /** Filtering keeps a list whose every element passes unchanged, so
      filtering twice by the same test is filtering once. */
  lemma {:induction false} FilterKeepsAll<T>(xs: seq<T>, p: T -> bool)
    requires forall i :: 0 <= i < |xs| ==> p(xs[i])
    ensures Filter(xs, p) == xs
  {
    if |xs| > 0 {
      FilterKeepsAll(xs[1..], p);
      assert xs == [xs[0]] + xs[1..];
    }
  }

  lemma FilterIdempotent<T>(xs: seq<T>, p: T -> bool)
    ensures Filter(Filter(xs, p), p) == Filter(xs, p)
  {
    FilterKeepsAll(Filter(xs, p), p);
  }

  /** Filtering a list extended by one element extends the filtered list
      by that element exactly when it passes. */
  lemma {:induction false} FilterAppend<T>(xs: seq<T>, x: T, p: T -> bool)
    ensures Filter(xs + [x], p) == Filter(xs, p) + (if p(x) then [x] else [])
  {
    if |xs| == 0 {
      assert xs + [x] == [x];
    } else {
      assert (xs + [x])[1..] == xs[1..] + [x];
      FilterAppend(xs[1..], x, p);
    }
  }

  /** `xs.map(x => p(x) ? y : x)`. */
  function ReplaceWhere<T>(xs: seq<T>, p: T -> bool, y: T): (r: seq<T>)
    ensures |r| == |xs|
    ensures forall i :: 0 <= i < |xs| ==> r[i] == if p(xs[i]) then y else xs[i]
  {
    if |xs| == 0 then [] else [if p(xs[0]) then y else xs[0]] + ReplaceWhere(xs[1..], p, y)
  }

  /** Replacing by a value that itself matches is idempotent. */
  lemma ReplaceWhereIdempotent<T>(xs: seq<T>, p: T -> bool, y: T)
    requires p(y)
    ensures ReplaceWhere(ReplaceWhere(xs, p, y), p, y) == ReplaceWhere(xs, p, y)
  {
  }

  /** `xs.findIndex(p)`: the first index satisfying `p`, or -1. */
  function FindIndex<T>(xs: seq<T>, p: T -> bool): (r: int)
    ensures -1 <= r < |xs|
    ensures r == -1 <==> forall i :: 0 <= i < |xs| ==> !p(xs[i])
    ensures 0 <= r ==> p(xs[r]) && forall i :: 0 <= i < r ==> !p(xs[i])
  {
    if |xs| == 0 then -1
    else if p(xs[0]) then 0
    else
      var k := FindIndex(xs[1..], p);
      if k < 0 then -1 else k + 1
  }

  /** `xs.find(p)`: the first element satisfying `p`, if any. */
  function Find<T>(xs: seq<T>, p: T -> bool): (r: Option<T>)
    ensures r.None? <==> forall i :: 0 <= i < |xs| ==> !p(xs[i])
    ensures r.Some? ==> exists i :: 0 <= i < |xs| && xs[i] == r.value && p(xs[i]) &&
                                    forall j :: 0 <= j < i ==> !p(xs[j])
  {
    var i := FindIndex(xs, p);
    if i < 0 then None else Some(xs[i])
  }

  /** `ys.splice(i, 1)`: the list without its element at `i`. */
  function RemoveAt<T>(ys: seq<T>, i: nat): (r: seq<T>)
    requires i < |ys|
    ensures |r| == |ys| - 1
    ensures forall k :: 0 <= k < i ==> r[k] == ys[k]
    ensures forall k :: i <= k < |r| ==> r[k] == ys[k + 1]
    ensures multiset(r) + multiset{ys[i]} == multiset(ys)
  {
    assert ys == ys[..i] + [ys[i]] + ys[i + 1..];
    ys[..i] + ys[i + 1..]
  }

  /** `ys.splice(j, 0, x)`: the list with `x` inserted before index `j`. */
  function InsertAt<T>(ys: seq<T>, j: nat, x: T): (r: seq<T>)
    requires j <= |ys|
    ensures |r| == |ys| + 1
    ensures forall k :: 0 <= k < j ==> r[k] == ys[k]
    ensures r[j] == x
    ensures forall k :: j < k < |r| ==> r[k] == ys[k - 1]
    ensures multiset(r) == multiset(ys) + multiset{x}
  {
    assert ys == ys[..j] + ys[j..];
    ys[..j] + [x] + ys[j..]
  }

  /** The single-element move: remove the element at `from`, then insert it
      at `to` of the shortened list. */
  function Move<T>(xs: seq<T>, from: nat, to: nat): (r: seq<T>)
    requires from < |xs| && to < |xs|
    ensures |r| == |xs|
    ensures multiset(r) == multiset(xs)
    ensures r[to] == xs[from]
    ensures forall k :: 0 <= k < |xs| && k < from && k < to ==> r[k] == xs[k]
    ensures forall k :: 0 <= k < |xs| && k > from && k > to ==> r[k] == xs[k]
    ensures forall k :: from <= k < to ==> r[k] == xs[k + 1]
    ensures forall k :: to < k <= from ==> r[k] == xs[k - 1]
  {
    InsertAt(RemoveAt(xs, from), to, xs[from])
  }

  /** Moving back undoes a move. */
  lemma MoveInverse<T>(xs: seq<T>, from: nat, to: nat)
    requires from < |xs| && to < |xs|
    ensures Move(Move(xs, from, to), to, from) == xs
  {
    var m := Move(xs, from, to);
    var b := Move(m, to, from);
    forall k | 0 <= k < |xs|
      ensures b[k] == xs[k]
    {
      if k == from {
      } else if from < to && from < k <= to {
        assert b[k] == m[k - 1];
      } else if to < from && to <= k < from {
        assert b[k] == m[k + 1];
      }
    }
  }

  /** `arrayMove(xs, from, to)` as the drag-and-drop library defines it on
      the indices `findIndex` can produce (-1 for a missing element). The
      library copies the list, splices the element at `from` out and splices
      it back in at `to`; a negative splice index counts from the end, and
      the insertion index is resolved against the length BEFORE the removal,
      so -1 means "the last slot". A missing `from` therefore moves the last
      element and a missing `to` moves the element to the end. */
  function ArrayMove<T>(xs: seq<T>, from: int, to: int): (r: seq<T>)
    requires -1 <= from < |xs| && -1 <= to < |xs|
    ensures |r| == |xs|
    ensures multiset(r) == multiset(xs)
    ensures |xs| > 0 ==> r == Move(xs, if from < 0 then |xs| - 1 else from,
                                      if to < 0 then |xs| - 1 else to)
  {
    if |xs| == 0 then xs
    else Move(xs, if from < 0 then |xs| - 1 else from, if to < 0 then |xs| - 1 else to)
  }
}
