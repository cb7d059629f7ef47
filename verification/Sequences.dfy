/** Sequence vocabulary shared by every module: options, filtering, JavaScript-style
    slicing, flattening and membership without repetition. */
module Sequences {
  datatype Option<+T> = None | Some(value: T) {
    function GetOr(default: T): T {
      match this
      case Some(v) => v
      case None => default
    }
  }

  function Min(a: int, b: int): (m: int) {
    if a <= b then a else b
  }

  /** `Array.prototype.slice` on non-negative bounds: both ends are clamped. */
  function Slice<T>(xs: seq<T>, from: nat, to: nat): (r: seq<T>) {
    var hi := Min(to, |xs|);
    if from <= hi then xs[from..hi] else []
  }

  function Take<T>(xs: seq<T>, n: nat): (r: seq<T>)
    ensures |r| == Min(n, |xs|)
  {
    xs[..Min(n, |xs|)]
  }

  function Filter<T>(xs: seq<T>, p: T -> bool): (r: seq<T>)
    ensures |r| <= |xs|
  {
    if xs == [] then []
    else if p(xs[0]) then [xs[0]] + Filter(xs[1..], p)
    else Filter(xs[1..], p)
  }

  lemma {:induction false} FilterMembers<T>(xs: seq<T>, p: T -> bool, x: T)
    ensures x in Filter(xs, p) <==> x in xs && p(x)
  {
    if xs == [] {
    } else {
      assert x in xs <==> x == xs[0] || x in xs[1..];
      FilterMembers(xs[1..], p, x);
    }
  }

  lemma FilterStep<T>(xs: seq<T>, p: T -> bool)
    requires xs != []
    ensures Filter(xs, p) == (if p(xs[0]) then [xs[0]] else []) + Filter(xs[1..], p)
  {
  }

  lemma {:induction false} FilterAll<T>(xs: seq<T>, p: T -> bool)
    requires forall i :: 0 <= i < |xs| ==> p(xs[i])
    ensures Filter(xs, p) == xs
  {
    if xs == [] {
    } else {
      FilterAll(xs[1..], p);
    }
  }

  lemma {:induction false} FilterNone<T>(xs: seq<T>, p: T -> bool)
    requires forall i :: 0 <= i < |xs| ==> !p(xs[i])
    ensures Filter(xs, p) == []
  {
    if xs == [] {
    } else {
      FilterNone(xs[1..], p);
    }
  }

  lemma {:induction false} FilterAgrees<T>(xs: seq<T>, p: T -> bool, q: T -> bool)
    requires forall i :: 0 <= i < |xs| ==> p(xs[i]) == q(xs[i])
    ensures Filter(xs, p) == Filter(xs, q)
  {
    if xs == [] {
    } else {
      FilterAgrees(xs[1..], p, q);
    }
  }

  lemma {:induction false} FilterConcat<T>(xs: seq<T>, ys: seq<T>, p: T -> bool)
    ensures Filter(xs + ys, p) == Filter(xs, p) + Filter(ys, p)
  {
    if xs == [] {
      assert xs + ys == ys;
    } else {
      assert (xs + ys)[1..] == xs[1..] + ys;
      FilterConcat(xs[1..], ys, p);
    }
  }

  function Map<T, U>(xs: seq<T>, f: T -> U): (r: seq<U>)
    ensures |r| == |xs| && forall i :: 0 <= i < |xs| ==> r[i] == f(xs[i])
  {
    seq(|xs|, i requires 0 <= i < |xs| => f(xs[i]))
  }

  function Flatten<T>(xss: seq<seq<T>>): seq<T> {
    if xss == [] then [] else xss[0] + Flatten(xss[1..])
  }

  lemma {:induction false} FlattenConcat<T>(xss: seq<seq<T>>, yss: seq<seq<T>>)
    ensures Flatten(xss + yss) == Flatten(xss) + Flatten(yss)
  {
    if xss == [] {
      assert xss + yss == yss;
    } else {
      assert (xss + yss)[1..] == xss[1..] + yss;
      FlattenConcat(xss[1..], yss);
    }
  }

  lemma SplitTail<T>(xs: seq<T>, from: nat, to: nat)
    requires from <= to <= |xs|
    ensures xs[from..] == xs[from..to] + xs[to..]
  {
  }

  ghost predicate Distinct<T>(xs: seq<T>) {
    forall i, j :: 0 <= i < j < |xs| ==> xs[i] != xs[j]
  }

  function Elements<T>(xs: seq<T>): set<T> {
    set x | x in xs
  }

  /** `indexOf`; the length stands for "not found". */
  function FirstIndex<T(==)>(xs: seq<T>, x: T): (i: nat)
    ensures i <= |xs|
    ensures i < |xs| ==> xs[i] == x
    ensures forall j :: 0 <= j < i ==> xs[j] != x
  {
    if xs == [] || xs[0] == x then 0 else 1 + FirstIndex(xs[1..], x)
  }

  /** The elements come in the order in which they first stand in `xs`. */
  ghost predicate InFirstOrder<T>(xs: seq<T>, found: seq<T>) {
    forall k, l :: 0 <= k < l < |found| ==> FirstIndex(xs, found[k]) < FirstIndex(xs, found[l])
  }

  lemma OneMoreInOrder<T>(xs: seq<T>, found: seq<T>, x: T)
    requires InFirstOrder(xs, found)
    requires forall k :: 0 <= k < |found| ==> FirstIndex(xs, found[k]) < FirstIndex(xs, x)
    ensures InFirstOrder(xs, found + [x])
  {
    hide FirstIndex;
  }

  /** An element not seen before stands behind all that were. */
  lemma NewIsLater<T>(xs: seq<T>, done: nat, found: seq<T>)
    requires done < |xs| && InFirstOrder(xs, found) && xs[done] !in found
    requires forall x :: x in found <==> x in xs[..done]
    ensures InFirstOrder(xs, found + [xs[done]])
    ensures forall x :: x in found + [xs[done]] <==> x in xs[..done + 1]
  {
    hide InFirstOrder;
    var x := xs[done];
    assert FirstIndex(xs, x) == done by {
      assert forall j :: 0 <= j < done ==> xs[j] in xs[..done];
    }
    forall k | 0 <= k < |found| ensures FirstIndex(xs, found[k]) < done {
      assert found[k] in xs[..done];
      var j :| 0 <= j < done && xs[..done][j] == found[k];
      assert xs[j] == found[k];
    }
    OneMoreInOrder(xs, found, x);
    assert xs[..done + 1] == xs[..done] + [x];
  }

  lemma {:induction false} SubsetSize<T>(a: set<T>, b: set<T>)
    requires a <= b
    ensures |a| <= |b|
  {
    if a != {} {
      var x :| x in a;
      SubsetSize(a - {x}, b - {x});
    }
  }

  lemma {:induction false} DistinctCount<T>(xs: seq<T>)
    requires Distinct(xs)
    ensures |Elements(xs)| == |xs|
  {
    if xs == [] {
    } else {
      DistinctCount(xs[1..]);
      assert Elements(xs) == {xs[0]} + Elements(xs[1..]);
    }
  }

  lemma {:induction false} FilterDistinct<T>(xs: seq<T>, p: T -> bool)
    requires Distinct(xs)
    ensures Distinct(Filter(xs, p))
  {
    if xs == [] {
    } else {
      FilterDistinct(xs[1..], p);
      FilterMembers(xs[1..], p, xs[0]);
    }
  }

  lemma {:induction false} FilterPrefix<T>(xs: seq<T>, n: nat, p: T -> bool)
    requires forall k :: 0 <= k < |xs| ==> (p(xs[k]) <==> k < n)
    ensures Filter(xs, p) == Take(xs, n)
  {
    if n == 0 {
      FilterNone(xs, p);
    } else if xs != [] {
      FilterPrefix(xs[1..], n - 1, p);
    }
  }

  lemma FullFrontKeepsWindow<T>(xs: seq<T>, p: T -> bool, from: nat, to: nat)
    requires from <= to && forall k :: 0 <= k < Min(to, |xs|) ==> p(xs[k])
    ensures Slice(Filter(xs, p), from, to) == Slice(xs, from, to)
  {
    hide Filter;
    var hi := Min(to, |xs|);
    var rest := Filter(xs[hi..], p);
    assert xs == xs[..hi] + xs[hi..];
    FilterConcat(xs[..hi], xs[hi..], p);
    FilterAll(xs[..hi], p);
    assert |rest| <= |xs[hi..]|;
    SliceOfFront(xs[..hi], rest, xs[hi..], from, to);
  }

  lemma SliceOfFront<T>(front: seq<T>, a: seq<T>, b: seq<T>, from: nat, to: nat)
    requires from <= to && (|front| >= to || (a == [] && b == []))
    ensures Slice(front + a, from, to) == Slice(front + b, from, to)
  {
    if |front| >= to && from <= to {
      assert (front + a)[from..to] == front[from..to] == (front + b)[from..to];
    }
  }

  lemma KeptWindowIsFull<T>(xs: seq<T>, p: T -> bool, from: nat, to: nat)
    requires Distinct(xs) && from < to && from < |xs|
    requires Slice(Filter(xs, p), from, to) == Slice(xs, from, to)
    ensures forall k :: 0 <= k < Min(to, |xs|) ==> p(xs[k])
  {
    hide Filter, Distinct;
    var hi := Min(to, |xs|);
    var kept := Filter(xs, p);
    var window := xs[from..hi];
    assert window == Slice(kept, from, to);
    assert window[0] == xs[from] == kept[from];
    FrontIsKept(xs, p, from);
    forall k | from <= k < hi ensures p(xs[k]) {
      assert window[k - from] == xs[k] == kept[k];
      FilterMembers(xs, p, xs[k]);
    }
  }

  /** Leaving elements out of a list keeps a window of it exactly when nothing up to the
      window's end is left out. */
  lemma FilterKeepsWindow<T>(xs: seq<T>, p: T -> bool, offset: nat, limit: nat)
    requires Distinct(xs) && limit >= 1 && offset < |xs|
    ensures Slice(Filter(xs, p), offset, offset + limit) == Slice(xs, offset, offset + limit) <==>
      forall k :: 0 <= k < Min(offset + limit, |xs|) ==> p(xs[k])
  {
    hide Filter, Distinct, Slice;
    if forall k :: 0 <= k < Min(offset + limit, |xs|) ==> p(xs[k]) {
      FullFrontKeepsWindow(xs, p, offset, offset + limit);
    }
    if Slice(Filter(xs, p), offset, offset + limit) == Slice(xs, offset, offset + limit) {
      KeptWindowIsFull(xs, p, offset, offset + limit);
    }
  }

  lemma FrontIsKept<T>(xs: seq<T>, p: T -> bool, at: nat)
    requires Distinct(xs) && at < |xs| && at < |Filter(xs, p)| && Filter(xs, p)[at] == xs[at]
    ensures forall k :: 0 <= k < at ==> p(xs[k])
  {
    var front := Filter(xs[..at], p);
    assert xs == xs[..at] + xs[at..];
    FilterConcat(xs[..at], xs[at..], p);
    if |front| < at {
      var j := at - |front|;
      assert Filter(xs[at..], p)[j] == xs[at];
      var behind := Filter(xs[at + 1..], p);
      assert xs[at..][1..] == xs[at + 1..];
      assert xs[at] in behind;
      FilterMembers(xs[at + 1..], p, xs[at]);
      assert false;
    }
    FullFilter(xs[..at], p);
  }

  lemma {:induction false} FullFilter<T>(xs: seq<T>, p: T -> bool)
    requires |Filter(xs, p)| == |xs|
    ensures forall k :: 0 <= k < |xs| ==> p(xs[k])
  {
    if xs == [] {
    } else {
      FullFilter(xs[1..], p);
    }
  }

  /** `trim` on the left, and on the right, for the elements `p` holds of. */
  function TrimLeft<T>(xs: seq<T>, p: T -> bool): (r: seq<T>)
    ensures |r| <= |xs|
    ensures r != [] ==> !p(r[0])
  {
    if xs != [] && p(xs[0]) then TrimLeft(xs[1..], p) else xs
  }

  function TrimRight<T>(xs: seq<T>, p: T -> bool): (r: seq<T>)
    ensures |r| <= |xs|
    ensures r != [] ==> !p(r[|r| - 1])
    ensures r <= xs
  {
    if xs != [] && p(xs[|xs| - 1]) then TrimRight(xs[..|xs| - 1], p) else xs
  }

  function Trim<T>(xs: seq<T>, p: T -> bool): (r: seq<T>)
    ensures |r| <= |xs|
    ensures r != [] ==> !p(r[0]) && !p(r[|r| - 1])
  {
    TrimRight(TrimLeft(xs, p), p)
  }

  /** Trimming removes nothing but a run on each side. */
  lemma {:induction false} TrimLeftCuts<T>(xs: seq<T>, p: T -> bool)
    ensures var cut := |xs| - |TrimLeft(xs, p)|;
      TrimLeft(xs, p) == xs[cut..] && forall k :: 0 <= k < cut ==> p(xs[k])
  {
    if xs != [] && p(xs[0]) {
      TrimLeftCuts(xs[1..], p);
    }
  }

  lemma {:induction false} TrimRightCuts<T>(xs: seq<T>, p: T -> bool)
    ensures forall k :: |TrimRight(xs, p)| <= k < |xs| ==> p(xs[k])
  {
    if xs != [] && p(xs[|xs| - 1]) {
      TrimRightCuts(xs[..|xs| - 1], p);
    }
  }

  /** The trimmed sequence is the one stretch with nothing but trimmed elements around it
      that does not begin or end with one. */
  lemma TrimIff<T>(xs: seq<T>, p: T -> bool, from: nat, to: nat)
    requires from < to <= |xs|
    ensures Trim(xs, p) == xs[from..to] && |xs| - |TrimLeft(xs, p)| == from <==>
      && !p(xs[from]) && !p(xs[to - 1])
      && (forall k :: 0 <= k < from || to <= k < |xs| ==> p(xs[k]))
  {
    hide TrimLeft, TrimRight;
    var left := TrimLeft(xs, p);
    var cut := |xs| - |left|;
    var r := TrimRight(left, p);
    TrimLeftCuts(xs, p);
    TrimRightCuts(left, p);
    assert left == xs[cut..] && r == xs[cut..cut + |r|];
    assert forall k :: |r| <= k < |left| ==> left[k] == xs[cut + k];
    if Trim(xs, p) == xs[from..to] && cut == from {
      assert |r| == to - from && r[0] == xs[from] && r[|r| - 1] == xs[to - 1];
      forall k | to <= k < |xs| ensures p(xs[k]) {
        assert left[k - cut] == xs[k];
      }
    }
    if !p(xs[from]) && !p(xs[to - 1]) && (forall k :: 0 <= k < from || to <= k < |xs| ==> p(xs[k])) {
      assert cut <= from;
      assert left[to - 1 - cut] == xs[to - 1];
      assert |r| >= to - from;
    }
  }

  lemma {:induction false} TrimOfBlank<T>(xs: seq<T>, p: T -> bool)
    requires forall k :: 0 <= k < |xs| ==> p(xs[k])
    ensures Trim(xs, p) == []
  {
    if xs == [] {
    } else {
      TrimOfBlank(xs[1..], p);
    }
  }

  lemma TrimOfTrimmed<T>(xs: seq<T>, p: T -> bool)
    requires xs != [] ==> !p(xs[0]) && !p(xs[|xs| - 1])
    ensures Trim(xs, p) == xs
  {
  }
}
