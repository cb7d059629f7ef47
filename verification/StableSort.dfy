/** The stable sort of `Array.prototype.sort` (ECMA-262, section 23.1.3.30), as left-to-right
    insertion, together with the facts that pin its result down. */
module StableSort {
  import opened Sequences

  ghost predicate StrictWeakOrder<T(!new)>(less: (T, T) -> bool) {
    && (forall a :: !less(a, a))
    && (forall a, b, c :: less(a, b) && less(b, c) ==> less(a, c))
    && (forall a, b, c :: !less(a, b) && !less(b, c) ==> !less(a, c))
  }

  ghost predicate Sorted<T>(less: (T, T) -> bool, xs: seq<T>) {
    forall i, j :: 0 <= i < j < |xs| ==> !less(xs[j], xs[i])
  }

  /** Index of the first element that must follow `x`. */
  function Position<T>(less: (T, T) -> bool, xs: seq<T>, x: T): (i: nat)
    ensures i <= |xs|
    ensures forall j :: 0 <= j < i ==> !less(x, xs[j])
    ensures i < |xs| ==> less(x, xs[i])
  {
    if xs == [] || less(x, xs[0]) then 0 else 1 + Position(less, xs[1..], x)
  }

  /** Puts `x` in front of the first element that must follow it. */
  function Insert<T>(less: (T, T) -> bool, xs: seq<T>, x: T): (r: seq<T>)
    ensures |r| == |xs| + 1
  {
    if xs == [] || less(x, xs[0]) then [x] + xs else [xs[0]] + Insert(less, xs[1..], x)
  }

  lemma InsertFirst<T>(less: (T, T) -> bool, xs: seq<T>, x: T)
    requires xs == [] || less(x, xs[0])
    ensures Position(less, xs, x) == 0 && Insert(less, xs, x) == [x] + xs
  {
  }

  lemma InsertLater<T>(less: (T, T) -> bool, xs: seq<T>, x: T)
    requires xs != [] && !less(x, xs[0])
    ensures Position(less, xs, x) == 1 + Position(less, xs[1..], x)
    ensures Insert(less, xs, x) == [xs[0]] + Insert(less, xs[1..], x)
  {
  }

  /** `findIndex`, then both slices around the new element. */
  lemma {:induction false} InsertIsSplice<T>(less: (T, T) -> bool, xs: seq<T>, x: T)
    ensures var i := Position(less, xs, x);
      Insert(less, xs, x) == xs[..i] + [x] + xs[i..]
  {
    hide Insert, Position;
    if xs == [] || less(x, xs[0]) {
      InsertFirst(less, xs, x);
    } else {
      var i := Position(less, xs[1..], x);
      InsertLater(less, xs, x);
      InsertIsSplice(less, xs[1..], x);
      assert [xs[0]] + xs[1..][..i] == xs[..i + 1] && xs[1..][i..] == xs[i + 1..];
    }
  }

  function InsertAll<T>(less: (T, T) -> bool, acc: seq<T>, xs: seq<T>): (r: seq<T>)
    ensures |r| == |acc| + |xs|
    decreases xs
  {
    if xs == [] then acc else InsertAll(less, Insert(less, acc, xs[0]), xs[1..])
  }

  function Sort<T>(less: (T, T) -> bool, xs: seq<T>): (r: seq<T>)
    ensures |r| == |xs|
  {
    InsertAll(less, [], xs)
  }

  lemma InsertPermutes<T>(less: (T, T) -> bool, xs: seq<T>, x: T)
    ensures multiset(Insert(less, xs, x)) == multiset(xs) + multiset{x}
  {
    hide Position, Insert;
    var i := Position(less, xs, x);
    InsertIsSplice(less, xs, x);
    assert xs == xs[..i] + xs[i..];
  }

  lemma {:induction false} InsertAllPermutes<T>(less: (T, T) -> bool, acc: seq<T>, xs: seq<T>)
    ensures multiset(InsertAll(less, acc, xs)) == multiset(acc) + multiset(xs)
    decreases xs
  {
    hide Insert;
    if xs == [] {
      assert InsertAll(less, acc, xs) == acc;
    } else {
      InsertPermutes(less, acc, xs[0]);
      InsertAllPermutes(less, Insert(less, acc, xs[0]), xs[1..]);
      assert xs == [xs[0]] + xs[1..];
    }
  }

  lemma SortPermutes<T>(less: (T, T) -> bool, xs: seq<T>)
    ensures multiset(Sort(less, xs)) == multiset(xs)
  {
    InsertAllPermutes(less, [], xs);
  }

  lemma {:induction false} InsertAllConcat<T>(less: (T, T) -> bool, acc: seq<T>, xs: seq<T>, ys: seq<T>)
    ensures InsertAll(less, acc, xs + ys) == InsertAll(less, InsertAll(less, acc, xs), ys)
    decreases xs
  {
    if xs == [] {
      assert xs + ys == ys;
    } else {
      assert (xs + ys)[1..] == xs[1..] + ys;
      InsertAllConcat(less, Insert(less, acc, xs[0]), xs[1..], ys);
    }
  }

  lemma InsertSorted<T(!new)>(less: (T, T) -> bool, xs: seq<T>, x: T)
    requires StrictWeakOrder(less) && Sorted(less, xs)
    ensures Sorted(less, Insert(less, xs, x))
  {
    hide Insert;
    var i := Position(less, xs, x);
    InsertIsSplice(less, xs, x);
    var r := Insert(less, xs, x);
    forall a, b | 0 <= a < b < |r| ensures !less(r[b], r[a]) {
      if a == i {
        assert r[b] == xs[b - 1];
        assert less(x, xs[i]) && !less(xs[b - 1], xs[i]);
      }
    }
  }

  lemma {:induction false} InsertAllSorted<T(!new)>(less: (T, T) -> bool, acc: seq<T>, xs: seq<T>)
    requires StrictWeakOrder(less) && Sorted(less, acc)
    ensures Sorted(less, InsertAll(less, acc, xs))
    decreases xs
  {
    if xs == [] {
    } else {
      InsertSorted(less, acc, xs[0]);
      InsertAllSorted(less, Insert(less, acc, xs[0]), xs[1..]);
    }
  }

  lemma SortSorts<T(!new)>(less: (T, T) -> bool, xs: seq<T>)
    requires StrictWeakOrder(less)
    ensures Sorted(less, Sort(less, xs))
  {
    InsertAllSorted(less, [], xs);
  }

  lemma {:induction false} InsertAllInOrder<T(!new)>(less: (T, T) -> bool, acc: seq<T>, xs: seq<T>)
    requires Sorted(less, acc + xs)
    ensures InsertAll(less, acc, xs) == acc + xs
    decreases xs
  {
    if xs == [] {
      assert acc + xs == acc;
    } else {
      var all := acc + xs;
      assert forall j :: 0 <= j < |acc| ==> all[j] == acc[j] && !less(all[|acc|], all[j]);
      assert Position(less, acc, xs[0]) == |acc|;
      InsertIsSplice(less, acc, xs[0]);
      assert Insert(less, acc, xs[0]) == acc + [xs[0]];
      assert acc + [xs[0]] + xs[1..] == all;
      InsertAllInOrder(less, acc + [xs[0]], xs[1..]);
    }
  }

  lemma SortOfSorted<T(!new)>(less: (T, T) -> bool, xs: seq<T>)
    requires Sorted(less, xs)
    ensures Sort(less, xs) == xs
  {
    assert [] + xs == xs;
    InsertAllInOrder(less, [], xs);
  }

  // ---------------------------------------------------------------- stability

  /** The elements tied with `pivot`, in order. */
  function Ties<T>(less: (T, T) -> bool, xs: seq<T>, pivot: T): seq<T> {
    if xs == [] then []
    else (if less(xs[0], pivot) || less(pivot, xs[0]) then [] else [xs[0]]) + Ties(less, xs[1..], pivot)
  }

  lemma {:induction false} TiesConcat<T>(less: (T, T) -> bool, xs: seq<T>, ys: seq<T>, pivot: T)
    ensures Ties(less, xs + ys, pivot) == Ties(less, xs, pivot) + Ties(less, ys, pivot)
  {
    if xs == [] {
      assert xs + ys == ys;
    } else {
      assert (xs + ys)[1..] == xs[1..] + ys;
      TiesConcat(less, xs[1..], ys, pivot);
    }
  }

  lemma {:induction false} NoTies<T>(less: (T, T) -> bool, xs: seq<T>, pivot: T)
    requires forall i :: 0 <= i < |xs| ==> less(pivot, xs[i])
    ensures Ties(less, xs, pivot) == []
  {
    if xs == [] {
    } else {
      NoTies(less, xs[1..], pivot);
    }
  }

  lemma NoTiesBehind<T(!new)>(less: (T, T) -> bool, xs: seq<T>, x: T, pivot: T)
    requires StrictWeakOrder(less) && Sorted(less, xs) && !less(x, pivot) && !less(pivot, x)
    ensures Ties(less, xs[Position(less, xs, x)..], pivot) == []
  {
    var i := Position(less, xs, x);
    forall j | i <= j < |xs| ensures less(pivot, xs[j]) {
      assert j > i ==> !less(xs[j], xs[i]);
      assert !less(xs[j], xs[i]);
    }
    NoTies(less, xs[i..], pivot);
  }

  lemma TiesMove<T>(less: (T, T) -> bool, xs: seq<T>, x: T, ys: seq<T>, pivot: T)
    requires Ties(less, [x], pivot) == [] || Ties(less, ys, pivot) == []
    ensures Ties(less, xs + [x] + ys, pivot) == Ties(less, xs + ys + [x], pivot)
  {
    TiesConcat(less, xs + [x], ys, pivot);
    TiesConcat(less, xs, [x], pivot);
    TiesConcat(less, xs + ys, [x], pivot);
    TiesConcat(less, xs, ys, pivot);
  }

  lemma NoTie<T>(less: (T, T) -> bool, x: T, pivot: T)
    requires less(x, pivot) || less(pivot, x)
    ensures Ties(less, [x], pivot) == []
  {
  }

  lemma InsertKeepsTies<T(!new)>(less: (T, T) -> bool, xs: seq<T>, x: T, pivot: T)
    requires StrictWeakOrder(less) && Sorted(less, xs)
    ensures Ties(less, Insert(less, xs, x), pivot) == Ties(less, xs + [x], pivot)
  {
    hide Insert, Position, Ties, StrictWeakOrder, Sorted;
    var i := Position(less, xs, x);
    InsertIsSplice(less, xs, x);
    if !less(x, pivot) && !less(pivot, x) {
      NoTiesBehind(less, xs, x, pivot);
    } else {
      NoTie(less, x, pivot);
    }
    TiesMove(less, xs[..i], x, xs[i..], pivot);
    assert xs[..i] + xs[i..] == xs;
  }

  lemma TiesReplaceHead<T>(less: (T, T) -> bool, xs: seq<T>, xs': seq<T>, ys: seq<T>, pivot: T)
    requires Ties(less, xs, pivot) == Ties(less, xs', pivot)
    ensures Ties(less, xs + ys, pivot) == Ties(less, xs' + ys, pivot)
  {
    TiesConcat(less, xs, ys, pivot);
    TiesConcat(less, xs', ys, pivot);
  }

  lemma {:induction false} InsertAllKeepsTies<T(!new)>(
    less: (T, T) -> bool, acc: seq<T>, xs: seq<T>, pivot: T)
    requires StrictWeakOrder(less) && Sorted(less, acc)
    ensures Ties(less, InsertAll(less, acc, xs), pivot) == Ties(less, acc + xs, pivot)
    decreases xs
  {
    hide Insert, Ties, Sorted;
    if xs == [] {
      assert acc + xs == acc;
    } else {
      InsertSorted(less, acc, xs[0]);
      InsertKeepsTies(less, acc, xs[0], pivot);
      InsertAllKeepsTies(less, Insert(less, acc, xs[0]), xs[1..], pivot);
      TiesReplaceHead(less, Insert(less, acc, xs[0]), acc + [xs[0]], xs[1..], pivot);
      assert acc + [xs[0]] + xs[1..] == acc + xs;
    }
  }

  ghost predicate SameTies<T(!new)>(less: (T, T) -> bool, xs: seq<T>, ys: seq<T>) {
    forall pivot :: Ties(less, xs, pivot) == Ties(less, ys, pivot)
  }

  lemma TiesWithHead<T(!new)>(less: (T, T) -> bool, xs: seq<T>)
    requires StrictWeakOrder(less) && xs != []
    ensures Ties(less, xs, xs[0]) != []
  {
  }

  /** Sorted order plus the order among ties leaves only one list. */
  lemma {:induction false} SortedTiesDecide<T(!new)>(less: (T, T) -> bool, xs: seq<T>, ys: seq<T>)
    requires StrictWeakOrder(less) && Sorted(less, xs) && Sorted(less, ys)
    requires SameTies(less, xs, ys)
    ensures xs == ys
  {
    if xs == [] {
      if ys != [] {
        TiesWithHead(less, ys);
      }
    } else if ys == [] {
      TiesWithHead(less, xs);
    } else {
      TiedHeads(less, xs, ys);
      TiedHeads(less, ys, xs);
      assert Ties(less, xs, xs[0]) == Ties(less, ys, xs[0]);
      assert Ties(less, xs, xs[0])[0] == xs[0] && Ties(less, ys, xs[0])[0] == ys[0];
      forall pivot ensures Ties(less, xs[1..], pivot) == Ties(less, ys[1..], pivot) {
        assert Ties(less, xs, pivot) == Ties(less, ys, pivot);
        var head := Ties(less, [xs[0]], pivot);
        TiesConcat(less, [xs[0]], xs[1..], pivot);
        TiesConcat(less, [ys[0]], ys[1..], pivot);
        assert xs == [xs[0]] + xs[1..] && ys == [ys[0]] + ys[1..];
        assert Ties(less, xs, pivot)[|head|..] == Ties(less, xs[1..], pivot);
        assert Ties(less, ys, pivot)[|head|..] == Ties(less, ys[1..], pivot);
      }
      SortedTiesDecide(less, xs[1..], ys[1..]);
      assert xs == [xs[0]] + xs[1..] && ys == [ys[0]] + ys[1..];
    }
  }

  lemma TiedHeads<T(!new)>(less: (T, T) -> bool, xs: seq<T>, ys: seq<T>)
    requires StrictWeakOrder(less) && Sorted(less, ys) && xs != [] && ys != []
    requires Ties(less, xs, xs[0]) == Ties(less, ys, xs[0])
    ensures !less(xs[0], ys[0])
  {
    if less(xs[0], ys[0]) {
      forall i | 0 <= i < |ys| ensures less(xs[0], ys[i]) {
        assert i > 0 ==> !less(ys[i], ys[0]);
      }
      NoTies(less, ys, xs[0]);
      assert false;
    }
  }

  /** The sort is the only list that is ordered and keeps ties in their first order. */
  lemma SortIsUnique<T(!new)>(less: (T, T) -> bool, xs: seq<T>, candidate: seq<T>)
    requires StrictWeakOrder(less)
    ensures candidate == Sort(less, xs) <==>
      Sorted(less, candidate) && SameTies(less, candidate, xs)
  {
    SortSorts(less, xs);
    forall pivot ensures Ties(less, Sort(less, xs), pivot) == Ties(less, xs, pivot) {
      InsertAllKeepsTies(less, [], xs, pivot);
      assert [] + xs == xs;
    }
    if Sorted(less, candidate) && SameTies(less, candidate, xs) {
      SortedTiesDecide(less, candidate, Sort(less, xs));
    }
  }

  lemma MembersOfPermutation<T>(xs: seq<T>, ys: seq<T>, x: T)
    requires multiset(xs) == multiset(ys) && x in xs
    ensures x in ys
  {
    assert x in multiset(xs);
  }

  lemma {:induction false} TwoPlaces<T>(xs: seq<T>, v: T)
    requires multiset(xs)[v] >= 2
    ensures exists i, j :: 0 <= i < j < |xs| && xs[i] == v && xs[j] == v
  {
    DropHead(xs);
    if xs[0] == v {
      assert v in multiset(xs[1..]);
      var j :| 0 <= j < |xs[1..]| && xs[1..][j] == v;
      assert xs[j + 1] == v;
    } else {
      TwoPlaces(xs[1..], v);
      var i, j :| 0 <= i < j < |xs[1..]| && xs[1..][i] == v && xs[1..][j] == v;
      assert xs[i + 1] == v && xs[j + 1] == v;
    }
  }

  /** Keys that tell the elements of a sequence apart still do so after a permutation. */
  lemma DistinctKeysSurvive<T, K>(xs: seq<T>, ys: seq<T>, key: T -> K)
    requires multiset(xs) == multiset(ys)
    requires forall i, j :: 0 <= i < j < |xs| ==> key(xs[i]) != key(xs[j])
    ensures forall i, j :: 0 <= i < j < |ys| ==> key(ys[i]) != key(ys[j])
  {
    forall i, j | 0 <= i < j < |ys| ensures key(ys[i]) != key(ys[j]) {
      MembersOfPermutation(ys, xs, ys[i]);
      MembersOfPermutation(ys, xs, ys[j]);
      if ys[i] == ys[j] {
        assert ys == ys[..i] + [ys[i]] + ys[i + 1..j] + [ys[j]] + ys[j + 1..];
        TwoPlaces(xs, ys[i]);
      }
    }
  }

  lemma DropHead<T>(xs: seq<T>)
    requires xs != []
    ensures multiset(xs[1..]) == multiset(xs) - multiset{xs[0]}
  {
    assert xs == [xs[0]] + xs[1..];
  }

  /** When only equal elements tie, the sort forgets the order of its input. */
  lemma {:induction false} SortedPermutationsAgree<T(!new)>(less: (T, T) -> bool, xs: seq<T>, ys: seq<T>)
    requires Sorted(less, xs) && Sorted(less, ys) && multiset(xs) == multiset(ys)
    requires forall a, b :: a == b || less(a, b) || less(b, a)
    ensures xs == ys
  {
    if xs == [] {
    } else {
      MembersOfPermutation(xs, ys, xs[0]);
      MembersOfPermutation(ys, xs, ys[0]);
      var i :| 0 <= i < |ys| && ys[i] == xs[0];
      var j :| 0 <= j < |xs| && xs[j] == ys[0];
      assert xs[0] == ys[0];
      DropHead(xs);
      DropHead(ys);
      SortedPermutationsAgree(less, xs[1..], ys[1..]);
    }
  }

  lemma {:induction false} FilterKeepsSorted<T(!new)>(less: (T, T) -> bool, xs: seq<T>, p: T -> bool)
    requires Sorted(less, xs)
    ensures Sorted(less, Filter(xs, p))
  {
    if xs == [] {
    } else {
      FilterKeepsSorted(less, xs[1..], p);
      forall x | x in Filter(xs[1..], p) ensures !less(x, xs[0]) {
        FilterMembers(xs[1..], p, x);
      }
    }
  }

  // ---------------------------------------------------------------- prefixes

  lemma {:induction false} TiesOfFilter<T>(less: (T, T) -> bool, xs: seq<T>, p: T -> bool, pivot: T)
    ensures Ties(less, Filter(xs, p), pivot) == Filter(Ties(less, xs, pivot), p)
  {
    if xs == [] {
    } else {
      TiesOfFilter(less, xs[1..], p, pivot);
      var head := Ties(less, [xs[0]], pivot);
      assert xs == [xs[0]] + xs[1..];
      TiesConcat(less, [xs[0]], xs[1..], pivot);
      FilterConcat(head, Ties(less, xs[1..], pivot), p);
      assert Filter([xs[0]], p) == if p(xs[0]) then [xs[0]] else [];
    }
  }

  /** Leaving rows out before sorting or after comes to the same. */
  lemma SortOfFilter<T(!new)>(less: (T, T) -> bool, xs: seq<T>, p: T -> bool)
    requires StrictWeakOrder(less)
    ensures Sort(less, Filter(xs, p)) == Filter(Sort(less, xs), p)
  {
    hide Sort, Filter, Sorted, Ties;
    var sorted := Sort(less, xs);
    SortIsUnique(less, xs, sorted);
    FilterKeepsSorted(less, sorted, p);
    forall pivot ensures Ties(less, Filter(sorted, p), pivot) == Ties(less, Filter(xs, p), pivot) {
      TiesOfFilter(less, sorted, p, pivot);
      TiesOfFilter(less, xs, p, pivot);
      assert Ties(less, sorted, pivot) == Ties(less, xs, pivot);
    }
    SortIsUnique(less, Filter(xs, p), Filter(sorted, p));
  }

  lemma {:induction false} PositionInPrefix<T>(less: (T, T) -> bool, xs: seq<T>, n: nat, x: T)
    requires n <= |xs|
    ensures Position(less, xs[..n], x) == Min(n, Position(less, xs, x))
  {
    if n > 0 && !less(x, xs[0]) {
      assert xs[..n][1..] == xs[1..][..n - 1];
      PositionInPrefix(less, xs[1..], n - 1, x);
    }
  }

  /** The first `n` after an insertion depend only on the first `n` before it. */
  lemma InsertIntoPrefix<T>(less: (T, T) -> bool, xs: seq<T>, n: nat, x: T)
    ensures Take(Insert(less, xs, x), n) == Take(Insert(less, Take(xs, n), x), n)
  {
    hide Position, Insert;
    var i := Position(less, xs, x);
    PositionInPrefix(less, xs, Min(n, |xs|), x);
    InsertIsSplice(less, xs, x);
    InsertIsSplice(less, Take(xs, n), x);
    if n <= i {
      assert Take(Insert(less, xs, x), n) == xs[..n];
      assert Take(Insert(less, Take(xs, n), x), n) == xs[..n];
    } else if n <= |xs| {
      assert Take(Insert(less, xs, x), n) == xs[..i] + [x] + xs[i..n - 1];
      assert Insert(less, Take(xs, n), x) == xs[..i] + [x] + xs[i..n];
      assert (xs[..i] + [x] + xs[i..n])[..n] == xs[..i] + [x] + xs[i..n - 1];
    } else {
      assert Take(xs, n) == xs;
    }
  }

  lemma {:induction false} InsertAllIntoPrefix<T>(
    less: (T, T) -> bool, acc: seq<T>, acc': seq<T>, xs: seq<T>, n: nat)
    requires Take(acc, n) == Take(acc', n)
    ensures Take(InsertAll(less, acc, xs), n) == Take(InsertAll(less, acc', xs), n)
    decreases xs
  {
    if xs == [] {
    } else {
      InsertIntoPrefix(less, acc, n, xs[0]);
      InsertIntoPrefix(less, acc', n, xs[0]);
      InsertAllIntoPrefix(less, Insert(less, acc, xs[0]), Insert(less, acc', xs[0]), xs[1..], n);
    }
  }

  /** How many elements may stay before `x`. */
  function NotAfter<T>(less: (T, T) -> bool, xs: seq<T>, x: T): (n: nat)
    ensures n <= |xs|
  {
    if xs == [] then 0 else (if less(x, xs[0]) then 0 else 1) + NotAfter(less, xs[1..], x)
  }

  lemma {:induction false} NotAfterConcat<T>(less: (T, T) -> bool, xs: seq<T>, ys: seq<T>, x: T)
    ensures NotAfter(less, xs + ys, x) == NotAfter(less, xs, x) + NotAfter(less, ys, x)
  {
    if xs == [] {
      assert xs + ys == ys;
    } else {
      assert (xs + ys)[1..] == xs[1..] + ys;
      NotAfterConcat(less, xs[1..], ys, x);
    }
  }

  lemma {:induction false} NotAfterInsertAll<T>(less: (T, T) -> bool, acc: seq<T>, xs: seq<T>, x: T)
    ensures NotAfter(less, InsertAll(less, acc, xs), x) ==
            NotAfter(less, acc, x) + NotAfter(less, xs, x)
    decreases xs
  {
    hide Insert, Position;
    if xs == [] {
    } else {
      var i := Position(less, acc, xs[0]);
      InsertIsSplice(less, acc, xs[0]);
      NotAfterConcat(less, acc[..i] + [xs[0]], acc[i..], x);
      NotAfterConcat(less, acc[..i], [xs[0]], x);
      NotAfterConcat(less, acc[..i], acc[i..], x);
      assert acc == acc[..i] + acc[i..];
      NotAfterInsertAll(less, Insert(less, acc, xs[0]), xs[1..], x);
    }
  }

  lemma {:induction false} AllNotAfter<T>(less: (T, T) -> bool, xs: seq<T>, x: T)
    requires forall i :: 0 <= i < |xs| ==> !less(x, xs[i])
    ensures NotAfter(less, xs, x) == |xs|
  {
    if xs == [] {
    } else {
      AllNotAfter(less, xs[1..], x);
    }
  }

  lemma {:induction false} PositionCounts<T(!new)>(less: (T, T) -> bool, xs: seq<T>, x: T)
    requires StrictWeakOrder(less) && Sorted(less, xs)
    ensures Position(less, xs, x) == NotAfter(less, xs, x)
  {
    if xs == [] {
    } else {
      if less(x, xs[0]) {
        forall i | 0 <= i < |xs| ensures less(x, xs[i]) {
          assert i > 0 ==> !less(xs[i], xs[0]);
        }
        NoneNotAfter(less, xs, x);
      } else {
        PositionCounts(less, xs[1..], x);
      }
    }
  }

  lemma {:induction false} NoneNotAfter<T>(less: (T, T) -> bool, xs: seq<T>, x: T)
    requires forall i :: 0 <= i < |xs| ==> less(x, xs[i])
    ensures NotAfter(less, xs, x) == 0
  {
    if xs == [] {
    } else {
      NoneNotAfter(less, xs[1..], x);
    }
  }

  /** An element with `n` others that may stay before it never enters the first `n`. */
  lemma LateInsert<T(!new)>(less: (T, T) -> bool, xs: seq<T>, n: nat, x: T)
    requires StrictWeakOrder(less) && Sorted(less, xs) && n <= NotAfter(less, xs, x)
    ensures Take(Insert(less, xs, x), n) == Take(xs, n)
  {
    PositionCounts(less, xs, x);
    InsertIsSplice(less, xs, x);
  }

  /** From a sorted list only its first `n` elements can reach the first `n` of a merge. */
  lemma {:induction false} MergePrefix<T(!new)>(
    less: (T, T) -> bool, acc: seq<T>, xs: seq<T>, n: nat, done: nat)
    requires StrictWeakOrder(less) && Sorted(less, acc) && Sorted(less, xs)
    requires Min(n, |xs|) <= done <= |xs|
    ensures Take(InsertAll(less, acc, xs[..done]), n) == Take(InsertAll(less, acc, Take(xs, n)), n)
    decreases done
  {
    if done > Min(n, |xs|) {
      var x := xs[done - 1];
      var before := InsertAll(less, acc, xs[..done - 1]);
      assert xs[..done] == xs[..done - 1] + [x];
      InsertAllConcat(less, acc, xs[..done - 1], [x]);
      assert InsertAll(less, before, [x]) == Insert(less, before, x);
      InsertAllSorted(less, acc, xs[..done - 1]);
      NotAfterInsertAll(less, acc, xs[..done - 1], x);
      AllNotAfter(less, xs[..done - 1], x);
      LateInsert(less, before, n, x);
      MergePrefix(less, acc, xs, n, done - 1);
    }
  }
}
