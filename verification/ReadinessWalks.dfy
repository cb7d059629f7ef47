/** A client following the offset cursors of the bounded readiness scan
    (src/harper/resource-directory-advisor-query.ts) over one unchanging table: every request
    scans, sorts and cuts anew. */
module ReadinessWalks {
  import opened Sequences
  import opened StableSort
  import opened Texts
  import opened Pagination
  import opened ReadinessScan

  // ---------------------------------------------------------------- one page

  /** What the scan for the page at `offset` hands over; `found` are the reachable matches. */
  function Fetched<T>(found: seq<T>, offset: nat, limit: nat): seq<T> {
    Take(found, offset + limit + 1)
  }

  /** The page at `offset`, in terms of the reachable matches. */
  function PageItems<T>(less: (T, T) -> bool, found: seq<T>, offset: nat, limit: nat): seq<T> {
    Slice(Sort(less, Fetched(found, offset, limit)), offset, offset + limit)
  }

  lemma PageOfFound<T>(less: (T, T) -> bool, rows: seq<T>, keep: T -> bool, offset: nat, limit: nat)
    requires limit >= 1
    ensures var page := DerivedReadinessQuery(less, rows, keep, offset, limit);
      var found := Reachable(rows, keep);
      && page.items == PageItems(less, found, offset, limit)
      && |page.items| == (if offset < |found| then Min(offset + limit, |found|) - offset else 0)
      && page.nextCursor ==
           if offset + limit < |found| then Some(EncodeOffsetCursor(offset + limit)) else None
  {
    hide CollectReadinessMatches, Reachable, Sort, EncodeOffsetCursor;
    ScanGivesScanned(rows, keep, offset, limit);
  }

  /** A client following cursors until none comes back. */
  function ReadinessWalk<T>(
    less: (T, T) -> bool, rows: seq<T>, keep: T -> bool, limit: nat, token: Option<Text>)
    : (pages: seq<seq<T>>)
    requires limit >= 1
    decreases |Reachable(rows, keep)| - DecodeOffsetCursor(token)
  {
    var offset := DecodeOffsetCursor(token);
    var page := DerivedReadinessQuery(less, rows, keep, offset, limit);
    if page.nextCursor.None? then [page.items]
    else
      NextPageIsFurther(less, rows, keep, limit, token);
      [page.items] + ReadinessWalk(less, rows, keep, limit, page.nextCursor)
  }

  lemma NextPageIsFurther<T>(
    less: (T, T) -> bool, rows: seq<T>, keep: T -> bool, limit: nat, token: Option<Text>)
    requires limit >= 1
    ensures var offset := DecodeOffsetCursor(token);
      var next := DerivedReadinessQuery(less, rows, keep, offset, limit).nextCursor;
      next.Some? ==>
        DecodeOffsetCursor(next) == offset + limit && offset + limit < |Reachable(rows, keep)|
  {
    hide DerivedReadinessQuery, Reachable, EncodeOffsetCursor, DecodeOffsetCursor;
    var offset := DecodeOffsetCursor(token);
    PageOfFound(less, rows, keep, offset, limit);
    OffsetRoundTrip(offset + limit);
  }

  // ---------------------------------------------------------------- the whole walk

  /** The rows that directory order puts on or before the page at `offset` are among those
      that its scan finds. */
  ghost predicate FrontFetched<T>(less: (T, T) -> bool, found: seq<T>, offset: nat, limit: nat) {
    var sorted := Sort(less, found);
    forall k :: 0 <= k < Min(offset + limit, |sorted|) ==> sorted[k] in Fetched(found, offset, limit)
  }

  /** The same for each page from `offset` on. */
  ghost predicate FrontsFetched<T>(less: (T, T) -> bool, found: seq<T>, offset: nat, limit: nat)
    requires limit >= 1
    decreases |found| - offset
  {
    offset < |found| ==>
      FrontFetched(less, found, offset, limit) && FrontsFetched(less, found, offset + limit, limit)
  }

  /** One page is right exactly when its front has been fetched. */
  lemma PageRightIff<T(!new)>(less: (T, T) -> bool, found: seq<T>, offset: nat, limit: nat)
    requires StrictWeakOrder(less) && Distinct(found) && limit >= 1 && offset < |found|
    ensures PageItems(less, found, offset, limit) == Slice(Sort(less, found), offset, offset + limit)
      <==> FrontFetched(less, found, offset, limit)
  {
    hide Sort, Filter, StrictWeakOrder, Distinct, Slice;
    var fetched := Fetched(found, offset, limit);
    var known := (x: T) => x in fetched;
    TakeOfTake(found, offset + limit + 1);
    SortOfScanned(less, found, |fetched|, known);
    FilterKeepsWindow(Sort(less, found), known, offset, limit);
  }

  lemma TakeOfTake<T>(xs: seq<T>, n: nat)
    ensures Take(xs, |Take(xs, n)|) == Take(xs, n)
  {
  }

  /** A walk shows as many rows as there are reachable matches ahead of it. */
  lemma {:induction false} WalkLength<T>(
    less: (T, T) -> bool, rows: seq<T>, keep: T -> bool, limit: nat, token: Option<Text>)
    requires limit >= 1
    ensures var offset, found := DecodeOffsetCursor(token), Reachable(rows, keep);
      |Flatten(ReadinessWalk(less, rows, keep, limit, token))| ==
        if offset < |found| then |found| - offset else 0
    decreases |Reachable(rows, keep)| - DecodeOffsetCursor(token)
  {
    hide DerivedReadinessQuery, Reachable, EncodeOffsetCursor, DecodeOffsetCursor, PageItems;
    var offset := DecodeOffsetCursor(token);
    var page := DerivedReadinessQuery(less, rows, keep, offset, limit);
    PageOfFound(less, rows, keep, offset, limit);
    NextPageIsFurther(less, rows, keep, limit, token);
    var walk := ReadinessWalk(less, rows, keep, limit, token);
    if page.nextCursor.Some? {
      WalkLength(less, rows, keep, limit, page.nextCursor);
      assert walk[1..] == ReadinessWalk(less, rows, keep, limit, page.nextCursor);
    } else {
      assert walk[1..] == [];
    }
  }

  lemma FrontAndRest<T>(front: seq<T>, rest: seq<T>, whole: seq<T>, from: nat, to: nat)
    requires from <= to && from <= |whole| && |front| == Min(to, |whole|) - from
    ensures front + rest == whole[from..] <==>
      front == Slice(whole, from, to) && rest == whole[Min(to, |whole|)..]
  {
    var hi := Min(to, |whole|);
    assert whole[from..] == whole[from..hi] + whole[hi..];
    if front + rest == whole[from..] {
      assert front == (front + rest)[..|front|] && rest == (front + rest)[|front|..];
    }
  }

  /** From a cursor on, a walk shows the reachable matches in directory order, each once,
      exactly when no page starts or ends before a row its scan has not found. */
  lemma {:induction false} WalkIsSortedIff<T(!new)>(
    less: (T, T) -> bool, rows: seq<T>, keep: T -> bool, limit: nat, token: Option<Text>)
    requires StrictWeakOrder(less) && Distinct(rows) && limit >= 1
    requires DecodeOffsetCursor(token) <= |Reachable(rows, keep)|
    ensures var offset, found := DecodeOffsetCursor(token), Reachable(rows, keep);
      Flatten(ReadinessWalk(less, rows, keep, limit, token)) == Sort(less, found)[offset..] <==>
        FrontsFetched(less, found, offset, limit)
    decreases |Reachable(rows, keep)| - DecodeOffsetCursor(token)
  {
    hide DerivedReadinessQuery, Reachable, EncodeOffsetCursor, DecodeOffsetCursor, PageItems, Sort,
      StrictWeakOrder, Distinct, Slice, FrontFetched;
    var offset, found := DecodeOffsetCursor(token), Reachable(rows, keep);
    var page := DerivedReadinessQuery(less, rows, keep, offset, limit);
    PageOfFound(less, rows, keep, offset, limit);
    NextPageIsFurther(less, rows, keep, limit, token);
    ReachableIsDistinct(rows, keep);
    if offset < |found| {
      PageRightIff(less, found, offset, limit);
    }
    var walk := ReadinessWalk(less, rows, keep, limit, token);
    FrontAndRest(page.items, Flatten(walk[1..]), Sort(less, found), offset, offset + limit);
    if page.nextCursor.Some? {
      assert walk[1..] == ReadinessWalk(less, rows, keep, limit, page.nextCursor);
      WalkIsSortedIff(less, rows, keep, limit, page.nextCursor);
    } else {
      assert walk[1..] == [];
      LastPage(less, found, offset, limit);
    }
  }

  lemma LastPage<T>(less: (T, T) -> bool, found: seq<T>, offset: nat, limit: nat)
    requires limit >= 1 && offset <= |found| <= offset + limit
    ensures FrontsFetched(less, found, offset + limit, limit)
    ensures Flatten<T>([]) == Sort(less, found)[Min(offset + limit, |found|)..]
    ensures offset == |found| ==> PageItems(less, found, offset, limit) == [] && |Sort(less, found)| == offset
  {
    hide Sort;
  }

  lemma ReachableIsDistinct<T>(rows: seq<T>, keep: T -> bool)
    requires Distinct(rows)
    ensures Distinct(Reachable(rows, keep))
  {
    FilterDistinct(Take(rows, READINESS_SCAN_LIMIT), keep);
  }

  /** Following the cursors from the start shows all matches in directory order, each once,
      if and only if no match lies behind the first 10,000 rows and each page's scan finds
      the rows up to the page's end. */
  lemma WalkCompleteIff<T(!new)>(less: (T, T) -> bool, rows: seq<T>, keep: T -> bool, limit: nat)
    requires StrictWeakOrder(less) && Distinct(rows) && limit >= 1
    ensures Flatten(ReadinessWalk(less, rows, keep, limit, None)) == Sort(less, Filter(rows, keep)) <==>
      |Reachable(rows, keep)| == |Filter(rows, keep)| && FrontsFetched(less, Reachable(rows, keep), 0, limit)
  {
    hide Reachable, Filter, Sort, ReadinessWalk, FrontsFetched, StrictWeakOrder, Distinct;
    var found, all := Reachable(rows, keep), Filter(rows, keep);
    WalkLength(less, rows, keep, limit, None);
    WalkIsSortedIff(less, rows, keep, limit, None);
    ReachableIsPrefix(rows, keep);
    assert Sort(less, found)[0..] == Sort(less, found);
    if |found| == |all| {
      assert found == all[..|found|] == all;
    }
  }

  /** In particular when the store serves directory order: then the walk shows exactly the
      matches among the first 10,000 rows. */
  lemma SortedWalkShowsReachable<T(!new)>(less: (T, T) -> bool, rows: seq<T>, keep: T -> bool, limit: nat)
    requires StrictWeakOrder(less) && Distinct(rows) && limit >= 1 && Sorted(less, rows)
    ensures Flatten(ReadinessWalk(less, rows, keep, limit, None)) == Reachable(rows, keep)
  {
    hide Reachable, Sort, ReadinessWalk, StrictWeakOrder, Distinct, Sorted;
    var found := Reachable(rows, keep);
    ReachableIsSorted(less, rows, keep);
    SortOfSorted(less, found);
    SortedFronts(less, found, 0, limit);
    WalkIsSortedIff(less, rows, keep, limit, None);
    assert found[0..] == found;
  }

  lemma ReachableIsSorted<T(!new)>(less: (T, T) -> bool, rows: seq<T>, keep: T -> bool)
    requires Sorted(less, rows)
    ensures Sorted(less, Reachable(rows, keep))
  {
    hide Filter;
    FilterKeepsSorted(less, Take(rows, READINESS_SCAN_LIMIT), keep);
  }

  lemma {:induction false} SortedFronts<T>(less: (T, T) -> bool, found: seq<T>, offset: nat, limit: nat)
    requires Sort(less, found) == found && limit >= 1
    ensures FrontsFetched(less, found, offset, limit)
    decreases |found| - offset
  {
    hide Sort;
    if offset < |found| {
      forall k | 0 <= k < Min(offset + limit, |found|) ensures found[k] in Fetched(found, offset, limit) {
        assert Fetched(found, offset, limit)[k] == found[k];
      }
      SortedFronts(less, found, offset + limit, limit);
    }
  }

  /** For instance, without the store's sort: over rows 3, 2, 1 pages of one show 2, 2 and 3;
      row 1 is never shown. */
  lemma UnsortedWalkMissesRow()
    ensures var less := (a: int, b: int) => a < b;
      Flatten(ReadinessWalk(less, [3, 2, 1], (_: int) => true, 1, None)) == [2, 2, 3]
  {
    hide Sort, DerivedReadinessQuery, EncodeOffsetCursor, DecodeOffsetCursor, Reachable, ReadinessWalk;
    var less := (a: int, b: int) => a < b;
    var keep := (_: int) => true;
    var rows := [3, 2, 1];
    var first, second := Some(EncodeOffsetCursor(1)), Some(EncodeOffsetCursor(2));
    AllReachable(rows, keep);
    SmallSorts();
    UnsortedPages(less, rows, keep);
    StartsAtZero();
    OffsetRoundTrip(1);
    OffsetRoundTrip(2);
    WalkStep(less, rows, keep, 1, second);
    WalkStep(less, rows, keep, 1, first);
    WalkStep(less, rows, keep, 1, None);
    FlattenThree([2], [2], [3]);
  }

  lemma WalkStep<T>(less: (T, T) -> bool, rows: seq<T>, keep: T -> bool, limit: nat, token: Option<Text>)
    requires limit >= 1
    ensures var page := DerivedReadinessQuery(less, rows, keep, DecodeOffsetCursor(token), limit);
      ReadinessWalk(less, rows, keep, limit, token) == [page.items] +
        if page.nextCursor.None? then [] else ReadinessWalk(less, rows, keep, limit, page.nextCursor)
  {
    hide DerivedReadinessQuery, DecodeOffsetCursor;
  }

  lemma FlattenThree<T>(xs: seq<T>, ys: seq<T>, zs: seq<T>)
    ensures Flatten([xs] + ([ys] + ([zs] + []))) == xs + ys + zs
  {
    assert [xs] + ([ys] + ([zs] + [])) == [xs, ys, zs];
    assert [xs, ys, zs][1..] == [ys, zs] && [ys, zs][1..] == [zs] && [zs][1..] == [];
    assert Flatten([zs]) == zs && Flatten([ys, zs]) == ys + zs;
  }

  lemma AllReachable<T>(rows: seq<T>, keep: T -> bool)
    requires |rows| <= READINESS_SCAN_LIMIT && forall i :: 0 <= i < |rows| ==> keep(rows[i])
    ensures Reachable(rows, keep) == rows
  {
    assert Take(rows, READINESS_SCAN_LIMIT) == rows;
    FilterAll(rows, keep);
  }

  lemma StartsAtZero()
    ensures DecodeOffsetCursor(None) == 0
  {
  }

  lemma UnsortedPages(less: (int, int) -> bool, rows: seq<int>, keep: int -> bool)
    requires rows == [3, 2, 1] && Reachable(rows, keep) == rows
    requires Sort(less, [3, 2]) == [2, 3] && Sort(less, rows) == [1, 2, 3]
    ensures var page := (offset: nat) => DerivedReadinessQuery(less, rows, keep, offset, 1);
      && page(0).items == [2] && page(0).nextCursor == Some(EncodeOffsetCursor(1))
      && page(1).items == [2] && page(1).nextCursor == Some(EncodeOffsetCursor(2))
      && page(2).items == [3] && page(2).nextCursor == None
  {
    hide DerivedReadinessQuery, Reachable, EncodeOffsetCursor, Sort;
    PageOfFound(less, rows, keep, 0, 1);
    PageOfFound(less, rows, keep, 1, 1);
    PageOfFound(less, rows, keep, 2, 1);
    assert Fetched(rows, 0, 1) == [3, 2];
    assert Fetched(rows, 1, 1) == rows && Fetched(rows, 2, 1) == rows;
  }
}
