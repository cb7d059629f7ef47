/** The bounded derived-readiness scan of the advisor directory and its in-memory page
    (src/harper/resource-directory-advisor-query.ts). `rows` are the rows the store's
    conditions select, in the order it serves them; `keep` is the readiness filter. */
module ReadinessScan {
  import opened Sequences
  import opened StableSort
  import opened Texts
  import opened Pagination

  const READINESS_SEARCH_PAGE_LIMIT: nat := 100
  const READINESS_SCAN_LIMIT: nat := 10_000

  datatype ScanResult<+T> = ScanResult(matched: seq<T>, truncated: bool)

  /** `collectReadinessMatches`. */
  function CollectReadinessMatches<T>(
    rows: seq<T>, keep: T -> bool, target: nat, scanned: nat, matched: seq<T>): ScanResult<T>
    decreases READINESS_SCAN_LIMIT - scanned
  {
    if scanned >= READINESS_SCAN_LIMIT || |matched| >= target then ScanResult(matched, true)
    else
      var batch := Slice(rows, scanned, scanned + READINESS_SEARCH_PAGE_LIMIT);
      var nextMatched := matched + Filter(batch, keep);
      if |nextMatched| >= target then ScanResult(Take(nextMatched, target), true)
      else if |batch| < READINESS_SEARCH_PAGE_LIMIT then ScanResult(nextMatched, false)
      else CollectReadinessMatches(rows, keep, target, scanned + |batch|, nextMatched)
  }

  /** Store reads made by the same recursion. */
  function ReadCount<T>(rows: seq<T>, keep: T -> bool, target: nat, scanned: nat, matched: seq<T>): nat
    decreases READINESS_SCAN_LIMIT - scanned
  {
    if scanned >= READINESS_SCAN_LIMIT || |matched| >= target then 0
    else
      var batch := Slice(rows, scanned, scanned + READINESS_SEARCH_PAGE_LIMIT);
      var nextMatched := matched + Filter(batch, keep);
      if |nextMatched| >= target || |batch| < READINESS_SEARCH_PAGE_LIMIT then 1
      else 1 + ReadCount(rows, keep, target, scanned + |batch|, nextMatched)
  }

  lemma {:induction false} AtMostHundredReads<T>(
    rows: seq<T>, keep: T -> bool, target: nat, scanned: nat, matched: seq<T>)
    requires scanned % READINESS_SEARCH_PAGE_LIMIT == 0 && scanned <= READINESS_SCAN_LIMIT
    ensures ReadCount(rows, keep, target, scanned, matched) <=
            (READINESS_SCAN_LIMIT - scanned) / READINESS_SEARCH_PAGE_LIMIT
    ensures scanned == 0 ==> ReadCount(rows, keep, target, scanned, matched) <= 100
    decreases READINESS_SCAN_LIMIT - scanned
  {
    hide Filter, Slice;
    if scanned < READINESS_SCAN_LIMIT && |matched| < target {
      var batch := Slice(rows, scanned, scanned + READINESS_SEARCH_PAGE_LIMIT);
      if |batch| == READINESS_SEARCH_PAGE_LIMIT {
        AtMostHundredReads(rows, keep, target, scanned + |batch|, matched + Filter(batch, keep));
      }
      BatchSize(rows, scanned);
    }
  }

  lemma BatchSize<T>(rows: seq<T>, scanned: nat)
    ensures |Slice(rows, scanned, scanned + READINESS_SEARCH_PAGE_LIMIT)| <= READINESS_SEARCH_PAGE_LIMIT
  {
  }

  /** The matches among the rows a scan may look at. */
  function Reachable<T>(rows: seq<T>, keep: T -> bool): seq<T> {
    Filter(Take(rows, READINESS_SCAN_LIMIT), keep)
  }

  lemma NextBatch<T>(rows: seq<T>, keep: T -> bool, scanned: nat)
    requires scanned < READINESS_SCAN_LIMIT && scanned % READINESS_SEARCH_PAGE_LIMIT == 0
    requires scanned <= |rows|
    ensures var batch := Slice(rows, scanned, scanned + READINESS_SEARCH_PAGE_LIMIT);
      var seen := scanned + |batch|;
      && seen <= |rows| && seen <= READINESS_SCAN_LIMIT
      && |batch| <= READINESS_SEARCH_PAGE_LIMIT
      && (|batch| < READINESS_SEARCH_PAGE_LIMIT ==> seen == |rows|)
      && Filter(rows[..seen], keep) == Filter(rows[..scanned], keep) + Filter(batch, keep)
  {
    var batch := Slice(rows, scanned, scanned + READINESS_SEARCH_PAGE_LIMIT);
    assert rows[..scanned + |batch|] == rows[..scanned] + batch;
    FilterConcat(rows[..scanned], batch, keep);
  }

  lemma SeenIsPrefix<T>(rows: seq<T>, keep: T -> bool, seen: nat)
    requires seen <= |rows| && seen <= READINESS_SCAN_LIMIT
    ensures Filter(rows[..seen], keep) <= Reachable(rows, keep)
    ensures seen == |rows| || seen == READINESS_SCAN_LIMIT ==>
      Filter(rows[..seen], keep) == Reachable(rows, keep)
  {
    var reach := Take(rows, READINESS_SCAN_LIMIT);
    assert reach == rows[..seen] + reach[seen..];
    FilterConcat(rows[..seen], reach[seen..], keep);
  }

  lemma TakeOfPrefix<T>(xs: seq<T>, ys: seq<T>, n: nat)
    requires xs <= ys && (n <= |xs| || xs == ys)
    ensures Take(xs, n) == Take(ys, n)
  {
  }

  /** The scan returns the first `target` matches among the first 10,000 rows, and reports
      `truncated` exactly when it found that many or the store holds 10,000 rows or more. */
  lemma {:induction false} ScanIsBoundedFilter<T>(
    rows: seq<T>, keep: T -> bool, target: nat, scanned: nat, matched: seq<T>)
    requires scanned <= |rows| && scanned <= READINESS_SCAN_LIMIT
    requires scanned % READINESS_SEARCH_PAGE_LIMIT == 0
    requires matched == Filter(rows[..scanned], keep) && |matched| < target
    ensures CollectReadinessMatches(rows, keep, target, scanned, matched) ==
            ScanResult(
              Take(Reachable(rows, keep), target),
              |Reachable(rows, keep)| >= target || |rows| >= READINESS_SCAN_LIMIT)
    decreases READINESS_SCAN_LIMIT - scanned
  {
    hide Filter, Slice, Reachable;
    SeenIsPrefix(rows, keep, scanned);
    if scanned < READINESS_SCAN_LIMIT {
      NextBatch(rows, keep, scanned);
      var batch := Slice(rows, scanned, scanned + READINESS_SEARCH_PAGE_LIMIT);
      var seen := scanned + |batch|;
      var nextMatched := matched + Filter(batch, keep);
      SeenIsPrefix(rows, keep, seen);
      if |nextMatched| >= target {
        TakeOfPrefix(nextMatched, Reachable(rows, keep), target);
      } else if |batch| == READINESS_SEARCH_PAGE_LIMIT {
        ScanIsBoundedFilter(rows, keep, target, seen, nextMatched);
      }
    }
  }

  // ---------------------------------------------------------------- in-memory pages

  datatype DirectoryPage<+T> =
    DirectoryPage(items: seq<T>, nextCursor: Option<Text>, total: nat, truncated: bool)

  /** `finalizePage`. */
  function FinalizePage<T>(items: seq<T>, total: nat, offset: nat, truncated: bool): DirectoryPage<T> {
    DirectoryPage(
      items,
      if offset + |items| < total then Some(EncodeOffsetCursor(offset + |items|)) else None,
      total,
      truncated)
  }

  /** `finalizeInMemory`. */
  function FinalizeInMemory<T>(
    less: (T, T) -> bool, matched: seq<T>, offset: nat, limit: nat, truncated: bool): DirectoryPage<T>
  {
    var sorted := Sort(less, matched);
    FinalizePage(Slice(sorted, offset, offset + limit), |sorted|, offset, truncated)
  }

  /** `derivedReadinessQuery`. */
  function DerivedReadinessQuery<T>(
    less: (T, T) -> bool, rows: seq<T>, keep: T -> bool, offset: nat, limit: nat): DirectoryPage<T>
  {
    var scan := CollectReadinessMatches(rows, keep, offset + limit + 1, 0, []);
    FinalizeInMemory(less, scan.matched, offset, limit, scan.truncated)
  }

  /** The directory order has no ties between different rows, so a page does not depend on
      the order in which its candidates were gathered. */
  lemma FinalizeIgnoresOrder<T(!new)>(
    less: (T, T) -> bool, found: seq<T>, found': seq<T>, offset: nat, limit: nat, truncated: bool)
    requires StrictWeakOrder(less) && forall a, b :: a == b || less(a, b) || less(b, a)
    requires multiset(found) == multiset(found')
    ensures FinalizeInMemory(less, found, offset, limit, truncated) ==
            FinalizeInMemory(less, found', offset, limit, truncated)
  {
    SortSorts(less, found);
    SortSorts(less, found');
    SortPermutes(less, found);
    SortPermutes(less, found');
    SortedPermutationsAgree(less, Sort(less, found), Sort(less, found'));
  }

  lemma PageOfPrefix<T>(all: seq<T>, offset: nat, limit: nat, truncated: bool, truncated': bool)
    ensures var full := FinalizePage(Slice(all, offset, offset + limit), |all|, offset, truncated);
      var cut := Take(all, offset + limit + 1);
      var page := FinalizePage(Slice(cut, offset, offset + limit), |cut|, offset, truncated');
      page.items == full.items && page.nextCursor == full.nextCursor
  {
    hide EncodeOffsetCursor;
  }

  /** The bounded scan gives the page and the next cursor of filtering and sorting the whole
      table, when the scan limit is not in the way and either the store serves rows in
      directory order or the matches fit before the page's end. */
  lemma BoundedScanRefinesFullFilter<T(!new)>(
    less: (T, T) -> bool, rows: seq<T>, keep: T -> bool, offset: nat, limit: nat)
    requires |rows| <= READINESS_SCAN_LIMIT || |Reachable(rows, keep)| > offset + limit
    requires Sorted(less, rows) || |Filter(rows, keep)| <= offset + limit + 1
    ensures var page := DerivedReadinessQuery(less, rows, keep, offset, limit);
      var full := FinalizeInMemory(less, Filter(rows, keep), offset, limit, false);
      page.items == full.items && page.nextCursor == full.nextCursor
  {
    hide Filter, CollectReadinessMatches, Sort, FinalizePage, Slice, Sorted;
    var all := Filter(rows, keep);
    EnoughScanned(rows, keep, offset + limit + 1);
    var scan := CollectReadinessMatches(rows, keep, offset + limit + 1, 0, []);
    if Sorted(less, rows) {
      FilterKeepsSorted(less, rows, keep);
      SortOfSortedPrefix(less, all, offset + limit + 1);
      PageOfPrefix(all, offset, limit, false, scan.truncated);
    } else {
      assert scan.matched == all;
      PageIgnoresTruncation(Sort(less, all), offset, limit, scan.truncated);
    }
  }

  lemma PageIgnoresTruncation<T>(sorted: seq<T>, offset: nat, limit: nat, truncated: bool)
    ensures var items := Slice(sorted, offset, offset + limit);
      var page, full :=
        FinalizePage(items, |sorted|, offset, truncated), FinalizePage(items, |sorted|, offset, false);
      page.items == full.items && page.nextCursor == full.nextCursor
  {
  }

  lemma EnoughScanned<T>(rows: seq<T>, keep: T -> bool, target: nat)
    requires target > 0 && (|rows| <= READINESS_SCAN_LIMIT || |Reachable(rows, keep)| >= target)
    ensures CollectReadinessMatches(rows, keep, target, 0, []).matched == Take(Filter(rows, keep), target)
  {
    hide Filter, CollectReadinessMatches, Reachable, Take;
    FilterOfNothing(rows, keep);
    ScanIsBoundedFilter(rows, keep, target, 0, []);
    ReachableIsPrefix(rows, keep);
    TakeOfPrefix(Reachable(rows, keep), Filter(rows, keep), target);
  }

  lemma SortOfSortedPrefix<T(!new)>(less: (T, T) -> bool, all: seq<T>, n: nat)
    requires Sorted(less, all)
    ensures Sort(less, all) == all && Sort(less, Take(all, n)) == Take(all, n)
  {
    hide Sort;
    SortOfSorted(less, all);
    SortOfSorted(less, Take(all, n));
  }

  /** How many batches of one hundred rows a scan reads: it goes on exactly while matches are
      missing, the last batch was full and fewer than 10,000 rows have been read. */
  lemma {:induction false} ReadsWhileNeeded<T>(
    rows: seq<T>, keep: T -> bool, target: nat, done: nat, matched: seq<T>)
    requires 100 * done <= |rows| && done <= 100 && matched == Filter(Take(rows, 100 * done), keep)
    ensures var made := done + ReadCount(rows, keep, target, 100 * done, matched);
      && made <= 100
      && (forall r: nat :: done <= r < made ==>
            |Filter(Take(rows, 100 * r), keep)| < target && 100 * r <= |rows|)
      && (|Filter(Take(rows, 100 * made), keep)| >= target || |rows| < 100 * made || made == 100)
    decreases 100 - done
  {
    hide Filter, Slice, Take;
    if done < 100 && |matched| < target {
      var batch := Slice(rows, 100 * done, 100 * done + READINESS_SEARCH_PAGE_LIMIT);
      OneMoreBatch(rows, keep, done);
      var more := matched + Filter(batch, keep);
      if |batch| == 100 && |more| < target {
        ReadsWhileNeeded(rows, keep, target, done + 1, more);
      }
    }
  }

  lemma OneMoreBatch<T>(rows: seq<T>, keep: T -> bool, done: nat)
    requires 100 * done <= |rows|
    ensures var batch := Slice(rows, 100 * done, 100 * done + 100);
      && |batch| <= 100 && (|batch| < 100 <==> |rows| < 100 * (done + 1))
      && Filter(Take(rows, 100 * (done + 1)), keep) == Filter(Take(rows, 100 * done), keep) + Filter(batch, keep)
  {
    var batch := Slice(rows, 100 * done, 100 * done + 100);
    assert Take(rows, 100 * (done + 1)) == Take(rows, 100 * done) + batch;
    FilterConcat(Take(rows, 100 * done), batch, keep);
  }

  /** What a page says about the rest: `total` is the number of matches found, at most one more
      than the page's end; `truncated` is unset exactly when the table has fewer than 10,000
      rows and no match lies behind the page, and then `total` counts all matches. */
  lemma PageTellsTruncation<T>(
    less: (T, T) -> bool, rows: seq<T>, keep: T -> bool, offset: nat, limit: nat)
    ensures var page := DerivedReadinessQuery(less, rows, keep, offset, limit);
      && page.total == Min(|Filter(Take(rows, 10_000), keep)|, offset + limit + 1)
      && (!page.truncated <==> |rows| < 10_000 && |Filter(rows, keep)| <= offset + limit)
      && (!page.truncated ==> page.total == |Filter(rows, keep)|)
  {
    hide Filter, CollectReadinessMatches, Sort, Slice, Take;
    FilterOfNothing(rows, keep);
    ScanIsBoundedFilter(rows, keep, offset + limit + 1, 0, []);
    ReachableIsPrefix(rows, keep);
  }

  lemma FilterOfNothing<T>(rows: seq<T>, keep: T -> bool)
    ensures Filter(rows[..0], keep) == []
  {
  }

  lemma ReachableIsPrefix<T>(rows: seq<T>, keep: T -> bool)
    ensures Reachable(rows, keep) <= Filter(rows, keep)
    ensures |rows| <= READINESS_SCAN_LIMIT ==> Reachable(rows, keep) == Filter(rows, keep)
  {
    var reach := Take(rows, READINESS_SCAN_LIMIT);
    assert rows == reach + rows[|reach|..];
    FilterConcat(reach, rows[|reach|..], keep);
  }

  /** The page and the next cursor of the bounded scan are those of the whole table. */
  ghost predicate SamePage<T>(
    less: (T, T) -> bool, rows: seq<T>, keep: T -> bool, offset: nat, limit: nat)
  {
    var page := DerivedReadinessQuery(less, rows, keep, offset, limit);
    var full := FinalizeInMemory(less, Filter(rows, keep), offset, limit, false);
    page.items == full.items && page.nextCursor == full.nextCursor
  }

  /** What the scan hands over: the first matches among the rows it may look at, one more
      than the page needs. */
  function Scanned<T>(rows: seq<T>, keep: T -> bool, offset: nat, limit: nat): seq<T> {
    Take(Reachable(rows, keep), offset + limit + 1)
  }

  lemma ScanGivesScanned<T>(rows: seq<T>, keep: T -> bool, offset: nat, limit: nat)
    ensures var scanned := Scanned(rows, keep, offset, limit);
      && CollectReadinessMatches(rows, keep, offset + limit + 1, 0, []).matched == scanned
      && scanned == Take(Filter(rows, keep), |scanned|)
      && |scanned| <= |Filter(rows, keep)|
  {
    hide Filter, CollectReadinessMatches;
    FilterOfNothing(rows, keep);
    ScanIsBoundedFilter(rows, keep, offset + limit + 1, 0, []);
    ReachableIsPrefix(rows, keep);
  }

  /** Every row that belongs on the page or before it has been scanned. */
  ghost predicate FrontIsScanned<T>(
    less: (T, T) -> bool, rows: seq<T>, keep: T -> bool, offset: nat, limit: nat)
  {
    var sorted := Sort(less, Filter(rows, keep));
    forall k :: 0 <= k < Min(offset + limit, |sorted|) ==> sorted[k] in Scanned(rows, keep, offset, limit)
  }

  lemma SortOfScanned<T(!new)>(less: (T, T) -> bool, all: seq<T>, m: nat, keep: T -> bool)
    requires StrictWeakOrder(less) && Distinct(all) && m <= |all|
    requires forall x :: keep(x) <==> x in Take(all, m)
    ensures Sort(less, Take(all, m)) == Filter(Sort(less, all), keep)
    ensures Distinct(Sort(less, all))
  {
    hide Sort, Filter;
    forall k | 0 <= k < |all| ensures keep(all[k]) <==> k < m {
      if k < m {
        assert Take(all, m)[k] == all[k];
      }
    }
    FilterPrefix(all, m, keep);
    SortOfFilter(less, all, keep);
    SortPermutes(less, all);
    DistinctKeysSurvive(all, Sort(less, all), (x: T) => x);
  }

  lemma CursorsAgreeIff<T>(items: seq<T>, scanned: nat, total: nat, offset: nat, limit: nat)
    requires scanned <= total && offset < total && |items| == Min(offset + limit, total) - offset
    ensures FinalizePage(items, scanned, offset, true).nextCursor ==
            FinalizePage(items, total, offset, false).nextCursor <==>
      (scanned > offset + limit <==> total > offset + limit)
  {
    hide EncodeOffsetCursor;
  }

  lemma CursorIgnoresTruncation<T>(items: seq<T>, total: nat, offset: nat, truncated: bool)
    ensures var page := FinalizePage(items, total, offset, truncated);
      page.items == items && page.nextCursor == FinalizePage(items, total, offset, true).nextCursor &&
      page.nextCursor == FinalizePage(items, total, offset, false).nextCursor
  {
  }

  /** Exactly when the bounded scan gives the right page and cursor, whatever order the store
      serves rows in: the page is past the last match, or every row up to the page's end has
      been scanned and the scan knows whether more follow. */
  lemma BoundedScanIff<T(!new)>(
    less: (T, T) -> bool, rows: seq<T>, keep: T -> bool, offset: nat, limit: nat)
    requires StrictWeakOrder(less) && Distinct(rows) && limit >= 1
    ensures SamePage(less, rows, keep, offset, limit) <==>
      || |Filter(rows, keep)| <= offset
      || (&& FrontIsScanned(less, rows, keep, offset, limit)
          && (|Scanned(rows, keep, offset, limit)| > offset + limit <==>
              |Filter(rows, keep)| > offset + limit))
  {
    hide Filter, Sort, CollectReadinessMatches, Scanned, FinalizePage, EncodeOffsetCursor, Slice, Distinct;
    var n := offset + limit;
    var all, scanned := Filter(rows, keep), Scanned(rows, keep, offset, limit);
    var known := (x: T) => x in scanned;
    var whole := Sort(less, all);
    FilterDistinct(rows, keep);
    ScanGivesScanned(rows, keep, offset, limit);
    SortOfScanned(less, all, |scanned|, known);
    var part := Sort(less, scanned);
    var truncated := CollectReadinessMatches(rows, keep, n + 1, 0, []).truncated;
    CursorIgnoresTruncation(Slice(part, offset, n), |scanned|, offset, truncated);
    CursorIgnoresTruncation(Slice(whole, offset, n), |all|, offset, false);
    if |all| <= offset {
      PastTheEnd(part, whole, offset, n);
    } else {
      FilterKeepsWindow(whole, known, offset, limit);
      WindowSize(whole, offset, n);
      if Slice(part, offset, n) == Slice(whole, offset, n) {
        CursorsAgreeIff(Slice(whole, offset, n), |scanned|, |all|, offset, limit);
      }
    }
  }

  lemma WindowSize<T>(xs: seq<T>, from: nat, to: nat)
    requires from < |xs| && from <= to
    ensures |Slice(xs, from, to)| == Min(to, |xs|) - from
  {
  }

  lemma PastTheEnd<T>(part: seq<T>, whole: seq<T>, offset: nat, to: nat)
    requires |part| <= |whole| <= offset <= to
    ensures Slice(part, offset, to) == [] == Slice(whole, offset, to)
    ensures FinalizePage(Slice(part, offset, to), |part|, offset, true).nextCursor.None?
    ensures FinalizePage(Slice(whole, offset, to), |whole|, offset, true).nextCursor.None?
  {
  }

  lemma SmallSorts()
    ensures var less := (a: int, b: int) => a < b;
      Sort(less, [3, 2]) == [2, 3] && Sort(less, [3, 2, 1]) == [1, 2, 3]
  {
    var less := (a: int, b: int) => a < b;
    assert Insert(less, [3], 2) == [2, 3];
    assert Insert(less, [2, 3], 1) == [1, 2, 3];
    assert Sort(less, [3, 2]) == InsertAll(less, [3], [3, 2][1..]);
    assert InsertAll(less, [3], [2]) == InsertAll(less, [2, 3], [2][1..]);
    assert Sort(less, [3, 2, 1]) == InsertAll(less, [3], [3, 2, 1][1..]);
    assert InsertAll(less, [3], [2, 1]) == InsertAll(less, [2, 3], [2, 1][1..]);
    assert InsertAll(less, [2, 3], [1]) == InsertAll(less, [1, 2, 3], [1][1..]);
  }

  /** For instance, without the store's sort: from rows 3, 2, 1 the first page of one is 2,
      not 1. */
  lemma UnsortedScanMissesFirstRow()
    ensures var less := (a: int, b: int) => a < b;
      var keep := (_: int) => true;
      && DerivedReadinessQuery(less, [3, 2, 1], keep, 0, 1).items == [2]
      && FinalizeInMemory(less, [3, 2, 1], 0, 1, false).items == [1]
  {
    var less := (a: int, b: int) => a < b;
    var keep := (_: int) => true;
    SmallSorts();
    hide Sort, EncodeOffsetCursor;
    assert Slice([3, 2, 1], 0, 100) == [3, 2, 1];
    assert Filter([1], keep) == [1];
    assert Filter([2, 1], keep) == [2] + Filter([2, 1][1..], keep);
    assert Filter([3, 2, 1], keep) == [3] + Filter([3, 2, 1][1..], keep);
    assert CollectReadinessMatches([3, 2, 1], keep, 2, 0, []).matched == [3, 2];
  }
}
