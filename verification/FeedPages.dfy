/** The store's offset pages and the feed's merge of category aliases
    (src/harper/resource-directory-search-queries.ts). */
module FeedPages {
  import opened Sequences
  import opened StableSort

  datatype PageAndCount<+T> = PageAndCount(items: seq<T>, total: nat)

  /** `searchPageAndCount` over the rows a query selects, in the store's order: a slice, and
      a count of the same seeded query. */
  function StorePage<T>(rows: seq<T>, limit: nat, offset: nat): PageAndCount<T> {
    PageAndCount(Slice(rows, offset, offset + limit), |rows|)
  }

  /** `streamCount`: consumes the query's rows one by one, keeping only their number. */
  method StreamCount<T>(rows: seq<T>) returns (count: nat)
    ensures count == |rows|
  {
    count := 0;
    var rest := rows;
    while rest != []
      invariant count + |rest| == |rows|
      decreases |rest|
    {
      rest, count := rest[1..], count + 1;
    }
  }

  /** A page shows the row at place `offset + k` as its `k`-th, stops at `limit` or at the end,
      and reports the count of all rows whatever the window. */
  method SearchPageAndCount<T>(rows: seq<T>, limit: nat, offset: nat) returns (page: PageAndCount<T>)
    ensures page.total == |rows|
    ensures |page.items| == if offset >= |rows| then 0 else Min(limit, |rows| - offset)
    ensures forall k :: 0 <= k < |page.items| ==> page.items[k] == rows[offset + k]
    ensures page == StorePage(rows, limit, offset)
  {
    var total := StreamCount(rows);
    page := PageAndCount(Slice(rows, offset, offset + limit), total);
  }

  /** `date` is the publication date the store sorts by; `printed` is the place of
      `String(article.publishedDate ?? "")` in the collation order, which the merge compares.
      For ISO-8601 texts the two orders agree; an in-process `Date` prints its weekday first. */
  datatype Article = Article(id: string, date: int, printed: int)

  function Newer(): (Article, Article) -> bool {
    (a: Article, b: Article) => a.date > b.date
  }

  /** The order `insertFeedArticleByPublishedDate` keeps. */
  function PrintsLater(): (Article, Article) -> bool {
    (a: Article, b: Article) => a.printed > b.printed
  }

  function TotalOf(pages: seq<PageAndCount<Article>>): nat {
    if pages == [] then 0 else pages[0].total + TotalOf(pages[1..])
  }

  function ItemsOf(pages: seq<PageAndCount<Article>>): seq<Article> {
    if pages == [] then [] else pages[0].items + ItemsOf(pages[1..])
  }

  function AliasPages(lists: seq<seq<Article>>, size: nat): seq<PageAndCount<Article>> {
    if lists == [] then [] else [StorePage(lists[0], size, 0)] + AliasPages(lists[1..], size)
  }

  /** `mergedFeedArticlePage`: fetches `offset + limit` rows per alias, merges, slices. */
  function MergedFeedArticlePage(lists: seq<seq<Article>>, limit: nat, offset: nat): PageAndCount<Article> {
    var aliasPages := AliasPages(lists, offset + limit);
    PageAndCount(
      Slice(InsertAll(PrintsLater(), [], ItemsOf(aliasPages)), offset, offset + limit),
      TotalOf(aliasPages))
  }

  /** `feedArticlePage`: `lists` holds the rows of each stored category behind the requested
      one, as the store serves them (one list for most categories and for "all"). One list is
      paged by the store, several are merged. */
  function FeedArticlePage(lists: seq<seq<Article>>, limit: nat, offset: nat): PageAndCount<Article> {
    if |lists| == 1 then StorePage(lists[0], limit, offset)
    else MergedFeedArticlePage(lists, limit, offset)
  }

  /** All the rows, merged by printed date, ties in alias order. */
  function WholeMerge(lists: seq<seq<Article>>): seq<Article> {
    Sort(PrintsLater(), Flatten(lists))
  }

  /** What the endpoint promises pages of: all the rows, newest first, ties in alias order. */
  function NewestFirst(lists: seq<seq<Article>>): seq<Article> {
    Sort(Newer(), Flatten(lists))
  }

  /** Each query is sorted by publication date, descending. */
  ghost predicate StoreSorted(lists: seq<seq<Article>>) {
    forall i :: 0 <= i < |lists| ==> Sorted(Newer(), lists[i])
  }

  // ---------------------------------------------------------------- one fetch against the whole

  /** The row is among the first `n` of its own category. */
  predicate Fetched(lists: seq<seq<Article>>, n: nat, row: Article) {
    exists i :: 0 <= i < |lists| && row in Take(lists[i], n)
  }

  lemma {:induction false} AliasPagesFetch(lists: seq<seq<Article>>, n: nat, row: Article)
    ensures row in ItemsOf(AliasPages(lists, n)) <==> Fetched(lists, n, row)
    ensures TotalOf(AliasPages(lists, n)) == |Flatten(lists)|
    decreases |lists|
  {
    if lists == [] {
    } else {
      var pages := AliasPages(lists, n);
      AliasPagesFetch(lists[1..], n, row);
      assert pages[0].items == Take(lists[0], n) && pages[1..] == AliasPages(lists[1..], n);
      if Fetched(lists, n, row) && row !in Take(lists[0], n) {
        var i :| 0 <= i < |lists| && row in Take(lists[i], n);
        assert row in Take(lists[1..][i - 1], n);
      }
      if Fetched(lists[1..], n, row) {
        var i :| 0 <= i < |lists[1..]| && row in Take(lists[1..][i], n);
        assert row in Take(lists[i + 1], n);
      }
    }
  }

  lemma {:induction false} FetchedAreRows(lists: seq<seq<Article>>, n: nat, row: Article)
    ensures row in ItemsOf(AliasPages(lists, n)) ==> row in Flatten(lists)
    ensures n >= |Flatten(lists)| && row in Flatten(lists) ==> row in ItemsOf(AliasPages(lists, n))
    decreases |lists|
  {
    if lists == [] {
    } else {
      var pages := AliasPages(lists, n);
      FetchedAreRows(lists[1..], n, row);
      assert pages[0].items == Take(lists[0], n) && pages[1..] == AliasPages(lists[1..], n);
      if n >= |Flatten(lists)| {
        assert Take(lists[0], n) == lists[0];
      }
    }
  }

  /** The fetched rows are the whole list with the other rows left out. */
  lemma {:induction false} FetchIsFilter(lists: seq<seq<Article>>, n: nat, keep: Article -> bool)
    requires Distinct(Flatten(lists))
    requires forall k :: 0 <= k < |Flatten(lists)| ==>
      (keep(Flatten(lists)[k]) <==> Flatten(lists)[k] in ItemsOf(AliasPages(lists, n)))
    ensures ItemsOf(AliasPages(lists, n)) == Filter(Flatten(lists), keep)
    decreases |lists|
  {
    if lists == [] {
    } else {
      var list, rest := lists[0], Flatten(lists[1..]);
      var pages := AliasPages(lists, n);
      var more := ItemsOf(AliasPages(lists[1..], n));
      assert pages[0].items == Take(list, n) && pages[1..] == AliasPages(lists[1..], n);
      assert Flatten(lists) == list + rest;
      TailRowsApart(list, rest);
      forall k | 0 <= k < |rest| ensures keep(rest[k]) <==> rest[k] in more {
        assert Flatten(lists)[|list| + k] == rest[k] && rest[k] in rest;
      }
      FetchIsFilter(lists[1..], n, keep);
      FilterConcat(list, rest, keep);
      forall k | 0 <= k < |list| ensures keep(list[k]) <==> k < n {
        assert Flatten(lists)[k] == list[k];
        FetchedAreRows(lists[1..], n, list[k]);
      }
      FilterPrefix(list, n, keep);
    }
  }

  lemma TailRowsApart<T>(a: seq<T>, b: seq<T>)
    requires Distinct(a + b)
    ensures Distinct(a) && Distinct(b) && forall x :: x in a ==> x !in b
  {
    var all := a + b;
    assert forall i :: 0 <= i < |a| ==> all[i] == a[i];
    assert forall i :: 0 <= i < |b| ==> all[|a| + i] == b[i];
  }

  lemma OrdersAreWeak()
    ensures StrictWeakOrder(Newer()) && StrictWeakOrder(PrintsLater())
  {
  }

  lemma SortedDistinct(less: (Article, Article) -> bool, rows: seq<Article>)
    requires Distinct(rows)
    ensures Distinct(Sort(less, rows))
  {
    SortPermutes(less, rows);
    DistinctKeysSurvive(rows, Sort(less, rows), (row: Article) => row);
  }

  /** Every row up to the page's end is among the first `n` of its own category. */
  ghost predicate FrontIsFetched(lists: seq<seq<Article>>, n: nat) {
    forall k :: 0 <= k < Min(n, |WholeMerge(lists)|) ==> Fetched(lists, n, WholeMerge(lists)[k])
  }

  /** The page of the merged prefixes is the page of the complete merge exactly when every
      row up to the page's end is among the first `offset + limit` of its own category. */
  lemma MergedPageIff(lists: seq<seq<Article>>, limit: nat, offset: nat)
    requires limit >= 1 && Distinct(Flatten(lists))
    ensures MergedFeedArticlePage(lists, limit, offset) == StorePage(WholeMerge(lists), limit, offset) <==>
      FrontIsFetched(lists, offset + limit)
  {
    hide Filter, Sorted, Distinct, Slice, InsertAll, AliasPages, ItemsOf, TotalOf, Flatten, Fetched;
    var n := offset + limit;
    var flat, whole := Flatten(lists), WholeMerge(lists);
    var fetched := ItemsOf(AliasPages(lists, n));
    var keep := (row: Article) => row in fetched;
    OrdersAreWeak();
    FetchIsFilter(lists, n, keep);
    SortOfFilter(PrintsLater(), flat, keep);
    SortedDistinct(PrintsLater(), flat);
    forall row ensures keep(row) <==> Fetched(lists, n, row) {
      AliasPagesFetch(lists, n, row);
    }
    AliasPagesFetch(lists, n, Article("", 0, 0));
    assert MergedFeedArticlePage(lists, limit, offset) ==
      PageAndCount(Slice(Filter(whole, keep), offset, n), |flat|);
    if offset < |whole| {
      FilterKeepsWindow(whole, keep, offset, limit);
    } else {
      AllFetched(lists, n);
      EmptySlices(Filter(whole, keep), whole, offset, n);
    }
  }

  lemma EmptySlices<T>(xs: seq<T>, ys: seq<T>, from: nat, to: nat)
    requires |xs| <= from <= to && |ys| <= from
    ensures Slice(xs, from, to) == Slice(ys, from, to)
  {
  }

  lemma AllFetched(lists: seq<seq<Article>>, n: nat)
    requires n >= |WholeMerge(lists)|
    ensures FrontIsFetched(lists, n)
  {
    hide InsertAll, Fetched;
    var whole := WholeMerge(lists);
    SortPermutes(PrintsLater(), Flatten(lists));
    forall k | 0 <= k < |whole| ensures Fetched(lists, n, whole[k]) {
      MembersOfPermutation(whole, Flatten(lists), whole[k]);
      FetchedAreRows(lists, n, whole[k]);
      AliasPagesFetch(lists, n, whole[k]);
    }
  }

  // ---------------------------------------------------------------- when pages are newest first

  lemma {:induction false} PrefixesDecideMerge(acc: seq<Article>, lists: seq<seq<Article>>, n: nat)
    requires Sorted(PrintsLater(), acc)
    requires forall i :: 0 <= i < |lists| ==> Sorted(PrintsLater(), lists[i])
    ensures Take(InsertAll(PrintsLater(), acc, ItemsOf(AliasPages(lists, n))), n) ==
            Take(InsertAll(PrintsLater(), acc, Flatten(lists)), n)
    ensures TotalOf(AliasPages(lists, n)) == |Flatten(lists)|
    decreases |lists|
  {
    if lists == [] {
    } else {
      var less := PrintsLater();
      var list, rest := lists[0], lists[1..];
      var restItems := ItemsOf(AliasPages(rest, n));
      var whole := InsertAll(less, acc, list);
      var cut := InsertAll(less, acc, Take(list, n));
      var pages := AliasPages(lists, n);
      assert pages[0].items == Take(list, n) && pages[1..] == AliasPages(rest, n);
      InsertAllConcat(less, acc, list, Flatten(rest));
      InsertAllConcat(less, acc, Take(list, n), restItems);
      MergePrefix(less, acc, list, n, |list|);
      assert list[..|list|] == list;
      InsertAllIntoPrefix(less, cut, whole, restItems, n);
      InsertAllSorted(less, acc, list);
      PrefixesDecideMerge(whole, rest, n);
    }
  }

  /** Of two rows, the later one in alias order prints later exactly when it is newer. */
  ghost predicate PrintsAgree(rows: seq<Article>) {
    forall p, q :: 0 <= p < q < |rows| ==>
      (PrintsLater()(rows[q], rows[p]) <==> Newer()(rows[q], rows[p]))
  }

  lemma {:induction false} InsertAllAgree(acc: seq<Article>, rows: seq<Article>)
    requires forall x, y :: x in acc && y in rows ==> (PrintsLater()(y, x) <==> Newer()(y, x))
    requires PrintsAgree(rows)
    ensures InsertAll(PrintsLater(), acc, rows) == InsertAll(Newer(), acc, rows)
    decreases rows
  {
    if rows == [] {
    } else {
      PositionsAgree(acc, rows[0]);
      InsertIsSplice(PrintsLater(), acc, rows[0]);
      InsertIsSplice(Newer(), acc, rows[0]);
      var next := Insert(Newer(), acc, rows[0]);
      forall x, y | x in next && y in rows[1..] ensures PrintsLater()(y, x) <==> Newer()(y, x) {
        if x !in acc {
          assert x == rows[0];
          var q :| 0 <= q < |rows[1..]| && rows[1..][q] == y;
          assert rows[q + 1] == y;
        }
      }
      InsertAllAgree(next, rows[1..]);
    }
  }

  lemma {:induction false} PositionsAgree(acc: seq<Article>, row: Article)
    requires forall x :: x in acc ==> (PrintsLater()(row, x) <==> Newer()(row, x))
    ensures Position(PrintsLater(), acc, row) == Position(Newer(), acc, row)
  {
    if acc == [] {
    } else {
      assert acc[0] in acc;
      PositionsAgree(acc[1..], row);
    }
  }

  function Either<T(==)>(a: T, b: T): T -> bool {
    (x: T) => x == a || x == b
  }

  /** Where two rows end up relative to each other. */
  lemma PairOrder(less: (Article, Article) -> bool, rows: seq<Article>, p: nat, q: nat)
    requires StrictWeakOrder(less) && Distinct(rows) && p < q < |rows|
    ensures Filter(Sort(less, rows), Either(rows[p], rows[q])) ==
      if less(rows[q], rows[p]) then [rows[q], rows[p]] else [rows[p], rows[q]]
  {
    hide InsertAll, Filter;
    SortOfFilter(less, rows, Either(rows[p], rows[q]));
    FilterOfPair(rows, p, q);
    SortOfTwo(less, rows[p], rows[q]);
  }

  lemma SortOfTwo(less: (Article, Article) -> bool, a: Article, b: Article)
    ensures Sort(less, [a, b]) == if less(b, a) then [b, a] else [a, b]
  {
    InsertAllConcat(less, [], [a], [b]);
    assert [a] + [b] == [a, b] && [a][1..] == [] && [b][1..] == [];
    assert Insert(less, [], a) == [a];
    assert Insert(less, [a], b) == if less(b, a) then [b, a] else [a, b];
  }

  lemma {:induction false} FilterOfPair<T>(rows: seq<T>, p: nat, q: nat)
    requires Distinct(rows) && p < q < |rows|
    ensures Filter(rows, Either(rows[p], rows[q])) == [rows[p], rows[q]]
  {
    if p > 0 {
      FilterOfPair(rows[1..], p - 1, q - 1);
    } else {
      FilterOfOne(rows[1..], Either(rows[p], rows[q]), q - 1);
    }
  }

  lemma {:induction false} FilterOfOne<T>(xs: seq<T>, p: T -> bool, at: nat)
    requires at < |xs| && forall k :: 0 <= k < |xs| ==> (p(xs[k]) <==> k == at)
    ensures Filter(xs, p) == [xs[at]]
  {
    if at > 0 {
      FilterOfOne(xs[1..], p, at - 1);
    } else {
      FilterNone(xs[1..], p);
    }
  }

  lemma MergesAgreeIff(rows: seq<Article>)
    requires Distinct(rows)
    ensures Sort(PrintsLater(), rows) == Sort(Newer(), rows) <==> PrintsAgree(rows)
  {
    hide Sort, Distinct, PrintsLater, Newer;
    OrdersAreWeak();
    if PrintsAgree(rows) {
      AgreeingSorts(rows);
    } else {
      var p: nat, q: nat :| p < q < |rows| &&
        !(PrintsLater()(rows[q], rows[p]) <==> Newer()(rows[q], rows[p]));
      PairOrder(PrintsLater(), rows, p, q);
      PairOrder(Newer(), rows, p, q);
      DistinctPair(rows, p, q);
    }
  }

  lemma AgreeingSorts(rows: seq<Article>)
    requires PrintsAgree(rows)
    ensures Sort(PrintsLater(), rows) == Sort(Newer(), rows)
  {
    InsertAllAgree([], rows);
  }

  lemma DistinctPair<T>(rows: seq<T>, p: nat, q: nat)
    requires Distinct(rows) && p < q < |rows|
    ensures rows[p] != rows[q]
  {
  }

  lemma AgreeingParts(a: seq<Article>, b: seq<Article>)
    requires PrintsAgree(a + b)
    ensures PrintsAgree(a) && PrintsAgree(b)
  {
    var all := a + b;
    assert forall k :: 0 <= k < |a| ==> all[k] == a[k];
    assert forall k :: 0 <= k < |b| ==> all[|a| + k] == b[k];
  }

  lemma {:induction false} AgreeingListsSorted(lists: seq<seq<Article>>)
    requires StoreSorted(lists) && PrintsAgree(Flatten(lists))
    ensures forall i :: 0 <= i < |lists| ==> Sorted(PrintsLater(), lists[i])
  {
    if lists == [] {
    } else {
      AgreeingParts(lists[0], Flatten(lists[1..]));
      AgreeingListsSorted(lists[1..]);
      assert forall i :: 1 <= i < |lists| ==> lists[i] == lists[1..][i - 1];
    }
  }

  /** When printed dates follow dates, fetching only the first `offset + limit` rows of each
      category gives the very page, and the very total, of putting all rows newest first and
      slicing, for any number of categories and any ties; one list needs no such condition. */
  lemma FeedPageIsSliceOfWhole(lists: seq<seq<Article>>, limit: nat, offset: nat)
    requires StoreSorted(lists) && (|lists| == 1 || PrintsAgree(Flatten(lists)))
    ensures FeedArticlePage(lists, limit, offset) == StorePage(NewestFirst(lists), limit, offset)
  {
    hide InsertAll, Sorted, PrintsAgree;
    var n := offset + limit;
    if |lists| == 1 {
      assert Flatten(lists) == lists[0] + Flatten(lists[1..]);
      assert Flatten(lists) == lists[0];
      SortOfSorted(Newer(), lists[0]);
    } else {
      AgreeingSorts(Flatten(lists));
      AgreeingListsSorted(lists);
      NothingSorted();
      PrefixesDecideMerge([], lists, n);
      SliceOfTake(InsertAll(PrintsLater(), [], ItemsOf(AliasPages(lists, n))), offset, n);
      SliceOfTake(NewestFirst(lists), offset, n);
    }
  }

  lemma NothingSorted()
    ensures Sorted(PrintsLater(), [])
  {
  }

  lemma SliceOfTake<T>(xs: seq<T>, from: nat, to: nat)
    requires from <= to
    ensures Slice(xs, from, to) == Slice(Take(xs, to), from, to)
  {
  }

  ghost predicate EveryPageNewestFirst(lists: seq<seq<Article>>) {
    forall limit: nat, offset: nat :: limit >= 1 ==>
      FeedArticlePage(lists, limit, offset) == StorePage(NewestFirst(lists), limit, offset)
  }

  /** A merged feed is newest first on every page exactly when printed dates follow dates. */
  lemma FeedIsNewestFirstIff(lists: seq<seq<Article>>)
    requires |lists| != 1 && StoreSorted(lists) && Distinct(Flatten(lists))
    ensures EveryPageNewestFirst(lists) <==> PrintsAgree(Flatten(lists))
  {
    hide PrintsAgree, StoreSorted, Distinct, StorePage, FeedArticlePage, Sort;
    var flat := Flatten(lists);
    if PrintsAgree(flat) {
      forall limit: nat, offset: nat | limit >= 1
        ensures FeedArticlePage(lists, limit, offset) == StorePage(NewestFirst(lists), limit, offset)
      {
        FeedPageIsSliceOfWhole(lists, limit, offset);
      }
    } else if EveryPageNewestFirst(lists) {
      var limit := |flat| + 1;
      assert FeedArticlePage(lists, limit, 0) == StorePage(NewestFirst(lists), limit, 0);
      LongPageIsWhole(lists);
      MergesAgreeIff(flat);
      SizesOfMerges(lists);
      OnlyPage(WholeMerge(lists), NewestFirst(lists), limit);
    }
  }

  lemma SizesOfMerges(lists: seq<seq<Article>>)
    ensures |WholeMerge(lists)| == |Flatten(lists)| == |NewestFirst(lists)|
  {
  }

  lemma OnlyPage<T>(xs: seq<T>, ys: seq<T>, limit: nat)
    requires |xs| <= limit && |ys| <= limit
    ensures StorePage(xs, limit, 0) == StorePage(ys, limit, 0) <==> xs == ys
  {
    assert Slice(xs, 0, limit) == xs && Slice(ys, 0, limit) == ys;
  }

  lemma LongPageIsWhole(lists: seq<seq<Article>>)
    requires |lists| != 1 && Distinct(Flatten(lists))
    ensures FeedArticlePage(lists, |Flatten(lists)| + 1, 0) ==
            StorePage(WholeMerge(lists), |Flatten(lists)| + 1, 0)
  {
    hide InsertAll, FrontIsFetched, Distinct;
    var n := |Flatten(lists)| + 1;
    MergedPageIff(lists, n, 0);
    AllFetched(lists, n);
  }

  lemma TwoLists(a: seq<Article>, b: seq<Article>, n: nat)
    ensures Flatten([a, b]) == a + b
    ensures ItemsOf(AliasPages([a, b], n)) == Take(a, n) + Take(b, n)
  {
    var lists := [a, b];
    assert lists[1..] == [b] && lists[1..][1..] == [];
    assert Flatten([b]) == b + Flatten([]);
    assert AliasPages([b], n) == [StorePage(b, n, 0)] + AliasPages([], n);
    var pages := AliasPages(lists, n);
    assert pages == [StorePage(a, n, 0), StorePage(b, n, 0)];
    assert pages[1..] == [StorePage(b, n, 0)] && pages[1..][1..] == [];
    assert ItemsOf(pages[1..]) == Take(b, n) + ItemsOf([]);
  }

  /** A list that prints later further down loses its best row to the short fetch. */
  lemma ShortFetchMissesRow()
    ensures var a, b := Article("a", 2, 1), Article("b", 1, 2);
      && FeedArticlePage([[a, b], []], 1, 0).items == [a]
      && StorePage(WholeMerge([[a, b], []]), 1, 0).items == [b]
  {
    hide AliasPages, ItemsOf, Flatten, InsertAll;
    var a, b := Article("a", 2, 1), Article("b", 1, 2);
    TwoLists([a, b], [], 1);
    SortOfTwo(PrintsLater(), a, b);
    assert [a, b] + [] == [a, b] && Take([a, b], 1) + Take([], 1) == [a];
    SortOfOne(a);
  }

  lemma SortOfOne(a: Article)
    ensures InsertAll(PrintsLater(), [], [a]) == [a]
  {
    assert Insert(PrintsLater(), [], a) == [a] && [a][1..] == [];
  }

  /** The alphabetical place of the weekday a `Date` on the given day since 1970 prints:
      Fri, Mon, Sat, Sun, Thu, Tue, Wed; day 0 was a Thursday. */
  function WeekdayPlace(day: int): int {
    [4, 0, 2, 3, 1, 5, 6][day % 7]
  }

  /** The weekday names from day 0, a Thursday, on, and their alphabetical order. */
  lemma WeekdaysAreAlphabetical(a: int, b: int)
    ensures var names := ["Thu", "Fri", "Sat", "Sun", "Mon", "Tue", "Wed"];
      var left, right := names[a % 7], names[b % 7];
      WeekdayPlace(a) < WeekdayPlace(b) <==>
        left[0] < right[0] || (left[0] == right[0] && left[1] < right[1])
  {
  }

  lemma MondayAfterSunday()
    ensures WeekdayPlace(19723) == 1 && WeekdayPlace(19722) == 3
  {
  }

  /** With `Date` values, Sunday 31 December 2023 is listed before Monday 1 January 2024. */
  lemma DatesMergeByWeekday()
    ensures var monday := Article("m", 19723, WeekdayPlace(19723));
      var sunday := Article("s", 19722, WeekdayPlace(19722));
      && FeedArticlePage([[monday], [sunday]], 2, 0).items == [sunday, monday]
      && NewestFirst([[monday], [sunday]]) == [monday, sunday]
  {
    hide AliasPages, ItemsOf, Flatten, InsertAll, WeekdayPlace;
    var monday := Article("m", 19723, WeekdayPlace(19723));
    var sunday := Article("s", 19722, WeekdayPlace(19722));
    MondayAfterSunday();
    TwoLists([monday], [sunday], 2);
    assert [monday] + [sunday] == [monday, sunday];
    assert Take([monday], 2) + Take([sunday], 2) == [monday, sunday];
    SortOfTwo(Newer(), monday, sunday);
    SortOfTwo(PrintsLater(), monday, sunday);
  }

  /** The newest-first feed is the only list that is ordered by date and keeps rows of one
      date in alias order, each alias in its own order. */
  lemma NewestFirstIsStableMerge(lists: seq<seq<Article>>, candidate: seq<Article>)
    ensures candidate == NewestFirst(lists) <==>
      Sorted(Newer(), candidate) && SameTies(Newer(), candidate, Flatten(lists))
  {
    SortIsUnique(Newer(), Flatten(lists), candidate);
  }
}
