/** Offset cursors over a list that grows between requests: the source-triage queue
    (src/harper/resource-source-article-triage.ts) and the feed
    (src/harper/resource-profile-endpoints.ts). Each request sees its own list. */
module GrowingScans {
  import opened Sequences
  import opened Texts
  import opened Pagination
  import opened FeedPages
  import opened OffsetScans

  // ---------------------------------------------------------------- subsequences

  /** `xs` is `ys` with some elements left out. */
  ghost predicate Subsequence<T>(xs: seq<T>, ys: seq<T>)
    decreases ys
  {
    if xs == [] then true
    else ys != [] && ((xs[0] == ys[0] && Subsequence(xs[1..], ys[1..])) || Subsequence(xs, ys[1..]))
  }

  lemma {:induction false} SubsequenceTail<T>(xs: seq<T>, ys: seq<T>)
    requires xs != [] && Subsequence(xs, ys)
    ensures Subsequence(xs[1..], ys) && ys != [] && Subsequence(xs[1..], ys[1..])
    decreases ys
  {
    if Subsequence(xs, ys[1..]) {
      SubsequenceTail(xs, ys[1..]);
    } else {
      SubsequenceSkip(xs[1..], ys);
    }
  }

  lemma SubsequenceSkip<T>(xs: seq<T>, ys: seq<T>)
    requires ys != [] && Subsequence(xs, ys[1..])
    ensures Subsequence(xs, ys)
  {
  }

  lemma {:induction false} SubsequenceRefl<T>(xs: seq<T>)
    ensures Subsequence(xs, xs)
  {
    if xs == [] {
    } else {
      SubsequenceRefl(xs[1..]);
    }
  }

  lemma {:induction false} SubsequenceTrans<T>(xs: seq<T>, ys: seq<T>, zs: seq<T>)
    requires Subsequence(xs, ys) && Subsequence(ys, zs)
    ensures Subsequence(xs, zs)
    decreases zs
  {
    if xs == [] {
      return;
    }
    SubsequenceTail(ys, zs);
    if Subsequence(ys, zs[1..]) {
      SubsequenceTrans(xs, ys, zs[1..]);
    } else if Subsequence(xs, ys[1..]) {
      SubsequenceTrans(xs, ys[1..], zs[1..]);
    } else {
      SubsequenceTrans(xs[1..], ys[1..], zs[1..]);
    }
  }

  lemma {:induction false} SubsequenceConcat<T>(xs: seq<T>, ys: seq<T>, zs: seq<T>)
    requires Subsequence(ys, zs)
    ensures Subsequence(xs + ys, xs + zs)
  {
    if xs == [] {
      assert xs + ys == ys && xs + zs == zs;
    } else {
      SubsequenceConcat(xs[1..], ys, zs);
      assert (xs + ys)[1..] == xs[1..] + ys && (xs + zs)[1..] == xs[1..] + zs;
    }
  }

  lemma {:induction false} SubsequenceFilter<T>(xs: seq<T>, ys: seq<T>, keep: T -> bool)
    requires Subsequence(xs, ys)
    ensures Subsequence(Filter(xs, keep), Filter(ys, keep))
    decreases ys
  {
    if xs == [] {
      assert Filter(xs, keep) == [];
    } else if Subsequence(xs, ys[1..]) {
      SubsequenceFilter(xs, ys[1..], keep);
      if keep(ys[0]) {
        SubsequenceBehind(Filter(xs, keep), ys[0], Filter(ys[1..], keep));
      }
    } else {
      SubsequenceFilter(xs[1..], ys[1..], keep);
      if keep(ys[0]) {
        SubsequenceConcat([ys[0]], Filter(xs[1..], keep), Filter(ys[1..], keep));
      }
    }
  }

  lemma SubsequenceBehind<T>(xs: seq<T>, y: T, ys: seq<T>)
    requires Subsequence(xs, ys)
    ensures Subsequence(xs, [y] + ys)
  {
    assert ([y] + ys)[1..] == ys;
  }

  function Skip<T>(xs: seq<T>, n: nat): seq<T> {
    xs[Min(n, |xs|)..]
  }

  lemma SkipStep<T>(xs: seq<T>, n: nat)
    ensures n == 0 || xs == [] ==> Skip(xs, n) == xs
    ensures n > 0 && xs != [] ==> Skip(xs, n) == Skip(xs[1..], n - 1)
  {
  }

  /** No element of the shorter list is further in front in the longer one. */
  lemma {:induction false} SubsequenceDrop<T>(xs: seq<T>, ys: seq<T>, n: nat)
    requires Subsequence(xs, ys)
    ensures Subsequence(Skip(xs, n), Skip(ys, n))
    decreases n
  {
    hide Subsequence, Skip;
    if n == 0 {
      SkipStep(xs, n);
      SkipStep(ys, n);
    } else if xs == [] {
      SkipStep(xs, n);
      NothingIsSubsequence(Skip(ys, n));
    } else {
      SubsequenceTail(xs, ys);
      SubsequenceDrop(xs[1..], ys[1..], n - 1);
      SkipStep(xs, n);
      SkipStep(ys, n);
    }
  }

  lemma NothingIsSubsequence<T>(ys: seq<T>)
    ensures Subsequence([], ys)
  {
  }

  // ---------------------------------------------------------------- growing lists

  /** Between one request and the next, rows are inserted anywhere and none leaves. */
  ghost predicate OnlyInserted<T>(requests: seq<Request<T>>) {
    && (forall k :: 0 <= k < |requests| ==> requests[k].limit >= 1)
    && (forall k :: 0 < k < |requests| ==> Subsequence(requests[k - 1].rows, requests[k].rows))
  }

  lemma StillOnlyInserted<T>(requests: seq<Request<T>>)
    requires OnlyInserted(requests) && |requests| > 1
    ensures OnlyInserted(requests[1..]) && Subsequence(requests[0].rows, requests[1].rows)
    ensures requests[0].limit >= 1
  {
    hide Subsequence;
    forall k | 0 < k < |requests[1..]|
      ensures Subsequence(requests[1..][k - 1].rows, requests[1..][k].rows)
    {
      assert requests[1..][k] == requests[k + 1] && requests[1..][k - 1] == requests[k + 1 - 1];
    }
  }

  /** The matches from `from` on. */
  function Ahead<T>(rows: seq<T>, keep: T -> bool, from: nat): seq<T> {
    Matches(rows, keep, from, |rows|)
  }

  /** What is ahead of an offset stays ahead of it when rows are only inserted. */
  lemma InsertedStaysAhead<T>(before: seq<T>, after: seq<T>, keep: T -> bool, from: nat)
    requires Subsequence(before, after)
    ensures Subsequence(Ahead(before, keep, from), Ahead(after, keep, from))
  {
    hide Subsequence, Filter;
    SubsequenceDrop(before, after, from);
    assert Slice(before, from, |before|) == Skip(before, from);
    assert Slice(after, from, |after|) == Skip(after, from);
    SubsequenceFilter(Skip(before, from), Skip(after, from), keep);
  }

  /** A window of the first list, then whatever shows the rest of the second. */
  lemma WindowThenRest<T>(
    before: seq<T>, after: seq<T>, keep: T -> bool, from: nat, next: nat, shown: seq<T>)
    requires Subsequence(before, after) && from <= next <= |before|
    requires Subsequence(Ahead(after, keep, next), shown)
    ensures Subsequence(Ahead(before, keep, from), Matches(before, keep, from, next) + shown)
  {
    hide Subsequence, Matches;
    MatchesJoin(before, keep, from, next, |before|);
    InsertedStaysAhead(before, after, keep, next);
    SubsequenceTrans(Ahead(before, keep, next), Ahead(after, keep, next), shown);
    SubsequenceConcat(Matches(before, keep, from, next), Ahead(before, keep, next), shown);
  }

  // ---------------------------------------------------------------- the triage queue

  /** Follows the tokens from request to request until none comes back or the client stops
      asking. */
  function TriageVisit<T>(requests: seq<Request<T>>, keep: T -> bool, token: Option<Text>): seq<seq<T>> {
    if requests == [] then []
    else
      var (items, next) := TriageGet(requests[0].rows, keep, requests[0].limit, token);
      [items] + if next.None? then [] else TriageVisit(requests[1..], keep, next)
  }

  /** The client goes on until no token comes back. */
  ghost predicate TriageEnds<T>(requests: seq<Request<T>>, keep: T -> bool, token: Option<Text>) {
    requests != [] &&
    var (_, next) := TriageGet(requests[0].rows, keep, requests[0].limit, token);
    next.None? || TriageEnds(requests[1..], keep, next)
  }

  /** While rows are only inserted, a finished walk misses no matching row that was there at
      its first request: they are all shown, in their order. Rows may be shown twice. */
  lemma {:induction false} InsertionsLoseNoRow<T>(
    requests: seq<Request<T>>, keep: T -> bool, token: Option<Text>)
    requires OnlyInserted(requests) && TriageEnds(requests, keep, token)
    ensures Subsequence(
        Ahead(requests[0].rows, keep, DecodeOffsetCursor(token)),
        Flatten(TriageVisit(requests, keep, token)))
  {
    hide Subsequence, LoadTriagePage, DecodeOffsetCursor, EncodeOffsetCursor, Matches, OnlyInserted;
    var first, offset := requests[0], DecodeOffsetCursor(token);
    LimitIsPositive(requests);
    var page := LoadTriagePage(first.rows, keep, first.limit, offset);
    TriagePageIsFilteredWindow(first.rows, keep, first.limit, offset);
    TriageStepAdvances(first.rows, keep, first.limit, offset);
    var shown := TriageVisit(requests, keep, token);
    if page.hasMore {
      var next := Some(EncodeOffsetCursor(page.nextOffset));
      StillOnlyInserted(requests);
      InsertionsLoseNoRow(requests[1..], keep, next);
      WindowThenRest(
        first.rows, requests[1].rows, keep, offset, page.nextOffset,
        Flatten(TriageVisit(requests[1..], keep, next)));
      assert shown[1..] == TriageVisit(requests[1..], keep, next);
    } else {
      NothingBeyond(first.rows, keep, offset, page.nextOffset);
      FlattenOne(page.items);
      assert shown == [page.items];
      SubsequenceRefl(page.items);
    }
  }

  lemma LimitIsPositive<T>(requests: seq<Request<T>>)
    requires OnlyInserted(requests) && requests != []
    ensures requests[0].limit >= 1
  {
  }

  lemma FlattenOne<T>(xs: seq<T>)
    ensures Flatten([xs]) == xs
  {
    assert Flatten([xs]) == xs + Flatten([xs][1..]);
  }

  /** A deletion can lose a row that is there all along: with pages of one over rows 1, 2, 3,
      row 1 leaves after the first page, and row 2 is never shown. */
  lemma DeletionLosesRow()
    ensures var requests := [Request([1, 2, 3], 1), Request([2, 3], 1)];
      && TriageEnds(requests, (_: int) => true, None)
      && TriageVisit(requests, (_: int) => true, None) == [[1], [3]]
  {
    hide LoadTriagePage, EncodeOffsetCursor, DecodeOffsetCursor;
    var keep := (_: int) => true;
    var requests := [Request([1, 2, 3], 1), Request([2, 3], 1)];
    var next := Some(EncodeOffsetCursor(1));
    SinglePage([1, 2, 3], keep, 0);
    SinglePage([2, 3], keep, 1);
    FirstOffset();
    OffsetRoundTrip(1);
    assert TriageGet([1, 2, 3], keep, 1, None) == ([1], next);
    assert TriageGet([2, 3], keep, 1, next) == ([3], None);
    assert requests[1..] == [Request([2, 3], 1)];
  }

  lemma FirstOffset()
    ensures DecodeOffsetCursor(None) == 0
  {
  }

  lemma SinglePage(articles: seq<int>, keep: int -> bool, offset: nat)
    requires offset < |articles| && keep(articles[offset])
    ensures LoadTriagePage(articles, keep, 1, offset) ==
      TriagePage([articles[offset]], offset + 1, offset + 1 < |articles|)
  {
    hide Filter;
    assert StorePage(articles, 1, offset).items == [articles[offset]];
    FilterAll([articles[offset]], keep);
  }

  // ---------------------------------------------------------------- the feed

  /** What one feed request shows, and the matches of the raw window it advanced over. */
  datatype View<+T> = View(items: seq<T>, window: seq<T>, limit: nat)

  function FeedVisit<T>(requests: seq<Request<T>>, keep: Option<T -> bool>, token: Option<Text>)
    : (views: seq<View<T>>)
  {
    if requests == [] then []
    else
      var Request(rows, limit) := requests[0];
      var offset := DecodeOffsetCursor(token);
      var page := LoadFeedPage(rows, keep, limit, offset);
      [View(page.items, Matches(rows, Mode(keep), offset, page.nextOffset), limit)] +
      if page.nextOffset >= page.categoryTotal then []
      else FeedVisit(requests[1..], keep, Some(EncodeOffsetCursor(page.nextOffset)))
  }

  ghost predicate FeedEnds<T>(requests: seq<Request<T>>, keep: Option<T -> bool>, token: Option<Text>) {
    requests != [] &&
    var page := LoadFeedPage(requests[0].rows, keep, requests[0].limit, DecodeOffsetCursor(token));
    page.nextOffset >= page.categoryTotal ||
    FeedEnds(requests[1..], keep, Some(EncodeOffsetCursor(page.nextOffset)))
  }

  function Windows<T>(views: seq<View<T>>): seq<T> {
    if views == [] then [] else views[0].window + Windows(views[1..])
  }

  /** While articles are only inserted, the windows of a finished feed walk hold all matches
      of the first request's list, in their order; each page shows the first `limit` of its
      window, and in mode "all" the whole of it. */
  lemma {:induction false} FeedWindowsLoseNoRow<T>(
    requests: seq<Request<T>>, keep: Option<T -> bool>, token: Option<Text>)
    requires OnlyInserted(requests) && FeedEnds(requests, keep, token)
    ensures var views := FeedVisit(requests, keep, token);
      && Subsequence(Ahead(requests[0].rows, Mode(keep), DecodeOffsetCursor(token)), Windows(views))
      && (forall k :: 0 <= k < |views| ==> views[k].items == Take(views[k].window, views[k].limit))
      && (keep.None? ==> forall k :: 0 <= k < |views| ==> views[k].items == views[k].window)
  {
    hide Subsequence, LoadFeedPage, DecodeOffsetCursor, EncodeOffsetCursor, Matches, OnlyInserted, Take;
    var Request(rows, limit) := requests[0];
    var offset := DecodeOffsetCursor(token);
    LimitIsPositive(requests);
    var page := LoadFeedPage(rows, keep, limit, offset);
    var window := Matches(rows, Mode(keep), offset, page.nextOffset);
    FeedPageIsCutWindow(rows, keep, limit, offset);
    if keep.None? {
      AllModeWindow(rows, limit, offset);
    }
    var views := FeedVisit(requests, keep, token);
    if page.nextOffset < page.categoryTotal {
      var next := Some(EncodeOffsetCursor(page.nextOffset));
      OffsetRoundTrip(page.nextOffset);
      StillOnlyInserted(requests);
      FeedWindowsLoseNoRow(requests[1..], keep, next);
      var rest := FeedVisit(requests[1..], keep, next);
      assert views == [View(page.items, window, limit)] + rest && views[1..] == rest;
      WindowThenRest(rows, requests[1].rows, Mode(keep), offset, page.nextOffset, Windows(rest));
    } else {
      NothingBeyond(rows, Mode(keep), offset, page.nextOffset);
      assert views == [View(page.items, window, limit)] && views[1..] == [];
      assert Windows(views) == window + Windows(views[1..]) == window;
      SubsequenceRefl(window);
    }
  }

  lemma AllModeWindow<T>(rows: seq<T>, limit: nat, offset: nat)
    requires limit >= 1
    ensures var page := LoadFeedPage(rows, None, limit, offset);
      page.items == Matches(rows, Mode(None), offset, page.nextOffset)
  {
    hide Filter, Matches, StorePage;
    RawRead(rows, Mode(None), limit, offset);
    FilterAll(StorePage(rows, limit, offset).items, Mode(None));
  }
}
