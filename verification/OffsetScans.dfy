/** Filtering endpoints that scan raw article pages by offset: the source-triage queue
    (src/harper/resource-source-article-triage.ts) and the mode-filtered feed
    (src/harper/resource-profile-endpoints.ts). `articles` is the fixed list whose slices
    the feed query returns; `keep` is the row test. For "all" and for every category stored
    under one name it is the store's own list, newest first. For web research, which is
    stored under two names, it is `NewestFirst` of both lists, and only while printed dates
    follow dates (`FeedPageIsSliceOfWhole`, exact by `FeedIsNewestFirstIff`). */
module OffsetScans {
  import opened Sequences
  import opened StableSort
  import opened Texts
  import opened Pagination
  import opened FeedPages

  /** The matching rows between two raw offsets: the plain filter-then-slice a scan stands
      in for. */
  function Matches<T>(articles: seq<T>, keep: T -> bool, from: nat, to: nat): seq<T> {
    Filter(Slice(articles, from, to), keep)
  }

  lemma MatchesJoin<T>(articles: seq<T>, keep: T -> bool, from: nat, mid: nat, to: nat)
    requires from <= mid <= to && (mid <= |articles| || from == mid)
    ensures Matches(articles, keep, from, to) ==
            Matches(articles, keep, from, mid) + Matches(articles, keep, mid, to)
  {
    hide Filter;
    assert Slice(articles, from, to) == Slice(articles, from, mid) + Slice(articles, mid, to);
    FilterConcat(Slice(articles, from, mid), Slice(articles, mid, to), keep);
  }

  /** One raw read and the rows it matches. */
  lemma RawRead<T>(articles: seq<T>, keep: T -> bool, limit: nat, offset: nat)
    ensures var page := StorePage(articles, limit, offset);
      var next := offset + |page.items|;
      && Filter(page.items, keep) == Matches(articles, keep, offset, next)
      && |page.items| <= limit && page.total == |articles|
      && (offset <= |articles| ==> next <= |articles|)
      && (offset < |articles| && limit > 0 ==> offset < next)
      && (offset >= |articles| ==> next == offset)
  {
    var page := StorePage(articles, limit, offset);
    assert page.items == Slice(articles, offset, offset + |page.items|);
  }

  lemma NothingBeyond<T>(articles: seq<T>, keep: T -> bool, from: nat, to: nat)
    requires from <= to && (to >= |articles| || from >= |articles|)
    ensures Matches(articles, keep, from, to) == Matches(articles, keep, from, |articles|)
  {
    assert Slice(articles, from, to) == Slice(articles, from, |articles|);
  }

  // ---------------------------------------------------------------- source triage

  datatype TriagePage<+T> = TriagePage(items: seq<T>, nextOffset: nat, hasMore: bool)

  /** `loadTriagePage`: the limit shrinks by what has been found. */
  function LoadTriagePage<T>(articles: seq<T>, keep: T -> bool, limit: nat, offset: nat): TriagePage<T>
    decreases |articles| - offset
  {
    var page := StorePage(articles, limit, offset);
    var matches := Filter(page.items, keep);
    var nextOffset := offset + |page.items|;
    if |matches| >= limit || nextOffset >= page.total || |page.items| == 0 then
      TriagePage(Slice(matches, 0, limit), nextOffset, nextOffset < page.total)
    else
      var next := LoadTriagePage(articles, keep, limit - |matches|, nextOffset);
      TriagePage(matches + next.items, next.nextOffset, next.hasMore)
  }

  /** One call returns exactly the matching rows of the raw window it advanced over; the
      final slice drops none of them, and a page with more behind it is full. */
  lemma {:induction false} TriagePageIsFilteredWindow<T>(
    articles: seq<T>, keep: T -> bool, limit: nat, offset: nat)
    requires 1 <= limit
    ensures var page := LoadTriagePage(articles, keep, limit, offset);
      && offset <= page.nextOffset
      && (offset <= |articles| ==> page.nextOffset <= |articles|)
      && (offset >= |articles| ==> page.nextOffset == offset)
      && page.items == Matches(articles, keep, offset, page.nextOffset)
      && |page.items| <= limit
      && (page.hasMore <==> page.nextOffset < |articles|)
      && (page.hasMore ==> |page.items| == limit)
    decreases |articles| - offset
  {
    hide Filter, StorePage, Matches;
    RawRead(articles, keep, limit, offset);
    var raw := StorePage(articles, limit, offset);
    var matches := Filter(raw.items, keep);
    var nextOffset := offset + |raw.items|;
    if |matches| >= limit || nextOffset >= raw.total || |raw.items| == 0 {
      assert Slice(matches, 0, limit) == matches;
    } else {
      TriagePageIsFilteredWindow(articles, keep, limit - |matches|, nextOffset);
      var next := LoadTriagePage(articles, keep, limit - |matches|, nextOffset);
      MatchesJoin(articles, keep, offset, nextOffset, next.nextOffset);
    }
  }

  /** `SourceArticleTriage.get`: the cursor arrives and leaves as a token. */
  function TriageGet<T>(articles: seq<T>, keep: T -> bool, limit: nat, token: Option<Text>)
    : (seq<T>, Option<Text>)
  {
    var page := LoadTriagePage(articles, keep, limit, DecodeOffsetCursor(token));
    (page.items, if page.hasMore then Some(EncodeOffsetCursor(page.nextOffset)) else None)
  }

  /** A client following tokens until none comes back. */
  function TriageWalk<T>(articles: seq<T>, keep: T -> bool, limit: nat, token: Option<Text>)
    : (pages: seq<seq<T>>)
    requires 1 <= limit
    decreases |articles| - DecodeOffsetCursor(token)
  {
    var offset := DecodeOffsetCursor(token);
    var (items, next) := TriageGet(articles, keep, limit, token);
    if next.None? then [items]
    else
      TriageStepAdvances(articles, keep, limit, offset);
      [items] + TriageWalk(articles, keep, limit, next)
  }

  lemma TriageStepAdvances<T>(articles: seq<T>, keep: T -> bool, limit: nat, offset: nat)
    requires 1 <= limit
    ensures var page := LoadTriagePage(articles, keep, limit, offset);
      page.hasMore ==>
        offset < page.nextOffset < |articles| &&
        DecodeOffsetCursor(Some(EncodeOffsetCursor(page.nextOffset))) == page.nextOffset
  {
    TriagePageIsFilteredWindow(articles, keep, limit, offset);
    OffsetRoundTrip(LoadTriagePage(articles, keep, limit, offset).nextOffset);
  }

  /** The queue is complete: following the tokens shows every matching article from the
      first cursor on, in order, each once, and every page but the last is full. */
  lemma {:induction false} TriageWalkIsComplete<T>(
    articles: seq<T>, keep: T -> bool, limit: nat, token: Option<Text>)
    requires 1 <= limit
    ensures var offset := DecodeOffsetCursor(token);
      var walk := TriageWalk(articles, keep, limit, token);
      && FullButLast(walk, limit)
      && Flatten(walk) == Matches(articles, keep, offset, |articles|)
    decreases |articles| - DecodeOffsetCursor(token)
  {
    var offset := DecodeOffsetCursor(token);
    var page := LoadTriagePage(articles, keep, limit, offset);
    TriagePageIsFilteredWindow(articles, keep, limit, offset);
    TriageStepAdvances(articles, keep, limit, offset);
    var walk := TriageWalk(articles, keep, limit, token);
    if page.hasMore {
      var next := Some(EncodeOffsetCursor(page.nextOffset));
      TriageWalkIsComplete(articles, keep, limit, next);
      MatchesJoin(articles, keep, offset, page.nextOffset, |articles|);
      assert walk[1..] == TriageWalk(articles, keep, limit, next);
    } else {
      NothingBeyond(articles, keep, offset, page.nextOffset);
      assert Flatten(walk) == page.items + Flatten(walk[1..]);
    }
  }

  // ---------------------------------------------------------------- mode-filtered feed

  datatype FeedPage<+T> = FeedPage(categoryTotal: nat, items: seq<T>, nextOffset: nat)

  /** `collectModeFilteredFeedItems`: every raw read asks for a full `limit`. */
  function CollectModeFiltered<T>(
    articles: seq<T>, keep: T -> bool, limit: nat, page: PageAndCount<T>, offset: nat, matches: seq<T>)
    : FeedPage<T>
    requires page == StorePage(articles, limit, offset)
    decreases |articles| - offset
  {
    var nextMatches := matches + Filter(page.items, keep);
    var nextOffset := offset + |page.items|;
    if |nextMatches| >= limit || nextOffset >= page.total || |page.items| == 0 then
      FeedPage(page.total, Slice(nextMatches, 0, limit), nextOffset)
    else
      CollectModeFiltered(
        articles, keep, limit, StorePage(articles, limit, nextOffset), nextOffset, nextMatches)
  }

  /** `loadFeedPage`; `keep` is `None` in mode "all". */
  function LoadFeedPage<T>(articles: seq<T>, keep: Option<T -> bool>, limit: nat, offset: nat): FeedPage<T> {
    var page := StorePage(articles, limit, offset);
    if keep.None? then FeedPage(page.total, page.items, offset + |page.items|)
    else CollectModeFiltered(articles, keep.value, limit, page, offset, [])
  }

  /** A row test that mode "all" amounts to. */
  function Mode<T>(keep: Option<T -> bool>): T -> bool {
    if keep.Some? then keep.value else (_: T) => true
  }

  lemma {:induction false} CollectIsCutWindow<T>(
    articles: seq<T>, keep: T -> bool, limit: nat, offset: nat, matches: seq<T>)
    requires 1 <= limit && |matches| < limit
    ensures var page :=
        CollectModeFiltered(articles, keep, limit, StorePage(articles, limit, offset), offset, matches);
      var found := matches + Matches(articles, keep, offset, page.nextOffset);
      && offset <= page.nextOffset
      && (offset < |articles| ==> offset < page.nextOffset <= |articles|)
      && (offset >= |articles| ==> page.nextOffset == offset)
      && page.items == Take(found, limit)
      && page.categoryTotal == |articles|
      && |found| < 2 * limit
      && (page.nextOffset < |articles| ==> |found| >= limit)
    decreases |articles| - offset
  {
    hide Filter, StorePage, Matches;
    RawRead(articles, keep, limit, offset);
    var raw := StorePage(articles, limit, offset);
    var nextMatches := matches + Filter(raw.items, keep);
    var nextOffset := offset + |raw.items|;
    if !(|nextMatches| >= limit || nextOffset >= raw.total || |raw.items| == 0) {
      CollectIsCutWindow(articles, keep, limit, nextOffset, nextMatches);
      var page := CollectModeFiltered(
        articles, keep, limit, StorePage(articles, limit, nextOffset), nextOffset, nextMatches);
      MatchesJoin(articles, keep, offset, nextOffset, page.nextOffset);
      assert matches + Matches(articles, keep, offset, page.nextOffset) ==
             nextMatches + Matches(articles, keep, nextOffset, page.nextOffset);
    }
  }

  /** Matches of a call's window that its page leaves out. */
  function Surplus<T>(articles: seq<T>, keep: Option<T -> bool>, limit: nat, offset: nat): nat {
    var page := LoadFeedPage(articles, keep, limit, offset);
    var found := Matches(articles, Mode(keep), offset, page.nextOffset);
    if |found| > limit then |found| - limit else 0
  }

  lemma FilteredPageIsCutWindow<T>(articles: seq<T>, keep: T -> bool, limit: nat, offset: nat)
    requires 1 <= limit
    ensures var page := LoadFeedPage(articles, Some(keep), limit, offset);
      && offset <= page.nextOffset
      && (offset < |articles| ==> offset < page.nextOffset <= |articles|)
      && (offset >= |articles| ==> page.nextOffset == offset)
      && page.items == Take(Matches(articles, keep, offset, page.nextOffset), limit)
      && (page.nextOffset < |articles| ==> |page.items| == limit)
      && page.categoryTotal == |articles|
      && Surplus(articles, Some(keep), limit, offset) < limit
  {
    hide CollectModeFiltered, Matches, StorePage;
    var page := LoadFeedPage(articles, Some(keep), limit, offset);
    var found := Matches(articles, keep, offset, page.nextOffset);
    CollectIsCutWindow(articles, keep, limit, offset, []);
    assert [] + found == found;
  }

  lemma PlainPageIsWindow<T>(articles: seq<T>, limit: nat, offset: nat)
    requires 1 <= limit
    ensures var page := LoadFeedPage(articles, None, limit, offset);
      && offset <= page.nextOffset
      && (offset < |articles| ==> offset < page.nextOffset <= |articles|)
      && (offset >= |articles| ==> page.nextOffset == offset)
      && page.items == Take(Matches(articles, Mode(None), offset, page.nextOffset), limit)
      && (page.nextOffset < |articles| ==> |page.items| == limit)
      && page.categoryTotal == |articles|
      && Surplus(articles, None, limit, offset) == 0
  {
    hide Filter, Matches;
    var page := StorePage(articles, limit, offset);
    RawRead(articles, Mode(None), limit, offset);
    FullRead(articles, limit, offset);
    FilterAll(page.items, Mode(None));
    assert Take(page.items, limit) == page.items;
  }

  /** One feed call returns the first `limit` matches of the raw window it advanced over;
      fewer than `limit` more are left behind, and none in mode "all". */
  lemma FeedPageIsCutWindow<T>(articles: seq<T>, keep: Option<T -> bool>, limit: nat, offset: nat)
    requires 1 <= limit
    ensures var page := LoadFeedPage(articles, keep, limit, offset);
      && offset <= page.nextOffset
      && (offset < |articles| ==> offset < page.nextOffset <= |articles|)
      && (offset >= |articles| ==> page.nextOffset == offset)
      && page.items == Take(Matches(articles, Mode(keep), offset, page.nextOffset), limit)
      && (page.nextOffset < |articles| ==> |page.items| == limit)
      && page.categoryTotal == |articles|
      && Surplus(articles, keep, limit, offset) < limit
      && (keep.None? ==> Surplus(articles, keep, limit, offset) == 0)
  {
    if keep.Some? {
      FilteredPageIsCutWindow(articles, keep.value, limit, offset);
    } else {
      PlainPageIsWindow(articles, limit, offset);
    }
  }

  /** `Feed.get` followed by token until `hasMore` is false; each step keeps the page and the
      surplus of its window. */
  datatype FeedStep<+T> = FeedStep(items: seq<T>, surplus: nat)

  function FeedWalk<T>(articles: seq<T>, keep: Option<T -> bool>, limit: nat, token: Option<Text>)
    : (steps: seq<FeedStep<T>>)
    requires 1 <= limit
    decreases |articles| - DecodeOffsetCursor(token)
  {
    var offset := DecodeOffsetCursor(token);
    var page := LoadFeedPage(articles, keep, limit, offset);
    var step := FeedStep(page.items, Surplus(articles, keep, limit, offset));
    if page.nextOffset < page.categoryTotal then
      FeedPageIsCutWindow(articles, keep, limit, offset);
      OffsetRoundTrip(page.nextOffset);
      [step] + FeedWalk(articles, keep, limit, Some(EncodeOffsetCursor(page.nextOffset)))
    else [step]
  }

  function FeedItems<T>(steps: seq<FeedStep<T>>): seq<T> {
    if steps == [] then [] else steps[0].items + FeedItems(steps[1..])
  }

  function FeedSurplus<T>(steps: seq<FeedStep<T>>): nat {
    if steps == [] then 0 else steps[0].surplus + FeedSurplus(steps[1..])
  }

  lemma TakeCounts<T>(xs: seq<T>, n: nat)
    ensures multiset(Take(xs, n)) <= multiset(xs)
  {
    assert xs == Take(xs, n) + xs[Min(n, |xs|)..];
  }

  /** One step of a walk, in terms of the matches still ahead of it. */
  lemma FeedStepShape<T>(articles: seq<T>, keep: Option<T -> bool>, limit: nat, token: Option<Text>)
    requires 1 <= limit
    ensures var offset := DecodeOffsetCursor(token);
      var page := LoadFeedPage(articles, keep, limit, offset);
      var steps := FeedWalk(articles, keep, limit, token);
      var found := Matches(articles, Mode(keep), offset, page.nextOffset);
      var next := Some(EncodeOffsetCursor(page.nextOffset));
      && steps != [] && steps[0] == FeedStep(Take(found, limit), |found| - |Take(found, limit)|)
      && DecodeOffsetCursor(next) == page.nextOffset
      && Matches(articles, Mode(keep), offset, |articles|) ==
         found + (if page.nextOffset < |articles|
                  then Matches(articles, Mode(keep), page.nextOffset, |articles|) else [])
      && (page.nextOffset < |articles| ==>
            offset < page.nextOffset && steps[1..] == FeedWalk(articles, keep, limit, next))
      && (page.nextOffset >= |articles| ==> steps[1..] == [])
  {
    hide Filter, Slice, CollectModeFiltered, StorePage, LoadFeedPage, Matches, DecodeOffsetCursor, EncodeOffsetCursor;
    var offset := DecodeOffsetCursor(token);
    var page := LoadFeedPage(articles, keep, limit, offset);
    FeedPageIsCutWindow(articles, keep, limit, offset);
    OffsetRoundTrip(page.nextOffset);
    if page.nextOffset < |articles| {
      MatchesJoin(articles, Mode(keep), offset, page.nextOffset, |articles|);
    } else {
      NothingBeyond(articles, Mode(keep), offset, page.nextOffset);
    }
  }

  /** Conservation over a whole walk: what is shown plus what each window leaves behind is
      every match, and nothing is shown more often than it is stored. */
  lemma {:induction false} FeedConserves<T>(
    articles: seq<T>, keep: Option<T -> bool>, limit: nat, token: Option<Text>)
    requires 1 <= limit
    ensures var all := Matches(articles, Mode(keep), DecodeOffsetCursor(token), |articles|);
      var steps := FeedWalk(articles, keep, limit, token);
      && |FeedItems(steps)| + FeedSurplus(steps) == |all|
      && multiset(FeedItems(steps)) <= multiset(all)
    decreases |articles| - DecodeOffsetCursor(token)
  {
    var offset := DecodeOffsetCursor(token);
    var page := LoadFeedPage(articles, keep, limit, offset);
    FeedStepShape(articles, keep, limit, token);
    TakeCounts(Matches(articles, Mode(keep), offset, page.nextOffset), limit);
    if page.nextOffset < |articles| {
      FeedConserves(articles, keep, limit, Some(EncodeOffsetCursor(page.nextOffset)));
    }
  }

  lemma {:induction false} NoSurplusShowsAll<T>(
    articles: seq<T>, keep: Option<T -> bool>, limit: nat, token: Option<Text>)
    requires 1 <= limit && FeedSurplus(FeedWalk(articles, keep, limit, token)) == 0
    ensures FeedItems(FeedWalk(articles, keep, limit, token)) ==
            Matches(articles, Mode(keep), DecodeOffsetCursor(token), |articles|)
    decreases |articles| - DecodeOffsetCursor(token)
  {
    hide Filter, Slice, LoadFeedPage, Matches, FeedWalk, DecodeOffsetCursor, EncodeOffsetCursor, Mode;
    var offset := DecodeOffsetCursor(token);
    var page := LoadFeedPage(articles, keep, limit, offset);
    var steps := FeedWalk(articles, keep, limit, token);
    var found := Matches(articles, Mode(keep), offset, page.nextOffset);
    FeedStepShape(articles, keep, limit, token);
    assert Take(found, limit) == found;
    if page.nextOffset < |articles| {
      NoSurplusShowsAll(articles, keep, limit, Some(EncodeOffsetCursor(page.nextOffset)));
    } else {
      assert FeedItems(steps) == found + FeedItems(steps[1..]);
    }
  }

  /** The walk shows exactly the matching articles, in order, if and only if no window
      finds more than `limit` matches. */
  lemma FeedCompleteIffNoSurplus<T>(
    articles: seq<T>, keep: Option<T -> bool>, limit: nat, token: Option<Text>)
    requires 1 <= limit
    ensures var all := Matches(articles, Mode(keep), DecodeOffsetCursor(token), |articles|);
      var steps := FeedWalk(articles, keep, limit, token);
      FeedItems(steps) == all <==> FeedSurplus(steps) == 0
  {
    hide Matches, FeedWalk, FeedItems, FeedSurplus, DecodeOffsetCursor;
    FeedConserves(articles, keep, limit, token);
    if FeedSurplus(FeedWalk(articles, keep, limit, token)) == 0 {
      NoSurplusShowsAll(articles, keep, limit, token);
    }
  }

  // ---------------------------------------------------------------- completeness, read off the list

  function BlockStart(offset: nat, limit: nat, k: nat): (at: nat)
    ensures at >= offset
  {
    offset + k * limit
  }

  lemma BlockStarts(offset: nat, limit: nat, j: nat, k: nat)
    ensures BlockStart(offset, limit, 0) == offset
    ensures BlockStart(offset, limit, j + 1) == BlockStart(offset, limit, j) + limit
    ensures BlockStart(offset, limit, j + k) == BlockStart(BlockStart(offset, limit, j), limit, k)
    ensures j <= k ==> BlockStart(offset, limit, j) <= BlockStart(offset, limit, k)
  {
    assert (j + k) * limit == j * limit + k * limit;
    if j <= k {
      assert k * limit == j * limit + (k - j) * limit;
    }
  }

  /** Matches in the first `k` blocks of `limit` raw rows from `offset`. */
  function BlockMatches<T>(articles: seq<T>, keep: T -> bool, limit: nat, offset: nat, k: nat): nat {
    |Matches(articles, keep, offset, BlockStart(offset, limit, k))|
  }

  /** No multiple of `limit`, the count at which a full page ends, lies strictly between the
      two counts. */
  ghost predicate BlockFits(before: nat, after: nat, limit: nat) {
    forall q: nat :: !(before < PageEnd(q, limit) < after)
  }

  /** No block carries the running count of matches across a page end. */
  ghost predicate BlocksFillPages<T>(articles: seq<T>, keep: T -> bool, limit: nat, offset: nat) {
    forall k: nat :: BlockFits(
      BlockMatches(articles, keep, limit, offset, k), BlockMatches(articles, keep, limit, offset, k + 1), limit)
  }

  lemma BlocksGrow<T>(articles: seq<T>, keep: T -> bool, limit: nat, offset: nat, j: nat, k: nat)
    requires j <= k
    ensures BlockMatches(articles, keep, limit, offset, j) <= BlockMatches(articles, keep, limit, offset, k)
  {
    hide Filter, Slice;
    var mid, to := BlockStart(offset, limit, j), BlockStart(offset, limit, k);
    BlockStarts(offset, limit, j, k);
    if mid <= |articles| {
      MatchesJoin(articles, keep, offset, mid, to);
    } else {
      NothingBeyond(articles, keep, offset, mid);
      NothingBeyond(articles, keep, offset, to);
    }
  }

  /** Where a window ends, counted in blocks. */
  ghost predicate EndsAtBlock<T>(
    articles: seq<T>, keep: T -> bool, limit: nat, start: nat, nextOffset: nat, j: nat)
  {
    && j >= 1
    && BlockMatches(articles, keep, limit, start, j - 1) < limit
    && Matches(articles, keep, start, nextOffset) == Matches(articles, keep, start, BlockStart(start, limit, j))
    && (nextOffset < |articles| ==>
          nextOffset == BlockStart(start, limit, j) && BlockMatches(articles, keep, limit, start, j) >= limit)
    && (nextOffset >= |articles| ==> BlockStart(start, limit, j) >= |articles|)
  }

  lemma {:induction false} WindowEndsAtBlock<T>(
    articles: seq<T>, keep: T -> bool, limit: nat, start: nat, i: nat, offset: nat, matches: seq<T>)
    returns (j: nat)
    requires 1 <= limit && offset == BlockStart(start, limit, i)
    requires matches == Matches(articles, keep, start, offset) && |matches| < limit
    ensures EndsAtBlock(articles, keep, limit, start,
      CollectModeFiltered(
        articles, keep, limit, StorePage(articles, limit, offset), offset, matches).nextOffset,
      j)
    decreases |articles| - offset
  {
    hide Filter, Slice, BlockStart, EndsAtBlock, StorePage;
    var page := StorePage(articles, limit, offset);
    var next := offset + |page.items|;
    var more := matches + Filter(page.items, keep);
    j := i + 1;
    RawRead(articles, keep, limit, offset);
    if offset >= |articles| || next >= |articles| {
      WindowAtEnd(articles, keep, limit, start, i, next);
    } else {
      MatchesJoin(articles, keep, start, offset, next);
      FullRead(articles, limit, offset);
      BlockStarts(start, limit, i, 0);
      if |more| >= limit {
        WindowFull(articles, keep, limit, start, i);
      } else {
        j := WindowEndsAtBlock(articles, keep, limit, start, i + 1, next, more);
      }
    }
  }

  lemma WindowAtEnd<T>(articles: seq<T>, keep: T -> bool, limit: nat, start: nat, i: nat, next: nat)
    requires BlockMatches(articles, keep, limit, start, i) < limit
    requires next >= |articles| && start <= next <= BlockStart(start, limit, i) + limit
    ensures EndsAtBlock(articles, keep, limit, start, next, i + 1)
  {
    hide Filter, Slice, BlockStart;
    BlockStarts(start, limit, i, 0);
    NothingBeyond(articles, keep, start, next);
    NothingBeyond(articles, keep, start, BlockStart(start, limit, i + 1));
  }

  lemma WindowFull<T>(articles: seq<T>, keep: T -> bool, limit: nat, start: nat, i: nat)
    requires BlockMatches(articles, keep, limit, start, i) < limit
    requires BlockMatches(articles, keep, limit, start, i + 1) >= limit
    requires BlockStart(start, limit, i + 1) < |articles|
    ensures EndsAtBlock(articles, keep, limit, start, BlockStart(start, limit, i + 1), i + 1)
  {
  }

  /** A read that stops short of the end is a whole block. */
  lemma FullRead<T>(articles: seq<T>, limit: nat, offset: nat)
    ensures var read := |StorePage(articles, limit, offset).items|;
      if offset + limit <= |articles| then read == limit
      else if offset < |articles| then offset + read == |articles| else read == 0
  {
  }

  lemma BlocksFrom<T>(articles: seq<T>, keep: T -> bool, limit: nat, start: nat, j: nat, k: nat)
    requires BlockStart(start, limit, j) <= |articles|
    ensures BlockMatches(articles, keep, limit, start, j + k) ==
      BlockMatches(articles, keep, limit, start, j) +
      BlockMatches(articles, keep, limit, BlockStart(start, limit, j), k)
  {
    hide Filter, Slice, BlockStart;
    BlockStarts(start, limit, j, k);
    MatchesJoin(articles, keep, start, BlockStart(start, limit, j), BlockStart(start, limit, j + k));
  }

  lemma SmallBlocksFit(before: nat, after: nat, limit: nat)
    requires after <= limit
    ensures BlockFits(before, after, limit)
  {
    forall q: nat ensures !(before < PageEnd(q, limit) < after) {
      PageEndsGrow(q, limit);
    }
  }

  lemma ShiftedBlockFits(before: nat, after: nat, limit: nat)
    ensures BlockFits(limit + before, limit + after, limit) <==> BlockFits(before, after, limit)
  {
    hide PageEnd;
    if BlockFits(before, after, limit) {
      forall q: nat ensures !(limit + before < PageEnd(q, limit) < limit + after) {
        if q == 0 {
          PageEndsGrow(0, limit);
        } else {
          PageEndsGrow(q - 1, limit);
          assert !(before < PageEnd(q - 1, limit) < after);
        }
      }
    }
    if BlockFits(limit + before, limit + after, limit) {
      forall q: nat ensures !(before < PageEnd(q, limit) < after) {
        PageEndsGrow(q, limit);
        assert !(limit + before < PageEnd(q + 1, limit) < limit + after);
      }
    }
  }

  lemma OvershootDoesNotFit(before: nat, after: nat, limit: nat)
    requires before < limit < after
    ensures !BlockFits(before, after, limit)
  {
    assert before < PageEnd(1, limit) < after;
  }

  /** A last window without surplus leaves nothing that does not fit. */
  lemma LastWindowFits<T>(articles: seq<T>, keep: T -> bool, limit: nat, start: nat, j: nat)
    requires 1 <= limit && j >= 1 && BlockStart(start, limit, j) >= |articles|
    requires BlockMatches(articles, keep, limit, start, j - 1) < limit
    requires BlockMatches(articles, keep, limit, start, j) <= limit
    ensures BlocksFillPages(articles, keep, limit, start)
  {
    hide BlockMatches, BlockFits;
    forall k: nat ensures BlockFits(
      BlockMatches(articles, keep, limit, start, k), BlockMatches(articles, keep, limit, start, k + 1), limit)
    {
      var before, after :=
        BlockMatches(articles, keep, limit, start, k), BlockMatches(articles, keep, limit, start, k + 1);
      BlocksGrow(articles, keep, limit, start, k, k + 1);
      if k + 1 < j {
        BlocksGrow(articles, keep, limit, start, k + 1, j - 1);
        SmallBlocksFit(before, after, limit);
      } else if k + 1 == j {
        SmallBlocksFit(before, after, limit);
      } else {
        BlocksPastEnd(articles, keep, limit, start, j, k);
        BlocksPastEnd(articles, keep, limit, start, j, k + 1);
        SameBlockFits(before, limit);
      }
    }
  }

  lemma SameBlockFits(count: nat, limit: nat)
    ensures BlockFits(count, count, limit)
  {
  }

  lemma BlocksPastEnd<T>(articles: seq<T>, keep: T -> bool, limit: nat, start: nat, j: nat, k: nat)
    requires j <= k && BlockStart(start, limit, j) >= |articles|
    ensures BlockMatches(articles, keep, limit, start, k) == BlockMatches(articles, keep, limit, start, j)
  {
    hide Filter, Slice;
    BlockStarts(start, limit, j, k);
    NothingBeyond(articles, keep, start, BlockStart(start, limit, j));
    NothingBeyond(articles, keep, start, BlockStart(start, limit, k));
  }

  /** A window of exactly `limit` matches passes the condition on to what follows it. */
  lemma ExactWindowFits<T>(articles: seq<T>, keep: T -> bool, limit: nat, start: nat, j: nat)
    requires 1 <= limit && j >= 1 && BlockStart(start, limit, j) <= |articles|
    requires BlockMatches(articles, keep, limit, start, j - 1) < limit
    requires BlockMatches(articles, keep, limit, start, j) == limit
    ensures BlocksFillPages(articles, keep, limit, start) <==>
            BlocksFillPages(articles, keep, limit, BlockStart(start, limit, j))
  {
    hide BlockMatches, BlockFits, BlockStart;
    var later := BlockStart(start, limit, j);
    forall k: nat
      ensures BlockFits(
          BlockMatches(articles, keep, limit, start, j + k), BlockMatches(articles, keep, limit, start, j + k + 1),
          limit) <==>
        BlockFits(
          BlockMatches(articles, keep, limit, later, k), BlockMatches(articles, keep, limit, later, k + 1), limit)
    {
      BlocksFrom(articles, keep, limit, start, j, k);
      BlocksFrom(articles, keep, limit, start, j, k + 1);
      ShiftedBlockFits(
        BlockMatches(articles, keep, limit, later, k), BlockMatches(articles, keep, limit, later, k + 1), limit);
    }
    forall k: nat | k < j ensures BlockFits(
      BlockMatches(articles, keep, limit, start, k), BlockMatches(articles, keep, limit, start, k + 1), limit)
    {
      BlocksGrow(articles, keep, limit, start, k + 1, j);
      SmallBlocksFit(
        BlockMatches(articles, keep, limit, start, k), BlockMatches(articles, keep, limit, start, k + 1), limit);
    }
    if BlocksFillPages(articles, keep, limit, later) {
      forall k: nat ensures BlockFits(
        BlockMatches(articles, keep, limit, start, k), BlockMatches(articles, keep, limit, start, k + 1), limit)
      {
        if k >= j {
          var i: nat := k - j;
          assert BlockFits(
            BlockMatches(articles, keep, limit, later, i), BlockMatches(articles, keep, limit, later, i + 1), limit);
          assert j + i == k;
        }
      }
    }
    if BlocksFillPages(articles, keep, limit, start) {
      forall k: nat ensures BlockFits(
        BlockMatches(articles, keep, limit, later, k), BlockMatches(articles, keep, limit, later, k + 1), limit)
      {
        assert BlockFits(BlockMatches(articles, keep, limit, start, j + k),
          BlockMatches(articles, keep, limit, start, j + k + 1), limit);
      }
    }
  }

  lemma {:induction false} SurplusIffBlocks<T>(
    articles: seq<T>, keep: T -> bool, limit: nat, token: Option<Text>)
    requires 1 <= limit
    ensures FeedSurplus(FeedWalk(articles, Some(keep), limit, token)) == 0 <==>
            BlocksFillPages(articles, keep, limit, DecodeOffsetCursor(token))
    decreases |articles| - DecodeOffsetCursor(token)
  {
    hide Filter, Slice, CollectModeFiltered, StorePage, BlocksFillPages, DecodeOffsetCursor, EncodeOffsetCursor,
      FeedWalk;
    var start := DecodeOffsetCursor(token);
    var page := LoadFeedPage(articles, Some(keep), limit, start);
    var found := Matches(articles, keep, start, page.nextOffset);
    FeedStepShape(articles, Some(keep), limit, token);
    FeedPageIsCutWindow(articles, Some(keep), limit, start);
    var j: nat := WindowBlock(articles, keep, limit, start);
    var steps := FeedWalk(articles, Some(keep), limit, token);
    assert steps[0].surplus == |found| - |Take(found, limit)|;
    assert BlockMatches(articles, keep, limit, start, j) == |found|;
    if |found| > limit {
      OvershootDoesNotFit(BlockMatches(articles, keep, limit, start, j - 1), |found|, limit);
      BlockBreaks(articles, keep, limit, start, j - 1);
    } else if page.nextOffset >= |articles| {
      LastWindowFits(articles, keep, limit, start, j);
    } else {
      ExactWindowFits(articles, keep, limit, start, j);
      SurplusIffBlocks(articles, keep, limit, Some(EncodeOffsetCursor(page.nextOffset)));
    }
  }

  lemma BlockBreaks<T>(articles: seq<T>, keep: T -> bool, limit: nat, offset: nat, k: nat)
    requires !BlockFits(
      BlockMatches(articles, keep, limit, offset, k), BlockMatches(articles, keep, limit, offset, k + 1), limit)
    ensures !BlocksFillPages(articles, keep, limit, offset)
  {
  }

  /** The number of blocks in the window of one call. */
  ghost function WindowBlock<T>(articles: seq<T>, keep: T -> bool, limit: nat, start: nat): (j: nat)
    requires 1 <= limit
    ensures EndsAtBlock(articles, keep, limit, start, LoadFeedPage(articles, Some(keep), limit, start).nextOffset, j)
  {
    assert start + 0 * limit == start;
    WindowStarts(articles, keep, limit, start);
    var j: nat :| EndsAtBlock(
      articles, keep, limit, start, LoadFeedPage(articles, Some(keep), limit, start).nextOffset, j);
    j
  }

  lemma FirstRead<T>(articles: seq<T>, keep: T -> bool, limit: nat, start: nat)
    ensures LoadFeedPage(articles, Some(keep), limit, start) ==
            CollectModeFiltered(articles, keep, limit, StorePage(articles, limit, start), start, [])
    ensures start <= |articles| ==> Matches(articles, keep, start, start) == []
  {
    hide CollectModeFiltered;
    if start <= |articles| {
      assert Slice(articles, start, start) == [];
    }
  }

  lemma WindowStarts<T>(articles: seq<T>, keep: T -> bool, limit: nat, start: nat)
    requires 1 <= limit
    ensures exists j: nat :: EndsAtBlock(
      articles, keep, limit, start, LoadFeedPage(articles, Some(keep), limit, start).nextOffset, j)
  {
    hide CollectModeFiltered, LoadFeedPage, Matches, StorePage, Surplus;
    FirstRead(articles, keep, limit, start);
    if start <= |articles| {
      BlockStarts(start, limit, 0, 0);
      var j := WindowEndsAtBlock(articles, keep, limit, start, 0, start, []);
    } else {
      EmptyWindow(articles, keep, limit, start);
      FeedPageIsCutWindow(articles, Some(keep), limit, start);
    }
  }

  lemma EmptyWindow<T>(articles: seq<T>, keep: T -> bool, limit: nat, start: nat)
    requires 1 <= limit && start > |articles|
    ensures EndsAtBlock(articles, keep, limit, start, start, 1)
  {
    hide Filter;
    NothingBeyond(articles, keep, start, start);
    NothingBeyond(articles, keep, start, BlockStart(start, limit, 1));
    NothingBeyond(articles, keep, start, BlockStart(start, limit, 0));
    assert Slice(articles, start, |articles|) == [];
    NothingMatches(keep);
  }

  lemma NothingMatches<T>(keep: T -> bool)
    ensures Filter([], keep) == []
  {
  }

  /** When a walk shows every matching article, read off the list before the first request:
      in mode "all" always; under a filter exactly when no block of `limit` raw rows carries
      the running count of matches past a multiple of `limit`. */
  lemma FeedCompleteIff<T>(articles: seq<T>, keep: Option<T -> bool>, limit: nat, token: Option<Text>)
    requires 1 <= limit
    ensures var all := Matches(articles, Mode(keep), DecodeOffsetCursor(token), |articles|);
      FeedItems(FeedWalk(articles, keep, limit, token)) == all <==>
        keep.None? || BlocksFillPages(articles, keep.value, limit, DecodeOffsetCursor(token))
  {
    hide Matches, FeedWalk, FeedItems, FeedSurplus, DecodeOffsetCursor, BlocksFillPages;
    FeedCompleteIffNoSurplus(articles, keep, limit, token);
    if keep.Some? {
      SurplusIffBlocks(articles, keep.value, limit, token);
    } else {
      FeedWithoutSurplus(articles, keep, limit, token);
    }
  }

  /** Two cases a caller can tell beforehand: mode "all" and pages of one never lose a row. */
  lemma {:induction false} FeedWithoutSurplus<T>(
    articles: seq<T>, keep: Option<T -> bool>, limit: nat, token: Option<Text>)
    requires 1 <= limit && (keep.None? || limit == 1)
    ensures FeedSurplus(FeedWalk(articles, keep, limit, token)) == 0
    decreases |articles| - DecodeOffsetCursor(token)
  {
    var offset := DecodeOffsetCursor(token);
    var page := LoadFeedPage(articles, keep, limit, offset);
    FeedPageIsCutWindow(articles, keep, limit, offset);
    FeedStepShape(articles, keep, limit, token);
    if page.nextOffset < |articles| {
      FeedWithoutSurplus(articles, keep, limit, Some(EncodeOffsetCursor(page.nextOffset)));
    }
  }

  /** The loss is real: pages of two over match, no match, match, match show two of three. */
  lemma FeedLosesRow()
    ensures var isMatch := (hit: bool) => hit;
      FeedItems(FeedWalk([true, false, true, true], Some(isMatch), 2, None)) == [true, true]
  {
    var isMatch := (hit: bool) => hit;
    var articles := [true, false, true, true];
    assert StorePage(articles, 2, 0).items == [true, false];
    assert StorePage(articles, 2, 2).items == [true, true];
    assert Filter([false], isMatch) == [];
    assert Filter([true, false], isMatch) == [true] + Filter([true, false][1..], isMatch);
    assert Filter([true], isMatch) == [true];
    assert Filter([true, true], isMatch) == [true] + Filter([true, true][1..], isMatch);
    var page := LoadFeedPage(articles, Some(isMatch), 2, 0);
    assert page == CollectModeFiltered(articles, isMatch, 2, StorePage(articles, 2, 2), 2, [true]);
    assert page == FeedPage(4, [true, true], 4);
  }
}
