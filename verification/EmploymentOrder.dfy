/** When the merged date ranges of a firm depend on the order of its rows
    (src/lib/brokercheck-employment.ts). */
module EmploymentOrder {
  import opened Sequences
  import opened StableSort
  import opened EmploymentMerge
  import opened EmploymentDedupe

  /** Rows with a start date end no earlier than they start. */
  ghost predicate DatesInOrder(rows: seq<Employment>) {
    forall i :: 0 <= i < |rows| && rows[i].startDate.Some? ==> Dated(rows[i])
  }

  /** All rows without a start date have the same end date, or all have none. */
  ghost predicate UndatedEndsAgree(rows: seq<Employment>) {
    forall i, j ::
      0 <= i < |rows| && 0 <= j < |rows| && rows[i].startDate.None? && rows[j].startDate.None? ==>
      rows[i].endDate == rows[j].endDate
  }

  ghost predicate Shuffle(rows: seq<Employment>, other: seq<Employment>) {
    multiset(rows) == multiset(other)
  }

  ghost predicate RangesIgnoreOrder(bucket: seq<Employment>) {
    forall shuffled :: Shuffle(shuffled, bucket) ==>
      DateRanges(MergeBucket(shuffled)) == DateRanges(MergeBucket(bucket))
  }

  // ---------------------------------------------------------------- different ends show

  lemma {:induction false} LastOpenAbsorbs(current: Employment, rows: seq<Employment>)
    requires current.endDate.None?
    ensures |MergeAll([current], rows)| == 1 && MergeAll([current], rows)[0].endDate.None?
    decreases rows
  {
    if rows == [] {
    } else {
      LastOpenAbsorbs(MergeRows(current, rows[0]), rows[1..]);
    }
  }

  /** Rows in front of the last merged one are final. */
  lemma {:induction false} MergeAllBehind(front: seq<Employment>, current: Employment, rows: seq<Employment>)
    ensures MergeAll(front + [current], rows) == front + MergeAll([current], rows)
    ensures MergeAll([current], rows) != []
    decreases rows
  {
    hide MergeInto, MergeRows, WithinMergeGap;
    if rows == [] {
      MergeAllNone(front + [current]);
      MergeAllNone([current]);
    } else {
      var row := rows[0];
      MergeStep(front, current, row);
      MergeStep([], current, row);
      var joined := MergeRows(current, row);
      assert [] + [current] == [current] && [] + [joined] == [joined];
      if WithinMergeGap(current.endDate, row.startDate) {
        MergeAllBehind(front, joined, rows[1..]);
      } else {
        MergeAllBehind(front + [current], row, rows[1..]);
        MergeAllBehind([current], row, rows[1..]);
        Regroup(front, current, MergeAll([row], rows[1..]));
      }
    }
  }

  lemma Regroup(front: seq<Employment>, current: Employment, rest: seq<Employment>)
    ensures front + [current] + rest == front + ([current] + rest)
  {
  }

  /** With two undated rows in front, the first one's end date is the first range's. */
  lemma FirstEndShows(a: Employment, b: Employment, rows: seq<Employment>)
    requires b.startDate.None?
    ensures var merged := MergeAll([], [a, b] + rows);
      merged != [] && merged[0].endDate == a.endDate
  {
    hide MergeAll;
    MergeAllConcat([], [a], [b] + rows);
    assert [a, b] + rows == [a] + ([b] + rows);
    MergeAllOne([], a);
    assert MergeInto([], a) == [a];
    if a.endDate.None? {
      LastOpenAbsorbs(a, [b] + rows);
    } else {
      MergeAllConcat([a], [b], rows);
      MergeAllOne([a], b);
      assert MergeInto([a], b) == [a] + [b];
      MergeAllBehind([a], b, rows);
    }
  }

  /** A row that nothing sorts before stays in front. */
  lemma {:induction false} SortKeepsHead(head: Employment, rows: seq<Employment>)
    requires forall i :: 0 <= i < |rows| ==> !StartsBefore()(rows[i], head)
    ensures Sort(StartsBefore(), [head] + rows) == [head] + Sort(StartsBefore(), rows)
  {
    hide Sort;
    var less := StartsBefore();
    var sorted := [head] + Sort(less, rows);
    StartsBeforeOrders();
    SortSorts(less, rows);
    SortPermutes(less, rows);
    forall i | 0 <= i < |Sort(less, rows)| ensures !less(Sort(less, rows)[i], head) {
      MembersOfPermutation(Sort(less, rows), rows, Sort(less, rows)[i]);
    }
    assert Sorted(less, sorted);
    SortIsUnique(less, rows, Sort(less, rows));
    forall pivot ensures Ties(less, sorted, pivot) == Ties(less, [head] + rows, pivot) {
      TiesConcat(less, [head], Sort(less, rows), pivot);
      TiesConcat(less, [head], rows, pivot);
      assert Ties(less, Sort(less, rows), pivot) == Ties(less, rows, pivot);
    }
    SortIsUnique(less, [head] + rows, sorted);
  }

  /** With an undated row put first, its end date is the first range's, if another undated
      row follows. */
  lemma HeadEndShows(head: Employment, other: Employment, rows: seq<Employment>)
    requires head.startDate.None? && other.startDate.None? && other in rows
    ensures MergeBucket([head] + rows) != [] && MergeBucket([head] + rows)[0].endDate == head.endDate
  {
    hide Sort, MergeAll, Filter;
    var sorted := Sort(StartsBefore(), rows);
    SortKeepsHead(head, rows);
    SortSplits(rows);
    UndatedRowsAreUndated(rows);
    FilterMembers(rows, HAS_NO_START, other);
    assert UndatedRows(rows) != [];
    assert [head] + sorted == [head, sorted[0]] + sorted[1..];
    FirstEndShows(head, sorted[0], sorted[1..]);
  }

  lemma PutFirst(rows: seq<Employment>, i: nat)
    requires i < |rows|
    ensures Shuffle([rows[i]] + (rows[..i] + rows[i + 1..]), rows)
  {
    assert rows == rows[..i] + [rows[i]] + rows[i + 1..];
  }

  lemma PutFirstKeepsOther(rows: seq<Employment>, i: nat, j: nat)
    requires i < |rows| && j < |rows| && i != j
    ensures rows[j] in rows[..i] + rows[i + 1..]
  {
    var rest := rows[..i] + rows[i + 1..];
    assert rest[if j < i then j else j - 1] == rows[j];
  }

  lemma DifferentEndsShow(bucket: seq<Employment>, i: nat, j: nat)
    requires i < |bucket| && j < |bucket|
    requires bucket[i].startDate.None? && bucket[j].startDate.None? && bucket[i].endDate != bucket[j].endDate
    ensures !RangesIgnoreOrder(bucket)
  {
    hide MergeBucket;
    var a := [bucket[i]] + (bucket[..i] + bucket[i + 1..]);
    var b := [bucket[j]] + (bucket[..j] + bucket[j + 1..]);
    PutFirst(bucket, i);
    PutFirst(bucket, j);
    PutFirstKeepsOther(bucket, i, j);
    PutFirstKeepsOther(bucket, j, i);
    HeadEndShows(bucket[i], bucket[j], bucket[..i] + bucket[i + 1..]);
    HeadEndShows(bucket[j], bucket[i], bucket[..j] + bucket[j + 1..]);
    assert DateRanges(MergeBucket(a))[0].1 != DateRanges(MergeBucket(b))[0].1;
  }

  // ---------------------------------------------------------------- equal ends do not

  ghost predicate SameRanges(rows: seq<Employment>, other: seq<Employment>) {
    |rows| == |other| &&
    forall i :: 0 <= i < |rows| ==>
      rows[i].startDate == other[i].startDate && rows[i].endDate == other[i].endDate
  }

  lemma RangesEqual(rows: seq<Employment>, other: seq<Employment>)
    ensures SameRanges(rows, other) <==> DateRanges(rows) == DateRanges(other)
  {
    var a, b := DateRanges(rows), DateRanges(other);
    if a == b {
      forall i | 0 <= i < |rows|
        ensures rows[i].startDate == other[i].startDate && rows[i].endDate == other[i].endDate
      {
        assert a[i] == b[i];
      }
    }
  }

  lemma {:induction false} RangesDecideMerge(merged: seq<Employment>, other: seq<Employment>, rows: seq<Employment>)
    requires SameRanges(merged, other)
    ensures SameRanges(MergeAll(merged, rows), MergeAll(other, rows))
    decreases rows
  {
    if rows == [] {
    } else {
      RangesDecideMerge(MergeInto(merged, rows[0]), MergeInto(other, rows[0]), rows[1..]);
    }
  }

  /** A dated row that stands in for undated ones ending at `end` before rows from `start`. */
  function Bridge(start: int, end: Option<int>): Employment {
    BareRow(Some(start), if end.Some? && end.value < start then Some(start) else end)
  }

  /** Merging into an undated row within the gap is merging into its bridge. */
  lemma BridgeStandsIn(undated: Employment, first: Employment, rows: seq<Employment>)
    requires undated.startDate.None? && Dated(first)
    requires WithinMergeGap(undated.endDate, first.startDate)
    ensures SameRanges(
      MergeAll([undated], [first] + rows),
      MergeAll([Bridge(first.startDate.value, undated.endDate)], [first] + rows))
  {
    hide MergeAll;
    var bridge := Bridge(first.startDate.value, undated.endDate);
    MergeAllConcat([undated], [first], rows);
    MergeAllConcat([bridge], [first], rows);
    MergeAllOne([undated], first);
    MergeAllOne([bridge], first);
    RangesDecideMerge(MergeInto([undated], first), MergeInto([bridge], first), rows);
  }

  lemma MergeBeyondGap(undated: Employment, first: Employment, rows: seq<Employment>)
    requires !WithinMergeGap(undated.endDate, first.startDate)
    ensures MergeAll([undated], [first] + rows) == [undated] + MergeAll([], [first] + rows)
  {
    hide MergeAll;
    MergeAllConcat([undated], [first], rows);
    MergeAllConcat([], [first], rows);
    MergeAllOne([undated], first);
    MergeAllOne([], first);
    assert MergeInto([undated], first) == [undated] + [first] && MergeInto([], first) == [first];
    MergeAllBehind([undated], first, rows);
  }

  function Repeat(end: Option<int>, count: nat): (r: seq<(Option<int>, Option<int>)>)
    ensures |r| == count && forall i :: 0 <= i < count ==> r[i] == (None, end)
  {
    seq(count, _ => (None, end))
  }

  lemma RepeatedRanges(rows: seq<Employment>, end: Option<int>)
    requires forall i :: 0 <= i < |rows| ==> rows[i].startDate.None? && rows[i].endDate == end
    ensures DateRanges(rows) == Repeat(end, |rows|)
  {
    var ranges, repeated := DateRanges(rows), Repeat(end, |rows|);
    assert |ranges| == |repeated|;
    forall i | 0 <= i < |rows| ensures ranges[i] == repeated[i] {
    }
  }

  lemma FirstOpenOfUniform(rows: seq<Employment>, end: Option<int>)
    requires rows != [] && forall i :: 0 <= i < |rows| ==> rows[i].endDate == end
    ensures FirstOpen(rows) == if end.None? then 0 else |rows|
  {
    hide FirstOpen;
    var i := FirstOpen(rows);
    assert rows[0].endDate == end;
  }

  /** The merged undated rows, when they all end at `end`. */
  lemma UniformUndated(undated: seq<Employment>, end: Option<int>)
    requires undated != [] && AllUndated(undated)
    requires forall i :: 0 <= i < |undated| ==> undated[i].endDate == end
    ensures var merged := MergeAll([], undated);
      && |merged| == (if end.None? then 1 else |undated|)
      && DateRanges(merged) == Repeat(end, |merged|)
      && merged[|merged| - 1].startDate.None? && merged[|merged| - 1].endDate == end
      && DateRanges(merged[..|merged| - 1]) == Repeat(end, |merged| - 1)
  {
    hide MergeAll, FirstOpen, DateRanges, Repeat;
    UndatedMerge(undated);
    FirstOpenOfUniform(undated, end);
    var merged := MergeAll([], undated);
    forall i | 0 <= i < |merged| ensures merged[i].startDate.None? && merged[i].endDate == end {
      assert merged[i].endDate == undated[i].endDate;
    }
    RepeatedRanges(merged, end);
    RepeatedRanges(merged[..|merged| - 1], end);
  }

  lemma RangesConcat(a: seq<Employment>, b: seq<Employment>)
    ensures DateRanges(a + b) == DateRanges(a) + DateRanges(b)
  {
  }

  /** The ranges of a sorted bucket with `count` undated rows ending at `end`: the undated
      ones that stay, then the ranges of the dated rows with or without a bridge. */
  lemma RangesByParts(undated: seq<Employment>, dated: seq<Employment>, end: Option<int>)
    requires undated != [] && AllUndated(undated) && dated != [] && AllDated(dated)
    requires forall i :: 0 <= i < |undated| ==> undated[i].endDate == end
    ensures var start := dated[0].startDate.value;
      var stay := if end.None? then 1 else |undated|;
      DateRanges(MergeAll([], undated + dated)) ==
        if WithinMergeGap(end, Some(start))
        then Repeat(end, stay - 1) + DateRanges(MergeAll([Bridge(start, end)], dated))
        else Repeat(end, stay) + DateRanges(MergeAll([], dated))
  {
    hide MergeAll, WithinMergeGap, DateRanges, Repeat, AllUndated, SameRanges;
    var start := dated[0].startDate.value;
    var merged := MergeAll([], undated);
    UniformUndated(undated, end);
    var n := |merged| - 1;
    var front, current := merged[..n], merged[n];
    assert merged == front + [current] && dated == [dated[0]] + dated[1..];
    MergeAllConcat([], undated, dated);
    MergeAllBehind(front, current, dated);
    if WithinMergeGap(end, Some(start)) {
      RangesConcat(front, MergeAll([current], dated));
      BridgeStandsIn(current, dated[0], dated[1..]);
      RangesEqual(MergeAll([current], dated), MergeAll([Bridge(start, end)], dated));
    } else {
      MergeBeyondGap(current, dated[0], dated[1..]);
      assert front + ([current] + MergeAll([], dated)) == merged + MergeAll([], dated);
      RangesConcat(merged, MergeAll([], dated));
    }
  }

  lemma BridgeBucket(start: int, end: Option<int>, rows: seq<Employment>)
    requires forall i :: 0 <= i < |rows| ==> rows[i].startDate.Some? && start <= rows[i].startDate.value
    ensures MergeBucket([Bridge(start, end)] + rows) ==
            MergeAll([Bridge(start, end)], Sort(StartsBefore(), rows))
  {
    hide MergeAll, Sort;
    var bridge := Bridge(start, end);
    SortKeepsHead(bridge, rows);
    MergeAllConcat([], [bridge], Sort(StartsBefore(), rows));
    MergeAllOne([], bridge);
  }

  lemma ShuffledParts(rows: seq<Employment>, other: seq<Employment>, p: Employment -> bool)
    requires Shuffle(rows, other)
    ensures Shuffle(Filter(rows, p), Filter(other, p))
  {
    forall row ensures multiset(Filter(rows, p))[row] == multiset(Filter(other, p))[row] {
      FilterCounts(rows, p, row);
      FilterCounts(other, p, row);
    }
  }

  lemma {:induction false} FilterCounts<T>(xs: seq<T>, p: T -> bool, x: T)
    ensures multiset(Filter(xs, p))[x] == if p(x) then multiset(xs)[x] else 0
  {
    hide Filter;
    if xs == [] {
      FilterNone(xs, p);
    } else {
      FilterCounts(xs[1..], p, x);
      FilterStep(xs, p);
      assert xs == [xs[0]] + xs[1..];
    }
  }

  lemma PartsOfBucket(bucket: seq<Employment>)
    requires DatesInOrder(bucket)
    ensures var undated, dated := UndatedRows(bucket), Sort(StartsBefore(), DatedRows(bucket));
      && AllUndated(undated) && AllDated(DatedRows(bucket)) && AllDated(dated)
      && MergeBucket(bucket) == MergeAll([], undated + dated)
      && MergeBucket(DatedRows(bucket)) == MergeAll([], dated)
      && |dated| == |DatedRows(bucket)|
      && (forall i :: 0 <= i < |DatedRows(bucket)| ==>
            dated != [] && dated[0].startDate.value <= DatedRows(bucket)[i].startDate.value)
  {
    hide Sort, Filter, MergeAll;
    var rows := DatedRows(bucket);
    SortSplits(bucket);
    UndatedRowsAreUndated(bucket);
    forall i | 0 <= i < |rows| ensures Dated(rows[i]) {
      FilterMembers(bucket, HAS_START, rows[i]);
    }
    SortPermutes(StartsBefore(), rows);
    PermutedDated(rows, Sort(StartsBefore(), rows));
    FirstStarts(rows);
  }

  lemma FirstStarts(rows: seq<Employment>)
    requires AllDated(rows)
    ensures var sorted := Sort(StartsBefore(), rows);
      forall i :: 0 <= i < |rows| ==>
        sorted != [] && sorted[0].startDate.Some? && sorted[0].startDate.value <= rows[i].startDate.value
  {
    hide Sort;
    var sorted := Sort(StartsBefore(), rows);
    StartsBeforeOrders();
    SortSorts(StartsBefore(), rows);
    SortPermutes(StartsBefore(), rows);
    PermutedDated(rows, sorted);
    forall i | 0 <= i < |rows| ensures sorted[0].startDate.value <= rows[i].startDate.value {
      MembersOfPermutation(rows, sorted, rows[i]);
      var at :| 0 <= at < |sorted| && sorted[at] == rows[i];
      assert at > 0 ==> !StartsBefore()(sorted[at], sorted[0]);
    }
  }

  lemma SameFirstStart(rows: seq<Employment>, other: seq<Employment>)
    requires AllDated(rows) && AllDated(other) && Shuffle(rows, other) && rows != []
    ensures Sort(StartsBefore(), rows)[0].startDate == Sort(StartsBefore(), other)[0].startDate
  {
    hide Sort;
    var a, b := Sort(StartsBefore(), rows), Sort(StartsBefore(), other);
    FirstStarts(rows);
    FirstStarts(other);
    SortPermutes(StartsBefore(), rows);
    SortPermutes(StartsBefore(), other);
    MembersOfPermutation(a, other, a[0]);
    MembersOfPermutation(b, rows, b[0]);
  }

  /** The ranges of a bucket whose undated rows all end at `end`, from its dated rows and the
      number of the undated ones. */
  lemma RangesOfBucket(bucket: seq<Employment>, end: Option<int>)
    requires DatesInOrder(bucket) && UndatedRows(bucket) != [] && DatedRows(bucket) != []
    requires forall i :: 0 <= i < |UndatedRows(bucket)| ==> UndatedRows(bucket)[i].endDate == end
    ensures var dated := DatedRows(bucket);
      var start := Sort(StartsBefore(), dated)[0].startDate;
      var stay := if end.None? then 1 else |UndatedRows(bucket)|;
      && start.Some?
      && DateRanges(MergeBucket(bucket)) ==
         if WithinMergeGap(end, start)
         then Repeat(end, stay - 1) + DateRanges(MergeBucket([Bridge(start.value, end)] + dated))
         else Repeat(end, stay) + DateRanges(MergeBucket(dated))
  {
    hide Sort, Filter, MergeAll, MergeBucket, WithinMergeGap, DateRanges, Bridge;
    var undated, rows := UndatedRows(bucket), DatedRows(bucket);
    var dated := Sort(StartsBefore(), rows);
    PartsOfBucket(bucket);
    RangesByParts(undated, dated, end);
    BridgeBucket(dated[0].startDate.value, end, rows);
  }

  lemma BridgeIsDated(start: int, end: Option<int>, rows: seq<Employment>)
    requires AllDated(rows)
    ensures AllDated([Bridge(start, end)] + rows)
  {
  }

  lemma ShuffleBehind(head: Employment, rows: seq<Employment>, other: seq<Employment>)
    requires Shuffle(rows, other)
    ensures Shuffle([head] + rows, [head] + other)
  {
  }

  lemma UndatedEnd(bucket: seq<Employment>) returns (end: Option<int>)
    requires UndatedEndsAgree(bucket)
    ensures forall i :: 0 <= i < |UndatedRows(bucket)| ==> UndatedRows(bucket)[i].endDate == end
  {
    hide Filter;
    var undated := UndatedRows(bucket);
    end := if undated == [] then None else undated[0].endDate;
    forall i | 0 <= i < |undated| ensures undated[i].endDate == end {
      FilterMembers(bucket, HAS_NO_START, undated[i]);
      FilterMembers(bucket, HAS_NO_START, undated[0]);
    }
  }

  lemma ShuffledUndated(bucket: seq<Employment>, shuffled: seq<Employment>, end: Option<int>)
    requires Shuffle(UndatedRows(shuffled), UndatedRows(bucket))
    requires forall i :: 0 <= i < |UndatedRows(bucket)| ==> UndatedRows(bucket)[i].endDate == end
    ensures |UndatedRows(shuffled)| == |UndatedRows(bucket)|
    ensures forall i :: 0 <= i < |UndatedRows(shuffled)| ==> UndatedRows(shuffled)[i].endDate == end
  {
    hide Filter;
    var a, b := UndatedRows(shuffled), UndatedRows(bucket);
    assert |multiset(a)| == |a| && |multiset(b)| == |b|;
    forall i | 0 <= i < |a| ensures a[i].endDate == end {
      MembersOfPermutation(a, b, a[i]);
    }
  }

  lemma ShuffledDates(bucket: seq<Employment>, shuffled: seq<Employment>)
    requires DatesInOrder(bucket) && Shuffle(shuffled, bucket)
    ensures DatesInOrder(shuffled)
  {
    forall i | 0 <= i < |shuffled| && shuffled[i].startDate.Some? ensures Dated(shuffled[i]) {
      MembersOfPermutation(shuffled, bucket, shuffled[i]);
    }
  }

  lemma OnlyUndated(bucket: seq<Employment>, end: Option<int>)
    requires DatesInOrder(bucket) && DatedRows(bucket) == [] && UndatedRows(bucket) != []
    requires forall i :: 0 <= i < |UndatedRows(bucket)| ==> UndatedRows(bucket)[i].endDate == end
    ensures DateRanges(MergeBucket(bucket)) == Repeat(end, if end.None? then 1 else |UndatedRows(bucket)|)
  {
    hide Sort, Filter, MergeAll, DateRanges, MergeBucket;
    PartsOfBucket(bucket);
    UniformUndated(UndatedRows(bucket), end);
    assert UndatedRows(bucket) + [] == UndatedRows(bucket);
  }

  lemma OnlyDated(bucket: seq<Employment>)
    requires DatesInOrder(bucket) && UndatedRows(bucket) == []
    ensures MergeBucket(bucket) == MergeBucket(DatedRows(bucket))
  {
    hide Sort, Filter, MergeAll, MergeBucket;
    PartsOfBucket(bucket);
    assert [] + Sort(StartsBefore(), DatedRows(bucket)) == Sort(StartsBefore(), DatedRows(bucket));
  }

  lemma EqualEndsIgnoreOrder(bucket: seq<Employment>, shuffled: seq<Employment>)
    requires DatesInOrder(bucket) && UndatedEndsAgree(bucket) && Shuffle(shuffled, bucket)
    ensures DateRanges(MergeBucket(shuffled)) == DateRanges(MergeBucket(bucket))
  {
    hide Sort, Filter, MergeBucket, WithinMergeGap, DateRanges, Bridge, AllDated, UndatedRows, DatedRows, Shuffle;
    var end := UndatedEnd(bucket);
    var a, b := DatedRows(shuffled), DatedRows(bucket);
    ShuffledDates(bucket, shuffled);
    DatedParts(bucket, shuffled);
    ShuffledUndated(bucket, shuffled, end);
    PartsOfBucket(bucket);
    PartsOfBucket(shuffled);
    if UndatedRows(bucket) == [] {
      OnlyDated(bucket);
      OnlyDated(shuffled);
      RangesOfShuffle(a, b);
    } else if b == [] {
      OnlyUndated(bucket, end);
      OnlyUndated(shuffled, end);
    } else {
      RangesOfBucket(bucket, end);
      RangesOfBucket(shuffled, end);
      SameFirstStart(a, b);
      var start := Sort(StartsBefore(), b)[0].startDate.value;
      RangesOfShuffle(a, b);
      BridgeIsDated(start, end, a);
      BridgeIsDated(start, end, b);
      ShuffleBehind(Bridge(start, end), a, b);
      RangesOfShuffle([Bridge(start, end)] + a, [Bridge(start, end)] + b);
    }
  }

  lemma RangesOfShuffle(rows: seq<Employment>, other: seq<Employment>)
    requires AllDated(rows) && Shuffle(rows, other)
    ensures DateRanges(MergeBucket(rows)) == DateRanges(MergeBucket(other))
  {
    RangesIgnoreInputOrder(rows, other);
  }

  lemma DatedParts(bucket: seq<Employment>, shuffled: seq<Employment>)
    requires Shuffle(shuffled, bucket)
    ensures Shuffle(UndatedRows(shuffled), UndatedRows(bucket))
    ensures Shuffle(DatedRows(shuffled), DatedRows(bucket))
    ensures |DatedRows(shuffled)| == |DatedRows(bucket)|
  {
    hide Filter;
    ShuffledParts(shuffled, bucket, HAS_NO_START);
    ShuffledParts(shuffled, bucket, HAS_START);
    assert |multiset(DatedRows(shuffled))| == |DatedRows(shuffled)|;
    assert |multiset(DatedRows(bucket))| == |DatedRows(bucket)|;
  }

  /** The merged date ranges of a firm are the same for every order of its rows exactly when
      all rows without a start date agree on their end date. */
  lemma RangesIgnoreOrderIff(bucket: seq<Employment>)
    requires DatesInOrder(bucket)
    ensures RangesIgnoreOrder(bucket) <==> UndatedEndsAgree(bucket)
  {
    hide MergeBucket, DateRanges, Shuffle;
    if UndatedEndsAgree(bucket) {
      forall shuffled | Shuffle(shuffled, bucket)
        ensures DateRanges(MergeBucket(shuffled)) == DateRanges(MergeBucket(bucket))
      {
        EqualEndsIgnoreOrder(bucket, shuffled);
      }
    } else {
      var i: nat, j: nat :| i < |bucket| && j < |bucket| && bucket[i].startDate.None? &&
        bucket[j].startDate.None? && bucket[i].endDate != bucket[j].endDate;
      DifferentEndsShow(bucket, i, j);
    }
  }

  // ---------------------------------------------------------------- the whole dedupe

  ghost predicate DedupeIgnoresOrder(rows: seq<Employment>, key: string) {
    forall shuffled :: Shuffle(shuffled, rows) ==>
      DateRanges(Bucket(DedupeEmployments(shuffled), key)) == DateRanges(Bucket(DedupeEmployments(rows), key))
  }

  lemma ShuffledBucket(rows: seq<Employment>, shuffled: seq<Employment>, key: string)
    requires Shuffle(shuffled, rows)
    ensures Shuffle(Bucket(shuffled, key), Bucket(rows, key))
  {
    ShuffledParts(shuffled, rows, OfFirm(key));
  }

  /** A shuffle of one firm's rows extends to a shuffle of all. */
  lemma ExtendShuffle(rows: seq<Employment>, key: string, bucket: seq<Employment>) returns (all: seq<Employment>)
    requires Shuffle(bucket, Bucket(rows, key))
    ensures Shuffle(all, rows) && Bucket(all, key) == bucket
  {
    hide Filter;
    var ofFirm, ofOthers := OfFirm(key), (row: Employment) => EmploymentKey(row) != key;
    var others := Filter(rows, ofOthers);
    all := bucket + others;
    forall row ensures multiset(all)[row] == multiset(rows)[row] {
      FilterCounts(rows, ofFirm, row);
      FilterCounts(rows, ofOthers, row);
      assert multiset(bucket)[row] == multiset(Bucket(rows, key))[row];
    }
    forall i | 0 <= i < |bucket| ensures ofFirm(bucket[i]) {
      MembersOfPermutation(bucket, Bucket(rows, key), bucket[i]);
      FilterMembers(rows, ofFirm, bucket[i]);
    }
    forall i | 0 <= i < |others| ensures !ofFirm(others[i]) {
      FilterMembers(rows, ofOthers, others[i]);
    }
    FilterAll(bucket, ofFirm);
    FilterNone(others, ofFirm);
    FilterConcat(bucket, others, ofFirm);
  }

  lemma BucketDates(rows: seq<Employment>, key: string)
    requires DatesInOrder(rows)
    ensures DatesInOrder(Bucket(rows, key))
  {
    hide Filter;
    var bucket := Bucket(rows, key);
    forall i | 0 <= i < |bucket| && bucket[i].startDate.Some? ensures Dated(bucket[i]) {
      FilterMembers(rows, OfFirm(key), bucket[i]);
    }
  }

  /** A firm's date ranges after the whole dedupe are the same for every order of the input
      exactly when the firm's rows without a start date agree on their end date. */
  lemma DedupeIgnoresOrderIff(rows: seq<Employment>, key: string)
    requires DatesInOrder(rows)
    ensures DedupeIgnoresOrder(rows, key) <==> UndatedEndsAgree(Bucket(rows, key))
  {
    hide Shuffle, Bucket, DedupeEmployments, MergeBucket, DateRanges, UndatedEndsAgree, DatesInOrder;
    var bucket := Bucket(rows, key);
    DedupeByFirm(rows);
    BucketDates(rows, key);
    RangesIgnoreOrderIff(bucket);
    if RangesIgnoreOrder(bucket) {
      forall shuffled | Shuffle(shuffled, rows)
        ensures DateRanges(Bucket(DedupeEmployments(shuffled), key)) ==
                DateRanges(Bucket(DedupeEmployments(rows), key))
      {
        ShuffledBucket(rows, shuffled, key);
        DedupeByFirm(shuffled);
      }
    } else {
      var other :| Shuffle(other, bucket) && DateRanges(MergeBucket(other)) != DateRanges(MergeBucket(bucket));
      var all := ExtendShuffle(rows, key, other);
      DedupeByFirm(all);
    }
  }
}
