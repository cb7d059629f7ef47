/** Laws of the whole employment dedupe (src/lib/brokercheck-employment.ts): which days the
    merged rows cover, independence from input order, idempotence and firm order. */
module EmploymentDedupe {
  import opened Sequences
  import opened StableSort
  import opened EmploymentMerge

  // ---------------------------------------------------------------- covered days

  /** The row reaches from `day` to the next one, counting the merge gap as its tail. */
  ghost predicate Covers(row: Employment, day: int) {
    row.startDate.Some? && row.startDate.value <= day &&
    (row.endDate.Some? ==> day < row.endDate.value + EMPLOYMENT_MERGE_GAP_DAYS)
  }

  ghost predicate Covered(rows: seq<Employment>, day: int) {
    exists i :: 0 <= i < |rows| && Covers(rows[i], day)
  }

  lemma FrontIsLinked(group: seq<Employment>)
    requires |group| > 1 && GroupIsLinked(group)
    ensures GroupIsLinked(group[..|group| - 1])
  {
    hide Linked, Dated;
    var front := group[..|group| - 1];
    forall k | 1 <= k < |front| ensures LinkedBack(front, k) {
      assert LinkedBack(group, k);
      var m :| 0 <= m < k && Linked(group[m], group[k]);
      assert Linked(front[m], front[k]);
    }
  }

  /** Of two merged rows, the second covers what the first does not, when a row within the
      first is at most the gap away. */
  lemma LastPairCovers(merged: Employment, link: Employment, row: Employment, day: int)
    requires Dated(merged) && Dated(row) && link.startDate.Some? && Linked(link, row)
    requires merged.startDate.value <= link.startDate.value && EndsBy(link.endDate, merged.endDate)
    requires Covers(MergeRows(merged, row), day) && !Covers(merged, day)
    ensures Covers(row, day)
  {
    if day < merged.startDate.value {
      assert row.startDate.value <= day;
      assert row.endDate.Some? ==> day < row.endDate.value + EMPLOYMENT_MERGE_GAP_DAYS;
    } else {
      assert merged.endDate.Some? && merged.endDate.value + EMPLOYMENT_MERGE_GAP_DAYS <= day;
      assert row.startDate.value <= link.endDate.value + EMPLOYMENT_MERGE_GAP_DAYS;
    }
  }

  /** A day only the last row's merge brings is covered by that row. */
  lemma LastRowCovers(group: seq<Employment>, day: int)
    requires |group| > 1 && GroupIsLinked(group) && Covers(MergedRow(group), day)
    requires !Covers(MergedRow(group[..|group| - 1]), day)
    ensures Covers(group[|group| - 1], day)
  {
    hide MergedRow, Spans, GroupIsLinked;
    var n := |group| - 1;
    var front, row := group[..n], group[n];
    FrontIsLinked(group);
    LinkToFront(group);
    var m :| 0 <= m < n && Linked(group[m], row);
    LinkedEnds(front);
    assert front[m] == group[m];
    MergedRowAppend(front, row);
    assert front + [row] == group;
    LastPairCovers(MergedRow(front), group[m], row, day);
  }

  lemma LinkToFront(group: seq<Employment>)
    requires |group| > 1 && GroupIsLinked(group)
    ensures exists m :: 0 <= m < |group| - 1 && Linked(group[m], group[|group| - 1])
    ensures Dated(group[|group| - 1])
  {
    hide Linked;
    assert LinkedBack(group, |group| - 1);
  }

  lemma LinkedEnds(group: seq<Employment>)
    requires GroupIsLinked(group)
    ensures Dated(MergedRow(group))
    ensures forall i :: 0 <= i < |group| ==>
      && Dated(group[i]) && MergedRow(group).startDate.value <= group[i].startDate.value
      && EndsBy(group[i].endDate, MergedRow(group).endDate)
  {
    MergedRowSpans(group);
    SpanIsDated(MergedRow(group), group);
  }

  lemma {:induction false} GroupCovers(group: seq<Employment>, day: int)
    requires GroupIsLinked(group) && Covers(MergedRow(group), day)
    ensures Covered(group, day)
  {
    hide MergedRow;
    var n := |group| - 1;
    if n == 0 {
      MergedRowOfOne(group[0]);
      assert group == [group[0]];
      assert Covers(group[0], day);
    } else if Covers(MergedRow(group[..n]), day) {
      FrontIsLinked(group);
      GroupCovers(group[..n], day);
      var i :| 0 <= i < n && Covers(group[..n][i], day);
      assert Covers(group[i], day);
    } else {
      LastRowCovers(group, day);
    }
  }

  lemma CoveredByMerged(bucket: seq<Employment>, day: int)
    requires AllDated(bucket) && Covered(bucket, day)
    ensures Covered(MergeBucket(bucket), day)
  {
    hide GroupsOf, MergeBucket, AllDated;
    MergedRowsSpanComponents(bucket);
    var i :| 0 <= i < |bucket| && Covers(bucket[i], day);
    EveryRowIsMerged(bucket, bucket[i]);
    var g: nat :| InGroup(GroupsOf(bucket), g, bucket[i]);
    assert Spans(MergeBucket(bucket)[g], GroupsOf(bucket)[g]);
    assert Covers(MergeBucket(bucket)[g], day);
  }

  lemma CoveredBySource(bucket: seq<Employment>, day: int)
    requires AllDated(bucket) && Covered(MergeBucket(bucket), day)
    ensures Covered(bucket, day)
  {
    hide GroupsOf, MergeBucket, MergedRow, GroupIsLinked, Flatten, AllDated, Covers;
    BucketComponents(bucket);
    var groups, merged := GroupsOf(bucket), MergeBucket(bucket);
    var g :| 0 <= g < |merged| && Covers(merged[g], day);
    GroupCovers(groups[g], day);
    var i :| 0 <= i < |groups[g]| && Covers(groups[g][i], day);
    assert InGroup(groups, g, groups[g][i]);
    GroupRowsAreRows(groups, g, groups[g][i]);
    MembersOfPermutation(Flatten(groups), bucket, groups[g][i]);
  }

  /** Merging neither adds nor loses a covered day. */
  lemma MergeConservesDays(bucket: seq<Employment>, day: int)
    requires AllDated(bucket)
    ensures Covered(MergeBucket(bucket), day) <==> Covered(bucket, day)
  {
    if Covered(bucket, day) {
      CoveredByMerged(bucket, day);
    }
    if Covered(MergeBucket(bucket), day) {
      CoveredBySource(bucket, day);
    }
  }

  ghost predicate Separated(rows: seq<Employment>) {
    AllDated(rows) && forall g, h :: 0 <= g < h < |rows| ==> Apart(rows[g], rows[h])
  }

  ghost predicate SameDays(rows: seq<Employment>, other: seq<Employment>) {
    forall day :: Covered(rows, day) <==> Covered(other, day)
  }

  function DateRanges(rows: seq<Employment>): seq<(Option<int>, Option<int>)> {
    Map(rows, (r: Employment) => (r.startDate, r.endDate))
  }

  lemma FirstDayCovered(rows: seq<Employment>)
    requires Separated(rows) && rows != []
    ensures Covered(rows, rows[0].startDate.value)
    ensures forall day :: Covered(rows, day) ==> rows[0].startDate.value <= day
  {
    assert Covers(rows[0], rows[0].startDate.value);
    forall day | Covered(rows, day) ensures rows[0].startDate.value <= day {
      var i :| 0 <= i < |rows| && Covers(rows[i], day);
      assert i > 0 ==> Apart(rows[0], rows[i]);
    }
  }

  lemma GapDay(rows: seq<Employment>)
    requires Separated(rows) && rows != [] && rows[0].endDate.Some?
    ensures !Covered(rows, rows[0].endDate.value + EMPLOYMENT_MERGE_GAP_DAYS)
  {
    var day := rows[0].endDate.value + EMPLOYMENT_MERGE_GAP_DAYS;
    forall i | 0 <= i < |rows| ensures !Covers(rows[i], day) {
      assert i > 0 ==> Apart(rows[0], rows[i]);
    }
  }

  lemma FirstEndNotAfter(rows: seq<Employment>, other: seq<Employment>)
    requires Separated(rows) && Separated(other) && rows != [] && other != []
    requires SameDays(rows, other) && rows[0].startDate == other[0].startDate
    ensures EndsBy(other[0].endDate, rows[0].endDate)
  {
    if rows[0].endDate.Some? {
      var day := rows[0].endDate.value + EMPLOYMENT_MERGE_GAP_DAYS;
      GapDay(rows);
      assert !Covered(other, day);
      assert !Covers(other[0], day);
    }
  }

  lemma TailDays(rows: seq<Employment>, day: int)
    requires Separated(rows) && rows != []
    ensures Covered(rows[1..], day) <==> Covered(rows, day) && !Covers(rows[0], day)
  {
    if Covered(rows[1..], day) {
      var i :| 0 <= i < |rows[1..]| && Covers(rows[1..][i], day);
      assert Covers(rows[i + 1], day) && Apart(rows[0], rows[i + 1]);
    }
    if Covered(rows, day) && !Covers(rows[0], day) {
      var i :| 0 <= i < |rows| && Covers(rows[i], day);
      assert rows[1..][i - 1] == rows[i];
    }
  }

  /** Ranges more than 90 days apart are decided by the days they cover. */
  lemma {:induction false} DaysDecideRanges(rows: seq<Employment>, other: seq<Employment>)
    requires Separated(rows) && Separated(other) && SameDays(rows, other)
    ensures DateRanges(rows) == DateRanges(other)
  {
    if rows == [] || other == [] {
      if rows + other != [] {
        FirstDayCovered(if rows == [] then other else rows);
      }
    } else {
      FirstDayCovered(rows);
      FirstDayCovered(other);
      assert rows[0].startDate == other[0].startDate;
      FirstEndNotAfter(rows, other);
      FirstEndNotAfter(other, rows);
      assert rows[0].endDate == other[0].endDate;
      forall day ensures Covered(rows[1..], day) <==> Covered(other[1..], day) {
        TailDays(rows, day);
        TailDays(other, day);
      }
      DaysDecideRanges(rows[1..], other[1..]);
      var a, b := DateRanges(rows[1..]), DateRanges(other[1..]);
      assert forall i :: 1 <= i < |rows| ==> DateRanges(rows)[i] == a[i - 1];
      assert forall i :: 1 <= i < |other| ==> DateRanges(other)[i] == b[i - 1];
    }
  }

  /** The date ranges of a firm's merged rows do not depend on the order of its rows. */
  lemma RangesIgnoreInputOrder(bucket: seq<Employment>, shuffled: seq<Employment>)
    requires AllDated(bucket) && multiset(bucket) == multiset(shuffled)
    ensures DateRanges(MergeBucket(bucket)) == DateRanges(MergeBucket(shuffled))
  {
    hide MergeBucket, DateRanges;
    PermutedDated(bucket, shuffled);
    MergedRowsSpanComponents(bucket);
    MergedRowsSpanComponents(shuffled);
    forall day ensures Covered(MergeBucket(bucket), day) <==> Covered(MergeBucket(shuffled), day) {
      MergeConservesDays(bucket, day);
      MergeConservesDays(shuffled, day);
      ShuffledDays(bucket, shuffled, day);
    }
    DaysDecideRanges(MergeBucket(bucket), MergeBucket(shuffled));
  }

  lemma ShuffledDays(bucket: seq<Employment>, shuffled: seq<Employment>, day: int)
    requires multiset(bucket) == multiset(shuffled)
    ensures Covered(bucket, day) <==> Covered(shuffled, day)
  {
    if Covered(bucket, day) {
      var i :| 0 <= i < |bucket| && Covers(bucket[i], day);
      MembersOfPermutation(bucket, shuffled, bucket[i]);
    }
    if Covered(shuffled, day) {
      var i :| 0 <= i < |shuffled| && Covers(shuffled[i], day);
      MembersOfPermutation(shuffled, bucket, shuffled[i]);
    }
  }

  // ---------------------------------------------------------------- idempotence

  /** No row would be merged into the one before it. */
  ghost predicate Settled(rows: seq<Employment>) {
    forall i :: 0 <= i < |rows| - 1 ==> !WithinMergeGap(rows[i].endDate, rows[i + 1].startDate)
  }

  lemma {:induction false} MergeSettled(merged: seq<Employment>, rows: seq<Employment>)
    requires Settled(merged + rows)
    ensures MergeAll(merged, rows) == merged + rows
    decreases rows
  {
    hide WithinMergeGap, MergeRows;
    if rows == [] {
      assert merged + rows == merged;
    } else {
      if merged != [] {
        var all := merged + rows;
        assert !WithinMergeGap(all[|merged| - 1].endDate, all[|merged| - 1 + 1].startDate);
      }
      assert merged + [rows[0]] + rows[1..] == merged + rows;
      assert MergeInto(merged, rows[0]) == merged + [rows[0]];
      MergeSettled(merged + [rows[0]], rows[1..]);
    }
  }

  /** A mergeable pair shortens the list. */
  lemma {:induction false} MergeUnsettled(merged: seq<Employment>, rows: seq<Employment>, i: nat)
    requires |merged| <= i + 1 < |merged + rows|
    requires WithinMergeGap((merged + rows)[i].endDate, (merged + rows)[i + 1].startDate)
    ensures |MergeAll(merged, rows)| < |merged| + |rows|
    decreases rows
  {
    hide WithinMergeGap, MergeRows;
    var next := MergeInto(merged, rows[0]);
    if |next| == |merged| + 1 {
      assert next == merged + [rows[0]];
      assert next + rows[1..] == merged + rows;
      if i + 1 == |merged| {
        assert false;
      } else {
        MergeUnsettled(next, rows[1..], i);
      }
    }
  }

  lemma UnsettledShrinks(rows: seq<Employment>)
    requires !Settled(rows)
    ensures |MergeAll([], rows)| < |rows|
  {
    hide WithinMergeGap, MergeAll;
    var i :| 0 <= i < |rows| - 1 && WithinMergeGap(rows[i].endDate, rows[i + 1].startDate);
    assert [] + rows == rows;
    MergeUnsettled([], rows, i);
  }

  lemma SettledIsUnchanged(rows: seq<Employment>)
    requires Settled(rows)
    ensures MergeAll([], rows) == rows
  {
    hide Settled, MergeAll;
    assert [] + rows == rows;
    MergeSettled([], rows);
  }

  lemma SettledIffUnchanged(rows: seq<Employment>)
    ensures MergeAll([], rows) == rows <==> Settled(rows)
  {
    hide Settled, MergeAll;
    if Settled(rows) {
      SettledIsUnchanged(rows);
    } else {
      UnsettledShrinks(rows);
    }
  }

  /** The rows without a start date; the sort puts them first. */
  function UndatedCount(rows: seq<Employment>): (k: nat)
    ensures k <= |rows|
    ensures forall i :: 0 <= i < k ==> rows[i].startDate.None?
    ensures k < |rows| ==> rows[k].startDate.Some?
  {
    if rows == [] || rows[0].startDate.Some? then 0 else 1 + UndatedCount(rows[1..])
  }

  lemma {:induction false} MergeAllConcat(merged: seq<Employment>, rows: seq<Employment>, more: seq<Employment>)
    ensures MergeAll(merged, rows + more) == MergeAll(MergeAll(merged, rows), more)
    decreases rows
  {
    hide MergeInto;
    if rows == [] {
      assert rows + more == more;
    } else {
      assert (rows + more)[1..] == rows[1..] + more;
      MergeAllConcat(MergeInto(merged, rows[0]), rows[1..], more);
    }
  }

  ghost predicate AllUndated(rows: seq<Employment>) {
    forall i :: 0 <= i < |rows| ==> rows[i].startDate.None?
  }

  lemma {:induction false} UndatedMergeSettles(merged: seq<Employment>, rows: seq<Employment>)
    requires AllUndated(rows) && AllUndated(merged) && Settled(merged)
    ensures AllUndated(MergeAll(merged, rows)) && Settled(MergeAll(merged, rows))
    decreases rows
  {
    if rows == [] {
    } else {
      UndatedMergeSettles(MergeInto(merged, rows[0]), rows[1..]);
    }
  }

  /** Start dates from `day` on, in order. */
  ghost predicate StartsFollow(rows: seq<Employment>, day: int) {
    StartsFrom(rows, day) &&
    forall i, j :: 0 <= i < j < |rows| ==> rows[i].startDate.value <= rows[j].startDate.value
  }

  /** Once the last merged row has a start date, later rows change neither that date nor
      anything before it. */
  lemma {:induction false} DatedTailKeepsFront(merged: seq<Employment>, rows: seq<Employment>, day: int)
    requires merged != [] && merged[|merged| - 1].startDate == Some(day) && StartsFollow(rows, day)
    ensures var all := MergeAll(merged, rows);
      && all[..|merged| - 1] == merged[..|merged| - 1]
      && all[|merged| - 1].startDate == Some(day)
    decreases rows
  {
    hide WithinMergeGap;
    if rows == [] {
    } else {
      var n := |merged| - 1;
      var next := MergeInto(merged, rows[0]);
      if WithinMergeGap(merged[n].endDate, rows[0].startDate) {
        DatedTailKeepsFront(next, rows[1..], day);
      } else {
        DatedTailKeepsFront(next, rows[1..], rows[0].startDate.value);
        var all := MergeAll(merged, rows);
        assert all[..n + 1] == merged;
        assert all[..n] == all[..n + 1][..n];
        assert all[n] == all[..n + 1][n];
      }
    }
  }

  lemma {:induction false} DatedTailSettles(merged: seq<Employment>, rows: seq<Employment>, day: int)
    requires merged != [] && merged[|merged| - 1].startDate == Some(day) && StartsFollow(rows, day)
    requires Sorted(StartsBefore(), merged)
    ensures Sorted(StartsBefore(), MergeAll(merged, rows))
    ensures Settled(merged) ==> Settled(MergeAll(merged, rows))
    decreases rows
  {
    hide WithinMergeGap, MergeRows, Settled;
    if rows == [] {
    } else {
      var row := rows[0];
      DatedStep(merged, row, day);
      var next := MergeInto(merged, row);
      DatedTailSettles(next, rows[1..], next[|next| - 1].startDate.value);
    }
  }

  lemma DatedStep(merged: seq<Employment>, row: Employment, day: int)
    requires merged != [] && merged[|merged| - 1].startDate == Some(day)
    requires Sorted(StartsBefore(), merged) && row.startDate.Some? && day <= row.startDate.value
    ensures var next := MergeInto(merged, row);
      && next[|next| - 1].startDate.Some?
      && day <= next[|next| - 1].startDate.value <= row.startDate.value
      && Sorted(StartsBefore(), next)
      && (Settled(merged) ==> Settled(next))
  {
    hide WithinMergeGap;
    var n := |merged| - 1;
    var next := MergeInto(merged, row);
    if WithinMergeGap(merged[n].endDate, row.startDate) {
      assert next[n] == MergeRows(merged[n], row) && next[..n] == merged[..n];
      SettledFromStarts(merged, next);
      SortedFromStarts(merged, next);
    } else {
      assert next == merged + [row];
      forall i | 0 <= i < |merged| ensures !StartsBefore()(row, merged[i]) {
        assert i < n ==> !StartsBefore()(merged[n], merged[i]);
      }
    }
  }

  lemma DatedTailSettledIff(merged: seq<Employment>, rows: seq<Employment>, day: int)
    requires merged != [] && merged[|merged| - 1].startDate == Some(day) && StartsFollow(rows, day)
    requires Sorted(StartsBefore(), merged)
    ensures Sorted(StartsBefore(), MergeAll(merged, rows))
    ensures Settled(MergeAll(merged, rows)) <==> Settled(merged)
  {
    hide WithinMergeGap, MergeAll, Sorted;
    DatedTailSettles(merged, rows, day);
    DatedTailKeepsFront(merged, rows, day);
    var all := MergeAll(merged, rows);
    if Settled(all) {
      SettledPrefix(all, |merged|);
      SettledFromStarts(all[..|merged|], merged);
    }
  }

  lemma SettledPrefix(rows: seq<Employment>, n: nat)
    requires Settled(rows) && 0 < n <= |rows|
    ensures Settled(rows[..n]) && rows[..n][..n - 1] == rows[..n - 1]
  {
    hide WithinMergeGap;
  }

  /** Settledness only looks at ends before, and starts up to, the last row. */
  lemma SettledFromStarts(rows: seq<Employment>, other: seq<Employment>)
    requires |rows| == |other| > 0 && rows[..|rows| - 1] == other[..|rows| - 1]
    requires rows[|rows| - 1].startDate == other[|rows| - 1].startDate
    ensures Settled(rows) <==> Settled(other)
  {
    hide WithinMergeGap;
    var n := |rows| - 1;
    assert forall i :: 0 <= i < n ==> rows[i] == rows[..n][i] && other[i] == other[..n][i];
  }

  lemma SortedFromStarts(rows: seq<Employment>, other: seq<Employment>)
    requires |rows| == |other| > 0 && rows[..|rows| - 1] == other[..|rows| - 1]
    requires rows[|rows| - 1].startDate == other[|rows| - 1].startDate
    ensures Sorted(StartsBefore(), rows) <==> Sorted(StartsBefore(), other)
  {
    var n := |rows| - 1;
    assert forall i :: 0 <= i < n ==> rows[i] == rows[..n][i] && other[i] == other[..n][i];
  }

  const HAS_NO_START: Employment -> bool := (row: Employment) => row.startDate.None?

  const HAS_START: Employment -> bool := (row: Employment) => row.startDate.Some?

  /** The rows without a start date, in input order, and the others. */
  function UndatedRows(rows: seq<Employment>): seq<Employment> {
    Filter(rows, HAS_NO_START)
  }

  function DatedRows(rows: seq<Employment>): seq<Employment> {
    Filter(rows, HAS_START)
  }

  lemma StartsBeforeOrders()
    ensures StrictWeakOrder(StartsBefore())
  {
  }

  lemma RowsByStartCons(rows: seq<Employment>)
    requires rows != []
    ensures UndatedRows(rows) == (if rows[0].startDate.None? then [rows[0]] else []) + UndatedRows(rows[1..])
    ensures DatedRows(rows) == (if rows[0].startDate.Some? then [rows[0]] else []) + DatedRows(rows[1..])
  {
  }

  lemma DatedFromHere(sorted: seq<Employment>)
    requires sorted != [] && Sorted(StartsBefore(), sorted) && sorted[0].startDate.Some?
    ensures UndatedRows(sorted) == [] && DatedRows(sorted) == sorted
  {
    hide Filter;
    forall i | 0 <= i < |sorted| ensures HAS_START(sorted[i]) {
      assert i > 0 ==> !StartsBefore()(sorted[i], sorted[0]);
    }
    FilterAll(sorted, HAS_START);
    FilterNone(sorted, HAS_NO_START);
  }

  lemma SortedTail(sorted: seq<Employment>)
    requires sorted != [] && Sorted(StartsBefore(), sorted)
    ensures Sorted(StartsBefore(), sorted[1..])
  {
  }

  lemma NoRowsByStart()
    ensures UndatedRows([]) == [] == DatedRows([])
  {
  }

  lemma {:induction false} SplitByStart(sorted: seq<Employment>)
    requires Sorted(StartsBefore(), sorted)
    ensures sorted == UndatedRows(sorted) + DatedRows(sorted)
    ensures |UndatedRows(sorted)| == UndatedCount(sorted)
  {
    hide Filter, Sorted, UndatedRows, DatedRows;
    if sorted == [] {
      NoRowsByStart();
    } else if sorted[0].startDate.Some? {
      DatedFromHere(sorted);
    } else {
      SortedTail(sorted);
      RowsByStartCons(sorted);
      SplitByStart(sorted[1..]);
    }
  }

  /** The sort puts the undated rows first, in input order. */
  lemma SortSplits(bucket: seq<Employment>)
    ensures Sort(StartsBefore(), bucket) ==
      UndatedRows(bucket) + Sort(StartsBefore(), DatedRows(bucket))
    ensures UndatedCount(Sort(StartsBefore(), bucket)) == |UndatedRows(bucket)|
  {
    hide Sort, Filter;
    var less := StartsBefore();
    StartsBeforeOrders();
    SortSorts(less, bucket);
    SplitByStart(Sort(less, bucket));
    SortOfFilter(less, bucket, HAS_NO_START);
    SortOfFilter(less, bucket, HAS_START);
    var undated := UndatedRows(bucket);
    forall i | 0 <= i < |undated| ensures undated[i].startDate.None? {
      FilterMembers(bucket, HAS_NO_START, undated[i]);
    }
    SortOfSorted(less, undated);
  }

  /** Place of the first row without an end date; the length when there is none. */
  function FirstOpen(rows: seq<Employment>): (i: nat)
    ensures i <= |rows|
    ensures i < |rows| ==> rows[i].endDate.None?
    ensures forall j :: 0 <= j < i ==> rows[j].endDate.Some?
  {
    if rows == [] || rows[0].endDate.None? then 0 else 1 + FirstOpen(rows[1..])
  }

  lemma {:induction false} OpenAbsorbsUndated(merged: seq<Employment>, rows: seq<Employment>)
    requires merged != [] && merged[|merged| - 1].endDate.None? && AllUndated(rows)
    requires merged[|merged| - 1].startDate.None?
    ensures var all := MergeAll(merged, rows);
      && |all| == |merged| && all[..|merged| - 1] == merged[..|merged| - 1]
      && all[|merged| - 1].endDate.None? && all[|merged| - 1].startDate.None?
    decreases rows
  {
    if rows == [] {
    } else {
      OpenAbsorbsUndated(MergeInto(merged, rows[0]), rows[1..]);
    }
  }

  lemma ClosedUndatedStay(undated: seq<Employment>)
    requires AllUndated(undated)
    requires forall i :: 0 <= i < |undated| - 1 ==> undated[i].endDate.Some?
    ensures MergeAll([], undated) == undated
  {
    hide MergeAll;
    SettledIsUnchanged(undated);
  }

  /** Undated rows stay apart up to the first open one, which takes in the rest. */
  lemma UndatedMerge(undated: seq<Employment>)
    requires AllUndated(undated)
    ensures var merged := MergeAll([], undated);
      && |merged| == Min(FirstOpen(undated) + 1, |undated|)
      && AllUndated(merged)
      && forall i :: 0 <= i < |merged| ==> merged[i].endDate == undated[i].endDate
  {
    hide MergeAll, FirstOpen;
    var i := FirstOpen(undated);
    if i == |undated| {
      ClosedUndatedStay(undated);
    } else {
      var front := undated[..i + 1];
      assert undated == front + undated[i + 1..];
      MergeAllConcat([], front, undated[i + 1..]);
      ClosedUndatedStay(front);
      OpenAbsorbsUndated(front, undated[i + 1..]);
      var merged := MergeAll([], undated);
      assert forall k :: 0 <= k < i ==> merged[k] == merged[..i][k] == front[..i][k] == undated[k];
    }
  }

  /** The rows a second pass merges, read off the bucket: closed undated rows up to the first
      open one stand before a dated row within the gap of the last two of them. */
  ghost predicate Swallows(bucket: seq<Employment>) {
    var undated := UndatedRows(bucket);
    var last := Min(FirstOpen(undated), |undated| - 1);
    last >= 1 &&
    exists i :: 0 <= i < |bucket| && bucket[i].startDate.Some? &&
      WithinMergeGap(undated[last].endDate, bucket[i].startDate) &&
      WithinMergeGap(undated[last - 1].endDate, bucket[i].startDate)
  }

  /** The same in terms of the fold: the last undated row takes in the first dated one, and
      the undated row before it then lies within the gap of that date. */
  ghost predicate FoldSwallows(bucket: seq<Employment>) {
    var sorted := Sort(StartsBefore(), bucket);
    var k := UndatedCount(sorted);
    var undated := MergeAll([], sorted[..k]);
    && k < |sorted| && |undated| >= 2
    && WithinMergeGap(undated[|undated| - 1].endDate, sorted[k].startDate)
    && WithinMergeGap(undated[|undated| - 2].endDate, sorted[k].startDate)
  }

  lemma GapGrows(end: Option<int>, near: Option<int>, far: Option<int>)
    requires near.Some? && far.Some? && near.value <= far.value && WithinMergeGap(end, far)
    ensures WithinMergeGap(end, near)
  {
  }

  lemma UndatedRowsAreUndated(bucket: seq<Employment>)
    ensures AllUndated(UndatedRows(bucket))
  {
    var undated := UndatedRows(bucket);
    forall i | 0 <= i < |undated| ensures undated[i].startDate.None? {
      FilterMembers(bucket, HAS_NO_START, undated[i]);
    }
  }

  lemma FoldSwallowsInParts(bucket: seq<Employment>)
    ensures var sorted := Sort(StartsBefore(), bucket);
      var undated := UndatedRows(bucket);
      var last := Min(FirstOpen(undated), |undated| - 1);
      FoldSwallows(bucket) <==>
        |undated| < |sorted| && last >= 1
        && WithinMergeGap(undated[last].endDate, sorted[|undated|].startDate)
        && WithinMergeGap(undated[last - 1].endDate, sorted[|undated|].startDate)
  {
    hide Sort, MergeAll, Filter, WithinMergeGap, FirstOpen, UndatedCount;
    var sorted := Sort(StartsBefore(), bucket);
    var undated := UndatedRows(bucket);
    SortSplits(bucket);
    assert sorted[..|undated|] == undated;
    UndatedRowsAreUndated(bucket);
    UndatedMerge(undated);
  }

  /** The first dated row of the sorted bucket starts no later than any other. */
  lemma EarliestDated(bucket: seq<Employment>, i: nat)
    requires i < |bucket| && bucket[i].startDate.Some?
    ensures var sorted := Sort(StartsBefore(), bucket);
      var k := |UndatedRows(bucket)|;
      k < |sorted| && sorted[k].startDate.Some? && sorted[k].startDate.value <= bucket[i].startDate.value
  {
    hide Sort, Filter;
    var sorted := Sort(StartsBefore(), bucket);
    SortSplits(bucket);
    SortPermutes(StartsBefore(), bucket);
    StartsBeforeOrders();
    SortSorts(StartsBefore(), bucket);
    MembersOfPermutation(bucket, sorted, bucket[i]);
    var at :| 0 <= at < |sorted| && sorted[at] == bucket[i];
    var k := UndatedCount(sorted);
    assert at > k ==> !StartsBefore()(sorted[at], sorted[k]);
  }

  lemma DatedInSorted(bucket: seq<Employment>)
    requires |UndatedRows(bucket)| < |Sort(StartsBefore(), bucket)|
    ensures exists i :: (
      0 <= i < |bucket| && bucket[i].startDate.Some? &&
      bucket[i] == Sort(StartsBefore(), bucket)[|UndatedRows(bucket)|])
  {
    hide Sort, Filter;
    var sorted := Sort(StartsBefore(), bucket);
    var k := |UndatedRows(bucket)|;
    SortSplits(bucket);
    SortPermutes(StartsBefore(), bucket);
    MembersOfPermutation(sorted, bucket, sorted[k]);
    var i :| 0 <= i < |bucket| && bucket[i] == sorted[k];
  }

  lemma SwallowsIffFold(bucket: seq<Employment>)
    ensures Swallows(bucket) <==> FoldSwallows(bucket)
  {
    hide Sort, Filter, WithinMergeGap, FoldSwallows, FirstOpen, UndatedRows;
    var sorted := Sort(StartsBefore(), bucket);
    var undated := UndatedRows(bucket);
    var k := |undated|;
    FoldSwallowsInParts(bucket);
    if Swallows(bucket) {
      var last := Min(FirstOpen(undated), k - 1);
      var i: nat :| i < |bucket| && bucket[i].startDate.Some? &&
        WithinMergeGap(undated[last].endDate, bucket[i].startDate) &&
        WithinMergeGap(undated[last - 1].endDate, bucket[i].startDate);
      EarliestDated(bucket, i);
      GapGrows(undated[last].endDate, sorted[k].startDate, bucket[i].startDate);
      GapGrows(undated[last - 1].endDate, sorted[k].startDate, bucket[i].startDate);
    }
    if FoldSwallows(bucket) {
      DatedInSorted(bucket);
    }
  }

  /** The first dated row after settled undated ones. */
  lemma FirstDated(undated: seq<Employment>, row: Employment)
    requires AllUndated(undated) && Settled(undated) && row.startDate.Some?
    ensures var next := MergeInto(undated, row);
      && next[|next| - 1].startDate == row.startDate
      && Sorted(StartsBefore(), next)
      && (Settled(next) <==>
           !(|undated| >= 2
             && WithinMergeGap(undated[|undated| - 1].endDate, row.startDate)
             && WithinMergeGap(undated[|undated| - 2].endDate, row.startDate)))
  {
    hide WithinMergeGap;
    var next := MergeInto(undated, row);
    var n := |undated|;
    if n > 0 && WithinMergeGap(undated[n - 1].endDate, row.startDate) {
      assert next[n - 1] == MergeRows(undated[n - 1], row);
      if n >= 2 {
        assert next[n - 2] == undated[n - 2];
        assert !Settled(next) ==> WithinMergeGap(next[n - 2].endDate, next[n - 2 + 1].startDate);
        if WithinMergeGap(next[n - 2].endDate, next[n - 1].startDate) {
          assert !Settled(next) by {
            assert next[n - 2 + 1] == next[n - 1];
          }
        }
      }
    } else {
      assert next == undated + [row];
    }
  }

  lemma FirstOfTail(merged: seq<Employment>, row: Employment, rest: seq<Employment>)
    ensures MergeAll(merged, [row] + rest) == MergeAll(MergeInto(merged, row), rest)
  {
    hide MergeInto;
    assert ([row] + rest)[1..] == rest;
  }

  lemma FoldAround(front: seq<Employment>, row: Employment, rest: seq<Employment>)
    ensures MergeAll([], front + ([row] + rest)) == MergeAll(MergeInto(MergeAll([], front), row), rest)
  {
    hide MergeAll, MergeInto;
    MergeAllConcat([], front, [row] + rest);
    FirstOfTail(MergeAll([], front), row, rest);
  }

  /** The fold over a sorted bucket: undated rows, then the first dated one, then the rest. */
  lemma FoldInPhases(sorted: seq<Employment>, k: nat)
    requires k <= |sorted|
    ensures MergeAll([], sorted) ==
      if k == |sorted| then MergeAll([], sorted[..k])
      else MergeAll(MergeInto(MergeAll([], sorted[..k]), sorted[k]), sorted[k + 1..])
  {
    hide MergeAll, MergeInto;
    if k == |sorted| {
      assert sorted[..k] == sorted;
    } else {
      assert sorted == sorted[..k] + ([sorted[k]] + sorted[k + 1..]);
      FoldAround(sorted[..k], sorted[k], sorted[k + 1..]);
    }
  }

  lemma BucketShape(bucket: seq<Employment>)
    ensures Sorted(StartsBefore(), MergeBucket(bucket))
    ensures Settled(MergeBucket(bucket)) <==> !FoldSwallows(bucket)
  {
    hide Settled, WithinMergeGap, MergeAll, MergeInto, Sort;
    var sorted := Sort(StartsBefore(), bucket);
    var k := UndatedCount(sorted);
    SortSorts(StartsBefore(), bucket);
    var undated := MergeAll([], sorted[..k]);
    FoldInPhases(sorted, k);
    SettledEmpty();
    UndatedMergeSettles([], sorted[..k]);
    if k < |sorted| {
      FirstDated(undated, sorted[k]);
      SortedTailFollows(sorted, k);
      DatedTailSettledIff(MergeInto(undated, sorted[k]), sorted[k + 1..], sorted[k].startDate.value);
    }
  }

  lemma SettledEmpty()
    ensures Settled([]) && AllUndated([])
  {
  }

  lemma MergeAllNone(merged: seq<Employment>)
    ensures MergeAll(merged, []) == merged
  {
  }

  lemma MergeAllOne(merged: seq<Employment>, row: Employment)
    ensures MergeAll(merged, [row]) == MergeInto(merged, row)
  {
    MergeAllNone(MergeInto(merged, row));
  }

  lemma SortedTailFollows(sorted: seq<Employment>, k: nat)
    requires Sorted(StartsBefore(), sorted) && k < |sorted| && sorted[k].startDate.Some?
    ensures StartsFollow(sorted[k + 1..], sorted[k].startDate.value)
  {
    forall i | k < i < |sorted|
      ensures sorted[i].startDate.Some? && sorted[k].startDate.value <= sorted[i].startDate.value
    {
      assert !StartsBefore()(sorted[i], sorted[k]);
    }
    forall i, j | k < i < j < |sorted|
      ensures sorted[i].startDate.value <= sorted[j].startDate.value
    {
      assert !StartsBefore()(sorted[j], sorted[i]);
    }
  }

  /** Merging a firm's rows a second time changes nothing exactly when none is swallowed. */
  lemma MergeIdempotentIff(bucket: seq<Employment>)
    ensures MergeBucket(MergeBucket(bucket)) == MergeBucket(bucket) <==> !Swallows(bucket)
  {
    hide Settled, Swallows, FoldSwallows, MergeAll, Sort;
    BucketShape(bucket);
    SwallowsIffFold(bucket);
    var merged := MergeBucket(bucket);
    SortOfSorted(StartsBefore(), merged);
    SettledIffUnchanged(merged);
  }

  /** In particular whenever every row has a start date. */
  lemma DatedMergeIsIdempotent(bucket: seq<Employment>)
    requires forall i :: 0 <= i < |bucket| ==> bucket[i].startDate.Some?
    ensures MergeBucket(MergeBucket(bucket)) == MergeBucket(bucket)
  {
    FilterNone(bucket, HAS_NO_START);
    MergeIdempotentIff(bucket);
  }

  function BareRow(start: Option<int>, end: Option<int>): Employment {
    Employment("1", "A", None, None, false, start, end, None, None)
  }

  /** Without start dates a second pass can merge further. */
  lemma UndatedRowsBreakIdempotence()
    ensures var bucket := [BareRow(None, Some(10)), BareRow(None, Some(5)), BareRow(Some(20), Some(30))];
      MergeBucket(MergeBucket(bucket)) != MergeBucket(bucket)
  {
    var a, b, c := BareRow(None, Some(10)), BareRow(None, Some(5)), BareRow(Some(20), Some(30));
    var rows := [a, b, c];
    hide MergeAll, MergeBucket;
    assert rows[1..] == [b, c] && rows[1..][1..] == [c] && rows[1..][1..][1..] == [];
    assert UndatedRows([c]) == [] && UndatedRows([b, c]) == [b] && UndatedRows(rows) == [a, b];
    assert [a, b][1..] == [b] && [b][1..] == [];
    assert FirstOpen([a, b]) == 2;
    assert rows[2].startDate.Some?;
    assert Swallows(rows);
    MergeIdempotentIff(rows);
  }

  /** For instance one closed and one open row without start dates: input order decides how
      many rows remain. */
  lemma UndatedRowsDependOnOrder()
    ensures |MergeBucket([BareRow(None, Some(10)), BareRow(None, None)])| == 2
    ensures |MergeBucket([BareRow(None, None), BareRow(None, Some(10))])| < 2
  {
    var a, open := BareRow(None, Some(10)), BareRow(None, None);
    SortOfSorted(StartsBefore(), [a, open]);
    SortOfSorted(StartsBefore(), [open, a]);
    SettledIsUnchanged([a, open]);
    assert WithinMergeGap([open, a][0].endDate, [open, a][0 + 1].startDate);
    UnsettledShrinks([open, a]);
  }

  // ---------------------------------------------------------------- the whole dedupe

  /** `employmentKey`: the FINRA id, else the firm name. */
  function EmploymentKey(row: Employment): string {
    if row.firmFinraId != "" then row.firmFinraId else row.firmName
  }

  function OfFirm(key: string): Employment -> bool {
    (row: Employment) => EmploymentKey(row) == key
  }

  function Bucket(rows: seq<Employment>, key: string): seq<Employment> {
    Filter(rows, OfFirm(key))
  }

  /** `[...new Set(rows.map(employmentKey))]`: firms in first-seen order. */
  function FirmOrder(seen: seq<string>, rows: seq<Employment>): seq<string>
    decreases rows
  {
    if rows == [] then seen
    else
      var key := EmploymentKey(rows[0]);
      FirmOrder(if key in seen then seen else seen + [key], rows[1..])
  }

  function MergeFirms(rows: seq<Employment>, keys: seq<string>): seq<Employment> {
    if keys == [] then [] else MergeBucket(Bucket(rows, keys[0])) + MergeFirms(rows, keys[1..])
  }

  function DedupeEmployments(rows: seq<Employment>): seq<Employment> {
    MergeFirms(rows, FirmOrder([], rows))
  }

  ghost predicate AllOfFirm(rows: seq<Employment>, key: string) {
    forall i :: 0 <= i < |rows| ==> EmploymentKey(rows[i]) == key
  }

  lemma {:induction false} MergeAllKeepsFirm(merged: seq<Employment>, rows: seq<Employment>, key: string)
    requires AllOfFirm(merged, key) && AllOfFirm(rows, key)
    ensures AllOfFirm(MergeAll(merged, rows), key)
    decreases rows
  {
    hide WithinMergeGap;
    if rows == [] {
    } else {
      MergeAllKeepsFirm(MergeInto(merged, rows[0]), rows[1..], key);
    }
  }

  lemma BucketMergeKeepsFirm(rows: seq<Employment>, key: string)
    ensures AllOfFirm(Bucket(rows, key), key)
    ensures AllOfFirm(MergeBucket(Bucket(rows, key)), key)
    ensures Bucket(rows, key) != [] <==> MergeBucket(Bucket(rows, key)) != []
  {
    hide Filter, Sort;
    var bucket := Bucket(rows, key);
    forall i | 0 <= i < |bucket| ensures EmploymentKey(bucket[i]) == key {
      FilterMembers(rows, OfFirm(key), bucket[i]);
    }
    var sorted := Sort(StartsBefore(), bucket);
    SortPermutes(StartsBefore(), bucket);
    forall i | 0 <= i < |sorted| ensures EmploymentKey(sorted[i]) == key {
      MembersOfPermutation(sorted, bucket, sorted[i]);
    }
    MergeAllKeepsFirm([], sorted, key);
  }

  lemma {:induction false} BucketOfFirm(rows: seq<Employment>, firm: string, key: string)
    requires AllOfFirm(rows, firm)
    ensures Bucket(rows, key) == if firm == key then rows else []
  {
    if rows == [] {
    } else {
      BucketOfFirm(rows[1..], firm, key);
      assert rows == [rows[0]] + rows[1..];
    }
  }

  lemma {:induction false} BucketOfMergedFirms(rows: seq<Employment>, keys: seq<string>, key: string)
    requires Distinct(keys)
    ensures Bucket(MergeFirms(rows, keys), key) ==
            if key in keys then MergeBucket(Bucket(rows, key)) else []
  {
    hide MergeBucket, Filter;
    if keys == [] {
      BucketOfFirm([], "", key);
    } else {
      var first := MergeBucket(Bucket(rows, keys[0]));
      BucketMergeKeepsFirm(rows, keys[0]);
      BucketOfFirm(first, keys[0], key);
      FilterConcat(first, MergeFirms(rows, keys[1..]), OfFirm(key));
      BucketOfMergedFirms(rows, keys[1..], key);
      assert key in keys <==> key == keys[0] || key in keys[1..];
    }
  }

  lemma {:induction false} FirmOrderLists(seen: seq<string>, rows: seq<Employment>)
    requires Distinct(seen)
    ensures Distinct(FirmOrder(seen, rows))
    ensures forall key :: key in FirmOrder(seen, rows) <==> key in seen || Bucket(rows, key) != []
    decreases rows
  {
    if rows == [] {
    } else {
      var key := EmploymentKey(rows[0]);
      FirmOrderLists(if key in seen then seen else seen + [key], rows[1..]);
    }
  }

  lemma {:induction false} FirmOrderConcat(seen: seq<string>, rows: seq<Employment>, more: seq<Employment>)
    ensures FirmOrder(seen, rows + more) == FirmOrder(FirmOrder(seen, rows), more)
    decreases rows
  {
    if rows == [] {
      assert rows + more == more;
    } else {
      var key := EmploymentKey(rows[0]);
      assert (rows + more)[1..] == rows[1..] + more;
      FirmOrderConcat(if key in seen then seen else seen + [key], rows[1..], more);
    }
  }

  lemma {:induction false} FirmOrderOfFirm(seen: seq<string>, rows: seq<Employment>, key: string)
    requires AllOfFirm(rows, key) && key in seen
    ensures FirmOrder(seen, rows) == seen
    decreases rows
  {
    if rows == [] {
    } else {
      FirmOrderOfFirm(seen, rows[1..], key);
    }
  }

  lemma {:induction false} OrderOfMergedFirms(seen: seq<string>, rows: seq<Employment>, keys: seq<string>)
    requires Distinct(seen + keys)
    requires forall i :: 0 <= i < |keys| ==> Bucket(rows, keys[i]) != []
    ensures FirmOrder(seen, MergeFirms(rows, keys)) == seen + keys
    decreases keys
  {
    hide MergeBucket, Filter;
    if keys == [] {
    } else {
      var key := keys[0];
      var first := MergeBucket(Bucket(rows, key));
      BucketMergeKeepsFirm(rows, key);
      assert key !in seen by {
        assert (seen + keys)[|seen|] == key;
        assert forall i :: 0 <= i < |seen| ==> (seen + keys)[i] == seen[i];
      }
      FirmOrderOfFirm(seen + [key], first[1..], key);
      assert FirmOrder(seen, first) == seen + [key];
      FirmOrderConcat(seen, first, MergeFirms(rows, keys[1..]));
      assert seen + [key] + keys[1..] == seen + keys;
      OrderOfMergedFirms(seen + [key], rows, keys[1..]);
    }
  }

  /** Each firm's rows in the output are its merged bucket, and firms keep the order in
      which they were first seen. */
  lemma DedupeByFirm(rows: seq<Employment>)
    ensures FirmOrder([], DedupeEmployments(rows)) == FirmOrder([], rows)
    ensures forall key :: Bucket(DedupeEmployments(rows), key) == MergeBucket(Bucket(rows, key))
  {
    hide MergeBucket, MergeFirms, Filter;
    var keys := FirmOrder([], rows);
    FirmOrderLists([], rows);
    assert [] + keys == keys;
    OrderOfMergedFirms([], rows, keys);
    forall key ensures Bucket(DedupeEmployments(rows), key) == MergeBucket(Bucket(rows, key)) {
      BucketOfMergedFirms(rows, keys, key);
      BucketMergeKeepsFirm(rows, key);
    }
  }

  lemma {:induction false} FirmOrderFollows(rows: seq<Employment>, done: nat, seen: seq<string>)
    requires done <= |rows| && Distinct(seen)
    requires var keys := Map(rows, EmploymentKey);
      InFirstOrder(keys, seen) && forall key :: key in seen <==> key in keys[..done]
    ensures var keys, order := Map(rows, EmploymentKey), FirmOrder(seen, rows[done..]);
      Distinct(order) && InFirstOrder(keys, order) && forall key :: key in order <==> key in keys
    decreases |rows| - done
  {
    hide InFirstOrder, EmploymentKey;
    var keys := Map(rows, EmploymentKey);
    if done == |rows| {
      assert rows[done..] == [] && keys[..done] == keys;
    } else {
      var key := keys[done];
      assert rows[done..][0] == rows[done] && rows[done..][1..] == rows[done + 1..];
      assert keys[..done + 1] == keys[..done] + [key];
      if key !in seen {
        NewIsLater(keys, done, seen);
      }
      FirmOrderFollows(rows, done + 1, if key in seen then seen else seen + [key]);
    }
  }

  /** A firm is known by its FINRA id, and by its name where the id is missing; firms come in
      the order in which they first stand in the input, each once. */
  lemma FirmsInFirstOrder(rows: seq<Employment>)
    ensures forall row: Employment ::
      EmploymentKey(row) == if |row.firmFinraId| > 0 then row.firmFinraId else row.firmName
    ensures var keys, order := Map(rows, EmploymentKey), FirmOrder([], rows);
      Distinct(order) && InFirstOrder(keys, order) && forall key :: key in order <==> key in keys
  {
    assert rows[0..] == rows;
    FirmOrderFollows(rows, 0, []);
  }

  lemma {:induction false} SameBucketsSameMerge(rows: seq<Employment>, other: seq<Employment>, keys: seq<string>)
    requires forall i :: 0 <= i < |keys| ==>
      MergeBucket(Bucket(rows, keys[i])) == MergeBucket(Bucket(other, keys[i]))
    ensures MergeFirms(rows, keys) == MergeFirms(other, keys)
  {
    hide MergeBucket, Bucket;
    if keys == [] {
    } else {
      SameBucketsSameMerge(rows, other, keys[1..]);
    }
  }

  /** A second dedupe changes nothing exactly when no firm's rows swallow one another. */
  lemma DedupeIdempotentIff(rows: seq<Employment>)
    ensures DedupeEmployments(DedupeEmployments(rows)) == DedupeEmployments(rows) <==>
      forall key :: key in FirmOrder([], rows) ==> !Swallows(Bucket(rows, key))
  {
    hide MergeBucket, MergeFirms, Bucket, Swallows;
    var once := DedupeEmployments(rows);
    var keys := FirmOrder([], rows);
    DedupeByFirm(rows);
    DedupeByFirm(once);
    forall key ensures MergeBucket(Bucket(once, key)) == MergeBucket(Bucket(rows, key)) <==>
      !Swallows(Bucket(rows, key))
    {
      MergeIdempotentIff(Bucket(rows, key));
    }
    if forall key :: key in keys ==> !Swallows(Bucket(rows, key)) {
      SameBucketsSameMerge(once, rows, keys);
    } else {
      var key :| key in keys && Swallows(Bucket(rows, key));
      assert Bucket(DedupeEmployments(once), key) != Bucket(once, key);
    }
  }

  lemma {:induction false} FilterPermutes(rows: seq<Employment>, key: string)
    ensures forall row :: (
      multiset(Bucket(rows, key))[row] == if EmploymentKey(row) == key then multiset(rows)[row] else 0)
  {
    if rows == [] {
    } else {
      FilterPermutes(rows[1..], key);
      assert rows == [rows[0]] + rows[1..];
    }
  }

  /** Shuffling the input leaves every firm's date ranges as they were. */
  lemma DedupeIgnoresInputOrder(rows: seq<Employment>, shuffled: seq<Employment>, key: string)
    requires AllDated(rows) && multiset(rows) == multiset(shuffled)
    ensures DateRanges(Bucket(DedupeEmployments(rows), key)) ==
            DateRanges(Bucket(DedupeEmployments(shuffled), key))
  {
    hide MergeBucket, MergeFirms, DateRanges, Filter;
    DedupeByFirm(rows);
    DedupeByFirm(shuffled);
    var bucket := Bucket(rows, key);
    forall i | 0 <= i < |bucket| ensures Dated(bucket[i]) {
      FilterMembers(rows, OfFirm(key), bucket[i]);
    }
    FilterPermutes(rows, key);
    FilterPermutes(shuffled, key);
    assert multiset(bucket) == multiset(Bucket(shuffled, key));
    RangesIgnoreInputOrder(bucket, Bucket(shuffled, key));
  }
}
