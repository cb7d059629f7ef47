/** BrokerCheck employment dedupe (src/lib/brokercheck-employment.ts): sort one firm's rows
    by start date and fold rows at most 90 days apart into one. Dates are day numbers. */
module EmploymentMerge {
  import opened Sequences
  import opened StableSort

  const EMPLOYMENT_MERGE_GAP_DAYS := 90

  datatype Employment = Employment(
    firmFinraId: string, firmName: string,
    iaSecNumber: Option<string>, bdSecNumber: Option<string>, iaOnly: bool,
    startDate: Option<int>, endDate: Option<int>,
    city: Option<string>, state: Option<string>)

  predicate Filled(v: Option<string>) {
    v.Some? && v.value != ""
  }

  /** JavaScript's `||` on optional strings. */
  function Or(left: Option<string>, right: Option<string>): Option<string> {
    if Filled(left) then left else right
  }

  function EarlierDate(left: Option<int>, right: Option<int>): Option<int> {
    if left.Some? && right.Some? then Some(Min(left.value, right.value))
    else if left.Some? then left else right
  }

  function LaterNullableDate(left: Option<int>, right: Option<int>): Option<int> {
    if left.None? || right.None? then None
    else if left.value <= right.value then right else left
  }

  predicate WithinMergeGap(prevEnd: Option<int>, nextStart: Option<int>) {
    if prevEnd.None? then true
    else if nextStart.None? then false
    else nextStart.value - prevEnd.value <= EMPLOYMENT_MERGE_GAP_DAYS
  }

  function MergeRows(current: Employment, row: Employment): Employment {
    current.(
      startDate := EarlierDate(current.startDate, row.startDate),
      endDate := LaterNullableDate(current.endDate, row.endDate),
      iaOnly := current.iaOnly && row.iaOnly,
      iaSecNumber := Or(current.iaSecNumber, row.iaSecNumber),
      bdSecNumber := Or(current.bdSecNumber, row.bdSecNumber),
      city := Or(current.city, row.city),
      state := Or(current.state, row.state))
  }

  /** `mergeEmploymentInto`. */
  function MergeInto(merged: seq<Employment>, row: Employment): (r: seq<Employment>)
    ensures r != [] && |merged| <= |r| <= |merged| + 1
  {
    if merged == [] then [row]
    else
      var current := merged[|merged| - 1];
      if !WithinMergeGap(current.endDate, row.startDate) then merged + [row]
      else merged[..|merged| - 1] + [MergeRows(current, row)]
  }

  function MergeAll(merged: seq<Employment>, rows: seq<Employment>): (r: seq<Employment>)
    ensures |merged| <= |r| <= |merged| + |rows|
    decreases rows
  {
    if rows == [] then merged else MergeAll(MergeInto(merged, rows[0]), rows[1..])
  }

  /** Start dates in string order: a missing date is the empty string and comes first. */
  function StartsBefore(): (Employment, Employment) -> bool {
    (a: Employment, b: Employment) =>
      b.startDate.Some? && (a.startDate.Some? ==> a.startDate.value < b.startDate.value)
  }

  /** `mergeEmploymentBucket`. */
  function MergeBucket(bucket: seq<Employment>): seq<Employment> {
    MergeAll([], Sort(StartsBefore(), bucket))
  }

  // ---------------------------------------------------------------- components

  /** Rows with a start date that ends no earlier than it starts; no end means still open. */
  ghost predicate Dated(row: Employment) {
    row.startDate.Some? && (row.endDate.Some? ==> row.startDate.value <= row.endDate.value)
  }

  ghost predicate AllDated(rows: seq<Employment>) {
    forall i :: 0 <= i < |rows| ==> Dated(rows[i])
  }

  /** At most 90 days between the two, whichever comes first. */
  ghost predicate Linked(a: Employment, b: Employment) {
    WithinMergeGap(a.endDate, b.startDate) && WithinMergeGap(b.endDate, a.startDate)
  }

  ghost predicate Chain(bucket: seq<Employment>, path: seq<Employment>) {
    && path != []
    && (forall i :: 0 <= i < |path| ==> path[i] in bucket)
    && (forall i :: 0 <= i < |path| - 1 ==> Linked(path[i], path[i + 1]))
  }

  ghost predicate Connected(bucket: seq<Employment>, a: Employment, b: Employment) {
    exists path :: Chain(bucket, path) && path[0] == a && path[|path| - 1] == b
  }

  function MergedRow(group: seq<Employment>): Employment
    requires group != []
  {
    if |group| == 1 then group[0]
    else MergeRows(MergedRow(group[..|group| - 1]), group[|group| - 1])
  }

  /** The fold again, keeping the source rows behind each merged row; `group` is the one
      being filled. */
  function Groups(group: seq<Employment>, rows: seq<Employment>): (r: seq<seq<Employment>>)
    requires group != []
    ensures r != [] && forall i :: 0 <= i < |r| ==> r[i] != []
    decreases rows
  {
    if rows == [] then [group]
    else if WithinMergeGap(MergedRow(group).endDate, rows[0].startDate) then
      Groups(group + [rows[0]], rows[1..])
    else [group] + Groups([rows[0]], rows[1..])
  }

  /** The groups behind a firm's merged rows. */
  function GroupsOf(bucket: seq<Employment>): (r: seq<seq<Employment>>)
    ensures forall i :: 0 <= i < |r| ==> r[i] != []
  {
    var sorted := Sort(StartsBefore(), bucket);
    if sorted == [] then [] else Groups([sorted[0]], sorted[1..])
  }

  function MergedRows(groups: seq<seq<Employment>>): (r: seq<Employment>)
    requires forall i :: 0 <= i < |groups| ==> groups[i] != []
    ensures |r| == |groups| && forall i :: 0 <= i < |r| ==> r[i] == MergedRow(groups[i])
  {
    if groups == [] then [] else [MergedRow(groups[0])] + MergedRows(groups[1..])
  }

  lemma MergedRowAppend(group: seq<Employment>, row: Employment)
    requires group != []
    ensures MergedRow(group + [row]) == MergeRows(MergedRow(group), row)
  {
    hide MergeRows;
    assert (group + [row])[..|group|] == group;
  }

  lemma MergeStep(merged: seq<Employment>, current: Employment, row: Employment)
    ensures MergeInto(merged + [current], row) ==
      if WithinMergeGap(current.endDate, row.startDate) then merged + [MergeRows(current, row)]
      else merged + [current] + [row]
  {
    hide WithinMergeGap, MergeRows;
    assert (merged + [current])[..|merged|] == merged;
  }

  lemma MergedRowsPrepend(group: seq<Employment>, groups: seq<seq<Employment>>)
    requires group != [] && forall i :: 0 <= i < |groups| ==> groups[i] != []
    ensures MergedRows([group] + groups) == [MergedRow(group)] + MergedRows(groups)
  {
    hide MergedRow;
    assert ([group] + groups)[1..] == groups;
  }

  /** One row of the fold: it joins the last merged row, or starts a new one. */
  lemma FoldStep(merged: seq<Employment>, group: seq<Employment>, rows: seq<Employment>)
    requires group != [] && rows != []
    ensures MergeAll(merged + [MergedRow(group)], rows) ==
      if WithinMergeGap(MergedRow(group).endDate, rows[0].startDate)
      then MergeAll(merged + [MergedRow(group + [rows[0]])], rows[1..])
      else MergeAll(merged + [MergedRow(group)] + [MergedRow([rows[0]])], rows[1..])
  {
    hide MergedRow, MergeRows, WithinMergeGap, MergeInto;
    MergeStep(merged, MergedRow(group), rows[0]);
    MergedRowAppend(group, rows[0]);
    MergedRowOfOne(rows[0]);
  }

  /** The same row in the groups behind the fold. */
  lemma GroupStep(merged: seq<Employment>, group: seq<Employment>, rows: seq<Employment>)
    requires group != [] && rows != []
    ensures merged + MergedRows(Groups(group, rows)) ==
      if WithinMergeGap(MergedRow(group).endDate, rows[0].startDate)
      then merged + MergedRows(Groups(group + [rows[0]], rows[1..]))
      else merged + [MergedRow(group)] + MergedRows(Groups([rows[0]], rows[1..]))
  {
    hide MergedRow, WithinMergeGap, MergedRows;
    if !WithinMergeGap(MergedRow(group).endDate, rows[0].startDate) {
      MergedRowsPrepend(group, Groups([rows[0]], rows[1..]));
    }
  }

  lemma NothingToFold(merged: seq<Employment>, group: seq<Employment>)
    requires group != []
    ensures MergeAll(merged + [MergedRow(group)], []) == merged + MergedRows(Groups(group, []))
  {
    hide MergedRow;
    MergedRowsPrepend(group, []);
    NoMergedRows();
    assert [group] + [] == [group];
  }

  lemma {:induction false} MergeAllFollowsGroups(
    merged: seq<Employment>, group: seq<Employment>, rows: seq<Employment>)
    requires group != []
    ensures MergeAll(merged + [MergedRow(group)], rows) == merged + MergedRows(Groups(group, rows))
    decreases rows
  {
    hide MergedRow, WithinMergeGap, MergedRows, MergeAll, Groups;
    if rows == [] {
      NothingToFold(merged, group);
    } else {
      FoldStep(merged, group, rows);
      GroupStep(merged, group, rows);
      if WithinMergeGap(MergedRow(group).endDate, rows[0].startDate) {
        MergeAllFollowsGroups(merged, group + [rows[0]], rows[1..]);
      } else {
        MergeAllFollowsGroups(merged + [MergedRow(group)], [rows[0]], rows[1..]);
      }
    }
  }

  lemma NoMergedRows()
    ensures MergedRows([]) == []
  {
  }

  lemma MergedRowOfOne(row: Employment)
    ensures MergedRow([row]) == row
  {
  }

  lemma BucketFollowsGroups(bucket: seq<Employment>)
    ensures MergeBucket(bucket) == MergedRows(GroupsOf(bucket))
  {
    hide MergedRow, MergeRows, WithinMergeGap, Sort, Groups;
    var sorted := Sort(StartsBefore(), bucket);
    if sorted != [] {
      var first, rest := sorted[0], sorted[1..];
      MergedRowOfOne(first);
      MergeAllFollowsGroups([], [first], rest);
      assert MergeInto([], first) == [] + [MergedRow([first])];
      assert [] + MergedRows(Groups([first], rest)) == MergedRows(Groups([first], rest));
    } else {
      NoMergedRows();
    }
  }

  lemma {:induction false} GroupsKeepRows(group: seq<Employment>, rows: seq<Employment>)
    requires group != []
    ensures Flatten(Groups(group, rows)) == group + rows
    decreases rows
  {
    hide MergedRow, WithinMergeGap;
    if rows == [] {
      assert Flatten([group]) == group + Flatten([group][1..]);
    } else {
      assert rows == [rows[0]] + rows[1..];
      GroupsKeepRows(group + [rows[0]], rows[1..]);
      GroupsKeepRows([rows[0]], rows[1..]);
    }
  }

  ghost predicate EndsBy(a: Option<int>, b: Option<int>) {
    b.None? || (a.Some? && a.value <= b.value)
  }

  /** `row` spans exactly the group: its first start, its last end, open if any is open. */
  ghost predicate Spans(row: Employment, group: seq<Employment>) {
    && (forall i :: 0 <= i < |group| ==>
          group[i].startDate.Some? && row.startDate.Some? &&
          row.startDate.value <= group[i].startDate.value && EndsBy(group[i].endDate, row.endDate))
    && (exists i :: 0 <= i < |group| && group[i].startDate == row.startDate)
    && (exists i :: 0 <= i < |group| && group[i].endDate == row.endDate)
  }

  lemma LaterDateCovers(a: Option<int>, b: Option<int>)
    ensures var later := LaterNullableDate(a, b);
      && EndsBy(a, later) && EndsBy(b, later) && (later == a || later == b)
      && forall c :: EndsBy(c, a) ==> EndsBy(c, later)
  {
  }

  /** A span grows with each row merged into it. */
  lemma SpansAppend(row: Employment, group: seq<Employment>, next: Employment)
    requires Spans(row, group) && group != [] && next.startDate.Some?
    ensures Spans(MergeRows(row, next), group + [next])
  {
    hide LaterNullableDate;
    var merged, all := MergeRows(row, next), group + [next];
    var n := |group|;
    LaterDateCovers(row.endDate, next.endDate);
    var s :| 0 <= s < n && group[s].startDate == row.startDate;
    var e :| 0 <= e < n && group[e].endDate == row.endDate;
    assert all[s] == group[s] && all[e] == group[e] && all[n] == next;
    forall i | 0 <= i < |all|
      ensures all[i].startDate.Some? && merged.startDate.Some?
      ensures merged.startDate.value <= all[i].startDate.value && EndsBy(all[i].endDate, merged.endDate)
    {
      assert i < n ==> all[i] == group[i];
    }
    assert merged.startDate == all[s].startDate || merged.startDate == all[n].startDate;
    assert merged.endDate == all[e].endDate || merged.endDate == all[n].endDate;
  }

  lemma {:induction false} MergedRowSpans(group: seq<Employment>)
    requires group != [] && AllDated(group)
    ensures Spans(MergedRow(group), group)
    ensures MergedRow(group).iaOnly <==> forall i :: 0 <= i < |group| ==> group[i].iaOnly
  {
    hide MergedRow;
    var n := |group| - 1;
    if n == 0 {
      MergedRowOfOne(group[0]);
      assert group == [group[0]];
    } else {
      var front := group[..n];
      MergedRowSpans(front);
      MergedRowAppend(front, group[n]);
      assert group == front + [group[n]];
      SpansAppend(MergedRow(front), front, group[n]);
      assert forall i :: 0 <= i < n ==> group[i] == front[i];
    }
  }

  ghost predicate FilledFirstAt(
    group: seq<Employment>, pick: Employment -> Option<string>, v: Option<string>, i: nat)
  {
    i < |group| && pick(group[i]) == v && forall j :: 0 <= j < i ==> !Filled(pick(group[j]))
  }

  /** The first filled value in group order, or nothing filled at all. */
  ghost predicate FirstFilled(group: seq<Employment>, pick: Employment -> Option<string>, v: Option<string>) {
    || (!Filled(v) && forall i :: 0 <= i < |group| ==> !Filled(pick(group[i])))
    || (Filled(v) && exists i :: FilledFirstAt(group, pick, v, i))
  }

  lemma FirstFilledStep(
    group: seq<Employment>, row: Employment, pick: Employment -> Option<string>, v: Option<string>)
    requires FirstFilled(group, pick, v)
    ensures FirstFilled(group + [row], pick, Or(v, pick(row)))
  {
    var all := group + [row];
    assert forall i :: 0 <= i < |group| ==> all[i] == group[i];
    if Filled(v) {
      var i :| FilledFirstAt(group, pick, v, i);
      assert FilledFirstAt(all, pick, v, i);
    } else if Filled(pick(row)) {
      assert FilledFirstAt(all, pick, pick(row), |group|);
    }
  }

  /** A merged row keeps each detail from the earliest row that has it. */
  lemma {:induction false} MergedRowKeepsDetails(group: seq<Employment>)
    requires group != []
    ensures FirstFilled(group, (r: Employment) => r.iaSecNumber, MergedRow(group).iaSecNumber)
    ensures FirstFilled(group, (r: Employment) => r.bdSecNumber, MergedRow(group).bdSecNumber)
    ensures FirstFilled(group, (r: Employment) => r.city, MergedRow(group).city)
    ensures FirstFilled(group, (r: Employment) => r.state, MergedRow(group).state)
    ensures MergedRow(group).firmFinraId == group[0].firmFinraId
    ensures MergedRow(group).firmName == group[0].firmName
  {
    var n := |group| - 1;
    if n > 0 {
      var front, row := group[..n], group[n];
      MergedRowKeepsDetails(front);
      assert group == front + [row];
      FirstFilledStep(front, row, (r: Employment) => r.iaSecNumber, MergedRow(front).iaSecNumber);
      FirstFilledStep(front, row, (r: Employment) => r.bdSecNumber, MergedRow(front).bdSecNumber);
      FirstFilledStep(front, row, (r: Employment) => r.city, MergedRow(front).city);
      FirstFilledStep(front, row, (r: Employment) => r.state, MergedRow(front).state);
    } else {
      assert MergedRow(group) == group[0];
      assert FilledFirstAt(group, (r: Employment) => r.iaSecNumber, group[0].iaSecNumber, 0);
      assert FilledFirstAt(group, (r: Employment) => r.bdSecNumber, group[0].bdSecNumber, 0);
      assert FilledFirstAt(group, (r: Employment) => r.city, group[0].city, 0);
      assert FilledFirstAt(group, (r: Employment) => r.state, group[0].state, 0);
    }
  }

  /** More than 90 days from the end of `a` to the start of `b`. */
  ghost predicate Apart(a: Employment, b: Employment) {
    a.endDate.Some? && b.startDate.Some? &&
    b.startDate.value - a.endDate.value > EMPLOYMENT_MERGE_GAP_DAYS
  }

  /** The row is linked to one in front of it. */
  ghost predicate LinkedBack(group: seq<Employment>, k: nat)
    requires k < |group|
  {
    exists m :: 0 <= m < k && Linked(group[m], group[k])
  }

  ghost predicate GroupIsLinked(group: seq<Employment>) {
    && group != []
    && AllDated(group)
    && (forall k :: 1 <= k < |group| ==> LinkedBack(group, k))
  }

  ghost predicate GroupsApart(groups: seq<seq<Employment>>) {
    forall g, h, i, j ::
      0 <= g < h < |groups| && 0 <= i < |groups[g]| && 0 <= j < |groups[h]| ==>
      Apart(groups[g][i], groups[h][j])
  }

  ghost predicate Components(groups: seq<seq<Employment>>) {
    (forall g :: 0 <= g < |groups| ==> GroupIsLinked(groups[g])) && GroupsApart(groups)
  }

  /** A row within the gap of a group's span is linked to the row that ends it. */
  lemma LinkToLatestEnd(group: seq<Employment>, row: Employment)
    requires GroupIsLinked(group) && Dated(row)
    requires forall i :: 0 <= i < |group| ==>
      group[i].startDate.Some? && group[i].startDate.value <= row.startDate.value
    requires WithinMergeGap(MergedRow(group).endDate, row.startDate)
    ensures exists m :: 0 <= m < |group| && Linked(group[m], row)
  {
    hide MergedRow;
    MergedRowSpans(group);
    var m :| 0 <= m < |group| && group[m].endDate == MergedRow(group).endDate;
    assert Linked(group[m], row);
  }

  lemma GrowGroup(group: seq<Employment>, row: Employment)
    requires GroupIsLinked(group) && Dated(row)
    requires forall i :: 0 <= i < |group| ==> group[i].startDate.value <= row.startDate.value
    requires WithinMergeGap(MergedRow(group).endDate, row.startDate)
    ensures GroupIsLinked(group + [row])
  {
    hide Linked, MergedRow;
    var all := group + [row];
    LinkToLatestEnd(group, row);
    var last :| 0 <= last < |group| && Linked(group[last], row);
    assert Linked(all[last], all[|group|]);
    forall k | 1 <= k < |all| ensures LinkedBack(all, k) {
      if k < |group| {
        assert LinkedBack(group, k);
        var m :| 0 <= m < k && Linked(group[m], group[k]);
        assert Linked(all[m], all[k]);
      }
    }
  }

  ghost predicate StartsFrom(rows: seq<Employment>, day: int) {
    forall i :: 0 <= i < |rows| ==> rows[i].startDate.Some? && day <= rows[i].startDate.value
  }

  lemma {:induction false} GroupsStartFrom(group: seq<Employment>, rows: seq<Employment>, day: int)
    requires group != [] && StartsFrom(group, day) && StartsFrom(rows, day)
    ensures forall g :: 0 <= g < |Groups(group, rows)| ==> StartsFrom(Groups(group, rows)[g], day)
    decreases rows
  {
    hide MergedRow, WithinMergeGap;
    if rows == [] {
    } else {
      GroupsStartFrom(group + [rows[0]], rows[1..], day);
      GroupsStartFrom([rows[0]], rows[1..], day);
    }
  }

  lemma EndedBefore(group: seq<Employment>, later: seq<Employment>, day: int)
    requires GroupIsLinked(group) && StartsFrom(later, day)
    requires MergedRow(group).endDate.Some? &&
      day - MergedRow(group).endDate.value > EMPLOYMENT_MERGE_GAP_DAYS
    ensures forall i, j :: 0 <= i < |group| && 0 <= j < |later| ==> Apart(group[i], later[j])
  {
    MergedRowSpans(group);
    hide MergedRow, GroupIsLinked;
    forall i, j | 0 <= i < |group| && 0 <= j < |later| ensures Apart(group[i], later[j]) {
      assert EndsBy(group[i].endDate, MergedRow(group).endDate);
    }
  }

  /** A finished group in front of groups that all start late enough. */
  lemma PrependGroup(group: seq<Employment>, groups: seq<seq<Employment>>, day: int)
    requires GroupIsLinked(group) && Components(groups)
    requires MergedRow(group).endDate.Some? &&
      day - MergedRow(group).endDate.value > EMPLOYMENT_MERGE_GAP_DAYS
    requires forall g :: 0 <= g < |groups| ==> StartsFrom(groups[g], day)
    ensures Components([group] + groups)
  {
    hide MergedRow, GroupIsLinked, StartsFrom, Apart;
    var next := [group] + groups;
    forall g, h, i, j | 0 <= g < h < |next| && 0 <= i < |next[g]| && 0 <= j < |next[h]|
      ensures Apart(next[g][i], next[h][j])
    {
      assert next[h] == groups[h - 1];
      if g == 0 {
        EndedBefore(group, groups[h - 1], day);
      } else {
        assert next[g] == groups[g - 1];
      }
    }
  }

  ghost predicate StartsInOrder(group: seq<Employment>, rows: seq<Employment>)
    requires AllDated(group) && AllDated(rows)
  {
    && (forall i, j :: 0 <= i < |group| && 0 <= j < |rows| ==>
          group[i].startDate.value <= rows[j].startDate.value)
    && (forall i, j :: 0 <= i < j < |rows| ==> rows[i].startDate.value <= rows[j].startDate.value)
  }

  lemma {:induction false} GroupsAreComponents(group: seq<Employment>, rows: seq<Employment>)
    requires GroupIsLinked(group) && AllDated(rows) && StartsInOrder(group, rows)
    ensures Components(Groups(group, rows))
    decreases rows
  {
    hide MergedRow;
    if rows == [] {
    } else {
      var row, rest := rows[0], rows[1..];
      if WithinMergeGap(MergedRow(group).endDate, row.startDate) {
        GrowGroup(group, row);
        GroupsAreComponents(group + [row], rest);
      } else {
        OneIsLinked(row);
        GroupsAreComponents([row], rest);
        GroupsStartFrom([row], rest, row.startDate.value);
        PrependGroup(group, Groups([row], rest), row.startDate.value);
      }
    }
  }

  /** The groups of a dated bucket: linked within, more than 90 days apart between, and
      together the bucket's rows. */
  lemma BucketComponents(bucket: seq<Employment>)
    requires AllDated(bucket)
    ensures Components(GroupsOf(bucket))
    ensures multiset(Flatten(GroupsOf(bucket))) == multiset(bucket)
    ensures MergeBucket(bucket) == MergedRows(GroupsOf(bucket))
  {
    hide Sort, GroupIsLinked, Groups, MergedRow;
    var sorted := Sort(StartsBefore(), bucket);
    BucketFollowsGroups(bucket);
    SortPermutes(StartsBefore(), bucket);
    SortSorts(StartsBefore(), bucket);
    PermutedDated(bucket, sorted);
    if sorted != [] {
      forall i, j | 0 <= i < j < |sorted|
        ensures sorted[i].startDate.value <= sorted[j].startDate.value
      {
        assert !StartsBefore()(sorted[j], sorted[i]);
      }
      OneIsLinked(sorted[0]);
      GroupsAreComponents([sorted[0]], sorted[1..]);
      GroupsKeepRows([sorted[0]], sorted[1..]);
      assert [sorted[0]] + sorted[1..] == sorted;
    }
  }

  lemma OneIsLinked(row: Employment)
    requires Dated(row)
    ensures GroupIsLinked([row])
  {
  }

  lemma PermutedDated(rows: seq<Employment>, other: seq<Employment>)
    requires AllDated(rows) && multiset(rows) == multiset(other)
    ensures AllDated(other)
  {
    forall i | 0 <= i < |other| ensures Dated(other[i]) {
      MembersOfPermutation(other, rows, other[i]);
    }
  }

  // ---------------------------------------------------------------- connectivity

  lemma LinkConnects(bucket: seq<Employment>, a: Employment, b: Employment)
    requires a in bucket && b in bucket && Linked(a, b)
    ensures Connected(bucket, a, b)
  {
    assert Chain(bucket, [a, b]);
  }

  lemma SelfConnected(bucket: seq<Employment>, a: Employment)
    requires a in bucket
    ensures Connected(bucket, a, a)
  {
    assert Chain(bucket, [a]);
  }

  lemma ConnectedTransitive(bucket: seq<Employment>, a: Employment, b: Employment, c: Employment)
    requires Connected(bucket, a, b) && Connected(bucket, b, c)
    ensures Connected(bucket, a, c)
  {
    hide Linked;
    var p :| Chain(bucket, p) && p[0] == a && p[|p| - 1] == b;
    var q :| Chain(bucket, q) && q[0] == b && q[|q| - 1] == c;
    var path := p + q[1..];
    assert forall i :: 0 <= i < |p| ==> path[i] == p[i];
    assert forall i :: |p| - 1 <= i < |path| ==> path[i] == q[i - (|p| - 1)];
    forall i | 0 <= i < |path| - 1 ensures Linked(path[i], path[i + 1]) {
      if i < |p| - 1 {
        assert Linked(p[i], p[i + 1]);
      } else {
        assert Linked(q[i - (|p| - 1)], q[i - (|p| - 1) + 1]);
      }
    }
    assert Chain(bucket, path);
  }

  lemma ConnectedSymmetric(bucket: seq<Employment>, a: Employment, b: Employment)
    requires Connected(bucket, a, b)
    ensures Connected(bucket, b, a)
  {
    var p :| Chain(bucket, p) && p[0] == a && p[|p| - 1] == b;
    var n := |p|;
    var path := seq(n, i requires 0 <= i < n => p[n - 1 - i]);
    forall i | 0 <= i < n - 1 ensures Linked(path[i], path[i + 1]) {
      assert Linked(p[n - 2 - i], p[n - 2 - i + 1]);
    }
    assert Chain(bucket, path);
  }

  lemma {:induction false} GroupConnects(bucket: seq<Employment>, group: seq<Employment>, k: nat)
    requires GroupIsLinked(group) && k < |group|
    requires forall i :: 0 <= i < |group| ==> group[i] in bucket
    ensures Connected(bucket, group[0], group[k])
    decreases k
  {
    hide Connected, Linked;
    if k == 0 {
      SelfConnected(bucket, group[0]);
    } else {
      assert LinkedBack(group, k);
      var m :| 0 <= m < k && Linked(group[m], group[k]);
      GroupConnects(bucket, group, m);
      LinkConnects(bucket, group[m], group[k]);
      ConnectedTransitive(bucket, group[0], group[m], group[k]);
    }
  }

  /** Which group a row is in. */
  ghost predicate InGroup(groups: seq<seq<Employment>>, g: nat, row: Employment) {
    g < |groups| && row in groups[g]
  }

  lemma LinkStaysInGroup(groups: seq<seq<Employment>>, g: nat, h: nat, a: Employment, b: Employment)
    requires Components(groups) && InGroup(groups, g, a) && InGroup(groups, h, b) && Linked(a, b)
    ensures g == h
  {
    hide GroupIsLinked;
    var i :| 0 <= i < |groups[g]| && groups[g][i] == a;
    var j :| 0 <= j < |groups[h]| && groups[h][j] == b;
  }

  lemma {:induction false} EachRowHasGroup(groups: seq<seq<Employment>>, row: Employment)
    requires row in Flatten(groups)
    ensures exists g :: InGroup(groups, g, row)
  {
    if row in groups[0] {
      assert InGroup(groups, 0, row);
    } else {
      EachRowHasGroup(groups[1..], row);
      var g: nat :| InGroup(groups[1..], g, row);
      assert InGroup(groups, g + 1, row);
    }
  }

  lemma {:induction false} GroupRowsAreRows(groups: seq<seq<Employment>>, g: nat, row: Employment)
    requires InGroup(groups, g, row)
    ensures row in Flatten(groups)
  {
    if g == 0 {
    } else {
      GroupRowsAreRows(groups[1..], g - 1, row);
    }
  }

  lemma {:induction false} ChainStaysInGroup(
    bucket: seq<Employment>, groups: seq<seq<Employment>>, path: seq<Employment>, g: nat, k: nat)
    requires Components(groups) && multiset(Flatten(groups)) == multiset(bucket)
    requires Chain(bucket, path) && InGroup(groups, g, path[0]) && k < |path|
    ensures InGroup(groups, g, path[k])
    ensures forall h :: InGroup(groups, h, path[k]) ==> h == g
    decreases k
  {
    hide Components, Linked, Flatten;
    MembersOfPermutation(bucket, Flatten(groups), path[k]);
    EachRowHasGroup(groups, path[k]);
    if k > 0 {
      ChainStaysInGroup(bucket, groups, path, g, k - 1);
      assert Linked(path[k - 1], path[k - 1 + 1]);
      forall h | InGroup(groups, h, path[k]) ensures h == g {
        LinkStaysInGroup(groups, g, h, path[k - 1], path[k]);
      }
    } else {
      forall h | InGroup(groups, h, path[0]) ensures h == g {
        SelfLinked(groups, g, path[0]);
        LinkStaysInGroup(groups, g, h, path[0], path[0]);
      }
    }
  }

  lemma SelfLinked(groups: seq<seq<Employment>>, g: nat, row: Employment)
    requires Components(groups) && InGroup(groups, g, row)
    ensures Linked(row, row)
  {
    assert GroupIsLinked(groups[g]);
  }

  /** Two rows of a firm end up in the same merged row exactly when a chain of rows with
      gaps of at most 90 days joins them. */
  lemma SameGroupIffConnected(bucket: seq<Employment>, g: nat, h: nat, a: Employment, b: Employment)
    requires AllDated(bucket)
    requires InGroup(GroupsOf(bucket), g, a) && InGroup(GroupsOf(bucket), h, b)
    ensures g == h <==> Connected(bucket, a, b)
  {
    hide GroupsOf, Linked;
    var groups := GroupsOf(bucket);
    BucketComponents(bucket);
    if g == h {
      forall i | 0 <= i < |groups[g]| ensures groups[g][i] in bucket {
        GroupRowsAreRows(groups, g, groups[g][i]);
        MembersOfPermutation(Flatten(groups), bucket, groups[g][i]);
      }
      var i :| 0 <= i < |groups[g]| && groups[g][i] == a;
      var j :| 0 <= j < |groups[g]| && groups[g][j] == b;
      GroupConnects(bucket, groups[g], i);
      GroupConnects(bucket, groups[g], j);
      ConnectedSymmetric(bucket, groups[g][0], a);
      ConnectedTransitive(bucket, a, groups[g][0], b);
    } else if Connected(bucket, a, b) {
      var path :| Chain(bucket, path) && path[0] == a && path[|path| - 1] == b;
      ChainStaysInGroup(bucket, groups, path, g, |path| - 1);
    }
  }

  /** Every source row stands behind some merged row. */
  lemma EveryRowIsMerged(bucket: seq<Employment>, row: Employment)
    requires AllDated(bucket) && row in bucket
    ensures exists g :: InGroup(GroupsOf(bucket), g, row)
  {
    hide GroupsOf, Flatten;
    BucketComponents(bucket);
    MembersOfPermutation(bucket, Flatten(GroupsOf(bucket)), row);
    EachRowHasGroup(GroupsOf(bucket), row);
  }

  /** Rows that span groups lying apart lie apart themselves. */
  lemma SpansApart(groups: seq<seq<Employment>>, g: nat, h: nat, a: Employment, b: Employment)
    requires GroupsApart(groups) && g < h < |groups| && Spans(a, groups[g]) && Spans(b, groups[h])
    ensures Apart(a, b)
  {
    var e :| 0 <= e < |groups[g]| && groups[g][e].endDate == a.endDate;
    var s :| 0 <= s < |groups[h]| && groups[h][s].startDate == b.startDate;
    assert Apart(groups[g][e], groups[h][s]);
  }

  /** The merged rows: one per component, spanning it, in start order, more than 90 days
      apart, and with at most the last one open. */
  lemma MergedRowsSpanComponents(bucket: seq<Employment>)
    requires AllDated(bucket)
    ensures var merged := MergeBucket(bucket);
      && |merged| == |GroupsOf(bucket)|
      && (forall g :: 0 <= g < |merged| ==> Spans(merged[g], GroupsOf(bucket)[g]))
      && (forall g, h :: 0 <= g < h < |merged| ==> Apart(merged[g], merged[h]))
      && AllDated(merged)
    ensures forall g :: 0 <= g < |MergeBucket(bucket)| ==>
      (MergeBucket(bucket)[g].iaOnly <==>
        forall i :: 0 <= i < |GroupsOf(bucket)[g]| ==> GroupsOf(bucket)[g][i].iaOnly)
  {
    hide GroupsOf, MergeBucket, MergedRow, Linked, Spans, Apart;
    BucketComponents(bucket);
    var groups := GroupsOf(bucket);
    var merged := MergedRows(groups);
    forall g | 0 <= g < |groups|
      ensures Spans(merged[g], groups[g]) && Dated(merged[g])
      ensures merged[g].iaOnly <==> forall i :: 0 <= i < |groups[g]| ==> groups[g][i].iaOnly
    {
      assert GroupIsLinked(groups[g]);
      MergedRowSpans(groups[g]);
      SpanIsDated(merged[g], groups[g]);
    }
    forall g, h | 0 <= g < h < |groups| ensures Apart(merged[g], merged[h]) {
      SpansApart(groups, g, h, merged[g], merged[h]);
    }
  }

  lemma SpanIsDated(row: Employment, group: seq<Employment>)
    requires AllDated(group) && Spans(row, group)
    ensures Dated(row)
  {
    var s :| 0 <= s < |group| && group[s].startDate == row.startDate;
    assert EndsBy(group[s].endDate, row.endDate);
  }

  /** A detail counts as missing when it is absent or the empty string. */
  lemma FilledIff(detail: Option<string>)
    ensures Filled(detail) <==> detail != None && detail != Some("")
  {
  }

  /** Of two start dates the earlier one is kept, or the only one; an end date stays open when
      either is open, else the later one is kept. */
  lemma KeptDates(left: Option<int>, right: Option<int>)
    ensures EarlierDate(left, right) == None <==> left == None && right == None
    ensures EarlierDate(left, right).Some? ==>
      var kept := EarlierDate(left, right).value;
      && (left == Some(kept) || right == Some(kept))
      && (left.Some? ==> kept <= left.value) && (right.Some? ==> kept <= right.value)
    ensures LaterNullableDate(left, right) == None <==> left == None || right == None
    ensures LaterNullableDate(left, right).Some? ==>
      var kept := LaterNullableDate(left, right).value;
      (left == Some(kept) || right == Some(kept)) && kept >= left.value && kept >= right.value
  {
  }

  /** The gap in days: a row that ended joins one that starts at most 90 days later; an open
      row joins any, and a row that ended joins none without a start. */
  lemma GapIsNinetyDays(prevEnd: int, nextStart: int)
    ensures WithinMergeGap(Some(prevEnd), Some(nextStart)) <==> nextStart - prevEnd <= 90
    ensures WithinMergeGap(None, Some(nextStart)) && WithinMergeGap(None, None)
    ensures !WithinMergeGap(Some(prevEnd), None)
  {
  }
}
