/** An advisor's current employment: a sort and a last-write-wins map standing in for the
    scan that keeps the first latest open row (src/harper/resource-search.ts). */
module CurrentEmployment {
  import opened Sequences
  import opened StableSort
  import opened InsertionMaps

  /** `start` is the start date as `dateMs` reads it: milliseconds, zero when unreadable. */
  datatype Employment = Employment(advisorId: string, firmId: string, start: int, ended: bool)

  datatype Indexed = Indexed(row: Employment, index: nat)

  const WINNER_LAST: (Indexed, Indexed) -> bool :=
    (a: Indexed, b: Indexed) =>
      a.row.start < b.row.start || (a.row.start == b.row.start && a.index > b.index)

  const IS_OPEN: Indexed -> bool := (x: Indexed) => !x.row.ended

  function Indexes(rows: seq<Employment>): (r: seq<Indexed>)
    ensures |r| == |rows| && forall i :: 0 <= i < |rows| ==> r[i] == Indexed(rows[i], i)
  {
    seq(|rows|, i requires 0 <= i < |rows| => Indexed(rows[i], i))
  }

  function Ordered(rows: seq<Employment>): seq<Indexed> {
    Sort(WINNER_LAST, Filter(Indexes(rows), IS_OPEN))
  }

  function ByAdvisor(ordered: seq<Indexed>): seq<Entry<string, Employment>> {
    Map(ordered, (x: Indexed) => Entry(x.row.advisorId, x.row))
  }

  function CurrentEmploymentByAdvisor(rows: seq<Employment>): seq<Entry<string, Employment>> {
    PutAll([], ByAdvisor(Ordered(rows)))
  }

  /** The plain scan: the first open row of the advisor that no later row beats. */
  function FirstLatest(rows: seq<Employment>, advisorId: string, best: Option<Employment>): Option<Employment>
    decreases rows
  {
    if rows == [] then best
    else
      var row := rows[0];
      var better := row.advisorId == advisorId && !row.ended && (best.None? || row.start > best.value.start);
      FirstLatest(rows[1..], advisorId, if better then Some(row) else best)
  }

  predicate Candidate(row: Employment, advisorId: string) {
    row.advisorId == advisorId && !row.ended
  }

  /** `rows[i]` is the earliest row among the advisor's open rows with the latest start. */
  ghost predicate Wins(rows: seq<Employment>, advisorId: string, i: int) {
    && 0 <= i < |rows| && Candidate(rows[i], advisorId)
    && forall j :: 0 <= j < |rows| && Candidate(rows[j], advisorId) ==>
         rows[j].start < rows[i].start || (rows[j].start == rows[i].start && i <= j)
  }

  lemma {:induction false} ScanFindsWinner(
    done: seq<Employment>, rows: seq<Employment>, advisorId: string, best: Option<Employment>)
    requires best.None? ==> forall j :: 0 <= j < |done| ==> !Candidate(done[j], advisorId)
    requires best.Some? ==> exists i :: Wins(done, advisorId, i) && done[i] == best.value
    ensures var all, found := done + rows, FirstLatest(rows, advisorId, best);
      && (found.None? ==> forall j :: 0 <= j < |all| ==> !Candidate(all[j], advisorId))
      && (found.Some? ==> exists i :: Wins(all, advisorId, i) && all[i] == found.value)
    decreases rows
  {
    if rows == [] {
      assert done + rows == done;
    } else {
      var row := rows[0];
      var more := done + [row];
      assert done + rows == more + rows[1..];
      var better := Candidate(row, advisorId) && (best.None? || row.start > best.value.start);
      if better {
        assert Wins(more, advisorId, |done|);
      } else if best.Some? {
        var i :| Wins(done, advisorId, i) && done[i] == best.value;
        assert Wins(more, advisorId, i) && more[i] == best.value;
      }
      ScanFindsWinner(more, rows[1..], advisorId, if better then Some(row) else best);
    }
  }

  lemma WinnerIsUnique(rows: seq<Employment>, advisorId: string, i: int, j: int)
    requires Wins(rows, advisorId, i) && Wins(rows, advisorId, j)
    ensures i == j
  {
  }

  lemma OrderIsStrictWeak()
    ensures StrictWeakOrder(WINNER_LAST)
  {
  }

  lemma OrderedMembers(rows: seq<Employment>, x: Indexed)
    ensures x in Ordered(rows) <==> x.index < |rows| && x.row == rows[x.index] && !x.row.ended
  {
    hide Sort;
    var open := Filter(Indexes(rows), IS_OPEN);
    SortPermutes(WINNER_LAST, open);
    FilterMembers(Indexes(rows), IS_OPEN, x);
    if x in open {
      MembersOfPermutation(open, Ordered(rows), x);
    }
    if x in Ordered(rows) {
      MembersOfPermutation(Ordered(rows), open, x);
    }
    if x.index < |rows| && x.row == rows[x.index] {
      assert Indexes(rows)[x.index] == x;
    }
  }

  lemma OrderedIsSorted(rows: seq<Employment>, i: nat, j: nat)
    requires i < j < |Ordered(rows)|
    ensures !WINNER_LAST(Ordered(rows)[j], Ordered(rows)[i])
  {
    OrderIsStrictWeak();
    SortSorts(WINNER_LAST, Filter(Indexes(rows), IS_OPEN));
  }

  lemma LastOfAdvisorWins(rows: seq<Employment>, advisorId: string, k: nat)
    requires k < |Ordered(rows)| && Ordered(rows)[k].row.advisorId == advisorId
    requires forall j :: k < j < |Ordered(rows)| ==> Ordered(rows)[j].row.advisorId != advisorId
    ensures Wins(rows, advisorId, Ordered(rows)[k].index) && rows[Ordered(rows)[k].index] == Ordered(rows)[k].row
  {
    hide Ordered, Sorted;
    var ordered := Ordered(rows);
    var winner := ordered[k];
    OrderedMembers(rows, winner);
    forall j | 0 <= j < |rows| && Candidate(rows[j], advisorId)
      ensures rows[j].start < winner.row.start || (rows[j].start == winner.row.start && winner.index <= j)
    {
      var other := Indexed(rows[j], j);
      OrderedMembers(rows, other);
      var at :| 0 <= at < |ordered| && ordered[at] == other;
      if at < k {
        OrderedIsSorted(rows, at, k);
      }
    }
  }

  lemma NoRowNoCandidate(rows: seq<Employment>, advisorId: string)
    requires forall k :: 0 <= k < |Ordered(rows)| ==> Ordered(rows)[k].row.advisorId != advisorId
    ensures forall j :: 0 <= j < |rows| ==> !Candidate(rows[j], advisorId)
  {
    hide Ordered;
    forall j | 0 <= j < |rows| ensures !Candidate(rows[j], advisorId) {
      OrderedMembers(rows, Indexed(rows[j], j));
    }
  }

  /** What the map holds, in terms of the winning row. */
  lemma MapHoldsWinner(rows: seq<Employment>, advisorId: string) returns (i: int)
    ensures i == -1 ==>
      Lookup(CurrentEmploymentByAdvisor(rows), advisorId) == None &&
      forall j :: 0 <= j < |rows| ==> !Candidate(rows[j], advisorId)
    ensures i != -1 ==>
      Wins(rows, advisorId, i) && Lookup(CurrentEmploymentByAdvisor(rows), advisorId) == Some(rows[i])
  {
    hide Ordered, PutAll, Wins;
    var ordered := Ordered(rows);
    var entries := ByAdvisor(ordered);
    assert forall k :: 0 <= k < |ordered| ==>
      entries[k].key == ordered[k].row.advisorId && entries[k].value == ordered[k].row;
    var last := LastEntry(entries, advisorId);
    if last == -1 {
      i := -1;
      PutAllMiss([], entries, advisorId);
      NoRowNoCandidate(rows, advisorId);
    } else {
      PutAllHit([], entries, advisorId, last);
      LastOfAdvisorWins(rows, advisorId, last);
      i := ordered[last].index;
    }
  }

  /** The sorted map holds, per advisor, what the plain scan finds: the lowest-index open row
      with the latest start, and nothing for an advisor without an open row. */
  lemma MapAgreesWithScan(rows: seq<Employment>, advisorId: string)
    ensures Lookup(CurrentEmploymentByAdvisor(rows), advisorId) == FirstLatest(rows, advisorId, None)
    ensures Lookup(CurrentEmploymentByAdvisor(rows), advisorId).None? <==>
      forall j :: 0 <= j < |rows| ==> !Candidate(rows[j], advisorId)
    ensures Lookup(CurrentEmploymentByAdvisor(rows), advisorId).Some? ==>
      exists i :: Wins(rows, advisorId, i) && Lookup(CurrentEmploymentByAdvisor(rows), advisorId) == Some(rows[i])
  {
    hide CurrentEmploymentByAdvisor, FirstLatest, Lookup;
    assert [] + rows == rows;
    ScanFindsWinner([], rows, advisorId, None);
    var i := MapHoldsWinner(rows, advisorId);
    if i != -1 {
      var j :| Wins(rows, advisorId, j) && Some(rows[j]) == FirstLatest(rows, advisorId, None);
      WinnerIsUnique(rows, advisorId, i, j);
    }
  }

  /** `currentFirmNameByAdvisor`: advisors whose current firm is unknown are left out. */
  function CurrentFirmNames(rows: seq<Employment>, firmNames: map<string, string>): seq<Entry<string, string>> {
    NamesOf(CurrentEmploymentByAdvisor(rows), firmNames)
  }

  function NamesOf(
    current: seq<Entry<string, Employment>>, firmNames: map<string, string>): seq<Entry<string, string>>
  {
    if current == [] then []
    else
      (if current[0].value.firmId in firmNames
       then [Entry(current[0].key, firmNames[current[0].value.firmId])] else []) +
      NamesOf(current[1..], firmNames)
  }

  lemma {:induction false} NameLookup(
    current: seq<Entry<string, Employment>>, firmNames: map<string, string>, advisorId: string)
    requires DistinctKeys(current)
    ensures Lookup(NamesOf(current, firmNames), advisorId) ==
      var employment := Lookup(current, advisorId);
      if employment.Some? && employment.value.firmId in firmNames
      then Some(firmNames[employment.value.firmId]) else None
  {
    if current == [] {
    } else {
      var rest := NamesOf(current[1..], firmNames);
      NameLookup(current[1..], firmNames, advisorId);
      LookupNone(current[1..], current[0].key);
      if current[0].value.firmId in firmNames {
        assert NamesOf(current, firmNames)[1..] == rest;
      } else {
        assert NamesOf(current, firmNames) == rest;
      }
    }
  }

  lemma {:induction false} PutAllDistinct<V>(m: seq<Entry<string, V>>, entries: seq<Entry<string, V>>)
    requires DistinctKeys(m)
    ensures DistinctKeys(PutAll(m, entries))
    decreases entries
  {
    if entries == [] {
    } else {
      PutKeys(m, entries[0].key, entries[0].value);
      PutAllDistinct(Put(m, entries[0].key, entries[0].value), entries[1..]);
    }
  }

  /** The subtitle shown for an advisor is the firm of the row the scan finds. */
  lemma FirmNameIsScannedFirm(rows: seq<Employment>, firmNames: map<string, string>, advisorId: string)
    ensures Lookup(CurrentFirmNames(rows, firmNames), advisorId) ==
      var employment := FirstLatest(rows, advisorId, None);
      if employment.Some? && employment.value.firmId in firmNames
      then Some(firmNames[employment.value.firmId]) else None
  {
    hide Lookup, FirstLatest, PutAll, Ordered, NamesOf;
    MapAgreesWithScan(rows, advisorId);
    PutAllDistinct([], ByAdvisor(Ordered(rows)));
    NameLookup(CurrentEmploymentByAdvisor(rows), firmNames, advisorId);
  }
}
