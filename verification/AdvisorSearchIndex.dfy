/** The diff-based token reindexer and its batched writes (src/lib/advisor-search-index.ts).
    A row id stands for the label that UUIDv5 hashes; the hash is taken as injective. */
module AdvisorSearchIndex {
  import opened Sequences
  import opened Texts
  import opened AdvisorTokens

  const REST_BATCH_SIZE: nat := 25

  datatype IndexRow = IndexRow(id: Text, advisorId: Text, token: Text, kind: TokenKind)

  function Ascii(s: string): Text {
    seq(|s|, i requires 0 <= i < |s| => (s[i] as int % 0x1_0000) as CodeUnit)
  }

  function KindName(kind: TokenKind): Text {
    match kind
    case Name => Ascii("name")
    case FirstName => Ascii("firstName")
    case LastName => Ascii("lastName")
    case PreferredName => Ascii("preferredName")
    case Alias => Ascii("alias")
  }

  /** The label `ASI:advisorId:kind:token` that `advisorSearchIndexId` hashes. */
  function Label(advisorId: Text, kind: TokenKind, token: Text): Text {
    Ascii("ASI:") + (advisorId + [COLON] + (KindName(kind) + [COLON] + token))
  }

  lemma KindNames(kind: TokenKind, kind': TokenKind)
    ensures COLON !in KindName(kind)
    ensures KindName(kind) == KindName(kind') ==> kind == kind'
  {
    assert |KindName(kind)| == |KindName(kind')| ==> kind == kind';
  }

  /** One label names one row, for advisor ids without a colon (UUIDs have none). */
  lemma LabelIsInjective(a: Text, kind: TokenKind, t: Text, a': Text, kind': TokenKind, t': Text)
    requires COLON !in a && COLON !in a'
    ensures Label(a, kind, t) == Label(a', kind', t') <==> a == a' && kind == kind' && t == t'
  {
    if Label(a, kind, t) == Label(a', kind', t') {
      var tail, tail' := KindName(kind) + [COLON] + t, KindName(kind') + [COLON] + t';
      var body, body' := a + [COLON] + tail, a' + [COLON] + tail';
      assert body == Label(a, kind, t)[4..] && body' == Label(a', kind', t')[4..];
      FirstSeparatorDecides(COLON, a, a', tail, tail');
      KindNames(kind, kind');
      KindNames(kind', kind);
      FirstSeparatorDecides(COLON, KindName(kind), KindName(kind'), t, t');
    }
  }

  lemma AsciiConcat(a: string, b: string)
    ensures Ascii(a + b) == Ascii(a) + Ascii(b)
  {
  }

  /** The label of an ASCII row, written out. */
  lemma LabelSpells(advisorId: string, token: string)
    ensures Label(Ascii(advisorId), Name, Ascii(token)) == Ascii("ASI:" + advisorId + ":name:" + token)
    ensures Label(Ascii(advisorId), FirstName, Ascii(token)) == Ascii("ASI:" + advisorId + ":firstName:" + token)
    ensures Label(Ascii(advisorId), LastName, Ascii(token)) == Ascii("ASI:" + advisorId + ":lastName:" + token)
    ensures Label(Ascii(advisorId), PreferredName, Ascii(token)) ==
            Ascii("ASI:" + advisorId + ":preferredName:" + token)
  {
    hide Ascii, Label;
    LabelJoins(advisorId, "name", ":name:", Name, token);
    LabelJoins(advisorId, "firstName", ":firstName:", FirstName, token);
    LabelJoins(advisorId, "lastName", ":lastName:", LastName, token);
    LabelJoins(advisorId, "preferredName", ":preferredName:", PreferredName, token);
  }

  lemma LabelJoins(advisorId: string, name: string, part: string, kind: TokenKind, token: string)
    requires KindName(kind) == Ascii(name) && part == ":" + name + ":"
    ensures Label(Ascii(advisorId), kind, Ascii(token)) == Ascii("ASI:" + advisorId + part + token)
  {
    hide KindName, Ascii;
    AsciiConcat("ASI:" + advisorId + part, token);
    AsciiConcat("ASI:" + advisorId, part);
    AsciiConcat("ASI:", advisorId);
    AsciiConcat(":" + name, ":");
    AsciiConcat(":", name);
    AsciiColon();
  }

  lemma AsciiColon()
    ensures Ascii(":") == [COLON]
  {
  }

  /** Why colons are excluded: with one in an advisor id two rows could share a label. Advisor
      ids are UUIDs, so this is not an input the program receives. */
  lemma LabelsCollideWithColons()
    ensures Label([120], Name, Ascii("lastName:y")) == Label(Ascii("x:name"), LastName, [121])
  {
    AsciiConcat("x:", "name");
    AsciiConcat("lastName", ":y");
    assert "x:" + "name" == "x:name" && "lastName" + ":y" == "lastName:y";
    assert Ascii("x:") == [120, COLON] && Ascii(":y") == [COLON, 121];
    var prefix := Ascii("ASI:");
    var shared := [120, COLON] + Ascii("name") + [COLON] + Ascii("lastName") + [COLON, 121];
    assert Label([120], Name, Ascii("lastName:y")) == prefix + shared;
    assert Label(Ascii("x:name"), LastName, [121]) == prefix + shared;
  }

  // ---------------------------------------------------------------- desired rows

  type Advisors = map<Text, AdvisorNames>

  function DesiredRowsFor(advisorId: Text, names: AdvisorNames): seq<IndexRow> {
    Map(TokensForAdvisor(names), (t: AdvisorToken) =>
      IndexRow(Label(advisorId, t.kind, t.token), advisorId, t.token, t.kind))
  }

  /** The rows an advisor should have; none once the advisor is gone. */
  function Desired(advisors: Advisors, advisorId: Text): (rows: seq<IndexRow>)
    ensures forall i :: 0 <= i < |rows| ==> WellLabelled(rows[i]) && rows[i].advisorId == advisorId
  {
    if advisorId in advisors then DesiredRowsFor(advisorId, advisors[advisorId]) else []
  }

  predicate WellLabelled(row: IndexRow) {
    row.id == Label(row.advisorId, row.kind, row.token)
  }

  type Table = map<Text, IndexRow>

  /** Rows sit under their own label and name colon-free advisors. */
  ghost predicate ValidTable(table: Table) {
    forall id :: id in table ==>
      table[id].id == id && WellLabelled(table[id]) && COLON !in table[id].advisorId
  }

  ghost predicate InSync(table: Table, advisors: Advisors, advisorId: Text) {
    forall row: IndexRow :: (row.id in table && table[row.id] == row && row.advisorId == advisorId) <==>
      row in Desired(advisors, advisorId)
  }

  /** Between an old and a desired table, for the advisors being reindexed: nothing wanted
      that was there is lost, nothing else appears, and other advisors' rows stay. */
  ghost predicate Bounded(before: Table, now: Table, advisors: Advisors, ids: seq<Text>) {
    && (forall id :: id in now ==>
          || (id in before && now[id] == before[id])
          || (now[id].advisorId in ids && now[id] in Desired(advisors, now[id].advisorId)))
    && (forall id :: id in before && id !in now ==>
          before[id].advisorId in ids && before[id] !in Desired(advisors, before[id].advisorId))
    && (forall id :: id in before && id in now ==> now[id] == before[id])
  }

  // ---------------------------------------------------------------- diff

  datatype Diff = Diff(toAdd: seq<IndexRow>, toRemove: seq<IndexRow>)

  function NotAmong(rows: seq<IndexRow>): IndexRow -> bool {
    (row: IndexRow) => forall i :: 0 <= i < |rows| ==> rows[i].id != row.id
  }

  /** `diffOne`, by row id. */
  function DiffOne(existing: seq<IndexRow>, desired: seq<IndexRow>): Diff {
    Diff(Filter(desired, NotAmong(existing)), Filter(existing, NotAmong(desired)))
  }

  /** A listing of exactly an advisor's rows in the table. */
  ghost predicate Lists(table: Table, advisorId: Text, rows: seq<IndexRow>) {
    forall row :: row in rows <==> row.id in table && table[row.id] == row && row.advisorId == advisorId
  }

  /** The additions and removals collected for a run. */
  ghost predicate DiffFor(table: Table, advisors: Advisors, ids: seq<Text>, diff: Diff) {
    && (forall row :: row in diff.toAdd <==>
          row.advisorId in ids && row in Desired(advisors, row.advisorId) && row.id !in table)
    && (forall row :: row in diff.toRemove <==>
          row.id in table && table[row.id] == row && row.advisorId in ids &&
          row !in Desired(advisors, row.advisorId))
  }

  ghost predicate ColonFree(ids: seq<Text>) {
    forall id :: id in ids ==> COLON !in id
  }

  lemma SameIdSameRow(row: IndexRow, other: IndexRow)
    requires WellLabelled(row) && WellLabelled(other)
    requires COLON !in row.advisorId && COLON !in other.advisorId
    ensures row.id == other.id <==> row == other
  {
    hide Label;
    LabelIsInjective(row.advisorId, row.kind, row.token, other.advisorId, other.kind, other.token);
  }

  lemma AddsAreMissing(table: Table, advisors: Advisors, advisorId: Text, existing: seq<IndexRow>)
    requires ValidTable(table) && COLON !in advisorId && Lists(table, advisorId, existing)
    ensures var desired := Desired(advisors, advisorId);
      forall row :: row in DiffOne(existing, desired).toAdd <==> row in desired && row.id !in table
  {
    hide Label, Desired, WellLabelled, Filter;
    var desired := Desired(advisors, advisorId);
    forall row ensures row in DiffOne(existing, desired).toAdd <==> row in desired && row.id !in table {
      FilterMembers(desired, NotAmong(existing), row);
      if row in desired && row.id in table {
        SameIdSameRow(row, table[row.id]);
        assert row in existing;
      }
      if row in desired && !NotAmong(existing)(row) {
        var i :| 0 <= i < |existing| && existing[i].id == row.id;
        assert existing[i] in existing;
      }
    }
  }

  lemma RemovesAreExtra(table: Table, advisors: Advisors, advisorId: Text, existing: seq<IndexRow>)
    requires ValidTable(table) && COLON !in advisorId && Lists(table, advisorId, existing)
    ensures var desired := Desired(advisors, advisorId);
      forall row :: row in DiffOne(existing, desired).toRemove <==> row in existing && row !in desired
  {
    hide Label, Desired, WellLabelled, Filter;
    var desired := Desired(advisors, advisorId);
    forall row ensures row in DiffOne(existing, desired).toRemove <==> row in existing && row !in desired {
      FilterMembers(existing, NotAmong(desired), row);
      if row in existing && !NotAmong(desired)(row) {
        var i :| 0 <= i < |desired| && desired[i].id == row.id;
        SameIdSameRow(row, desired[i]);
      }
    }
  }

  lemma DiffOneIsExact(table: Table, advisors: Advisors, advisorId: Text, existing: seq<IndexRow>)
    requires ValidTable(table) && COLON !in advisorId && Lists(table, advisorId, existing)
    ensures DiffFor(table, advisors, [advisorId], DiffOne(existing, Desired(advisors, advisorId)))
  {
    hide Label, Desired, WellLabelled, DiffOne;
    var desired := Desired(advisors, advisorId);
    var diff := DiffOne(existing, desired);
    AddsAreMissing(table, advisors, advisorId, existing);
    RemovesAreExtra(table, advisors, advisorId, existing);
    assert forall row :: row in desired ==> row.advisorId == advisorId;
  }

  lemma DiffsJoin(table: Table, advisors: Advisors, ids: seq<Text>, a: Text, diff: Diff, more: Diff)
    requires DiffFor(table, advisors, ids, diff) && DiffFor(table, advisors, [a], more)
    ensures DiffFor(table, advisors, ids + [a],
      Diff(diff.toAdd + more.toAdd, diff.toRemove + more.toRemove))
  {
    hide Desired;
    assert forall id :: id in ids + [a] <==> id in ids || id == a;
  }

  lemma NoDiff(table: Table, advisors: Advisors)
    ensures DiffFor(table, advisors, [], Diff([], []))
  {
  }

  /** Desired rows an advisor lacks, and rows it has but should not. */
  ghost function Missing(table: Table, advisors: Advisors, a: Text): set<IndexRow> {
    set row | row in Desired(advisors, a) && row.id !in table
  }

  ghost function Extra(table: Table, advisors: Advisors, a: Text): set<IndexRow> {
    set row | row in table.Values && row.advisorId == a && row !in Desired(advisors, a)
  }

  ghost function MissingCount(table: Table, advisors: Advisors, ids: seq<Text>): nat {
    if ids == [] then 0
    else MissingCount(table, advisors, ids[..|ids| - 1]) + |Missing(table, advisors, ids[|ids| - 1])|
  }

  ghost function ExtraCount(table: Table, advisors: Advisors, ids: seq<Text>): nat {
    if ids == [] then 0
    else ExtraCount(table, advisors, ids[..|ids| - 1]) + |Extra(table, advisors, ids[|ids| - 1])|
  }

  lemma DesiredIsDistinct(advisors: Advisors, a: Text)
    ensures Distinct(Desired(advisors, a))
  {
    hide TokensForAdvisor, Label;
    var rows := Desired(advisors, a);
    if a in advisors {
      TokensAreWordsThenName(advisors[a]);
      var texts := TokenTexts(TokensForAdvisor(advisors[a]));
      assert forall i :: 0 <= i < |rows| ==> rows[i].token == texts[i];
    }
  }

  lemma DiffOneCounts(table: Table, advisors: Advisors, a: Text, existing: seq<IndexRow>)
    requires ValidTable(table) && COLON !in a && Lists(table, a, existing) && Distinct(existing)
    ensures var diff := DiffOne(existing, Desired(advisors, a));
      |diff.toAdd| == |Missing(table, advisors, a)| && |diff.toRemove| == |Extra(table, advisors, a)|
  {
    hide Desired, Label, NotAmong;
    var desired := Desired(advisors, a);
    var diff := DiffOne(existing, desired);
    DiffOneIsExact(table, advisors, a, existing);
    DesiredIsDistinct(advisors, a);
    FilterDistinct(desired, NotAmong(existing));
    FilterDistinct(existing, NotAmong(desired));
    DistinctCount(diff.toAdd);
    DistinctCount(diff.toRemove);
    DesiredNames(advisors, a);
    assert (set row | row in diff.toAdd) == Missing(table, advisors, a);
    assert (set row | row in diff.toRemove) == Extra(table, advisors, a) by {
      forall row ensures row in diff.toRemove <==> row in Extra(table, advisors, a) {
        if row in table.Values {
          var id :| id in table && table[id] == row;
        }
      }
    }
  }

  lemma DesiredNames(advisors: Advisors, a: Text)
    ensures forall row :: row in Desired(advisors, a) ==> row.advisorId == a
  {
  }

  // ---------------------------------------------------------------- partial writes

  /** Some of the additions written, some of the removals deleted. */
  ghost predicate PartlyWritten(before: Table, now: Table, diff: Diff) {
    && (forall id :: id in now ==>
          (id in before && now[id] == before[id]) || (now[id].id == id && now[id] in diff.toAdd))
    && (forall id :: id in before ==>
          (id in now && now[id] == before[id]) || (id !in now && before[id] in diff.toRemove))
  }

  /** Whatever subset of its writes has reached the store, in whatever order, a run stays
      between the old rows and the desired ones. */
  lemma PartialWritesAreBounded(before: Table, now: Table, advisors: Advisors, ids: seq<Text>, diff: Diff)
    requires ValidTable(before) && ColonFree(ids) && DiffFor(before, advisors, ids, diff)
    requires PartlyWritten(before, now, diff)
    ensures Bounded(before, now, advisors, ids) && ValidTable(now)
  {
    hide Label;
    forall id | id in now
      ensures now[id].id == id && WellLabelled(now[id]) && COLON !in now[id].advisorId
    {
      if !(id in before && now[id] == before[id]) {
        assert now[id] in diff.toAdd;
      }
    }
  }

  /** With every addition written and every removal deleted the advisors are in sync. */
  lemma AllWritesSync(before: Table, now: Table, advisors: Advisors, ids: seq<Text>, diff: Diff, a: Text)
    requires ValidTable(before) && ColonFree(ids) && DiffFor(before, advisors, ids, diff)
    requires PartlyWritten(before, now, diff) && a in ids
    requires forall row :: row in diff.toAdd ==> row.id in now
    requires forall row :: row in diff.toRemove ==> row.id !in now
    ensures InSync(now, advisors, a)
  {
    hide Label, Desired, WellLabelled;
    forall row: IndexRow ensures (row.id in now && now[row.id] == row && row.advisorId == a) <==>
      row in Desired(advisors, a)
    {
      if row in Desired(advisors, a) {
        if row.id in before {
          SameIdSameRow(row, before[row.id]);
        } else {
          assert row in diff.toAdd && now[row.id] in diff.toAdd;
          SameIdSameRow(row, now[row.id]);
        }
      }
    }
  }

  lemma SomeMember<T>(xs: seq<T>)
    requires xs != []
    ensures exists x :: x in xs
  {
    assert xs[0] in xs;
  }

  /** Nothing is left to do for advisors that are in sync. */
  lemma SyncedDiffIsEmpty(table: Table, advisors: Advisors, ids: seq<Text>, diff: Diff)
    requires DiffFor(table, advisors, ids, diff)
    requires forall a :: a in ids ==> InSync(table, advisors, a)
    ensures diff.toAdd == [] && diff.toRemove == []
  {
    hide Desired;
    if diff.toAdd != [] {
      SomeMember(diff.toAdd);
    }
    if diff.toRemove != [] {
      SomeMember(diff.toRemove);
    }
  }

  // ---------------------------------------------------------------- the REST handle

  /** What became of one request: done, done but reported as failed, or not done. */
  datatype Fate = Done | Lost | Failed

  datatype Outcome = Reindexed(added: nat, removed: nat) | RequestsFailed

  /** Requests sent when whole batches go out and the first batch with a failure is the last. */
  ghost function RequestsSent(count: nat, fate: nat -> Fate, start: nat): nat
    decreases count - start
  {
    if start >= count then start
    else
      var end := Min(start + REST_BATCH_SIZE, count);
      if forall i :: start <= i < end ==> fate(i).Done? then RequestsSent(count, fate, end) else end
  }

  ghost predicate AllDone(count: nat, fate: nat -> Fate) {
    forall i :: 0 <= i < count ==> fate(i).Done?
  }

  /** Of the first `sent` requests, those that reached the store. */
  ghost function Stored(sent: nat, fate: nat -> Fate): set<nat> {
    set j: nat | j < sent && !fate(j).Failed?
  }

  /** The table after the requests in `done`, in whatever order they arrived, have put their
      rows. */
  ghost predicate Written(base: Table, now: Table, tokens: seq<IndexRow>, done: set<nat>) {
    && (forall j :: j in done ==> j < |tokens| && tokens[j].id in now && now[tokens[j].id] == tokens[j])
    && (forall id :: id in base ==>
          id in now && ((forall j :: j in done && j < |tokens| ==> tokens[j].id != id) ==> now[id] == base[id]))
    && (forall id :: id in now ==>
          id in base || exists j :: j in done && j < |tokens| && tokens[j].id == id)
  }

  /** The table after the requests in `done` have deleted their rows. */
  ghost predicate Erased(base: Table, now: Table, removed: seq<IndexRow>, done: set<nat>) {
    && (forall j :: j in done ==> j < |removed|)
    && (forall id :: id in now <==>
          id in base && forall j :: j in done && j < |removed| ==> removed[j].id != id)
    && (forall id :: id in now && id in base ==> now[id] == base[id])
  }

  /** A state on the way: some of the writes, or of the deletes, have arrived. */
  ghost predicate SomeWritten(base: Table, now: Table, tokens: seq<IndexRow>, fate: nat -> Fate) {
    exists done :: done <= Stored(|tokens|, fate) && Written(base, now, tokens, done)
  }

  ghost predicate SomeErased(base: Table, now: Table, removed: seq<IndexRow>, fate: nat -> Fate) {
    exists done :: done <= Stored(|removed|, fate) && Erased(base, now, removed, done)
  }

  /** The request numbers of one batch. */
  function Batch(start: nat, end: nat): (r: set<nat>)
    requires start <= end
    ensures |r| == end - start && forall j: nat :: j in r <==> start <= j < end
    decreases end
  {
    if start == end then {} else Batch(start, end - 1) + {end - 1}
  }

  lemma BatchStored(start: nat, end: nat, fate: nat -> Fate)
    requires start <= end
    ensures Stored(end, fate) - Batch(start, end) == Stored(start, fate)
  {
  }

  /** Rows with one id are one row. */
  ghost predicate UniqueIds(rows: seq<IndexRow>) {
    forall i, j :: 0 <= i < |rows| && 0 <= j < |rows| && rows[i].id == rows[j].id ==> rows[i] == rows[j]
  }

  lemma WriteOneStores(base: Table, now: Table, tokens: seq<IndexRow>, done: set<nat>, j: nat)
    requires UniqueIds(tokens) && j < |tokens| && Written(base, now, tokens, done)
    ensures var next := now[tokens[j].id := tokens[j]];
      forall i :: i in done + {j} ==> i < |tokens| && tokens[i].id in next && next[tokens[i].id] == tokens[i]
  {
  }

  lemma WriteOneKeeps(base: Table, now: Table, tokens: seq<IndexRow>, done: set<nat>, j: nat, id: Text)
    requires j < |tokens| && Written(base, now, tokens, done) && id in base
    ensures var next, more := now[tokens[j].id := tokens[j]], done + {j};
      id in next && ((forall i :: i in more && i < |tokens| ==> tokens[i].id != id) ==> next[id] == base[id])
  {
    assert j in done + {j};
    assert forall i :: i in done ==> i in done + {j};
  }

  lemma WriteOneAddsIt(base: Table, now: Table, tokens: seq<IndexRow>, done: set<nat>, j: nat, id: Text)
    requires j < |tokens| && Written(base, now, tokens, done) && id in now[tokens[j].id := tokens[j]]
    ensures id in base || exists i :: i in done + {j} && i < |tokens| && tokens[i].id == id
  {
    if id == tokens[j].id {
      assert j in done + {j};
    } else if id !in base {
      var i :| i in done && i < |tokens| && tokens[i].id == id;
      assert i in done + {j};
    }
  }

  lemma WriteOne(base: Table, now: Table, tokens: seq<IndexRow>, done: set<nat>, j: nat)
    requires UniqueIds(tokens) && j < |tokens| && Written(base, now, tokens, done)
    ensures Written(base, now[tokens[j].id := tokens[j]], tokens, done + {j})
  {
    var next, more := now[tokens[j].id := tokens[j]], done + {j};
    assert Written(base, next, tokens, more) by {
      hide UniqueIds;
      WriteOneStores(base, now, tokens, done, j);
      forall id | id in base
        ensures id in next && ((forall i :: i in more && i < |tokens| ==> tokens[i].id != id) ==> next[id] == base[id])
      {
        hide Written;
        WriteOneKeeps(base, now, tokens, done, j, id);
      }
      forall id | id in next ensures id in base || exists i :: i in more && i < |tokens| && tokens[i].id == id {
        hide Written;
        WriteOneAddsIt(base, now, tokens, done, j, id);
      }
    }
  }

  lemma EraseOne(base: Table, now: Table, removed: seq<IndexRow>, done: set<nat>, j: nat)
    requires j < |removed| && Erased(base, now, removed, done)
    ensures Erased(base, now - {removed[j].id}, removed, done + {j})
  {
    var next, more := now - {removed[j].id}, done + {j};
    forall id
      ensures id in next <==> id in base && forall i :: i in more && i < |removed| ==> removed[i].id != id
    {
      if id in next {
        assert forall i :: i in done && i < |removed| ==> removed[i].id != id;
      }
      if id in base && forall i :: i in more && i < |removed| ==> removed[i].id != id {
        assert j in more;
        assert forall i :: i in done ==> i in more;
      }
    }
  }

  /** The states added to a history since `past` are on the way from `base`. */
  ghost predicate WrittenSince(
    base: Table, past: seq<Table>, history: seq<Table>, tokens: seq<IndexRow>, fate: nat -> Fate)
  {
    && |past| <= |history| && history[..|past|] == past
    && forall k :: |past| <= k < |history| ==> SomeWritten(base, history[k], tokens, fate)
  }

  ghost predicate ErasedSince(
    base: Table, past: seq<Table>, history: seq<Table>, removed: seq<IndexRow>, fate: nat -> Fate)
  {
    && |past| <= |history| && history[..|past|] == past
    && forall k :: |past| <= k < |history| ==> SomeErased(base, history[k], removed, fate)
  }

  lemma SinceStep(
    base: Table, past: seq<Table>, history: seq<Table>, next: Table, rows: seq<IndexRow>, fate: nat -> Fate)
    ensures WrittenSince(base, past, past, rows, fate) && ErasedSince(base, past, past, rows, fate)
    ensures WrittenSince(base, past, history, rows, fate) && SomeWritten(base, next, rows, fate) ==>
      WrittenSince(base, past, history + [next], rows, fate)
    ensures ErasedSince(base, past, history, rows, fate) && SomeErased(base, next, rows, fate) ==>
      ErasedSince(base, past, history + [next], rows, fate)
  {
    hide SomeWritten, SomeErased;
  }

  lemma SinceJoin(
    base: Table, past: seq<Table>, middle: seq<Table>, history: seq<Table>, rows: seq<IndexRow>, fate: nat -> Fate)
    ensures WrittenSince(base, past, middle, rows, fate) && WrittenSince(base, middle, history, rows, fate) ==>
      WrittenSince(base, past, history, rows, fate)
    ensures ErasedSince(base, past, middle, rows, fate) && ErasedSince(base, middle, history, rows, fate) ==>
      ErasedSince(base, past, history, rows, fate)
  {
    hide SomeWritten, SomeErased;
    assert |past| <= |middle| <= |history| && history[..|middle|] == middle ==>
      history[..|past|] == middle[..|past|];
  }

  /** One more request of a batch has been dealt with. */
  lemma WriteStep(
    base: Table, now: Table, next: Table, tokens: seq<IndexRow>, fate: nat -> Fate, end: nat, todo: set<nat>, j: nat)
    requires UniqueIds(tokens) && j < end <= |tokens| && j in todo
    requires Written(base, now, tokens, Stored(end, fate) - todo)
    requires next == if fate(j).Failed? then now else now[tokens[j].id := tokens[j]]
    ensures Written(base, next, tokens, Stored(end, fate) - (todo - {j}))
    ensures SomeWritten(base, next, tokens, fate)
  {
    hide Written;
    var before, after := Stored(end, fate) - todo, Stored(end, fate) - (todo - {j});
    if fate(j).Failed? {
      assert after == before;
    } else {
      assert after == before + {j};
      WriteOne(base, now, tokens, before, j);
    }
    assert after <= Stored(|tokens|, fate);
  }

  lemma EraseStep(
    base: Table, now: Table, next: Table, removed: seq<IndexRow>, fate: nat -> Fate, end: nat, todo: set<nat>, j: nat)
    requires j < end <= |removed| && j in todo
    requires Erased(base, now, removed, Stored(end, fate) - todo)
    requires next == if fate(j).Failed? then now else now - {removed[j].id}
    ensures Erased(base, next, removed, Stored(end, fate) - (todo - {j}))
    ensures SomeErased(base, next, removed, fate)
  {
    hide Erased;
    var before, after := Stored(end, fate) - todo, Stored(end, fate) - (todo - {j});
    if fate(j).Failed? {
      assert after == before;
    } else {
      assert after == before + {j};
      EraseOne(base, now, removed, before, j);
    }
    assert after <= Stored(|removed|, fate);
  }

  lemma NothingWritten(base: Table, tokens: seq<IndexRow>, fate: nat -> Fate)
    ensures Stored(0, fate) == {}
    ensures Written(base, base, tokens, {}) && Erased(base, base, tokens, {})
  {
  }

  lemma {:induction false} SentIsBounded(count: nat, fate: nat -> Fate, start: nat)
    requires start <= count
    ensures start <= RequestsSent(count, fate, start) <= count
    ensures AllDone(count, fate) ==> RequestsSent(count, fate, start) == count
    decreases count - start
  {
    if start < count {
      SentIsBounded(count, fate, Min(start + REST_BATCH_SIZE, count));
    }
  }

  /** Requests go out in batches of 25: up to the end of the batch that holds the first one not
      acknowledged, or all of them. */
  lemma {:induction false} SentThroughFailingBatch(count: nat, fate: nat -> Fate, start: nat, first: nat)
    requires start % 25 == 0 && start <= first < count && !fate(first).Done?
    requires forall i :: start <= i < first ==> fate(i).Done?
    ensures RequestsSent(count, fate, start) == Min(25 * (first / 25) + 25, count)
    decreases count - start
  {
    var end := Min(start + REST_BATCH_SIZE, count);
    if first < end {
      assert first / 25 == start / 25;
    } else {
      SentThroughFailingBatch(count, fate, end, first);
    }
  }

  /** Writing some of the additions keeps a partly written table partly written. */
  lemma WrittenIsPartial(before: Table, now: Table, tokens: seq<IndexRow>, done: set<nat>, diff: Diff)
    requires Written(before, now, tokens, done)
    requires forall row :: row in tokens ==> row in diff.toAdd
    requires forall row :: row in diff.toAdd ==> row.id !in before
    ensures PartlyWritten(before, now, diff)
  {
    forall id | id in now
      ensures (id in before && now[id] == before[id]) || (now[id].id == id && now[id] in diff.toAdd)
    {
      if id !in before {
        var j :| j in done && j < |tokens| && tokens[j].id == id;
        assert tokens[j] in tokens;
      } else {
        UntouchedByPuts(before, tokens, done, diff, id);
      }
    }
    forall id | id in before ensures id in now && now[id] == before[id] {
      UntouchedByPuts(before, tokens, done, diff, id);
    }
  }

  lemma UntouchedByPuts(before: Table, tokens: seq<IndexRow>, done: set<nat>, diff: Diff, id: Text)
    requires id in before
    requires forall row :: row in tokens ==> row in diff.toAdd
    requires forall row :: row in diff.toAdd ==> row.id !in before
    ensures forall j :: j in done && j < |tokens| ==> tokens[j].id != id
  {
    forall j | j in done && j < |tokens| ensures tokens[j].id != id {
      assert tokens[j] in tokens;
    }
  }

  lemma ErasedIsPartial(
    before: Table, base: Table, now: Table, removed: seq<IndexRow>, done: set<nat>, diff: Diff)
    requires PartlyWritten(before, base, diff) && Erased(base, now, removed, done)
    requires forall row :: row in removed ==> row in diff.toRemove
    requires forall row :: row in diff.toRemove ==> row.id in before && before[row.id] == row
    ensures PartlyWritten(before, now, diff)
  {
    forall id | id in before
      ensures (id in now && now[id] == before[id]) || (id !in now && before[id] in diff.toRemove)
    {
      if id in base && id !in now {
        var j :| j in done && j < |removed| && removed[j].id == id;
        assert removed[j] in removed;
      }
    }
  }

  /** With every request stored, every row put is there. */
  lemma PutsArrive(base: Table, now: Table, tokens: seq<IndexRow>, fate: nat -> Fate)
    requires AllDone(|tokens|, fate) && Written(base, now, tokens, Stored(|tokens|, fate))
    ensures forall row :: row in tokens ==> row.id in now
  {
    forall row | row in tokens ensures row.id in now {
      var j: nat :| j < |tokens| && tokens[j] == row;
      assert j in Stored(|tokens|, fate);
    }
  }

  lemma DeletesArrive(base: Table, now: Table, removed: seq<IndexRow>, fate: nat -> Fate)
    requires AllDone(|removed|, fate) && Erased(base, now, removed, Stored(|removed|, fate))
    ensures forall row :: row in removed ==> row.id !in now
    ensures forall id :: id in base && (forall row :: row in removed ==> row.id != id) ==> id in now
  {
    forall row | row in removed ensures row.id !in now {
      var j: nat :| j < |removed| && removed[j] == row;
      assert j in Stored(|removed|, fate);
    }
    forall id | id in base && (forall row :: row in removed ==> row.id != id) ensures id in now {
      assert forall j: nat :: j < |removed| ==> removed[j] in removed;
    }
  }

  class IndexTable {
    var rows: Table
    /** Every state the table has been in, oldest first. */
    ghost var history: seq<Table>

    constructor (initial: Table)
      ensures rows == initial && history == [initial]
    {
      rows, history := initial, [initial];
    }

    method Put(row: IndexRow, fate: Fate) returns (ok: bool)
      modifies this
      ensures rows == if fate.Failed? then old(rows) else old(rows)[row.id := row]
      ensures history == old(history) + [rows]
      ensures ok <==> fate.Done?
    {
      if !fate.Failed? {
        rows := rows[row.id := row];
      }
      history := history + [rows];
      ok := fate.Done?;
    }

    method Delete(id: Text, fate: Fate) returns (ok: bool)
      modifies this
      ensures rows == if fate.Failed? then old(rows) else old(rows) - {id}
      ensures history == old(history) + [rows]
      ensures ok <==> fate.Done?
    {
      if !fate.Failed? {
        rows := rows - {id};
      }
      history := history + [rows];
      ok := fate.Done?;
    }

    /** The rows of one advisor, in some order. */
    method ListTokensForAdvisor(advisorId: Text) returns (listed: seq<IndexRow>)
      requires ValidTable(rows)
      ensures Lists(rows, advisorId, listed) && Distinct(listed)
    {
      listed := [];
      var todo := rows.Keys;
      while todo != {}
        invariant todo <= rows.Keys && Distinct(listed)
        invariant forall row :: row in listed <==>
          row.id in rows && row.id !in todo && rows[row.id] == row && row.advisorId == advisorId
        decreases |todo|
      {
        var id :| id in todo;
        if rows[id].advisorId == advisorId {
          listed := listed + [rows[id]];
        }
        todo := todo - {id};
      }
    }

    /** One batch: every request is sent, they arrive in any order, failures are counted
        afterwards. */
    method PutBatch(tokens: seq<IndexRow>, fate: nat -> Fate, start: nat, end: nat, ghost base: Table)
      returns (failed: nat)
      requires start <= end <= |tokens| && UniqueIds(tokens)
      requires Written(base, rows, tokens, Stored(start, fate))
      modifies this
      ensures Written(base, rows, tokens, Stored(end, fate))
      ensures |history| == |old(history)| + (end - start)
      ensures WrittenSince(base, old(history), history, tokens, fate)
      ensures failed == 0 <==> forall j :: start <= j < end ==> fate(j).Done?
    {
      hide Written, Stored, SomeWritten, WrittenSince;
      SinceStep(base, history, history, base, tokens, fate);
      failed := 0;
      var todo := Batch(start, end);
      BatchStored(start, end, fate);
      while todo != {}
        invariant todo <= Batch(start, end)
        invariant failed == 0 <==> forall j: nat :: start <= j < end && j !in todo ==> fate(j).Done?
        invariant Written(base, rows, tokens, Stored(end, fate) - todo)
        invariant |history| == |old(history)| + (end - start) - |todo|
        invariant WrittenSince(base, old(history), history, tokens, fate)
        decreases |todo|
      {
        var j :| j in todo;
        ghost var now, earlier := rows, history;
        var ok := Put(tokens[j], fate(j));
        if !ok {
          failed := failed + 1;
        }
        WriteStep(base, now, rows, tokens, fate, end, todo, j);
        todo := todo - {j};
        SinceStep(base, old(history), earlier, rows, tokens, fate);
      }
      assert Stored(end, fate) - {} == Stored(end, fate);
    }

    /** `upsertTokens`: batches of 25, stopping after a batch with a failure. */
    method UpsertTokens(tokens: seq<IndexRow>, fate: nat -> Fate) returns (ok: bool)
      requires UniqueIds(tokens)
      modifies this
      ensures ok <==> AllDone(|tokens|, fate)
      ensures var sent := RequestsSent(|tokens|, fate, 0);
        && sent <= |tokens| && |history| == |old(history)| + sent
        && Written(old(rows), rows, tokens, Stored(sent, fate))
      ensures WrittenSince(old(rows), old(history), history, tokens, fate)
    {
      hide Written, Stored, SomeWritten, WrittenSince;
      SinceStep(rows, history, history, rows, tokens, fate);
      SentIsBounded(|tokens|, fate, 0);
      NothingWritten(rows, tokens, fate);
      var start := 0;
      while start < |tokens|
        invariant start <= |tokens|
        invariant RequestsSent(|tokens|, fate, 0) == RequestsSent(|tokens|, fate, start)
        invariant forall i :: 0 <= i < start ==> fate(i).Done?
        invariant Written(old(rows), rows, tokens, Stored(start, fate))
        invariant |history| == |old(history)| + start
        invariant WrittenSince(old(rows), old(history), history, tokens, fate)
      {
        var end := Min(start + REST_BATCH_SIZE, |tokens|);
        ghost var earlier := history;
        var failed := PutBatch(tokens, fate, start, end, old(rows));
        SinceJoin(old(rows), old(history), earlier, history, tokens, fate);
        if failed > 0 {
          return false;
        }
        start := end;
      }
      ok := true;
    }

    /** One batch of removals. */
    method DeleteBatch(removed: seq<IndexRow>, fate: nat -> Fate, start: nat, end: nat, ghost base: Table)
      returns (failed: nat)
      requires start <= end <= |removed|
      requires Erased(base, rows, removed, Stored(start, fate))
      modifies this
      ensures Erased(base, rows, removed, Stored(end, fate))
      ensures |history| == |old(history)| + (end - start)
      ensures ErasedSince(base, old(history), history, removed, fate)
      ensures failed == 0 <==> forall j :: start <= j < end ==> fate(j).Done?
    {
      hide Erased, Stored, SomeErased, ErasedSince;
      SinceStep(base, history, history, base, removed, fate);
      failed := 0;
      var todo := Batch(start, end);
      BatchStored(start, end, fate);
      while todo != {}
        invariant todo <= Batch(start, end)
        invariant failed == 0 <==> forall j: nat :: start <= j < end && j !in todo ==> fate(j).Done?
        invariant Erased(base, rows, removed, Stored(end, fate) - todo)
        invariant |history| == |old(history)| + (end - start) - |todo|
        invariant ErasedSince(base, old(history), history, removed, fate)
        decreases |todo|
      {
        var j :| j in todo;
        ghost var now, earlier := rows, history;
        var ok := Delete(removed[j].id, fate(j));
        if !ok {
          failed := failed + 1;
        }
        EraseStep(base, now, rows, removed, fate, end, todo, j);
        todo := todo - {j};
        SinceStep(base, old(history), earlier, rows, removed, fate);
      }
      assert Stored(end, fate) - {} == Stored(end, fate);
    }

    /** `deleteSearchTokens`: the same batching for removals. */
    method DeleteTokens(removed: seq<IndexRow>, fate: nat -> Fate) returns (ok: bool)
      modifies this
      ensures ok <==> AllDone(|removed|, fate)
      ensures var sent := RequestsSent(|removed|, fate, 0);
        && sent <= |removed| && |history| == |old(history)| + sent
        && Erased(old(rows), rows, removed, Stored(sent, fate))
      ensures ErasedSince(old(rows), old(history), history, removed, fate)
    {
      hide Erased, Stored, SomeErased, ErasedSince;
      SinceStep(rows, history, history, rows, removed, fate);
      SentIsBounded(|removed|, fate, 0);
      NothingWritten(rows, removed, fate);
      var start := 0;
      while start < |removed|
        invariant start <= |removed|
        invariant RequestsSent(|removed|, fate, 0) == RequestsSent(|removed|, fate, start)
        invariant forall i :: 0 <= i < start ==> fate(i).Done?
        invariant Erased(old(rows), rows, removed, Stored(start, fate))
        invariant |history| == |old(history)| + start
        invariant ErasedSince(old(rows), old(history), history, removed, fate)
      {
        var end := Min(start + REST_BATCH_SIZE, |removed|);
        ghost var earlier := history;
        var failed := DeleteBatch(removed, fate, start, end, old(rows));
        SinceJoin(old(rows), old(history), earlier, history, removed, fate);
        if failed > 0 {
          return false;
        }
        start := end;
      }
      ok := true;
    }

    /** The reads of a run: every advisor's diff against the table as it stands. */
    method CollectDiffs(advisors: Advisors, advisorIds: seq<Text>)
      returns (toAdd: seq<IndexRow>, toRemove: seq<IndexRow>)
      requires ValidTable(rows) && ColonFree(advisorIds)
      ensures DiffFor(rows, advisors, advisorIds, Diff(toAdd, toRemove))
      ensures |toAdd| == MissingCount(rows, advisors, advisorIds)
      ensures |toRemove| == ExtraCount(rows, advisors, advisorIds)
    {
      hide Desired, ValidTable, DiffFor, Lists, Missing, Extra, DiffOne;
      toAdd, toRemove := [], [];
      NoDiff(rows, advisors);
      var k := 0;
      while k < |advisorIds|
        invariant k <= |advisorIds|
        invariant DiffFor(rows, advisors, advisorIds[..k], Diff(toAdd, toRemove))
        invariant |toAdd| == MissingCount(rows, advisors, advisorIds[..k])
        invariant |toRemove| == ExtraCount(rows, advisors, advisorIds[..k])
      {
        var a := advisorIds[k];
        var existing := ListTokensForAdvisor(a);
        var diff := DiffOne(existing, Desired(advisors, a));
        DiffOneIsExact(rows, advisors, a, existing);
        DiffOneCounts(rows, advisors, a, existing);
        DiffsJoin(rows, advisors, advisorIds[..k], a, Diff(toAdd, toRemove), diff);
        assert advisorIds[..k + 1] == advisorIds[..k] + [a];
        toAdd, toRemove := toAdd + diff.toAdd, toRemove + diff.toRemove;
        k := k + 1;
      }
      assert advisorIds[..k] == advisorIds;
    }

    /** `reindexAdvisorTokens`: all diffs are read first, then the additions are written and
        the removals deleted; a failed batch ends the run. */
    method ReindexAdvisorTokens(
      advisors: Advisors, advisorIds: seq<Text>, putFate: nat -> Fate, deleteFate: nat -> Fate)
      returns (outcome: Outcome)
      requires ValidTable(rows) && ColonFree(advisorIds)
      modifies this
      ensures |history| >= |old(history)| && history[..|old(history)|] == old(history)
      ensures forall k :: |old(history)| <= k < |history| ==>
        Bounded(old(rows), history[k], advisors, advisorIds) && ValidTable(history[k])
      ensures Bounded(old(rows), rows, advisors, advisorIds) && ValidTable(rows)
      ensures outcome.Reindexed? ==> forall a :: a in advisorIds ==> InSync(rows, advisors, a)
      ensures outcome.Reindexed? ==>
        outcome == Reindexed(
          MissingCount(old(rows), advisors, advisorIds), ExtraCount(old(rows), advisors, advisorIds))
      ensures (forall i :: putFate(i).Done? && deleteFate(i).Done?) ==> outcome.Reindexed?
      ensures (forall a :: a in advisorIds ==> InSync(old(rows), advisors, a)) ==>
        outcome == Reindexed(0, 0) && rows == old(rows) && history == old(history)
    {
      var toAdd, toRemove := CollectDiffs(advisors, advisorIds);
      outcome := WriteDiff(advisors, advisorIds, toAdd, toRemove, putFate, deleteFate);
    }

    method WriteDiff(
      ghost advisors: Advisors, ghost advisorIds: seq<Text>, toAdd: seq<IndexRow>, toRemove: seq<IndexRow>,
      putFate: nat -> Fate, deleteFate: nat -> Fate)
      returns (outcome: Outcome)
      requires ValidTable(rows) && ColonFree(advisorIds)
      requires DiffFor(rows, advisors, advisorIds, Diff(toAdd, toRemove))
      modifies this
      ensures |history| >= |old(history)| && history[..|old(history)|] == old(history)
      ensures forall k :: |old(history)| <= k < |history| ==>
        Bounded(old(rows), history[k], advisors, advisorIds) && ValidTable(history[k])
      ensures Bounded(old(rows), rows, advisors, advisorIds) && ValidTable(rows)
      ensures outcome.Reindexed? ==> forall a :: a in advisorIds ==> InSync(rows, advisors, a)
      ensures outcome.Reindexed? ==> outcome == Reindexed(|toAdd|, |toRemove|)
      ensures (forall i :: putFate(i).Done? && deleteFate(i).Done?) ==> outcome.Reindexed?
      ensures (forall a :: a in advisorIds ==> InSync(old(rows), advisors, a)) ==>
        outcome == Reindexed(0, 0) && rows == old(rows) && history == old(history)
    {
      hide Desired, Bounded, ValidTable, InSync, DiffFor, RequestsSent, PartlyWritten, Written, Erased, Stored;
      ghost var before, diff := rows, Diff(toAdd, toRemove);
      DiffIsFresh(before, advisors, advisorIds, diff);
      if forall a :: a in advisorIds ==> InSync(before, advisors, a) {
        SyncedDiffIsEmpty(before, advisors, advisorIds, diff);
      }
      var ok := true;
      if |toAdd| > 0 {
        DiffIdsUnique(before, advisors, advisorIds, diff);
        ok := UpsertTokens(toAdd, putFate);
        forall s, done | Written(before, s, toAdd, done) ensures PartlyWritten(before, s, diff) {
          WrittenIsPartial(before, s, toAdd, done, diff);
        }
        if ok {
          SentIsBounded(|toAdd|, putFate, 0);
          PutsArrive(before, rows, toAdd, putFate);
        }
      }
      assert PartlyWritten(before, rows, diff);
      assert forall k :: |old(history)| <= k < |history| ==> PartlyWritten(before, history[k], diff);
      if ok && |toRemove| > 0 {
        ghost var base, earlier := rows, history;
        ok := DeleteTokens(toRemove, deleteFate);
        forall s, done | Erased(base, s, toRemove, done) ensures PartlyWritten(before, s, diff) {
          ErasedIsPartial(before, base, s, toRemove, done, diff);
        }
        assert forall k :: |old(history)| <= k < |earlier| ==> history[k] == earlier[k];
        if ok {
          SentIsBounded(|toRemove|, deleteFate, 0);
          DeletesArrive(base, rows, toRemove, deleteFate);
        }
      }
      forall s | PartlyWritten(before, s, diff)
        ensures Bounded(before, s, advisors, advisorIds) && ValidTable(s)
      {
        PartialWritesAreBounded(before, s, advisors, advisorIds, diff);
      }
      if !ok {
        return RequestsFailed;
      }
      forall a | a in advisorIds ensures InSync(rows, advisors, a) {
        AllWritesSync(before, rows, advisors, advisorIds, diff, a);
      }
      outcome := Reindexed(|toAdd|, |toRemove|);
    }
  }

  lemma DiffIdsUnique(table: Table, advisors: Advisors, ids: seq<Text>, diff: Diff)
    requires ColonFree(ids) && DiffFor(table, advisors, ids, diff)
    ensures UniqueIds(diff.toAdd)
  {
    hide Desired, Label, WellLabelled;
    forall i, j | 0 <= i < |diff.toAdd| && 0 <= j < |diff.toAdd| && diff.toAdd[i].id == diff.toAdd[j].id
      ensures diff.toAdd[i] == diff.toAdd[j]
    {
      var a, b := diff.toAdd[i], diff.toAdd[j];
      assert a in diff.toAdd && b in diff.toAdd;
      SameIdSameRow(a, b);
    }
  }

  /** Additions are absent from the table, removals present. */
  lemma DiffIsFresh(table: Table, advisors: Advisors, ids: seq<Text>, diff: Diff)
    requires ValidTable(table) && DiffFor(table, advisors, ids, diff)
    ensures PartlyWritten(table, table, diff)
    ensures forall row :: row in diff.toAdd ==> row.id !in table
    ensures forall row :: row in diff.toRemove ==> row.id in table && table[row.id] == row
  {
  }

  /** Whatever a first run managed to write, the next run without failures brings every
      advisor into sync, and the one after that has nothing to do. */
  method RerunConverges(
    table: IndexTable, advisors: Advisors, advisorIds: seq<Text>, putFate: nat -> Fate, deleteFate: nat -> Fate)
    returns (settled: Outcome)
    requires ValidTable(table.rows) && ColonFree(advisorIds)
    modifies table
    ensures forall a :: a in advisorIds ==> InSync(table.rows, advisors, a)
    ensures settled == Reindexed(0, 0)
  {
    hide Bounded, ValidTable, InSync;
    var interrupted := table.ReindexAdvisorTokens(advisors, advisorIds, putFate, deleteFate);
    var completed := table.ReindexAdvisorTokens(advisors, advisorIds, (_: nat) => Done, (_: nat) => Done);
    settled := table.ReindexAdvisorTokens(advisors, advisorIds, putFate, deleteFate);
  }
}
