/** Public team lists: one row per team identity, by sorting and dropping repeats of the
    neighbour (src/harper/resource-firm-canonicalization.ts). */
module TeamDedupe {
  import opened Sequences
  import opened StableSort
  import opened Texts

  /** `identity` is `publicTeamIdentityKey`: the lower-cased name, NUL, the firm or team id. */
  datatype Team = Team(identity: Text, id: Text)

  type Collator = (Text, Text) -> int

  /** What `localeCompare` promises: a consistent order, in which different texts may tie. */
  ghost predicate Consistent(collate: Collator) {
    && (forall a :: collate(a, a) == 0)
    && (forall a, b :: collate(a, b) < 0 <==> collate(b, a) > 0)
    && (forall a, b, c :: collate(a, b) <= 0 && collate(b, c) <= 0 ==> collate(a, c) <= 0)
  }

  function Before(collate: Collator): (Team, Team) -> bool {
    (a: Team, b: Team) =>
      collate(a.identity, b.identity) < 0 ||
      (collate(a.identity, b.identity) == 0 && collate(a.id, b.id) < 0)
  }

  /** The rows whose identity differs from the row before. */
  function DropRepeats(previous: Option<Text>, sorted: seq<Team>): seq<Team>
    decreases sorted
  {
    if sorted == [] then []
    else
      (if previous == Some(sorted[0].identity) then [] else [sorted[0]]) +
      DropRepeats(Some(sorted[0].identity), sorted[1..])
  }

  /** `dedupePublicTeams`. */
  function DedupePublicTeams(collate: Collator, teams: seq<Team>): seq<Team> {
    DropRepeats(None, Sort(Before(collate), teams))
  }

  lemma BeforeOrders(collate: Collator)
    requires Consistent(collate)
    ensures StrictWeakOrder(Before(collate))
  {
    var less := Before(collate);
    forall a ensures !less(a, a) {
      assert collate(a.identity, a.identity) == 0 && collate(a.id, a.id) == 0;
    }
    forall a, b, c | less(a, b) && less(b, c) ensures less(a, c) {
      BeforeTransitive(collate, a, b, c);
    }
    forall a, b, c | !less(a, b) && !less(b, c) ensures !less(a, c) {
      NotBeforeTransitive(collate, a, b, c);
    }
  }

  lemma CollatesThrough(collate: Collator, a: Text, b: Text, c: Text)
    requires Consistent(collate) && collate(a, b) <= 0 && collate(b, c) <= 0
    ensures collate(a, c) <= 0
    ensures collate(a, c) == 0 ==> collate(a, b) == 0 && collate(b, c) == 0
  {
    assert collate(c, a) <= 0 && collate(a, b) <= 0 ==> collate(c, b) <= 0;
    assert collate(b, c) <= 0 && collate(c, a) <= 0 ==> collate(b, a) <= 0;
  }

  lemma BeforeTransitive(collate: Collator, a: Team, b: Team, c: Team)
    requires Consistent(collate) && Before(collate)(a, b) && Before(collate)(b, c)
    ensures Before(collate)(a, c)
  {
    CollatesThrough(collate, a.identity, b.identity, c.identity);
    if collate(a.id, b.id) <= 0 && collate(b.id, c.id) <= 0 {
      CollatesThrough(collate, a.id, b.id, c.id);
    }
  }

  lemma NotBeforeTransitive(collate: Collator, a: Team, b: Team, c: Team)
    requires Consistent(collate) && !Before(collate)(a, b) && !Before(collate)(b, c)
    ensures !Before(collate)(a, c)
  {
    CollatesThrough(collate, c.identity, b.identity, a.identity);
    if collate(c.id, b.id) <= 0 && collate(b.id, a.id) <= 0 {
      CollatesThrough(collate, c.id, b.id, a.id);
    }
  }

  // ---------------------------------------------------------------- runs of one identity

  /** A row whose predecessor has another identity. */
  predicate StartsRun(sorted: seq<Team>, a: int) {
    0 <= a < |sorted| && (a == 0 || sorted[a - 1].identity != sorted[a].identity)
  }

  /** Where the kept rows stand in `sorted`, from place `a` on. */
  function Starts(sorted: seq<Team>, a: nat): (r: seq<nat>)
    requires a <= |sorted|
    ensures forall k :: 0 <= k < |r| ==> a <= r[k] && StartsRun(sorted, r[k])
    ensures forall j, k :: 0 <= j < k < |r| ==> r[j] < r[k]
    decreases |sorted| - a
  {
    if a == |sorted| then [] else (if StartsRun(sorted, a) then [a] else []) + Starts(sorted, a + 1)
  }

  lemma StartsStep(sorted: seq<Team>, a: nat)
    requires a < |sorted|
    ensures Starts(sorted, a) == (if StartsRun(sorted, a) then [a] else []) + Starts(sorted, a + 1)
  {
    hide StartsRun;
  }

  lemma {:induction false} StartsAreAll(sorted: seq<Team>, a: nat, b: nat)
    requires a <= b && StartsRun(sorted, b)
    ensures b in Starts(sorted, a)
    decreases |sorted| - a
  {
    hide Starts;
    StartsStep(sorted, a);
    if a == b {
      assert (if StartsRun(sorted, a) then [a] else [])[0] == b;
    } else {
      StartsAreAll(sorted, a + 1, b);
    }
  }

  function RowsAt(sorted: seq<Team>, places: seq<nat>): (r: seq<Team>)
    requires forall k :: 0 <= k < |places| ==> places[k] < |sorted|
    ensures |r| == |places| && forall k :: 0 <= k < |r| ==> r[k] == sorted[places[k]]
  {
    if places == [] then [] else [sorted[places[0]]] + RowsAt(sorted, places[1..])
  }

  lemma {:induction false} KeptAreStarts(sorted: seq<Team>, a: nat)
    requires a <= |sorted|
    ensures DropRepeats(if a == 0 then None else Some(sorted[a - 1].identity), sorted[a..]) ==
            RowsAt(sorted, Starts(sorted, a))
    decreases |sorted| - a
  {
    if a < |sorted| {
      KeptAreStarts(sorted, a + 1);
      assert sorted[a..][1..] == sorted[a + 1..];
      if StartsRun(sorted, a) {
        assert Starts(sorted, a)[1..] == Starts(sorted, a + 1);
      } else {
        assert Starts(sorted, a) == Starts(sorted, a + 1);
      }
    }
  }

  lemma KeptRows(sorted: seq<Team>)
    ensures DropRepeats(None, sorted) == RowsAt(sorted, Starts(sorted, 0))
  {
    KeptAreStarts(sorted, 0);
    assert sorted[0..] == sorted;
  }

  ghost predicate ListedOnce(rows: seq<Team>) {
    forall j, k :: 0 <= j < k < |rows| ==> rows[j].identity != rows[k].identity
  }

  /** Rows of one identity stand together. */
  ghost predicate Together(sorted: seq<Team>) {
    forall i, j, k :: 0 <= i < j < k < |sorted| && sorted[i].identity == sorted[k].identity ==>
      sorted[j].identity == sorted[i].identity
  }

  lemma {:induction false} RunStart(sorted: seq<Team>, i: nat) returns (a: nat)
    requires i < |sorted|
    ensures a <= i && StartsRun(sorted, a) && sorted[a].identity == sorted[i].identity
  {
    a := i;
    if !StartsRun(sorted, i) {
      a := RunStart(sorted, i - 1);
    }
  }

  lemma {:induction false} RunStartBehind(sorted: seq<Team>, j: nat, k: nat) returns (b: nat)
    requires j < k < |sorted| && sorted[j].identity != sorted[k].identity
    ensures j < b <= k && StartsRun(sorted, b) && sorted[b].identity == sorted[k].identity
    decreases k
  {
    b := k;
    if !StartsRun(sorted, k) {
      b := RunStartBehind(sorted, j, k - 1);
    }
  }

  lemma NoEarlierRow(sorted: seq<Team>, a: nat, at: nat)
    requires Together(sorted) && StartsRun(sorted, a) && at < a
    ensures sorted[at].identity != sorted[a].identity
  {
    var own, early, before := sorted[a].identity, sorted[at].identity, sorted[a - 1].identity;
    assert at == a - 1 || (early == own ==> before == early);
  }

  lemma TogetherIsOnce(sorted: seq<Team>)
    requires Together(sorted)
    ensures ListedOnce(DropRepeats(None, sorted))
  {
    hide DropRepeats, Together;
    KeptRows(sorted);
    var places := Starts(sorted, 0);
    forall j, k | 0 <= j < k < |places| ensures sorted[places[j]].identity != sorted[places[k]].identity {
      NoEarlierRow(sorted, places[k], places[j]);
    }
  }

  lemma TwoRunsRepeat(sorted: seq<Team>, a: nat, b: nat)
    requires a < b && StartsRun(sorted, a) && StartsRun(sorted, b)
    requires sorted[a].identity == sorted[b].identity
    ensures !ListedOnce(DropRepeats(None, sorted))
  {
    hide DropRepeats, StartsRun;
    KeptRows(sorted);
    var places := Starts(sorted, 0);
    StartsAreAll(sorted, 0, a);
    StartsAreAll(sorted, 0, b);
    var p :| 0 <= p < |places| && places[p] == a;
    var q :| 0 <= q < |places| && places[q] == b;
    var kept := DropRepeats(None, sorted);
    assert kept[p].identity == kept[q].identity && p != q;
  }

  /** Each identity is kept once exactly when the rows of each stand together. */
  lemma OnceIffTogether(sorted: seq<Team>)
    ensures ListedOnce(DropRepeats(None, sorted)) <==> Together(sorted)
  {
    hide DropRepeats, StartsRun, ListedOnce;
    if Together(sorted) {
      TogetherIsOnce(sorted);
    } else {
      var i: nat, j: nat, k: nat :| i < j < k < |sorted| && sorted[i].identity == sorted[k].identity &&
        sorted[j].identity != sorted[i].identity;
      var a := RunStart(sorted, i);
      var b := RunStartBehind(sorted, j, k);
      TwoRunsRepeat(sorted, a, b);
    }
  }

  // ---------------------------------------------------------------- what is listed

  ghost predicate Shown(kept: seq<Team>, identity: Text) {
    exists k :: 0 <= k < |kept| && kept[k].identity == identity
  }

  /** Whatever the collator: only stored rows are listed, every identity is, and the list is
      in the collator's order. */
  lemma EveryTeamIsListed(collate: Collator, teams: seq<Team>)
    requires Consistent(collate)
    ensures var kept := DedupePublicTeams(collate, teams);
      && (forall k :: 0 <= k < |kept| ==> kept[k] in teams)
      && (forall i :: 0 <= i < |teams| ==> Shown(kept, teams[i].identity))
      && Sorted(Before(collate), kept)
      && (forall i, j :: 0 <= i < j < |kept| ==>
            || collate(kept[i].identity, kept[j].identity) < 0
            || (collate(kept[i].identity, kept[j].identity) == 0 && collate(kept[i].id, kept[j].id) <= 0))
  {
    hide Sort, DropRepeats, Starts, Before, Consistent;
    var sorted := Sort(Before(collate), teams);
    var kept := DropRepeats(None, sorted);
    var places := Starts(sorted, 0);
    BeforeOrders(collate);
    SortSorts(Before(collate), teams);
    SortPermutes(Before(collate), teams);
    KeptRows(sorted);
    forall k | 0 <= k < |kept| ensures kept[k] in teams {
      MembersOfPermutation(sorted, teams, sorted[places[k]]);
    }
    forall i | 0 <= i < |teams| ensures Shown(kept, teams[i].identity) {
      MembersOfPermutation(teams, sorted, teams[i]);
      var at: nat :| at < |sorted| && sorted[at] == teams[i];
      var a := RunStart(sorted, at);
      StartsAreAll(sorted, 0, a);
      var p :| 0 <= p < |places| && places[p] == a;
      assert kept[p].identity == teams[i].identity;
    }
    SortedMeans(collate, kept);
  }

  lemma SortedMeans(collate: Collator, kept: seq<Team>)
    requires Consistent(collate) && Sorted(Before(collate), kept)
    ensures forall i, j :: 0 <= i < j < |kept| ==>
      || collate(kept[i].identity, kept[j].identity) < 0
      || (collate(kept[i].identity, kept[j].identity) == 0 && collate(kept[i].id, kept[j].id) <= 0)
  {
    forall i, j | 0 <= i < j < |kept|
      ensures collate(kept[i].identity, kept[j].identity) < 0 ||
        (collate(kept[i].identity, kept[j].identity) == 0 && collate(kept[i].id, kept[j].id) <= 0)
    {
      assert !Before(collate)(kept[j], kept[i]);
    }
  }

  /** Different identities do not tie. */
  ghost predicate TellsApart(collate: Collator, identities: set<Text>) {
    forall x, y :: x in identities && y in identities && x != y ==> collate(x, y) != 0
  }

  ghost predicate IdentitiesIn(teams: seq<Team>, identities: set<Text>) {
    forall i :: 0 <= i < |teams| ==> teams[i].identity in identities
  }

  ghost predicate DifferentIds(teams: seq<Team>) {
    forall i, j :: 0 <= i < j < |teams| ==> teams[i].id != teams[j].id
  }

  lemma ApartStandTogether(collate: Collator, identities: set<Text>, sorted: seq<Team>)
    requires Consistent(collate) && TellsApart(collate, identities) && IdentitiesIn(sorted, identities)
    requires Sorted(Before(collate), sorted)
    ensures Together(sorted)
  {
    forall i, j, k | 0 <= i < j < k < |sorted| && sorted[i].identity == sorted[k].identity
      ensures sorted[j].identity == sorted[i].identity
    {
      var x, y := sorted[i].identity, sorted[j].identity;
      assert !Before(collate)(sorted[j], sorted[i]) && !Before(collate)(sorted[k], sorted[j]);
      assert collate(y, x) >= 0 && collate(x, y) >= 0;
      assert collate(x, y) == 0;
    }
  }

  /** Where identities do not tie, each is listed once, by its row of lowest id. */
  lemma OneRowPerTeam(collate: Collator, teams: seq<Team>, identities: set<Text>)
    requires Consistent(collate) && TellsApart(collate, identities) && IdentitiesIn(teams, identities)
    ensures var kept := DedupePublicTeams(collate, teams);
      && ListedOnce(kept)
      && forall k, i :: 0 <= k < |kept| && 0 <= i < |teams| && teams[i].identity == kept[k].identity ==>
           collate(kept[k].id, teams[i].id) <= 0
  {
    hide Sort, DropRepeats, Starts;
    var less := Before(collate);
    var sorted := Sort(less, teams);
    var kept := DropRepeats(None, sorted);
    var places := Starts(sorted, 0);
    BeforeOrders(collate);
    SortSorts(less, teams);
    SortPermutes(less, teams);
    forall i | 0 <= i < |sorted| ensures sorted[i].identity in identities {
      MembersOfPermutation(sorted, teams, sorted[i]);
    }
    ApartStandTogether(collate, identities, sorted);
    OnceIffTogether(sorted);
    KeptRows(sorted);
    forall k, i | 0 <= k < |kept| && 0 <= i < |teams| && teams[i].identity == kept[k].identity
      ensures collate(kept[k].id, teams[i].id) <= 0
    {
      MembersOfPermutation(teams, sorted, teams[i]);
      var at: nat :| at < |sorted| && sorted[at] == teams[i];
      FirstOfRun(collate, sorted, places[k], at);
    }
  }

  lemma FirstOfRun(collate: Collator, sorted: seq<Team>, a: nat, at: nat)
    requires Consistent(collate) && Sorted(Before(collate), sorted) && Together(sorted)
    requires StartsRun(sorted, a) && at < |sorted| && sorted[at].identity == sorted[a].identity
    ensures collate(sorted[a].id, sorted[at].id) <= 0
  {
    if at < a {
      NoEarlierRow(sorted, a, at);
    } else if a < at {
      assert !Before(collate)(sorted[at], sorted[a]);
    }
  }

  // ---------------------------------------------------------------- identities that tie

  /** Rows of two tied identities in the order of their ids: the first identity comes back. */
  lemma TiedIdentitiesRepeat(collate: Collator, x: Text, y: Text, i: Text, j: Text, k: Text)
    requires Consistent(collate) && x != y && collate(x, y) == 0
    requires collate(i, j) <= 0 && collate(j, k) <= 0
    ensures var teams := [Team(x, i), Team(y, j), Team(x, k)];
      DedupePublicTeams(collate, teams) == teams && !ListedOnce(teams)
  {
    hide Sort, DropRepeats;
    var teams := [Team(x, i), Team(y, j), Team(x, k)];
    CollatesThrough(collate, i, j, k);
    assert collate(y, x) == 0 && collate(x, x) == 0;
    forall p, q | 0 <= p < q < |teams| ensures !Before(collate)(teams[q], teams[p]) {
    }
    SortOfSorted(Before(collate), teams);
    KeepsAll(teams);
    assert teams[0].identity == teams[2].identity;
  }

  lemma KeepsAll(teams: seq<Team>)
    requires |teams| == 3 && teams[0].identity != teams[1].identity && teams[1].identity != teams[2].identity
    ensures DropRepeats(None, teams) == teams
  {
    assert teams == [teams[0], teams[1], teams[2]];
    assert teams[1..] == [teams[1], teams[2]] && teams[1..][1..] == [teams[2]] && teams[1..][1..][1..] == [];
    assert DropRepeats(Some(teams[1].identity), [teams[2]]) == [teams[2]];
    assert DropRepeats(Some(teams[0].identity), [teams[1], teams[2]]) == [teams[1]] + [teams[2]];
  }

  /** Any three ids can be put in the collator's order. */
  lemma ThreeInOrder(collate: Collator, a: Text, b: Text, c: Text) returns (i: Text, j: Text, k: Text)
    requires Consistent(collate) && a != b && b != c && a != c
    ensures i != j && j != k && i != k && collate(i, j) <= 0 && collate(j, k) <= 0
  {
    if collate(a, b) <= 0 {
      if collate(b, c) <= 0 {
        i, j, k := a, b, c;
      } else if collate(a, c) <= 0 {
        i, j, k := a, c, b;
      } else {
        i, j, k := c, a, b;
      }
    } else {
      if collate(a, c) <= 0 {
        i, j, k := b, a, c;
      } else if collate(b, c) <= 0 {
        i, j, k := b, c, a;
      } else {
        i, j, k := c, b, a;
      }
    }
  }

  /** Each identity is listed once, whatever the ids, exactly when no two different identities
      collate equal. */
  lemma ListedOnceIff(collate: Collator, identities: set<Text>)
    requires Consistent(collate)
    ensures (forall teams :: IdentitiesIn(teams, identities) && DifferentIds(teams) ==>
               ListedOnce(DedupePublicTeams(collate, teams)))
      <==> TellsApart(collate, identities)
  {
    hide DedupePublicTeams, Consistent, ListedOnce;
    if TellsApart(collate, identities) {
      forall teams | IdentitiesIn(teams, identities)
        ensures ListedOnce(DedupePublicTeams(collate, teams))
      {
        OneRowPerTeam(collate, teams, identities);
      }
    } else {
      var x, y :| x in identities && y in identities && x != y && collate(x, y) == 0;
      var i, j, k := ThreeInOrder(collate, [1], [2], [3]);
      TiedIdentitiesRepeat(collate, x, y, i, j, k);
      var teams := [Team(x, i), Team(y, j), Team(x, k)];
      assert IdentitiesIn(teams, identities) && DifferentIds(teams);
    }
  }

  /** "é" as one character and as a letter with a combining accent: different texts that
      collators of Unicode text treat as equal. */
  const COMPOSED: Text := [0xE9]
  const DECOMPOSED: Text := [0x65, 0x301]

  function Compose(t: Text): Text {
    if t == DECOMPOSED then COMPOSED else t
  }

  function ComposingCollator(): Collator {
    (a: Text, b: Text) =>
      if Compose(a) == Compose(b) then 0 else if Less(Compose(a), Compose(b)) then -1 else 1
  }

  lemma ComposingIsConsistent()
    ensures Consistent(ComposingCollator())
  {
    hide Compose, Less;
    var collate := ComposingCollator();
    forall a, b ensures collate(a, b) < 0 <==> collate(b, a) > 0 {
      LessAntisymmetric(Compose(a), Compose(b));
      LessTotal(Compose(a), Compose(b));
    }
    forall a, b, c | collate(a, b) <= 0 && collate(b, c) <= 0 ensures collate(a, c) <= 0 {
      if Less(Compose(a), Compose(b)) && Less(Compose(b), Compose(c)) {
        LessTransitive(Compose(a), Compose(b), Compose(c));
      }
    }
  }

  lemma LessAntisymmetric(a: Text, b: Text)
    ensures !(Less(a, b) && Less(b, a))
  {
    hide Less;
    if Less(a, b) && Less(b, a) {
      LessTransitive(a, b, a);
      LessIrreflexive(a);
    }
  }

  /** Such a collator lists a team twice when one spelled the other way has an id in between. */
  lemma AccentsRepeatTeam()
    ensures var collate := ComposingCollator();
      var teams := [Team(COMPOSED, [49]), Team(DECOMPOSED, [50]), Team(COMPOSED, [51])];
      && Consistent(collate) && COMPOSED != DECOMPOSED && collate(COMPOSED, DECOMPOSED) == 0
      && DedupePublicTeams(collate, teams) == teams
  {
    hide Consistent, DedupePublicTeams;
    ComposingIsConsistent();
    assert COMPOSED[0] != DECOMPOSED[0];
    assert Less([49], [50]) && Less([50], [51]);
    TiedIdentitiesRepeat(ComposingCollator(), COMPOSED, DECOMPOSED, [49], [50], [51]);
  }
}
