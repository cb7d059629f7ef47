/** Folding curated duplicates of one firm into its canonical row and moving every foreign
    key with them (src/harper/resource-firm-canonicalization.ts). */
module FirmCanonicalization {
  import opened Sequences
  import opened Texts

  const MORGAN_STANLEY_ID := "8e106b7e-efcc-5aed-8827-fd0ea645b6df"
  const MORGAN_STANLEY_NAME := "Morgan Stanley"
  const MORGAN_STANLEY_ALIAS := "Morgan Stanley Wealth Management"
  const CURATED_ALIAS_ID := "68e35dd7-ed75-54a6-9ea2-417545e25f17"

  /** A field of a loosely typed row; `printed` is what `String(value)` gives. */
  datatype Value =
    | Undefined
    | Null
    | Str(text: string)
    | Items(count: nat, printed: string)
    | Plain(printed: string)

  type Row = map<string, Value>

  type Tables = map<string, seq<Row>>

  /** The alias key of a firm name, which rests on regular expressions. */
  datatype Naming = Naming(normalize: Value -> string)

  function Get(row: Row, field: string): Value {
    if field in row then row[field] else Undefined
  }

  function StringOf(value: Value): string {
    match value
    case Undefined => "undefined"
    case Null => "null"
    case Str(text) => text
    case Items(_, printed) => printed
    case Plain(printed) => printed
  }

  const BLANK: char -> bool := (c: char) => c as int < 0x1_0000 && IsSpace(c as int as CodeUnit)

  predicate IsBlank(text: string) {
    forall i :: 0 <= i < |text| ==> BLANK(text[i])
  }

  predicate HasValue(value: Value) {
    match value
    case Undefined => false
    case Null => false
    case Str(text) => !IsBlank(text)
    case Items(count, _) => count > 0
    case Plain(_) => true
  }

  predicate Filled(row: Row, field: string) {
    HasValue(Get(row, field))
  }

  // ---------------------------------------------------------------- merging firm rows

  function FilledFields(row: Row): set<string> {
    set field | field in row && HasValue(row[field])
  }

  function FilledFieldCount(row: Row): nat {
    |FilledFields(row)|
  }

  function MergeFirmRows(canonical: Row, alias: Row): Row {
    var aliasIsFuller := FilledFieldCount(alias) > FilledFieldCount(canonical);
    var base := if aliasIsFuller then alias else canonical;
    var fallback := if aliasIsFuller then canonical else alias;
    fallback + base +
    map field | field in fallback && !Filled(base, field) && Filled(fallback, field) :: fallback[field]
  }

  function MergeAliases(current: Row, aliases: seq<Row>): Row
    decreases aliases
  {
    if aliases == [] then current else MergeAliases(MergeFirmRows(current, aliases[0]), aliases[1..])
  }

  function Fullest(best: Row, rows: seq<Row>): Row
    decreases rows
  {
    if rows == [] then best
    else Fullest(if FilledFieldCount(rows[0]) > FilledFieldCount(best) then rows[0] else best, rows[1..])
  }

  predicate IsCanonical(firm: Row) {
    Get(firm, "id") == Str(MORGAN_STANLEY_ID)
  }

  predicate IsAlias(naming: Naming, firm: Row) {
    !IsCanonical(firm) &&
    naming.normalize(Get(firm, "name")) == naming.normalize(Str(MORGAN_STANLEY_ALIAS))
  }

  function AliasFirms(naming: Naming, firms: seq<Row>): seq<Row> {
    Filter(firms, firm => IsAlias(naming, firm))
  }

  function OtherFirms(naming: Naming, firms: seq<Row>): seq<Row> {
    Filter(firms, firm => !IsCanonical(firm) && !IsAlias(naming, firm))
  }

  /** The row the aliases are folded into: the first canonical row, else the fullest alias. */
  function ChosenFirm(firms: seq<Row>, aliases: seq<Row>): Row
    requires aliases != []
  {
    var canonical := Filter(firms, IsCanonical);
    if canonical != [] then canonical[0] else Fullest(aliases[0], aliases)
  }

  function CanonicalFirm(firms: seq<Row>, aliases: seq<Row>): Row
    requires aliases != []
  {
    MergeAliases(ChosenFirm(firms, aliases), aliases)
      ["id" := Str(MORGAN_STANLEY_ID)]["name" := Str(MORGAN_STANLEY_NAME)]
  }

  function CanonicalFirmRows(naming: Naming, firms: seq<Row>): seq<Row>
    requires AliasFirms(naming, firms) != []
  {
    OtherFirms(naming, firms) + [CanonicalFirm(firms, AliasFirms(naming, firms))]
  }

  // ---------------------------------------------------------------- team names

  const NON_COMPLIANT_SUFFIX := " - NON-COMPLIANT"

  /** `toUpperCase` turns the character into the given ASCII one: itself, its lower case, or
      for `I` also the dotless i. */
  predicate UppercasesTo(c: char, upper: char) {
    c == upper || ('A' <= upper <= 'Z' && c as int == upper as int + 32) ||
    (upper == 'I' && c as int == 0x131)
  }

  predicate EndsInMarker(text: string) {
    |text| >= |NON_COMPLIANT_SUFFIX| &&
    forall i :: 0 <= i < |NON_COMPLIANT_SUFFIX| ==>
      UppercasesTo(text[|text| - |NON_COMPLIANT_SUFFIX| + i], NON_COMPLIANT_SUFFIX[i])
  }

  /** `String(name ?? "").trim()`. */
  function TrimmedName(name: Value): string {
    Trim(if name.Undefined? || name.Null? then "" else StringOf(name), BLANK)
  }

  function CutMarker(text: string): string
    requires EndsInMarker(text)
  {
    Trim(text[..|text| - |NON_COMPLIANT_SUFFIX|], BLANK)
  }

  /** `publicTeamDisplayName`. */
  function DisplayName(name: Value): string {
    var display := TrimmedName(name);
    if EndsInMarker(display) then CutMarker(display) else display
  }

  /** The marker still ends the name when it has been cut off once. */
  predicate MarkedTwice(name: Value) {
    EndsInMarker(TrimmedName(name)) && EndsInMarker(CutMarker(TrimmedName(name)))
  }

  /** Cleaning a cleaned name changes it exactly when the name is marked twice. */
  lemma CleaningTwiceIff(name: Value)
    ensures DisplayName(Str(DisplayName(name))) == DisplayName(name) <==> !MarkedTwice(name)
  {
    hide EndsInMarker, Trim;
    var once := DisplayName(name);
    TrimOfTrimmed(once, BLANK);
    assert TrimmedName(Str(once)) == once;
    if EndsInMarker(once) {
      CutShortens(once);
    }
  }

  lemma CutShortens(text: string)
    requires EndsInMarker(text)
    ensures |CutMarker(text)| < |text|
  {
  }

  // ---------------------------------------------------------------- references

  function ReferenceFields(table: string): set<string> {
    match table
    case "branches" => {"firmId"}
    case "branchAssignments" => {"firmId"}
    case "employments" => {"firmId"}
    case "regApps" => {"firmId"}
    case "teams" => {"currentFirmId"}
    case "transitions" => {"subjectFirmId", "fromFirmId", "toFirmId"}
    case "deals" => {"firmId"}
    case "disclosures" => {"firmIdAtTime"}
    case "mFirm" => {"firmId"}
    case "bcSnaps" => {"subjectFirmId"}
    case _ => {}
  }

  function Replacements(aliases: seq<Row>): map<string, string> {
    var staleIds := set firm | firm in aliases :: StringOf(Get(firm, "id"));
    map id | id in staleIds :: MORGAN_STANLEY_ID
  }

  function RewriteValue(value: Value, replacements: map<string, string>): Value {
    if value.Str? && value.text in replacements then Str(replacements[value.text]) else value
  }

  function RewriteRow(row: Row, fields: set<string>, replacements: map<string, string>): Row {
    map field | field in row ::
      if field in fields then RewriteValue(row[field], replacements) else row[field]
  }

  function RewriteTable(rows: seq<Row>, fields: set<string>, replacements: map<string, string>): seq<Row> {
    if fields == {} then rows else Map(rows, row => RewriteRow(row, fields, replacements))
  }

  function RewriteReferences(tables: Tables, replacements: map<string, string>): Tables {
    map table | table in tables :: RewriteTable(tables[table], ReferenceFields(table), replacements)
  }

  // ---------------------------------------------------------------- the whole pass

  function RowsOf(tables: Tables, table: string): seq<Row> {
    if table in tables then tables[table] else []
  }

  function CuratedAlias(naming: Naming): Row {
    map["id" := Str(CURATED_ALIAS_ID),
        "firmId" := Str(MORGAN_STANLEY_ID),
        "alias" := Str(MORGAN_STANLEY_ALIAS),
        "normalizedAlias" := Str(naming.normalize(Str(MORGAN_STANLEY_ALIAS))),
        "sourceType" := Str("curated_resource"),
        "sourceRef" := Str("firm-aliases:v1"),
        "confidence" := Str("approved")]
  }

  function AliasRows(naming: Naming, existing: seq<Row>): seq<Row> {
    Filter(existing, alias => Get(alias, "id") != Str(CURATED_ALIAS_ID)) + [CuratedAlias(naming)]
  }

  function PublicTeamRow(row: Row): Row {
    var name := Str(DisplayName(Get(row, "name")));
    if name == Get(row, "name") then row else row["name" := name]
  }

  function PublicTeamRows(rows: seq<Row>): seq<Row> {
    Map(rows, PublicTeamRow)
  }

  function Canonicalize(naming: Naming, tables: Tables): Tables {
    var named := tables["teams" := PublicTeamRows(RowsOf(tables, "teams"))];
    var firms := RowsOf(named, "firms");
    var aliases := AliasFirms(naming, firms);
    var overlaid := AliasRows(naming, RowsOf(named, "firmAliases"));
    if aliases == [] then named["firmAliases" := overlaid]
    else
      RewriteReferences(
        named["firms" := CanonicalFirmRows(naming, firms)]["firmAliases" := overlaid],
        Replacements(aliases))
  }

  // ---------------------------------------------------------------- the merged row

  lemma MergedField(canonical: Row, alias: Row, field: string)
    ensures var merged := Get(MergeFirmRows(canonical, alias), field);
      var (base, fallback) :=
        if FilledFieldCount(alias) > FilledFieldCount(canonical)
        then (Get(alias, field), Get(canonical, field)) else (Get(canonical, field), Get(alias, field));
      && (HasValue(base) ==> merged == base)
      && (!HasValue(base) && HasValue(fallback) ==> merged == fallback)
      && (!HasValue(base) && !HasValue(fallback) ==> !HasValue(merged))
    ensures var (base, fallback) :=
        if FilledFieldCount(alias) > FilledFieldCount(canonical) then (alias, canonical) else (canonical, alias);
      !Filled(base, field) && !Filled(fallback, field) ==>
        Get(MergeFirmRows(canonical, alias), field) == Get(if field in base then base else fallback, field)
  {
    hide FilledFieldCount, IsBlank;
  }

  lemma {:induction false} FieldsSurvive(current: Row, aliases: seq<Row>, field: string)
    ensures var merged := MergeAliases(current, aliases);
      && (Filled(merged, field) <==> exists k :: 0 <= k <= |aliases| && Filled(([current] + aliases)[k], field))
      && (Filled(merged, field) ==>
            exists k :: 0 <= k <= |aliases| && Get(([current] + aliases)[k], field) == Get(merged, field))
    decreases aliases
  {
    hide HasValue, MergeFirmRows;
    var all := [current] + aliases;
    assert all[0] == current;
    if aliases == [] {
    } else {
      var next := MergeFirmRows(current, aliases[0]);
      var rest := [next] + aliases[1..];
      MergedField(current, aliases[0], field);
      FieldsSurvive(next, aliases[1..], field);
      assert all[1] == aliases[0];
      assert forall k :: 1 <= k < |rest| ==> rest[k] == all[k + 1];
      assert forall k :: 2 <= k < |all| ==> all[k] == rest[k - 1];
      assert rest[0] == next;
    }
  }

  /** The canonical row has a value in a field exactly when the chosen row or one of the
      duplicates had one, and that value comes from one of them. */
  lemma MergedFirmKeepsEveryField(firms: seq<Row>, aliases: seq<Row>, field: string)
    requires aliases != [] && field != "id" && field != "name"
    ensures var merged := CanonicalFirm(firms, aliases);
      var sources := [ChosenFirm(firms, aliases)] + aliases;
      && Get(merged, "id") == Str(MORGAN_STANLEY_ID) && Get(merged, "name") == Str(MORGAN_STANLEY_NAME)
      && (Filled(merged, field) <==> exists k :: 0 <= k < |sources| && Filled(sources[k], field))
      && (Filled(merged, field) ==>
            exists k :: 0 <= k < |sources| && Get(sources[k], field) == Get(merged, field))
  {
    hide HasValue, ChosenFirm, MergeAliases;
    FieldsSurvive(ChosenFirm(firms, aliases), aliases, field);
  }

  /** One merge keeps all of the canonical row's values exactly when the duplicate is not
      fuller or does not contradict it. */
  lemma CanonicalValuesKeptIff(canonical: Row, alias: Row)
    ensures (forall field :: Filled(canonical, field) ==>
               Get(MergeFirmRows(canonical, alias), field) == Get(canonical, field))
      <==> FilledFieldCount(alias) <= FilledFieldCount(canonical) ||
           forall field :: Filled(canonical, field) && Filled(alias, field) ==>
             Get(canonical, field) == Get(alias, field)
  {
    hide FilledFieldCount, HasValue, MergeFirmRows;
    forall field
      ensures Filled(canonical, field) ==>
        (Get(MergeFirmRows(canonical, alias), field) == Get(canonical, field) <==>
          FilledFieldCount(alias) <= FilledFieldCount(canonical) ||
          (Filled(alias, field) ==> Get(canonical, field) == Get(alias, field)))
    {
      MergedField(canonical, alias, field);
    }
  }

  /** The fields filled in the chosen row or in one of the first `n` duplicates. */
  function FilledIn(sources: seq<Row>, n: nat): set<string>
    requires n <= |sources|
  {
    if n == 0 then {}
    else FilledIn(sources, n - 1) + FilledFields(sources[n - 1])
  }

  /** Source `i` has more filled fields than all sources before it together, so its values
      override theirs. Source 0 is the chosen row. */
  predicate TakesOver(sources: seq<Row>, i: nat)
    requires i < |sources|
  {
    i > 0 && FilledFieldCount(sources[i]) > |FilledIn(sources, i)|
  }

  /** The value that wins a field: that of the last source to take over with the field
      filled, else of the first source that has it filled. */
  ghost predicate Wins(sources: seq<Row>, field: string, i: nat)
    requires i < |sources|
  {
    && Filled(sources[i], field)
    && (forall j :: i < j < |sources| && TakesOver(sources, j) ==> !Filled(sources[j], field))
    && (TakesOver(sources, i) || forall j :: 0 <= j < i ==> !Filled(sources[j], field))
  }

  lemma {:induction false} FilledInPrefix(sources: seq<Row>, more: seq<Row>, n: nat)
    requires n <= |sources|
    ensures FilledIn(sources + more, n) == FilledIn(sources, n)
  {
    if n == 0 {
    } else {
      FilledInPrefix(sources, more, n - 1);
      assert (sources + more)[n - 1] == sources[n - 1];
    }
  }

  function MergedSources(sources: seq<Row>): Row
    requires sources != []
  {
    if |sources| == 1 then sources[0]
    else MergeFirmRows(MergedSources(sources[..|sources| - 1]), sources[|sources| - 1])
  }

  lemma {:induction false} MergeFollowsSources(sources: seq<Row>, rest: seq<Row>)
    requires sources != []
    ensures MergeAliases(MergedSources(sources), rest) == MergedSources(sources + rest)
    decreases rest
  {
    hide MergeFirmRows;
    if rest == [] {
      assert sources + rest == sources;
    } else {
      var more := sources + [rest[0]];
      assert more[..|more| - 1] == sources && more + rest[1..] == sources + rest;
      MergeFollowsSources(more, rest[1..]);
    }
  }

  /** The merged row is filled exactly where a source is. */
  lemma {:induction false} MergedFills(sources: seq<Row>)
    requires sources != []
    ensures FilledFieldCount(MergedSources(sources)) == |FilledIn(sources, |sources|)|
    ensures forall field :: Filled(MergedSources(sources), field) <==> field in FilledIn(sources, |sources|)
  {
    hide HasValue, MergeFirmRows;
    var n := |sources|;
    var merged := MergedSources(sources);
    FilledMeans(sources[n - 1]);
    if n > 1 {
      var front := sources[..n - 1];
      MergedFills(front);
      assert front + [sources[n - 1]] == sources;
      FilledInPrefix(front, [sources[n - 1]], n - 1);
      forall field ensures Filled(merged, field) <==> field in FilledIn(sources, n) {
        MergedField(MergedSources(front), sources[n - 1], field);
      }
    } else {
      assert FilledIn(sources, 0) == {};
    }
    FilledMeans(merged);
    assert FilledFields(merged) == FilledIn(sources, n);
  }

  lemma FilledMeans(row: Row)
    ensures forall field :: Filled(row, field) <==> field in FilledFields(row)
  {
    hide IsBlank;
  }

  lemma TakesOverPrefix(front: seq<Row>, last: Row)
    ensures forall j: nat :: j < |front| ==> (TakesOver(front, j) <==> TakesOver(front + [last], j))
    ensures TakesOver(front + [last], |front|) <==>
      front != [] && FilledFieldCount(last) > |FilledIn(front, |front|)|
  {
    hide FilledFieldCount, FilledIn;
    forall j: nat | j <= |front| ensures FilledIn(front + [last], j) == FilledIn(front, j) {
      FilledInPrefix(front, [last], j);
    }
  }

  /** The last source wins a field it fills by taking over, or when no other fills it. */
  lemma LastWins(front: seq<Row>, last: Row, field: string)
    requires front != [] && Filled(last, field)
    requires TakesOver(front + [last], |front|) || !Filled(MergedSources(front), field)
    ensures Wins(front + [last], field, |front|)
  {
    hide HasValue, FilledFieldCount, FilledIn, TakesOver, MergedSources;
    var sources := front + [last];
    if !TakesOver(sources, |front|) {
      NoneFilled(front, field);
      assert forall j :: 0 <= j < |front| ==> sources[j] == front[j];
    }
  }

  lemma FrontWins(front: seq<Row>, last: Row, field: string, i: nat)
    requires i < |front| && Wins(front, field, i)
    requires !(Filled(last, field) && TakesOver(front + [last], |front|))
    ensures Wins(front + [last], field, i)
  {
    hide HasValue, FilledFieldCount, FilledIn, TakesOver;
    TakesOverPrefix(front, last);
    assert forall j :: 0 <= j < |front| ==> (front + [last])[j] == front[j];
  }

  lemma {:induction false} MergedWinner(sources: seq<Row>, field: string) returns (i: nat)
    requires sources != [] && Filled(MergedSources(sources), field)
    ensures i < |sources| && Wins(sources, field, i)
    ensures Get(MergedSources(sources), field) == Get(sources[i], field)
  {
    hide Filled, HasValue, MergeFirmRows, FilledFieldCount, FilledIn, TakesOver, Wins;
    if |sources| == 1 {
      i := 0;
      OnlySourceWins(sources[0], field);
      assert sources == [sources[0]];
    } else {
      var front, last := sources[..|sources| - 1], sources[|sources| - 1];
      var before := MergedSources(front);
      assert front + [last] == sources;
      MergedField(before, last, field);
      MergedFills(front);
      TakesOverPrefix(front, last);
      FilledIsValue(before, field);
      FilledIsValue(last, field);
      FilledIsValue(MergedSources(sources), field);
      if Filled(last, field) && (TakesOver(sources, |front|) || !Filled(before, field)) {
        i := |front|;
        LastWins(front, last, field);
      } else {
        i := MergedWinner(front, field);
        FrontWins(front, last, field, i);
      }
    }
  }

  lemma FilledIsValue(row: Row, field: string)
    ensures Filled(row, field) <==> HasValue(Get(row, field))
  {
  }

  lemma OnlySourceWins(row: Row, field: string)
    requires Filled(row, field)
    ensures Wins([row], field, 0)
  {
  }

  lemma NoneFilled(sources: seq<Row>, field: string)
    requires sources != [] && !Filled(MergedSources(sources), field)
    ensures forall j :: 0 <= j < |sources| ==> !Filled(sources[j], field)
  {
    MergedFills(sources);
    forall j: nat | j < |sources| ensures !Filled(sources[j], field) {
      FilledInHas(sources, j, |sources|, field);
    }
  }

  lemma {:induction false} FilledInHas(sources: seq<Row>, j: nat, n: nat, field: string)
    requires j < n <= |sources|
    ensures Filled(sources[j], field) ==> field in FilledIn(sources, n)
  {
    hide HasValue;
    FilledMeans(sources[j]);
    if j < n - 1 {
      FilledInHas(sources, j, n - 1, field);
    }
  }

  lemma WinnerIsOne(sources: seq<Row>, field: string, i: nat, j: nat)
    requires i < |sources| && j < |sources| && Wins(sources, field, i) && Wins(sources, field, j)
    ensures i == j
  {
    hide HasValue, FilledFieldCount, FilledIn;
  }

  /** Folding the duplicates into the chosen row: whatever source wins a field decides it. */
  lemma FoldTakesWinner(chosen: Row, aliases: seq<Row>, field: string, i: nat)
    requires i <= |aliases| && Wins([chosen] + aliases, field, i)
    ensures Get(MergeAliases(chosen, aliases), field) == Get(([chosen] + aliases)[i], field)
  {
    hide HasValue, MergedSources, FilledFieldCount, Wins;
    var sources := [chosen] + aliases;
    MergedOfOne(chosen);
    MergeFollowsSources([chosen], aliases);
    WinnerIsFilled(sources, field, i);
    MergedFills(sources);
    FilledInHas(sources, i, |sources|, field);
    var winner := MergedWinner(sources, field);
    WinnerIsOne(sources, field, i, winner);
  }

  lemma MergedOfOne(row: Row)
    ensures MergedSources([row]) == row
  {
  }

  lemma WinnerIsFilled(sources: seq<Row>, field: string, i: nat)
    requires i < |sources| && Wins(sources, field, i)
    ensures Filled(sources[i], field)
  {
  }

  lemma SomeWinner(chosen: Row, aliases: seq<Row>, field: string) returns (i: nat)
    requires Filled(chosen, field)
    ensures i <= |aliases| && Wins([chosen] + aliases, field, i)
    ensures i == 0 || TakesOver([chosen] + aliases, i)
  {
    hide HasValue, MergedSources, FilledFieldCount;
    var sources := [chosen] + aliases;
    assert sources[0] == chosen;
    FilledInHas(sources, 0, |sources|, field);
    MergedFills(sources);
    i := MergedWinner(sources, field);
  }

  /** The fold keeps all of the chosen row's values exactly when every field it fills is won
      by the chosen row or by a duplicate that says the same. */
  lemma ChosenValuesKeptIff(chosen: Row, aliases: seq<Row>)
    ensures (forall field :: Filled(chosen, field) ==>
               Get(MergeAliases(chosen, aliases), field) == Get(chosen, field))
      <==> forall field, i: nat :: Filled(chosen, field) && i <= |aliases| && Wins([chosen] + aliases, field, i)
             ==> Get(([chosen] + aliases)[i], field) == Get(chosen, field)
  {
    hide HasValue, MergeAliases, FilledFieldCount, Wins, TakesOver;
    forall field | Filled(chosen, field)
      ensures Get(MergeAliases(chosen, aliases), field) == Get(chosen, field) <==>
        forall i: nat :: i <= |aliases| && Wins([chosen] + aliases, field, i) ==>
          Get(([chosen] + aliases)[i], field) == Get(chosen, field)
    {
      var w := SomeWinner(chosen, aliases, field);
      FoldTakesWinner(chosen, aliases, field, w);
      forall i: nat | i <= |aliases| && Wins([chosen] + aliases, field, i) ensures i == w {
        WinnerIsOne([chosen] + aliases, field, i, w);
      }
    }
  }

  lemma {:induction false} FullestIsFullest(best: Row, rows: seq<Row>)
    ensures var r := Fullest(best, rows);
      && (r == best || r in rows)
      && FilledFieldCount(best) <= FilledFieldCount(r)
      && forall k :: 0 <= k < |rows| ==> FilledFieldCount(rows[k]) <= FilledFieldCount(r)
    decreases rows
  {
    hide FilledFieldCount;
    if rows == [] {
    } else {
      FullestIsFullest(
        if FilledFieldCount(rows[0]) > FilledFieldCount(best) then rows[0] else best, rows[1..]);
    }
  }

  lemma MergeGrows(canonical: Row, alias: Row)
    ensures FilledFieldCount(MergeFirmRows(canonical, alias)) >= FilledFieldCount(canonical)
  {
    hide HasValue;
    var merged := MergeFirmRows(canonical, alias);
    var was := set field | field in canonical && HasValue(canonical[field]);
    var now := set field | field in merged && HasValue(merged[field]);
    forall field | field in was ensures field in now {
      MergedField(canonical, alias, field);
    }
    SubsetSize(was, now);
  }

  lemma {:induction false} FullerRowWins(current: Row, aliases: seq<Row>, field: string)
    requires forall k :: 0 <= k < |aliases| ==> FilledFieldCount(aliases[k]) <= FilledFieldCount(current)
    requires Filled(current, field)
    ensures Get(MergeAliases(current, aliases), field) == Get(current, field)
    decreases aliases
  {
    hide FilledFieldCount, HasValue, MergeFirmRows;
    if aliases == [] {
    } else {
      MergedField(current, aliases[0], field);
      MergeGrows(current, aliases[0]);
      FullerRowWins(MergeFirmRows(current, aliases[0]), aliases[1..], field);
    }
  }

  /** Without a stored canonical row the fullest duplicate keeps every value it has. */
  lemma FullestDuplicateWins(firms: seq<Row>, aliases: seq<Row>, field: string)
    requires aliases != [] && (forall k :: 0 <= k < |firms| ==> !IsCanonical(firms[k]))
    requires field != "id" && field != "name"
    ensures var chosen := ChosenFirm(firms, aliases);
      && chosen in aliases
      && (forall k :: 0 <= k < |aliases| ==> FilledFieldCount(aliases[k]) <= FilledFieldCount(chosen))
      && (Filled(chosen, field) ==> Get(CanonicalFirm(firms, aliases), field) == Get(chosen, field))
  {
    hide FilledFieldCount, HasValue, MergeAliases, Fullest, IsCanonical;
    var canonical := Filter(firms, IsCanonical);
    if canonical != [] {
      FilterMembers(firms, IsCanonical, canonical[0]);
    }
    FullestIsFullest(aliases[0], aliases);
    var chosen := ChosenFirm(firms, aliases);
    if Filled(chosen, field) {
      FullerRowWins(chosen, aliases, field);
    }
  }

  /** A duplicate of the canonical firm with one more field filled. */
  const STORED_CANONICAL: Row := map["id" := Str(MORGAN_STANLEY_ID), "website" := Str("old")]
  const DUPLICATE: Row :=
    map["id" := Str("dup"), "name" := Str(MORGAN_STANLEY_ALIAS), "website" := Str("new")]

  lemma InitialIsValue(text: string)
    requires text != "" && '!' <= text[0] <= '~'
    ensures HasValue(Str(text))
  {
    assert !BLANK(text[0]);
  }

  lemma AllFilled(row: Row)
    requires forall field :: field in row ==> HasValue(row[field])
    ensures FilledFieldCount(row) == |row.Keys|
  {
    assert FilledFields(row) == row.Keys;
  }

  lemma DuplicateIsFuller()
    ensures FilledFieldCount(STORED_CANONICAL) == 2 && FilledFieldCount(DUPLICATE) == 3
    ensures HasValue(Str("old")) && HasValue(Str("new"))
  {
    hide HasValue, FilledFieldCount, BLANK;
    InitialIsValue("old");
    InitialIsValue("new");
    InitialIsValue("dup");
    InitialIsValue(MORGAN_STANLEY_ID);
    InitialIsValue(MORGAN_STANLEY_ALIAS);
    AllFilled(STORED_CANONICAL);
    AllFilled(DUPLICATE);
    assert STORED_CANONICAL.Keys == {"id", "website"};
    assert DUPLICATE.Keys == {"id", "name", "website"};
  }

  /** For instance, a fuller duplicate replaces the website of the stored canonical firm. */
  lemma FullerDuplicateOverrides()
    ensures Get(CanonicalFirm([STORED_CANONICAL, DUPLICATE], [DUPLICATE]), "website") == Str("new")
    ensures Filled(STORED_CANONICAL, "website") && Get(STORED_CANONICAL, "website") != Str("new")
  {
    hide HasValue, FilledFieldCount, MergeFirmRows, BLANK;
    var firms := [STORED_CANONICAL, DUPLICATE];
    DuplicateIsFuller();
    assert firms[1..] == [DUPLICATE] && [DUPLICATE][1..] == [];
    assert IsCanonical(STORED_CANONICAL) && !IsCanonical(DUPLICATE) by {
      assert MORGAN_STANLEY_ID[0] != "dup"[0];
    }
    assert Filter(firms, IsCanonical)[0] == STORED_CANONICAL;
    MergedField(STORED_CANONICAL, DUPLICATE, "website");
    assert MergeAliases(STORED_CANONICAL, [DUPLICATE]) == MergeFirmRows(STORED_CANONICAL, DUPLICATE);
    assert "new"[0] != "old"[0];
  }

  // ---------------------------------------------------------------- the firm list

  ghost predicate Resolves(firms: seq<Row>, reference: Value) {
    exists k :: 0 <= k < |firms| && Get(firms[k], "id") == reference
  }

  function Firms(tables: Tables): seq<Row> {
    RowsOf(tables, "firms")
  }

  lemma FirmsAfter(naming: Naming, tables: Tables)
    ensures Firms(Canonicalize(naming, tables)) ==
      if AliasFirms(naming, Firms(tables)) == [] then Firms(tables)
      else CanonicalFirmRows(naming, Firms(tables))
  {
    hide AliasFirms, CanonicalFirmRows, PublicTeamRows, Replacements, AliasRows, ReferenceFields;
    FieldsAreNotNames("firms");
  }

  /** With duplicates present the list ends in the one canonical row, after the untouched
      other firms, and no duplicate is left. */
  lemma OneCanonicalFirm(naming: Naming, tables: Tables)
    requires AliasFirms(naming, Firms(tables)) != []
    ensures var firms := Firms(Canonicalize(naming, tables));
      && |firms| > 0 && firms[..|firms| - 1] == OtherFirms(naming, Firms(tables))
      && (forall k :: 0 <= k < |firms| ==> (IsCanonical(firms[k]) <==> k == |firms| - 1))
      && (forall k :: 0 <= k < |firms| ==> !IsAlias(naming, firms[k]))
  {
    hide Canonicalize, CanonicalFirm;
    FirmsAfter(naming, tables);
    var others := OtherFirms(naming, Firms(tables));
    forall k | 0 <= k < |others| ensures !IsCanonical(others[k]) && !IsAlias(naming, others[k]) {
      FilterMembers(Firms(tables), firm => !IsCanonical(firm) && !IsAlias(naming, firm), others[k]);
    }
    CanonicalFirmHasId(Firms(tables), AliasFirms(naming, Firms(tables)));
  }

  lemma CanonicalFirmHasId(firms: seq<Row>, aliases: seq<Row>)
    requires aliases != []
    ensures IsCanonical(CanonicalFirm(firms, aliases))
  {
  }

  lemma FilterCounted(rows: seq<Row>, p: Row -> bool)
    requires rows != []
    ensures multiset(Filter(rows, p)) ==
      (if p(rows[0]) then multiset{rows[0]} else multiset{}) + multiset(Filter(rows[1..], p))
  {
    hide Filter;
    FilterStep(rows, p);
  }

  /** Every firm row is either kept, or folded as a duplicate, or canonical, and counted once. */
  lemma {:induction false} FirmsArePartitioned(naming: Naming, firms: seq<Row>)
    ensures multiset(firms) ==
      multiset(OtherFirms(naming, firms)) + multiset(AliasFirms(naming, firms)) +
      multiset(Filter(firms, IsCanonical))
  {
    hide IsAlias, IsCanonical, Filter;
    var isOther := (firm: Row) => !IsCanonical(firm) && !IsAlias(naming, firm);
    var isAlias := (firm: Row) => IsAlias(naming, firm);
    if firms == [] {
      FilterNone(firms, isOther);
      FilterNone(firms, isAlias);
      FilterNone(firms, IsCanonical);
    } else {
      FirmsArePartitioned(naming, firms[1..]);
      FilterCounted(firms, isOther);
      FilterCounted(firms, isAlias);
      FilterCounted(firms, IsCanonical);
      AliasIsNotCanonical(naming, firms[0]);
      assert firms == [firms[0]] + firms[1..];
    }
  }

  lemma FirmIsInOnePart(naming: Naming, firms: seq<Row>, firm: Row)
    requires firm in firms
    ensures firm in OtherFirms(naming, firms) <==> !IsAlias(naming, firm) && !IsCanonical(firm)
    ensures firm in AliasFirms(naming, firms) <==> IsAlias(naming, firm) && !IsCanonical(firm)
    ensures firm in Filter(firms, IsCanonical) <==> !IsAlias(naming, firm) && IsCanonical(firm)
  {
    FilterMembers(firms, firm => !IsCanonical(firm) && !IsAlias(naming, firm), firm);
    FilterMembers(firms, firm => IsAlias(naming, firm), firm);
    FilterMembers(firms, IsCanonical, firm);
  }

  lemma AliasIsNotCanonical(naming: Naming, firm: Row)
    ensures !(IsAlias(naming, firm) && IsCanonical(firm))
  {
  }

  // ---------------------------------------------------------------- what happens to a reference

  ghost predicate IsStale(naming: Naming, firms: seq<Row>, reference: Value) {
    reference.Str? &&
    exists k :: 0 <= k < |firms| && IsAlias(naming, firms[k]) &&
                StringOf(Get(firms[k], "id")) == reference.text
  }

  lemma StaleIffReplaced(naming: Naming, firms: seq<Row>, reference: Value)
    ensures RewriteValue(reference, Replacements(AliasFirms(naming, firms))) ==
      if IsStale(naming, firms, reference) then Str(MORGAN_STANLEY_ID) else reference
  {
    hide IsAlias, StringOf;
    var aliases := AliasFirms(naming, firms);
    var p := (firm: Row) => IsAlias(naming, firm);
    if reference.Str? {
      if k :| 0 <= k < |firms| && IsAlias(naming, firms[k]) &&
              StringOf(Get(firms[k], "id")) == reference.text {
        FilterMembers(firms, p, firms[k]);
        assert reference.text in Replacements(aliases);
      } else if reference.text in Replacements(aliases) {
        var firm :| firm in aliases && StringOf(Get(firm, "id")) == reference.text;
        FilterMembers(firms, p, firm);
        assert false;
      }
    }
  }

  lemma {:induction false} NoAliasNoneStale(naming: Naming, firms: seq<Row>, reference: Value)
    requires AliasFirms(naming, firms) == []
    ensures !IsStale(naming, firms, reference)
  {
    hide IsAlias;
    forall k | 0 <= k < |firms| ensures !IsAlias(naming, firms[k]) {
      FilterMembers(firms, firm => IsAlias(naming, firm), firms[k]);
    }
  }

  /** A cell of a table that carries firm ids. */
  ghost predicate IsReference(tables: Tables, table: string, i: int, field: string) {
    table in tables && 0 <= i < |tables[table]| && field in ReferenceFields(table)
  }

  lemma NamedRow(row: Row, field: string)
    requires field != "name"
    ensures Get(PublicTeamRow(row), field) == Get(row, field)
  {
  }

  lemma FieldsAreNotNames(table: string)
    ensures ReferenceFields("firms") == {} && ReferenceFields("firmAliases") == {}
    ensures "name" !in ReferenceFields(table)
  {
  }

  /** A reference to a duplicate moves to the canonical firm; every other one stays. */
  lemma ReferencesMove(naming: Naming, tables: Tables, table: string, i: nat, field: string)
    requires IsReference(tables, table, i, field)
    ensures var after := Canonicalize(naming, tables);
      && table in after && |after[table]| == |tables[table]|
      && Get(after[table][i], field) ==
           if IsStale(naming, Firms(tables), Get(tables[table][i], field))
           then Str(MORGAN_STANLEY_ID) else Get(tables[table][i], field)
  {
    hide IsStale, Replacements, AliasRows, CanonicalFirmRows, AliasFirms, PublicTeamRow, ReferenceFields;
    FieldsAreNotNames(table);
    var before := tables[table][i];
    NamedRow(before, field);
    StaleIffReplaced(naming, Firms(tables), Get(before, field));
    if AliasFirms(naming, Firms(tables)) == [] {
      NoAliasNoneStale(naming, Firms(tables), Get(before, field));
    }
  }

  /** Every other cell of a table other than the firm and alias lists is as it was, save the
      names of the teams. */
  lemma OtherCellsStay(naming: Naming, tables: Tables, table: string, i: nat, field: string)
    requires table in tables && table != "firms" && table != "firmAliases" && i < |tables[table]|
    requires field !in ReferenceFields(table) && (table == "teams" ==> field != "name")
    ensures var after := Canonicalize(naming, tables);
      && table in after && |after[table]| == |tables[table]|
      && Get(after[table][i], field) == Get(tables[table][i], field)
      && (table != "teams" ==> after[table][i].Keys == tables[table][i].Keys)
  {
    hide AliasRows, CanonicalFirmRows, AliasFirms, Replacements, ReferenceFields, RewriteValue;
  }

  /** After the pass no reference is the id of a duplicate, unless that id is not a string:
      such ids are exactly the ones left in place. */
  lemma NoReferenceToDuplicate(
    naming: Naming, tables: Tables, table: string, i: nat, field: string, alias: Row)
    requires IsReference(tables, table, i, field)
    requires alias in Firms(tables) && IsAlias(naming, alias)
    ensures table in Canonicalize(naming, tables) && i < |Canonicalize(naming, tables)[table]|
    ensures Get(Canonicalize(naming, tables)[table][i], field) == Get(alias, "id") <==>
      Get(tables[table][i], field) == Get(alias, "id") && !Get(alias, "id").Str?
  {
    hide Canonicalize, ReferenceFields;
    ReferencesMove(naming, tables, table, i, field);
  }

  ghost function FirmsAfterPass(naming: Naming, firms: seq<Row>): seq<Row> {
    if AliasFirms(naming, firms) == [] then firms else CanonicalFirmRows(naming, firms)
  }

  lemma KeptFirm(naming: Naming, firms: seq<Row>, k: nat)
    requires k < |firms| && !IsAlias(naming, firms[k])
    ensures Resolves(FirmsAfterPass(naming, firms), Get(firms[k], "id"))
  {
    hide CanonicalFirm, AliasFirms, Filter;
    var after := FirmsAfterPass(naming, firms);
    if AliasFirms(naming, firms) == [] {
      assert after[k] == firms[k];
    } else if IsCanonical(firms[k]) {
      CanonicalFirmHasId(firms, AliasFirms(naming, firms));
      assert IsCanonical(after[|after| - 1]);
    } else {
      FilterMembers(firms, firm => !IsCanonical(firm) && !IsAlias(naming, firm), firms[k]);
      var j :| 0 <= j < |OtherFirms(naming, firms)| && OtherFirms(naming, firms)[j] == firms[k];
      assert after[j] == firms[k];
    }
  }

  lemma ResolvedAfter(naming: Naming, firms: seq<Row>, reference: Value)
    requires Resolves(firms, reference)
    ensures var moved := if IsStale(naming, firms, reference) then Str(MORGAN_STANLEY_ID) else reference;
      Resolves(FirmsAfterPass(naming, firms), moved) <==>
        reference.Str? ||
        exists k :: 0 <= k < |firms| && !IsAlias(naming, firms[k]) && Get(firms[k], "id") == reference
  {
    hide CanonicalFirm, AliasFirms, Filter, IsAlias;
    var after := FirmsAfterPass(naming, firms);
    if IsStale(naming, firms, reference) {
      if AliasFirms(naming, firms) == [] {
        NoAliasNoneStale(naming, firms, reference);
      }
      CanonicalFirmHasId(firms, AliasFirms(naming, firms));
      assert IsCanonical(after[|after| - 1]);
    } else {
      UnmovedResolves(naming, firms, reference);
    }
  }

  lemma UnmovedResolves(naming: Naming, firms: seq<Row>, reference: Value)
    requires Resolves(firms, reference) && !IsStale(naming, firms, reference)
    ensures Resolves(FirmsAfterPass(naming, firms), reference) <==>
      reference.Str? ||
      exists k :: 0 <= k < |firms| && !IsAlias(naming, firms[k]) && Get(firms[k], "id") == reference
  {
    hide CanonicalFirm, AliasFirms, Filter, IsAlias;
    var after := FirmsAfterPass(naming, firms);
    var k :| 0 <= k < |firms| && Get(firms[k], "id") == reference;
    if reference.Str? {
      KeptFirm(naming, firms, k);
    } else if j :| 0 <= j < |firms| && !IsAlias(naming, firms[j]) && Get(firms[j], "id") == reference {
      KeptFirm(naming, firms, j);
    } else if Resolves(after, reference) {
      var j :| 0 <= j < |after| && Get(after[j], "id") == reference;
      ResolvedWasThere(naming, firms, j);
    }
  }

  lemma ResolvedWasThere(naming: Naming, firms: seq<Row>, j: nat)
    requires j < |FirmsAfterPass(naming, firms)|
    ensures var firm := FirmsAfterPass(naming, firms)[j];
      IsCanonical(firm) || (firm in firms && !IsAlias(naming, firm))
  {
    hide CanonicalFirm, Filter, IsAlias, IsCanonical;
    var after := FirmsAfterPass(naming, firms);
    if AliasFirms(naming, firms) == [] {
      if IsAlias(naming, firms[j]) {
        FilterMembers(firms, firm => IsAlias(naming, firm), firms[j]);
      }
    } else if j < |after| - 1 {
      FilterMembers(firms, firm => !IsCanonical(firm) && !IsAlias(naming, firm), after[j]);
    } else {
      CanonicalFirmHasId(firms, AliasFirms(naming, firms));
    }
  }

  /** A reference that found its firm still finds one, except a non-string reference that
      only duplicates answered to. */
  lemma ReferencesStillResolve(naming: Naming, tables: Tables, table: string, i: nat, field: string)
    requires IsReference(tables, table, i, field)
    requires Resolves(Firms(tables), Get(tables[table][i], field))
    ensures var after := Canonicalize(naming, tables);
      var reference := Get(tables[table][i], field);
      && table in after && i < |after[table]|
      && (Resolves(Firms(after), Get(after[table][i], field)) <==>
            reference.Str? ||
            exists k :: 0 <= k < |Firms(tables)| && !IsAlias(naming, Firms(tables)[k]) &&
                        Get(Firms(tables)[k], "id") == reference)
  {
    hide Canonicalize, ReferenceFields, IsAlias, AliasFirms;
    ReferencesMove(naming, tables, table, i, field);
    ResolvedAfter(naming, Firms(tables), Get(tables[table][i], field));
    FirmsAfter(naming, tables);
  }

  // ---------------------------------------------------------------- the alias overlay

  lemma AliasRowsShape(naming: Naming, existing: seq<Row>)
    ensures var overlay := AliasRows(naming, existing);
      forall k :: 0 <= k < |overlay| ==>
        (Get(overlay[k], "id") == Str(CURATED_ALIAS_ID) <==> k == |overlay| - 1)
  {
    hide Filter;
    var p := (alias: Row) => Get(alias, "id") != Str(CURATED_ALIAS_ID);
    var kept := Filter(existing, p);
    forall k | 0 <= k < |kept| ensures p(kept[k]) {
      FilterMembers(existing, p, kept[k]);
    }
  }

  /** The curated alias is listed once, at the end; the other alias rows are kept in order. */
  lemma AliasOverlay(naming: Naming, tables: Tables)
    ensures "firmAliases" in Canonicalize(naming, tables)
    ensures var overlay := Canonicalize(naming, tables)["firmAliases"];
      && overlay == AliasRows(naming, RowsOf(tables, "firmAliases"))
      && (forall k :: 0 <= k < |overlay| ==>
            (Get(overlay[k], "id") == Str(CURATED_ALIAS_ID) <==> k == |overlay| - 1))
  {
    hide AliasFirms, CanonicalFirmRows, PublicTeamRows, Replacements, AliasRows, ReferenceFields;
    FieldsAreNotNames("firmAliases");
    AliasRowsShape(naming, RowsOf(tables, "firmAliases"));
  }

  /** Stored alias rows are not rewritten. After the pass one still names a listed firm
      exactly when it names the canonical firm of folded duplicates, or a firm that is no
      duplicate. */
  lemma StoredAliasResolvesIff(naming: Naming, tables: Tables, alias: Row)
    requires alias in RowsOf(tables, "firmAliases") && Get(alias, "id") != Str(CURATED_ALIAS_ID)
    ensures var after := Canonicalize(naming, tables);
      && alias in RowsOf(after, "firmAliases")
      && (Resolves(Firms(after), Get(alias, "firmId")) <==>
            || (AliasFirms(naming, Firms(tables)) != [] && Get(alias, "firmId") == Str(MORGAN_STANLEY_ID))
            || exists k :: 0 <= k < |Firms(tables)| && !IsAlias(naming, Firms(tables)[k]) &&
                           Get(Firms(tables)[k], "id") == Get(alias, "firmId"))
  {
    hide Canonicalize, IsAlias, CanonicalFirmRows, AliasFirms;
    AliasOverlay(naming, tables);
    FirmsAfter(naming, tables);
    var p := (alias: Row) => Get(alias, "id") != Str(CURATED_ALIAS_ID);
    FilterMembers(RowsOf(tables, "firmAliases"), p, alias);
    ListedAfterIff(naming, Firms(tables), Get(alias, "firmId"));
  }

  lemma ListedAfterIff(naming: Naming, firms: seq<Row>, id: Value)
    ensures Resolves(FirmsAfterPass(naming, firms), id) <==>
      || (AliasFirms(naming, firms) != [] && id == Str(MORGAN_STANLEY_ID))
      || exists k :: 0 <= k < |firms| && !IsAlias(naming, firms[k]) && Get(firms[k], "id") == id
  {
    hide IsAlias, AliasFirms, CanonicalFirm, Filter;
    var after := FirmsAfterPass(naming, firms);
    if Resolves(after, id) {
      var j: nat :| j < |after| && Get(after[j], "id") == id;
      ResolvedWasThere(naming, firms, j);
      if AliasFirms(naming, firms) == [] {
        assert after[j] in firms;
        KeptAreNoAliases(naming, firms, j);
      }
    }
    if AliasFirms(naming, firms) != [] {
      CanonicalFirmHasId(firms, AliasFirms(naming, firms));
      assert IsCanonical(after[|after| - 1]);
    }
    if k: nat :| k < |firms| && !IsAlias(naming, firms[k]) && Get(firms[k], "id") == id {
      KeptFirm(naming, firms, k);
    }
  }

  /** For instance, a stored alias of a duplicate names no listed firm once the duplicate is
      folded. */
  lemma StoredAliasLosesFirm(naming: Naming)
    ensures var alias := map["id" := Str("a1"), "firmId" := Str("dup")];
      var tables := map["firms" := [DUPLICATE], "firmAliases" := [alias]];
      && Resolves(Firms(tables), Get(alias, "firmId"))
      && alias in RowsOf(Canonicalize(naming, tables), "firmAliases")
      && !Resolves(Firms(Canonicalize(naming, tables)), Get(alias, "firmId"))
  {
    hide Canonicalize;
    var alias := map["id" := Str("a1"), "firmId" := Str("dup")];
    var tables := map["firms" := [DUPLICATE], "firmAliases" := [alias]];
    assert MORGAN_STANLEY_ID[0] == '8' && "dup"[0] == 'd' && CURATED_ALIAS_ID[0] == '6' && "a1"[0] == 'a';
    assert IsAlias(naming, DUPLICATE);
    assert alias in RowsOf(tables, "firmAliases");
    StoredAliasResolvesIff(naming, tables, alias);
    assert Firms(tables)[0] == DUPLICATE;
  }

  lemma KeptAreNoAliases(naming: Naming, firms: seq<Row>, k: nat)
    requires AliasFirms(naming, firms) == [] && k < |firms|
    ensures !IsAlias(naming, firms[k])
  {
    FilterMembers(firms, firm => IsAlias(naming, firm), firms[k]);
  }

  // ---------------------------------------------------------------- applying the pass twice

  lemma AliasRowsTwice(naming: Naming, existing: seq<Row>)
    ensures AliasRows(naming, AliasRows(naming, existing)) == AliasRows(naming, existing)
  {
    var p := (alias: Row) => Get(alias, "id") != Str(CURATED_ALIAS_ID);
    var kept := Filter(existing, p);
    forall k | 0 <= k < |kept| ensures p(kept[k]) {
      FilterMembers(existing, p, kept[k]);
    }
    FilterAll(kept, p);
    FilterConcat(kept, [CuratedAlias(naming)], p);
  }

  lemma NoAliasLeft(naming: Naming, tables: Tables)
    ensures AliasFirms(naming, Firms(Canonicalize(naming, tables))) == []
  {
    hide Canonicalize, CanonicalFirmRows, IsAlias;
    FirmsAfter(naming, tables);
    if AliasFirms(naming, Firms(tables)) != [] {
      OneCanonicalFirm(naming, tables);
      var firms := Firms(Canonicalize(naming, tables));
      var left := AliasFirms(naming, firms);
      if left != [] {
        FilterMembers(firms, firm => IsAlias(naming, firm), left[0]);
      }
    }
  }

  /** A second pass leaves firms, aliases and every reference table as they are; the team
      names are the only thing it can still change. */
  lemma SecondPassTouchesOnlyTeamNames(naming: Naming, tables: Tables)
    ensures var once := Canonicalize(naming, tables);
      && "teams" in once
      && Canonicalize(naming, once) == once["teams" := PublicTeamRows(once["teams"])]
  {
    hide AliasFirms, CanonicalFirmRows, PublicTeamRows, Replacements, RewriteTable, AliasRows;
    var once := Canonicalize(naming, tables);
    NoAliasLeft(naming, tables);
    AliasOverlay(naming, tables);
    AliasRowsTwice(naming, RowsOf(tables, "firmAliases"));
    assert RowsOf(once, "firmAliases") == AliasRows(naming, RowsOf(tables, "firmAliases"));
  }

  lemma TeamNameAfter(naming: Naming, tables: Tables, i: nat)
    requires i < |RowsOf(tables, "teams")|
    ensures var teams := RowsOf(Canonicalize(naming, tables), "teams");
      |teams| == |RowsOf(tables, "teams")| &&
      Get(teams[i], "name") == Str(DisplayName(Get(RowsOf(tables, "teams")[i], "name")))
  {
    hide AliasFirms, CanonicalFirmRows, Replacements, AliasRows, ReferenceFields;
    FieldsAreNotNames("teams");
  }

  /** The whole pass is idempotent exactly when no team name ends in the marker twice. */
  lemma PassIsIdempotentIff(naming: Naming, tables: Tables)
    ensures var once := Canonicalize(naming, tables);
      var teams := RowsOf(tables, "teams");
      Canonicalize(naming, once) == once <==>
        forall i :: 0 <= i < |teams| ==> !MarkedTwice(Get(teams[i], "name"))
  {
    hide Canonicalize, MarkedTwice, DisplayName;
    var once := Canonicalize(naming, tables);
    var teams := RowsOf(tables, "teams");
    SecondPassTouchesOnlyTeamNames(naming, tables);
    var twice := PublicTeamRows(once["teams"]);
    TeamCount(naming, tables);
    forall i | 0 <= i < |teams|
      ensures twice[i] == once["teams"][i] <==> !MarkedTwice(Get(teams[i], "name"))
    {
      TeamNameAfter(naming, tables, i);
      CleaningTwiceIff(Get(teams[i], "name"));
    }
    assert Canonicalize(naming, once) == once <==> twice == once["teams"] by {
      assert once["teams" := twice]["teams"] == twice;
    }
  }

  lemma MarkerCutsOff(text: string)
    ensures EndsInMarker(text + NON_COMPLIANT_SUFFIX)
    ensures CutMarker(text + NON_COMPLIANT_SUFFIX) == Trim(text, BLANK)
  {
    var marked := text + NON_COMPLIANT_SUFFIX;
    assert marked[..|text|] == text;
    assert forall i :: 0 <= i < |NON_COMPLIANT_SUFFIX| ==> marked[|text| + i] == NON_COMPLIANT_SUFFIX[i];
  }

  lemma LettersAreNotBlank()
    ensures !BLANK('A') && !BLANK('T')
    ensures |NON_COMPLIANT_SUFFIX| == 16 && NON_COMPLIANT_SUFFIX[15] == 'T'
  {
  }

  lemma MarkedName(text: string)
    requires text != "" && !BLANK(text[0])
    ensures TrimmedName(Str(text + NON_COMPLIANT_SUFFIX)) == text + NON_COMPLIANT_SUFFIX
    ensures DisplayName(Str(text + NON_COMPLIANT_SUFFIX)) == Trim(text, BLANK)
  {
    hide Trim, EndsInMarker, BLANK;
    LettersAreNotBlank();
    var marked := text + NON_COMPLIANT_SUFFIX;
    assert marked[0] == text[0] && marked[|marked| - 1] == NON_COMPLIANT_SUFFIX[15];
    TrimOfTrimmed(marked, BLANK);
    MarkerCutsOff(text);
  }

  /** A name marked twice is cleaned only halfway by one pass. */
  lemma DoubleMarkerNeedsTwoPasses()
    ensures var once := "A" + NON_COMPLIANT_SUFFIX;
      var twice := once + NON_COMPLIANT_SUFFIX;
      DisplayName(Str(twice)) == once && DisplayName(Str(once)) == "A" && MarkedTwice(Str(twice))
  {
    hide Trim, EndsInMarker, BLANK, DisplayName, TrimmedName, CutMarker;
    var once := "A" + NON_COMPLIANT_SUFFIX;
    LettersAreNotBlank();
    TrimOfTrimmed("A", BLANK);
    assert once[0] == 'A' && once[|once| - 1] == NON_COMPLIANT_SUFFIX[15];
    TrimOfTrimmed(once, BLANK);
    MarkedName("A");
    MarkedName(once);
    MarkerCutsOff("A");
    MarkerCutsOff(once);
  }

  lemma TeamCount(naming: Naming, tables: Tables)
    ensures |RowsOf(Canonicalize(naming, tables), "teams")| == |RowsOf(tables, "teams")|
  {
    hide AliasFirms, CanonicalFirmRows, Replacements, AliasRows, ReferenceFields;
  }
}
