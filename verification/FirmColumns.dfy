/** Every cell of the loaded tables after the firm pass, by table and column name
    (src/harper/resource-firm-canonicalization.ts). */
module FirmColumns {
  import opened Sequences
  import opened FirmCanonicalization

  /** The columns that carry firm ids. */
  ghost predicate CarriesFirmId(table: string, field: string) {
    || (table == "employments" && field == "firmId")
    || (table == "branches" && field == "firmId")
    || (table == "branchAssignments" && field == "firmId")
    || (table == "regApps" && field == "firmId")
    || (table == "deals" && field == "firmId")
    || (table == "mFirm" && field == "firmId")
    || (table == "teams" && field == "currentFirmId")
    || (table == "disclosures" && field == "firmIdAtTime")
    || (table == "bcSnaps" && field == "subjectFirmId")
    || (table == "transitions" && (field == "subjectFirmId" || field == "fromFirmId" || field == "toFirmId"))
  }

  /** The value is the id of a firm row named like the curated alias. */
  ghost predicate IsDuplicateId(naming: Naming, firms: seq<Row>, value: Value) {
    value.Str? &&
    exists k :: 0 <= k < |firms| && StringOf(Get(firms[k], "id")) == value.text &&
      Get(firms[k], "id") != Str("8e106b7e-efcc-5aed-8827-fd0ea645b6df") &&
      naming.normalize(Get(firms[k], "name")) == naming.normalize(Str("Morgan Stanley Wealth Management"))
  }

  lemma ColumnIsReference(table: string, field: string)
    ensures field in ReferenceFields(table) <==> CarriesFirmId(table, field)
  {
  }

  lemma DuplicateIsStale(naming: Naming, firms: seq<Row>, value: Value)
    ensures IsDuplicateId(naming, firms, value) <==> IsStale(naming, firms, value)
  {
    hide StringOf;
    if IsStale(naming, firms, value) {
      var k :| 0 <= k < |firms| && IsAlias(naming, firms[k]) && StringOf(Get(firms[k], "id")) == value.text;
      assert StringOf(Get(firms[k], "id")) == value.text;
    }
    if IsDuplicateId(naming, firms, value) {
      var k :| 0 <= k < |firms| && StringOf(Get(firms[k], "id")) == value.text &&
        Get(firms[k], "id") != Str("8e106b7e-efcc-5aed-8827-fd0ea645b6df") &&
        naming.normalize(Get(firms[k], "name")) == naming.normalize(Str("Morgan Stanley Wealth Management"));
      assert IsAlias(naming, firms[k]);
    }
  }

  /** In the twelve columns that carry firm ids a duplicate's id becomes the canonical one; every
      other cell stays, save the names of teams. The firm and alias lists are `OneCanonicalFirm`
      and `AliasOverlay`. */
  lemma CellAfterPass(naming: Naming, tables: Tables, table: string, i: nat, field: string)
    requires table in tables && table != "firms" && table != "firmAliases" && i < |tables[table]|
    requires !(table == "teams" && field == "name")
    ensures var after := Canonicalize(naming, tables);
      var was := Get(tables[table][i], field);
      && table in after && |after[table]| == |tables[table]|
      && Get(after[table][i], field) ==
           if CarriesFirmId(table, field) && IsDuplicateId(naming, RowsOf(tables, "firms"), was)
           then Str("8e106b7e-efcc-5aed-8827-fd0ea645b6df") else was
  {
    hide Canonicalize, IsStale, IsDuplicateId, CarriesFirmId, ReferenceFields;
    ColumnIsReference(table, field);
    DuplicateIsStale(naming, RowsOf(tables, "firms"), Get(tables[table][i], field));
    if CarriesFirmId(table, field) {
      ReferencesMove(naming, tables, table, i, field);
    } else {
      OtherCellsStay(naming, tables, table, i, field);
    }
  }

  /** The pass keeps every table and adds none but the team and alias lists. */
  lemma TablesAfterPass(naming: Naming, tables: Tables)
    ensures Canonicalize(naming, tables).Keys == tables.Keys + {"teams", "firmAliases"}
  {
    hide CanonicalFirmRows, AliasRows, Replacements, RewriteReferences, PublicTeamRows, AliasFirms, RowsOf;
    var named := tables["teams" := PublicTeamRows(RowsOf(tables, "teams"))];
    var firms := RowsOf(named, "firms");
    var aliases := AliasFirms(naming, firms);
    NoFirmsNoAliases(naming, named);
    if aliases != [] {
      RewriteKeepsTables(
        named["firms" := CanonicalFirmRows(naming, firms)]
          ["firmAliases" := AliasRows(naming, RowsOf(named, "firmAliases"))],
        Replacements(aliases));
    }
  }

  lemma RewriteKeepsTables(tables: Tables, replacements: map<string, string>)
    ensures RewriteReferences(tables, replacements).Keys == tables.Keys
  {
    hide RewriteTable, ReferenceFields;
  }

  lemma NoFirmsNoAliases(naming: Naming, tables: Tables)
    ensures "firms" !in tables ==> AliasFirms(naming, RowsOf(tables, "firms")) == []
  {
  }

  /** With a duplicate present the firm list becomes the rows that are neither canonical nor
      named like the alias, in order, and then one row with the canonical id and name. */
  lemma FirmListAfterPass(naming: Naming, tables: Tables)
    requires AliasFirms(naming, RowsOf(tables, "firms")) != []
    ensures var firms := RowsOf(Canonicalize(naming, tables), "firms");
      var n := |firms| - 1;
      && n >= 0 && Get(firms[n], "id") == Str("8e106b7e-efcc-5aed-8827-fd0ea645b6df")
      && Get(firms[n], "name") == Str("Morgan Stanley")
      && firms[..n] == Filter(RowsOf(tables, "firms"), (firm: Row) =>
           Get(firm, "id") != Str("8e106b7e-efcc-5aed-8827-fd0ea645b6df") &&
           naming.normalize(Get(firm, "name")) != naming.normalize(Str("Morgan Stanley Wealth Management")))
  {
    hide Canonicalize, MergeAliases, ChosenFirm;
    OneCanonicalFirm(naming, tables);
    FirmsAfter(naming, tables);
    FilterAgrees(
      RowsOf(tables, "firms"),
      (firm: Row) => !IsCanonical(firm) && !IsAlias(naming, firm),
      (firm: Row) =>
        Get(firm, "id") != Str("8e106b7e-efcc-5aed-8827-fd0ea645b6df") &&
        naming.normalize(Get(firm, "name")) != naming.normalize(Str("Morgan Stanley Wealth Management")));
  }

  /** The row the duplicates are folded into: the first one stored under the canonical id. */
  lemma StoredCanonicalIsChosen(firms: seq<Row>, aliases: seq<Row>, k: nat)
    requires aliases != [] && k < |firms|
    requires Get(firms[k], "id") == Str("8e106b7e-efcc-5aed-8827-fd0ea645b6df")
    requires forall j :: 0 <= j < k ==> Get(firms[j], "id") != Str("8e106b7e-efcc-5aed-8827-fd0ea645b6df")
    ensures ChosenFirm(firms, aliases) == firms[k]
  {
    hide Filter;
    var front, rest := firms[..k], firms[k..];
    assert firms == front + rest;
    FilterConcat(front, rest, IsCanonical);
    FilterNone(front, IsCanonical);
    FilterStep(rest, IsCanonical);
  }

  /** The alias list after the pass, whether or not there is a duplicate: the stored rows except
      any under the curated id, in order, then the curated row. */
  lemma AliasListAfterPass(naming: Naming, tables: Tables)
    ensures var aliases := RowsOf(Canonicalize(naming, tables), "firmAliases");
      var n := |aliases| - 1;
      && n >= 0 && IsCuratedAlias(naming, aliases[n])
      && aliases[..n] == Filter(RowsOf(tables, "firmAliases"), (row: Row) =>
           Get(row, "id") != Str("68e35dd7-ed75-54a6-9ea2-417545e25f17"))
  {
    hide Canonicalize, IsCuratedAlias, CuratedAlias;
    AliasOverlay(naming, tables);
    CuratedAliasReads(naming);
    FilterAgrees(
      RowsOf(tables, "firmAliases"),
      (row: Row) => Get(row, "id") != Str(CURATED_ALIAS_ID),
      (row: Row) => Get(row, "id") != Str("68e35dd7-ed75-54a6-9ea2-417545e25f17"));
  }

  /** The curated alias row: it names the canonical firm. */
  ghost predicate IsCuratedAlias(naming: Naming, row: Row) {
    && Get(row, "id") == Str("68e35dd7-ed75-54a6-9ea2-417545e25f17")
    && Get(row, "firmId") == Str("8e106b7e-efcc-5aed-8827-fd0ea645b6df")
    && Get(row, "alias") == Str("Morgan Stanley Wealth Management")
    && Get(row, "normalizedAlias") == Str(naming.normalize(Str("Morgan Stanley Wealth Management")))
    && Get(row, "sourceType") == Str("curated_resource")
    && Get(row, "sourceRef") == Str("firm-aliases:v1")
    && Get(row, "confidence") == Str("approved")
  }

  lemma CuratedAliasReads(naming: Naming)
    ensures IsCuratedAlias(naming, CuratedAlias(naming))
  {
  }

  /** The marker: the sixteen characters " - NON-COMPLIANT" in any mix of cases, the I also as
      the dotless i. */
  lemma MarkerIff(text: string)
    ensures EndsInMarker(text) <==>
      |text| >= 16 && forall i :: 0 <= i < 16 ==>
        var c := text[|text| - 16 + i];
        c == " - NON-COMPLIANT"[i] || c == " - non-compliant"[i] || (i == 12 && c as int == 0x131)
  {
    var upper, lower := " - NON-COMPLIANT", " - non-compliant";
    assert forall i :: 0 <= i < 16 && 'A' <= upper[i] <= 'Z' ==> lower[i] as int == upper[i] as int + 32;
    assert forall i :: 0 <= i < 16 && !('A' <= upper[i] <= 'Z') ==> lower[i] == upper[i];
    assert forall i :: 0 <= i < 16 ==> (upper[i] == 'I' <==> i == 12);
  }

  /** The public name: the trimmed text, and without the marker, trimmed again, if it ends in
      one; a missing name is empty. */
  lemma DisplayNameReads(text: string)
    ensures var trimmed := Trim(text, BLANK);
      DisplayName(Str(text)) ==
        if EndsInMarker(trimmed) then Trim(trimmed[..|trimmed| - 16], BLANK) else trimmed
    ensures DisplayName(Undefined) == "" && DisplayName(Null) == ""
  {
    hide EndsInMarker;
    assert Trim("", BLANK) == "";
    assert !EndsInMarker("") by {
      MarkerIff("");
    }
  }

  /** A value fills its field unless it is missing, blank text or an empty list. */
  lemma FillsIff(value: Value)
    ensures HasValue(value) <==>
      && value != Undefined && value != Null
      && (value.Str? ==> exists i :: 0 <= i < |value.text| && !BLANK(value.text[i]))
      && (value.Items? ==> value.count != 0)
  {
  }
}
