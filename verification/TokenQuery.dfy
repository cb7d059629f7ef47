/** Prefix queries over the advisor token index (src/harper/resource-advisor-token-query.ts).
    `scan` holds the index rows in the order the store's range scans deliver them; a
    JavaScript `Set` is a sequence without repetition, in insertion order. */
module TokenQuery {
  import opened Sequences
  import opened StableSort
  import opened Texts
  import opened AdvisorTokens
  import opened AdvisorSearchIndex

  const TOKEN_INTERSECTION_CAP: nat := 500
  const TOKEN_FETCH_LIMIT: nat := 4000

  datatype TokenQueryResult = TokenQueryResult(ids: seq<Text>, truncated: bool)

  function In(ids: seq<Text>): Text -> bool {
    (id: Text) => id in ids
  }

  /** `intersect`: iterates the smaller set. */
  function Intersect(a: seq<Text>, b: seq<Text>): seq<Text> {
    if |a| <= |b| then Filter(a, In(b)) else Filter(b, In(a))
  }

  function StartsWith(token: Text): IndexRow -> bool {
    (row: IndexRow) => token <= row.token
  }

  function AdvisorIds(rows: seq<IndexRow>): seq<Text> {
    Map(rows, (row: IndexRow) => row.advisorId)
  }

  /** `tokenIdsFor`: one bounded prefix scan, then a set of advisor ids. */
  function TokenIdsFor(scan: seq<IndexRow>, token: Text): seq<Text> {
    UniqueOrdered([], AdvisorIds(Take(Filter(scan, StartsWith(token)), TOKEN_FETCH_LIMIT)))
  }

  function IntersectAll(acc: seq<Text>, idSets: seq<seq<Text>>): seq<Text>
    decreases idSets
  {
    if idSets == [] then acc else IntersectAll(Intersect(acc, idSets[0]), idSets[1..])
  }

  function IntersectTokenIdSets(idSets: seq<seq<Text>>): TokenQueryResult {
    if idSets == [] then TokenQueryResult([], false)
    else
      var merged := IntersectAll(idSets[0], idSets[1..]);
      TokenQueryResult(Take(merged, TOKEN_INTERSECTION_CAP), |merged| > TOKEN_INTERSECTION_CAP)
  }

  /** `searchAdvisorsByTokens`; `tokens` is `splitQueryTokens` of the query. */
  function SearchByTokens(scan: seq<IndexRow>, tokens: seq<Text>): TokenQueryResult {
    IntersectTokenIdSets(Map(tokens, (token: Text) => TokenIdsFor(scan, token)))
  }

  /** A query without words finds nothing, and nothing is left out. */
  lemma NoWordsFindNothing(scan: seq<IndexRow>)
    ensures SearchByTokens(scan, []) == TokenQueryResult([], false)
  {
  }

  lemma IntersectIsIntersection(a: seq<Text>, b: seq<Text>)
    requires Distinct(a) && Distinct(b)
    ensures Distinct(Intersect(a, b))
    ensures forall id :: id in Intersect(a, b) <==> id in a && id in b
  {
    FilterDistinct(a, In(b));
    FilterDistinct(b, In(a));
    forall id ensures id in Intersect(a, b) <==> id in a && id in b {
      FilterMembers(a, In(b), id);
      FilterMembers(b, In(a), id);
    }
  }

  lemma {:induction false} IntersectAllIsIntersection(acc: seq<Text>, idSets: seq<seq<Text>>)
    requires Distinct(acc) && forall i :: 0 <= i < |idSets| ==> Distinct(idSets[i])
    ensures Distinct(IntersectAll(acc, idSets))
    ensures forall id :: id in IntersectAll(acc, idSets) <==>
      id in acc && forall i :: 0 <= i < |idSets| ==> id in idSets[i]
    decreases idSets
  {
    hide Intersect;
    if idSets == [] {
    } else {
      IntersectIsIntersection(acc, idSets[0]);
      IntersectAllIsIntersection(Intersect(acc, idSets[0]), idSets[1..]);
      forall id ensures (forall i :: 0 <= i < |idSets| ==> id in idSets[i]) <==>
        id in idSets[0] && forall i :: 0 <= i < |idSets[1..]| ==> id in idSets[1..][i]
      {
        assert forall i :: 1 <= i < |idSets| ==> idSets[i] == idSets[1..][i - 1];
      }
    }
  }

  /** The index rows a prefix selects, before the fetch limit. */
  function Hits(scan: seq<IndexRow>, token: Text): seq<IndexRow> {
    Filter(scan, StartsWith(token))
  }

  lemma TokenIdsAreHits(scan: seq<IndexRow>, token: Text)
    ensures Distinct(TokenIdsFor(scan, token))
    ensures forall id :: id in TokenIdsFor(scan, token) ==>
      exists row :: row in scan && row.advisorId == id && token <= row.token
    ensures |Hits(scan, token)| <= TOKEN_FETCH_LIMIT ==>
      forall row :: row in scan && token <= row.token ==> row.advisorId in TokenIdsFor(scan, token)
  {
    hide Filter;
    var hits := Hits(scan, token);
    var fetched := Take(hits, TOKEN_FETCH_LIMIT);
    UniqueOrderedIsDistinct([], AdvisorIds(fetched));
    forall id | id in TokenIdsFor(scan, token)
      ensures exists row :: row in scan && row.advisorId == id && token <= row.token
    {
      var i :| 0 <= i < |fetched| && AdvisorIds(fetched)[i] == id;
      assert fetched[i] in hits;
      FilterMembers(scan, StartsWith(token), fetched[i]);
    }
    if |hits| <= TOKEN_FETCH_LIMIT {
      forall row | row in scan && token <= row.token
        ensures row.advisorId in TokenIdsFor(scan, token)
      {
        FilterMembers(scan, StartsWith(token), row);
        assert fetched == hits;
        var i :| 0 <= i < |hits| && hits[i] == row;
        assert AdvisorIds(fetched)[i] == row.advisorId;
      }
    }
  }

  /** The scan delivers exactly the rows every advisor should have. */
  ghost predicate IndexInSync(scan: seq<IndexRow>, advisors: Advisors) {
    forall row :: row in scan <==> row in Desired(advisors, row.advisorId)
  }

  /** The naive rule: every query token starts some token of the advisor. */
  ghost predicate NaiveMatch(advisors: Advisors, id: Text, tokens: seq<Text>) {
    id in advisors && forall t :: t in tokens ==> Matches(advisors[id], t)
  }

  lemma HitIsMatch(scan: seq<IndexRow>, advisors: Advisors, id: Text, token: Text)
    requires IndexInSync(scan, advisors)
    ensures (exists row :: row in scan && row.advisorId == id && token <= row.token) <==>
      id in advisors && Matches(advisors[id], token)
  {
    hide TokensForAdvisor, Label;
    if exists row :: row in scan && row.advisorId == id && token <= row.token {
      var row :| row in scan && row.advisorId == id && token <= row.token;
      var i :| 0 <= i < |Desired(advisors, id)| && Desired(advisors, id)[i] == row;
      assert TokensForAdvisor(advisors[id])[i].token == row.token;
    }
    if id in advisors && Matches(advisors[id], token) {
      var i :| 0 <= i < |TokensForAdvisor(advisors[id])| &&
        token <= TokensForAdvisor(advisors[id])[i].token;
      var row := Desired(advisors, id)[i];
      assert row in Desired(advisors, row.advisorId) && row.token == TokensForAdvisor(advisors[id])[i].token;
    }
  }

  /** The intersection before the cap. */
  function Candidates(scan: seq<IndexRow>, tokens: seq<Text>): seq<Text>
    requires tokens != []
  {
    var idSets := Map(tokens, (token: Text) => TokenIdsFor(scan, token));
    IntersectAll(idSets[0], idSets[1..])
  }

  lemma CandidatesAreCommon(scan: seq<IndexRow>, tokens: seq<Text>)
    requires tokens != []
    ensures Distinct(Candidates(scan, tokens))
    ensures forall id :: id in Candidates(scan, tokens) <==>
      forall t :: t in tokens ==> id in TokenIdsFor(scan, t)
  {
    hide TokenIdsFor;
    var idSets := Map(tokens, (token: Text) => TokenIdsFor(scan, token));
    forall i | 0 <= i < |idSets| ensures Distinct(idSets[i]) {
      TokenIdsAreHits(scan, tokens[i]);
    }
    IntersectAllIsIntersection(idSets[0], idSets[1..]);
    forall id ensures id in Candidates(scan, tokens) <==>
      forall t :: t in tokens ==> id in TokenIdsFor(scan, t)
    {
      if id in Candidates(scan, tokens) {
        forall t | t in tokens ensures id in TokenIdsFor(scan, t) {
          var i :| 0 <= i < |tokens| && tokens[i] == t;
          assert i > 0 ==> id in idSets[1..][i - 1];
        }
      } else if forall t :: t in tokens ==> id in TokenIdsFor(scan, t) {
        forall i | 0 <= i < |idSets| ensures id in idSets[i] {
          assert tokens[i] in tokens;
        }
      }
    }
  }

  /** Over an index in sync, every returned id matches the naive rule, ids are distinct and
      at most 500; and when no prefix scan exceeds its fetch limit, `truncated` says exactly
      whether matches were left out: without it the ids are all of them. */
  lemma QueryRefinesScan(scan: seq<IndexRow>, advisors: Advisors, tokens: seq<Text>)
    requires IndexInSync(scan, advisors) && tokens != []
    ensures var result := SearchByTokens(scan, tokens);
      && Distinct(result.ids) && |result.ids| <= 500
      && (forall id :: id in result.ids ==> NaiveMatch(advisors, id, tokens))
      && (result.truncated ==> |result.ids| == 500)
    ensures (forall t :: t in tokens ==> |Hits(scan, t)| <= 4_000) ==>
      (SearchByTokens(scan, tokens).truncated <==>
        exists id :: NaiveMatch(advisors, id, tokens) && id !in SearchByTokens(scan, tokens).ids)
  {
    hide TokenIdsFor, IndexInSync, Hits, Matches;
    var result := SearchByTokens(scan, tokens);
    var all := Candidates(scan, tokens);
    CandidatesAreCommon(scan, tokens);
    assert result.ids == Take(all, TOKEN_INTERSECTION_CAP);
    forall id | id in all ensures NaiveMatch(advisors, id, tokens) {
      CandidateMatches(scan, advisors, tokens, id);
    }
    if forall t :: t in tokens ==> |Hits(scan, t)| <= TOKEN_FETCH_LIMIT {
      forall id | NaiveMatch(advisors, id, tokens) ensures id in all {
        MatchIsCandidate(scan, advisors, tokens, id);
      }
      if result.truncated {
        var left := all[TOKEN_INTERSECTION_CAP];
        assert left in all && left !in result.ids;
      }
    }
  }

  lemma CandidateMatches(scan: seq<IndexRow>, advisors: Advisors, tokens: seq<Text>, id: Text)
    requires IndexInSync(scan, advisors) && tokens != [] && id in Candidates(scan, tokens)
    ensures NaiveMatch(advisors, id, tokens)
  {
    hide TokenIdsFor, IndexInSync, Candidates, Matches;
    CandidatesAreCommon(scan, tokens);
    assert tokens[0] in tokens;
    forall t | t in tokens ensures id in advisors && Matches(advisors[id], t) {
      TokenIdsAreHits(scan, t);
      HitIsMatch(scan, advisors, id, t);
    }
  }

  lemma MatchIsCandidate(scan: seq<IndexRow>, advisors: Advisors, tokens: seq<Text>, id: Text)
    requires IndexInSync(scan, advisors) && tokens != [] && NaiveMatch(advisors, id, tokens)
    requires forall t :: t in tokens ==> |Hits(scan, t)| <= TOKEN_FETCH_LIMIT
    ensures id in Candidates(scan, tokens)
  {
    hide TokenIdsFor, IndexInSync, Candidates, Matches, Hits;
    CandidatesAreCommon(scan, tokens);
    forall t | t in tokens ensures id in TokenIdsFor(scan, t) {
      HitIsMatch(scan, advisors, id, t);
      TokenIdsAreHits(scan, t);
    }
  }

  // ---------------------------------------------------------------- the fetch limit

  /** One of the rows fetched for the token is the advisor's. */
  ghost predicate FetchedFor(scan: seq<IndexRow>, token: Text, id: Text) {
    exists row :: row in Take(Hits(scan, token), 4_000) && row.advisorId == id
  }

  lemma FetchDecides(scan: seq<IndexRow>, token: Text, id: Text)
    ensures id in TokenIdsFor(scan, token) <==> FetchedFor(scan, token, id)
  {
    hide Filter;
    var fetched := Take(Hits(scan, token), TOKEN_FETCH_LIMIT);
    UniqueOrderedIsDistinct([], AdvisorIds(fetched));
    if id in TokenIdsFor(scan, token) {
      var i :| 0 <= i < |fetched| && AdvisorIds(fetched)[i] == id;
      assert fetched[i] in fetched;
    }
    if FetchedFor(scan, token, id) {
      var row :| row in fetched && row.advisorId == id;
      var i :| 0 <= i < |fetched| && fetched[i] == row;
      assert AdvisorIds(fetched)[i] == id;
    }
  }

  ghost predicate AllMatchesFetched(scan: seq<IndexRow>, advisors: Advisors, tokens: seq<Text>) {
    forall id, t :: NaiveMatch(advisors, id, tokens) && t in tokens ==> FetchedFor(scan, t, id)
  }

  /** A query returns every match exactly when it is not truncated and every match has, for
      each query token, a row among the first 4,000 the prefix selects. */
  lemma QueryCompleteIff(scan: seq<IndexRow>, advisors: Advisors, tokens: seq<Text>)
    requires IndexInSync(scan, advisors) && tokens != []
    ensures (forall id :: NaiveMatch(advisors, id, tokens) ==> id in SearchByTokens(scan, tokens).ids)
      <==> !SearchByTokens(scan, tokens).truncated && AllMatchesFetched(scan, advisors, tokens)
  {
    hide TokenIdsFor, IndexInSync, Hits, NaiveMatch, FetchedFor, Distinct;
    var result := SearchByTokens(scan, tokens);
    var all := Candidates(scan, tokens);
    CandidatesAreCommon(scan, tokens);
    assert result.ids == Take(all, TOKEN_INTERSECTION_CAP);
    forall id, t ensures id in TokenIdsFor(scan, t) <==> FetchedFor(scan, t, id) {
      FetchDecides(scan, t, id);
    }
    if result.truncated {
      var left := all[TOKEN_INTERSECTION_CAP];
      assert left in all;
      LeftOut(all, TOKEN_INTERSECTION_CAP);
      CandidateMatches(scan, advisors, tokens, left);
    } else {
      assert result.ids == all;
    }
  }

  lemma LeftOut(ids: seq<Text>, cap: nat)
    requires Distinct(ids) && cap < |ids|
    ensures ids[cap] !in Take(ids, cap)
  {
  }

  const AB: Text := [97, 98]
  const CD: Text := [99, 100]
  const TARGET: Text := [5000]

  function Named(legal: Text): AdvisorNames {
    AdvisorNames(legal, [], [], [])
  }

  /** 4,000 advisors named "ab", and one named "ab cd". */
  function FillerIds(): seq<Text> {
    seq(TOKEN_FETCH_LIMIT, i requires 0 <= i < TOKEN_FETCH_LIMIT => [i as CodeUnit])
  }

  function CrowdedAdvisors(): Advisors {
    (map id | id in FillerIds() :: Named(AB))[TARGET := Named(AB + [32] + CD)]
  }

  function FillerRows(): seq<IndexRow> {
    seq(TOKEN_FETCH_LIMIT, i requires 0 <= i < TOKEN_FETCH_LIMIT =>
      IndexRow(Label([i as CodeUnit], Name, AB), [i as CodeUnit], AB, Name))
  }

  function CrowdedScan(): seq<IndexRow> {
    FillerRows() + DesiredRowsFor(TARGET, Named(AB + [32] + CD))
  }

  lemma SplitOneWord(t: Text)
    requires t == AB || t == CD
    ensures Split(t) == [t] && SplitQueryTokens(t) == [t]
  {
    assert FirstSeparator(t) == 2;
    assert [t][1..] == [];
  }

  lemma SplitTwoWords()
    ensures SplitQueryTokens(AB + [32] + CD) == [AB, CD]
  {
    var s := AB + [32] + CD;
    SplitOneWord(CD);
    assert s[0] == 97 && s[1] == 98 && s[2] == 32;
    assert !IsSeparator(s[0]) && !IsSeparator(s[1]) && IsSeparator(s[2]);
    assert FirstSeparator(s) == 2;
    assert s[..2] == AB && s[2..] == [32] + CD && ([32] + CD)[1..] == CD;
    assert SkipSeparators([32] + CD) == CD;
    assert Split(s) == [AB] + [CD];
    assert [AB, CD][1..] == [CD] && [CD][1..] == [];
  }

  lemma FillerTokens()
    ensures TokensForAdvisor(Named(AB)) == [AdvisorToken(AB, Name)]
  {
    hide TokensForAdvisor, SplitQueryTokens;
    var names := Named(AB);
    SplitOneWord(AB);
    NoTokens();
    assert [AB] + [] + [] + [] == [AB] && [AB][1..] == [];
    assert Singles(names) == UniqueOrdered([], [AB]) == [AB];
    TokensAreWordsThenName(names);
    assert [AB] + [] == [AB] && Take([AB], MAX_TOKENS_PER_ADVISOR) == [AB];
    assert TokenTexts(TokensForAdvisor(names))[0] == AB;
  }

  lemma NoTokens()
    ensures SplitQueryTokens([]) == []
  {
  }

  lemma TargetTokens()
    ensures var tokens := TokensForAdvisor(Named(AB + [32] + CD));
      |tokens| >= 2 && tokens[0].token == AB && tokens[1].token == CD
  {
    hide TokensForAdvisor, SplitQueryTokens;
    var names := Named(AB + [32] + CD);
    SplitTwoWords();
    NoTokens();
    assert [AB, CD] + [] + [] + [] == [AB, CD];
    assert [AB, CD][1..] == [CD] && [CD][1..] == [];
    assert [] + [AB] == [AB] && [AB] + [CD] == [AB, CD] && CD !in [AB];
    assert UniqueOrdered([], [AB, CD]) == UniqueOrdered([AB], [AB, CD][1..]);
    assert UniqueOrdered([AB], [CD]) == UniqueOrdered([AB, CD], [CD][1..]);
    assert Singles(names) == [AB, CD];
    TokensAreWordsThenName(names);
    var extra := if names.legal in Singles(names) then [] else [names.legal];
    assert Take([AB, CD] + extra, MAX_TOKENS_PER_ADVISOR)[..2] == [AB, CD];
    assert TokenTexts(TokensForAdvisor(names))[..2] == [AB, CD];
    assert TokenTexts(TokensForAdvisor(names))[0] == [AB, CD][0];
    assert TokenTexts(TokensForAdvisor(names))[1] == [AB, CD][1];
  }

  lemma FillerDesired(i: nat)
    requires i < TOKEN_FETCH_LIMIT
    ensures Desired(CrowdedAdvisors(), [i as CodeUnit]) == [FillerRows()[i]]
  {
    hide TokensForAdvisor, Label;
    FillerTokens();
    var id: Text := [i as CodeUnit];
    assert FillerIds()[i] == id;
    assert id != TARGET by {
      assert id[0] != TARGET[0];
    }
  }

  lemma CrowdedIsInSync()
    ensures IndexInSync(CrowdedScan(), CrowdedAdvisors())
  {
    hide TokensForAdvisor, Label;
    var advisors, scan := CrowdedAdvisors(), CrowdedScan();
    var target := DesiredRowsFor(TARGET, Named(AB + [32] + CD));
    assert Desired(advisors, TARGET) == target;
    forall row ensures row in scan <==> row in Desired(advisors, row.advisorId) {
      if row in scan {
        if row in FillerRows() {
          var i: nat :| i < TOKEN_FETCH_LIMIT && FillerRows()[i] == row;
          FillerDesired(i);
        } else {
          assert row in target;
        }
      }
      if row in Desired(advisors, row.advisorId) {
        DesiredNeedsAdvisor(advisors, row);
        if row.advisorId != TARGET {
          var i: nat :| i < TOKEN_FETCH_LIMIT && FillerIds()[i] == row.advisorId;
          FillerDesired(i);
          assert row == FillerRows()[i];
        }
      }
    }
  }

  lemma FillerRow(row: IndexRow)
    requires row in FillerRows()
    ensures row.token == AB && row.advisorId != TARGET && !(CD <= row.token)
  {
    hide Label;
    var i: nat :| i < TOKEN_FETCH_LIMIT && FillerRows()[i] == row;
    assert row.advisorId[0] != TARGET[0];
    assert AB[0] != CD[0];
  }

  /** The rows fetched for "ab" are all fillers', those for "cd" the target's. */
  lemma CrowdedFetches(id: Text)
    ensures FetchedFor(CrowdedScan(), AB, id) ==> id != TARGET
    ensures FetchedFor(CrowdedScan(), CD, id) ==> id == TARGET
  {
    hide TokensForAdvisor, Label, Filter, FillerRows;
    var target := DesiredRowsFor(TARGET, Named(AB + [32] + CD));
    FilterConcat(FillerRows(), target, StartsWith(AB));
    forall i | 0 <= i < |FillerRows()| ensures StartsWith(AB)(FillerRows()[i]) {
      FillerRow(FillerRows()[i]);
    }
    FilterAll(FillerRows(), StartsWith(AB));
    FillerCount();
    assert Take(Hits(CrowdedScan(), AB), TOKEN_FETCH_LIMIT) == FillerRows();
    if FetchedFor(CrowdedScan(), AB, id) {
      var row :| row in FillerRows() && row.advisorId == id;
      FillerRow(row);
    }
    if FetchedFor(CrowdedScan(), CD, id) {
      var row :| row in Take(Hits(CrowdedScan(), CD), TOKEN_FETCH_LIMIT) && row.advisorId == id;
      TakeMember(Hits(CrowdedScan(), CD), TOKEN_FETCH_LIMIT, row);
      FilterMembers(CrowdedScan(), StartsWith(CD), row);
      if row in FillerRows() {
        FillerRow(row);
      }
    }
  }

  lemma FillerCount()
    ensures |FillerRows()| == TOKEN_FETCH_LIMIT
  {
  }

  /** The fetch limit can hide a match without a trace: of 4,001 advisors matching "ab" only
      the last also matches "cd", and the query for both returns nothing, untruncated. */
  lemma FetchLimitHidesMatch()
    ensures var scan, advisors, tokens := CrowdedScan(), CrowdedAdvisors(), [AB, CD];
      && IndexInSync(scan, advisors)
      && NaiveMatch(advisors, TARGET, tokens)
      && SearchByTokens(scan, tokens) == TokenQueryResult([], false)
  {
    hide TokensForAdvisor, TokenIdsFor, Hits, CrowdedScan, Distinct, FetchedFor;
    var scan, advisors, tokens := CrowdedScan(), CrowdedAdvisors(), [AB, CD];
    CrowdedIsInSync();
    TargetTokens();
    var names := Named(AB + [32] + CD);
    assert AB <= TokensForAdvisor(names)[0].token && CD <= TokensForAdvisor(names)[1].token;
    CandidatesAreCommon(scan, tokens);
    assert AB in tokens && CD in tokens;
    var all := Candidates(scan, tokens);
    forall id ensures id !in all {
      FetchDecides(scan, AB, id);
      FetchDecides(scan, CD, id);
      CrowdedFetches(id);
    }
    if all != [] {
      SomeMember(all);
    }
  }

  lemma TakeMember<T>(xs: seq<T>, n: nat, x: T)
    requires x in Take(xs, n)
    ensures x in xs
  {
  }

  /** Queries only contain words, so the naive rule needs only an advisor's single words. */
  lemma QueryNeedsOnlyWords(advisors: Advisors, id: Text, query: Text)
    requires id in advisors
    ensures NaiveMatch(advisors, id, SplitQueryTokens(query)) <==>
      forall t :: t in SplitQueryTokens(query) ==> MatchesWord(advisors[id], t)
  {
    hide SplitQueryTokens, Matches, MatchesWord;
    forall t | t in SplitQueryTokens(query)
      ensures Matches(advisors[id], t) <==> MatchesWord(advisors[id], t)
    {
      QueryTokensAreWords(query, t);
      FullNameAddsNoMatches(advisors[id], t);
    }
  }

  /** A table in which every advisor is in sync, and no other advisor has rows, scans as an
      index in sync. */
  lemma SyncedTableScansInSync(table: Table, advisors: Advisors, scan: seq<IndexRow>)
    requires forall row :: row in scan <==> row in table.Values
    requires ValidTable(table)
    requires forall a :: a in advisors ==> InSync(table, advisors, a)
    requires forall id :: id in table ==> table[id].advisorId in advisors
    ensures IndexInSync(scan, advisors)
  {
    hide Label, Desired, WellLabelled;
    forall row ensures row in scan <==> row in Desired(advisors, row.advisorId) {
      if row in scan {
        var id :| id in table && table[id] == row;
        assert InSync(table, advisors, row.advisorId);
      }
      if row in Desired(advisors, row.advisorId) {
        DesiredNeedsAdvisor(advisors, row);
        assert InSync(table, advisors, row.advisorId);
        assert table[row.id] in table.Values;
      }
    }
  }

  lemma DesiredNeedsAdvisor(advisors: Advisors, row: IndexRow)
    requires row in Desired(advisors, row.advisorId)
    ensures row.advisorId in advisors
  {
  }
}
