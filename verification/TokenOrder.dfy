/** In which order an advisor token query returns its ids, and so which 500 survive its cap
    (src/harper/resource-advisor-token-query.ts). The comment there promises the first token's
    insertion order; each intersection keeps the order of the smaller set. */
module TokenOrder {
  import opened Sequences
  import opened Texts
  import opened AdvisorSearchIndex
  import opened TokenQuery

  // ---------------------------------------------------------------- common elements in one order

  /** No two of the selected elements stand the other way round in `ys`. */
  ghost predicate SameOrder<T>(xs: seq<T>, ys: seq<T>, p: T -> bool) {
    forall i, j, k, l :: 0 <= i < j < |xs| && 0 <= k < l < |ys| && xs[i] == ys[l] && xs[j] == ys[k] ==>
      !p(xs[i]) || !p(xs[j])
  }

  lemma FilterKeepsPair<T>(xs: seq<T>, p: T -> bool, i: nat, j: nat) returns (m: nat, n: nat)
    requires i < j < |xs| && p(xs[i]) && p(xs[j])
    ensures m < n < |Filter(xs, p)| && Filter(xs, p)[m] == xs[i] && Filter(xs, p)[n] == xs[j]
  {
    hide Filter;
    var front, behind := xs[..j], xs[j..];
    assert xs == front + behind;
    FilterConcat(front, behind, p);
    FilterMembers(front, p, front[i]);
    FilterMembers(behind, p, behind[0]);
    m :| 0 <= m < |Filter(front, p)| && Filter(front, p)[m] == xs[i];
    var r :| 0 <= r < |Filter(behind, p)| && Filter(behind, p)[r] == xs[j];
    n := |Filter(front, p)| + r;
  }

  lemma EqualFiltersAgree<T>(xs: seq<T>, ys: seq<T>, p: T -> bool)
    requires Distinct(xs) && Filter(xs, p) == Filter(ys, p)
    ensures SameOrder(xs, ys, p)
  {
    hide Filter;
    FilterDistinct(xs, p);
    forall i, j, k, l | 0 <= i < j < |xs| && 0 <= k < l < |ys| && xs[i] == ys[l] && xs[j] == ys[k]
      ensures !p(xs[i]) || !p(xs[j])
    {
      if p(xs[i]) && p(xs[j]) {
        var m, n := FilterKeepsPair(xs, p, i, j);
        var m', n' := FilterKeepsPair(ys, p, k, l);
        assert false;
      }
    }
  }

  /** The first selected element of `xs`, found in `ys` with nothing selected in front of it. */
  lemma FirstInBoth<T>(xs: seq<T>, ys: seq<T>, p: T -> bool) returns (l: nat)
    requires xs != [] && p(xs[0]) && SameOrder(xs, ys, p)
    requires forall x :: p(x) ==> x in xs && x in ys
    ensures l < |ys| && ys[l] == xs[0] && Filter(ys, p) == [xs[0]] + Filter(ys[l + 1..], p)
    ensures forall k :: 0 <= k < l ==> !p(ys[k])
  {
    hide Filter;
    l := FirstAt(ys, xs[0]);
    forall k | 0 <= k < l ensures !p(ys[k]) {
    }
    assert ys == ys[..l] + ([xs[0]] + ys[l + 1..]);
    FilterConcat(ys[..l], [xs[0]] + ys[l + 1..], p);
    FilterNone(ys[..l], p);
    FilterConcat([xs[0]], ys[l + 1..], p);
    FilterAll([xs[0]], p);
  }

  lemma {:induction false} FirstAt<T>(ys: seq<T>, y: T) returns (l: nat)
    requires y in ys
    ensures l < |ys| && ys[l] == y && forall k :: 0 <= k < l ==> ys[k] != y
  {
    if ys[0] == y {
      l := 0;
    } else {
      assert y in ys[1..];
      l := FirstAt(ys[1..], y);
      l := l + 1;
    }
  }

  lemma {:induction false} SameOrderFilters<T(!new)>(xs: seq<T>, ys: seq<T>, p: T -> bool)
    requires Distinct(xs) && Distinct(ys) && SameOrder(xs, ys, p)
    requires forall x :: p(x) ==> x in xs && x in ys
    ensures Filter(xs, p) == Filter(ys, p)
    decreases xs
  {
    hide Filter;
    if xs == [] {
      FilterNone(ys, p);
      FilterNone(xs, p);
    } else if !p(xs[0]) {
      FilterStep(xs, p);
      forall x | p(x) ensures x in xs[1..] {
      }
      TailKeepsOrder(xs, ys, ys, p, p, 0);
      SameOrderFilters(xs[1..], ys, p);
    } else {
      var l := FirstInBoth(xs, ys, p);
      var rest := ys[l + 1..];
      var q := (x: T) => p(x) && x != xs[0];
      FilterStep(xs, p);
      TailKeepsOrder(xs, ys, rest, p, q, l + 1);
      forall x | q(x) ensures x in xs[1..] && x in rest {
        var k :| 0 <= k < |ys| && ys[k] == x;
        assert k > l;
        assert rest[k - l - 1] == x;
      }
      SameOrderFilters(xs[1..], rest, q);
      FilterAgrees(xs[1..], p, q);
      FilterAgrees(rest, p, q);
    }
  }

  lemma TailKeepsOrder<T>(xs: seq<T>, ys: seq<T>, rest: seq<T>, p: T -> bool, q: T -> bool, from: nat)
    requires xs != [] && SameOrder(xs, ys, p) && from <= |ys| && rest == ys[from..]
    requires forall x :: q(x) ==> p(x)
    ensures SameOrder(xs[1..], rest, q)
  {
    forall i, j, k, l | 0 <= i < j < |xs[1..]| && 0 <= k < l < |rest| && xs[1..][i] == rest[l] && xs[1..][j] == rest[k]
      ensures !q(xs[1..][i]) || !q(xs[1..][j])
    {
      assert xs[i + 1] == ys[from + l] && xs[j + 1] == ys[from + k];
    }
  }

  // ---------------------------------------------------------------- the order of a query

  /** The set whose order the intersection keeps: whenever the next set is smaller than what
      is left, it takes the lead. */
  function Leader(lead: seq<Text>, acc: seq<Text>, idSets: seq<seq<Text>>): seq<Text>
    decreases idSets
  {
    if idSets == [] then lead
    else Leader(if |acc| <= |idSets[0]| then lead else idSets[0], Intersect(acc, idSets[0]), idSets[1..])
  }

  lemma {:induction false} FilterTwice(ids: seq<Text>, p: Text -> bool, q: Text -> bool)
    ensures Filter(Filter(ids, p), q) == Filter(ids, id => p(id) && q(id))
  {
    if ids == [] {
    } else {
      FilterTwice(ids[1..], p, q);
      if p(ids[0]) {
        FilterStep(Filter(ids, p), q);
      }
    }
  }

  lemma IntersectKeepsLead(lead: seq<Text>, acc: seq<Text>, b: seq<Text>)
    requires Distinct(acc) && Distinct(b) && acc == Filter(lead, In(acc))
    ensures var next := Intersect(acc, b);
      next == Filter(if |acc| <= |b| then lead else b, In(next))
  {
    hide Filter;
    var next := Intersect(acc, b);
    IntersectIsIntersection(acc, b);
    if |acc| <= |b| {
      FilterTwice(lead, In(acc), In(b));
      FilterAgrees(lead, id => In(acc)(id) && In(b)(id), In(next));
    } else {
      FilterAgrees(b, In(acc), In(next));
    }
  }

  /** The common ids come in the order of the leading set. */
  lemma {:induction false} OrderFollowsLeader(lead: seq<Text>, acc: seq<Text>, idSets: seq<seq<Text>>)
    requires Distinct(acc) && forall i :: 0 <= i < |idSets| ==> Distinct(idSets[i])
    requires acc == Filter(lead, In(acc))
    ensures IntersectAll(acc, idSets) == Filter(Leader(lead, acc, idSets), In(IntersectAll(acc, idSets)))
    decreases idSets
  {
    hide Intersect, Filter;
    if idSets == [] {
    } else {
      IntersectIsIntersection(acc, idSets[0]);
      IntersectKeepsLead(lead, acc, idSets[0]);
      OrderFollowsLeader(
        if |acc| <= |idSets[0]| then lead else idSets[0], Intersect(acc, idSets[0]), idSets[1..]);
    }
  }

  lemma {:induction false} LeaderIsOneOf(lead: seq<Text>, acc: seq<Text>, idSets: seq<seq<Text>>)
    ensures Leader(lead, acc, idSets) == lead ||
      exists i :: 0 <= i < |idSets| && Leader(lead, acc, idSets) == idSets[i]
    decreases idSets
  {
    hide Intersect;
    if idSets == [] {
    } else {
      LeaderIsOneOf(
        if |acc| <= |idSets[0]| then lead else idSets[0], Intersect(acc, idSets[0]), idSets[1..]);
    }
  }

  lemma {:induction false} SmallestFirstLeads(lead: seq<Text>, acc: seq<Text>, idSets: seq<seq<Text>>)
    requires forall i :: 0 <= i < |idSets| ==> |acc| <= |idSets[i]|
    ensures Leader(lead, acc, idSets) == lead
    decreases idSets
  {
    if idSets == [] {
    } else {
      SmallestFirstLeads(lead, Intersect(acc, idSets[0]), idSets[1..]);
    }
  }

  /** The common ids in the order of one set. */
  function InOrderOf(ids: seq<Text>, common: seq<Text>): seq<Text> {
    Filter(ids, In(common))
  }

  /** The promised order is kept exactly when no two common ids stand the other way round in
      the first set and in the leading one; so it is when the first set is smallest. */
  lemma FirstOrderKeptIff(first: seq<Text>, rest: seq<seq<Text>>)
    requires Distinct(first) && forall i :: 0 <= i < |rest| ==> Distinct(rest[i])
    ensures var common, leader := IntersectAll(first, rest), Leader(first, first, rest);
      && common == InOrderOf(leader, common)
      && (common == InOrderOf(first, common) <==> SameOrder(first, leader, In(common)))
      && ((forall i :: 0 <= i < |rest| ==> |first| <= |rest[i]|) ==> common == InOrderOf(first, common))
  {
    hide Filter, SameOrder, Distinct;
    var common, leader := IntersectAll(first, rest), Leader(first, first, rest);
    FilterAll(first, In(first));
    OrderFollowsLeader(first, first, rest);
    IntersectAllIsIntersection(first, rest);
    LeaderIsOneOf(first, first, rest);
    if common == InOrderOf(first, common) {
      EqualFiltersAgree(first, leader, In(common));
    }
    if SameOrder(first, leader, In(common)) {
      SameOrderFilters(first, leader, In(common));
    }
    if forall i :: 0 <= i < |rest| ==> |first| <= |rest[i]| {
      SmallestFirstLeads(first, first, rest);
    }
  }

  /** A query returns the first 500 common ids in the order of its leading token's scan. */
  lemma QueryFollowsLeader(scan: seq<IndexRow>, tokens: seq<Text>)
    requires tokens != []
    ensures var idSets := Map(tokens, (token: Text) => TokenIdsFor(scan, token));
      var common := Candidates(scan, tokens);
      SearchByTokens(scan, tokens).ids ==
        Take(InOrderOf(Leader(idSets[0], idSets[0], idSets[1..]), common), 500)
  {
    hide Filter, TokenIdsFor, Distinct;
    var idSets := Map(tokens, (token: Text) => TokenIdsFor(scan, token));
    forall i | 0 <= i < |idSets| ensures Distinct(idSets[i]) {
      TokenIdsAreHits(scan, tokens[i]);
    }
    FirstOrderKeptIff(idSets[0], idSets[1..]);
  }

  /** For instance, ids 0 to 501 met with 501 down to 1: the ids come backwards, and the cap
      keeps 501 and drops 1, where the first set's order would drop 501. */
  lemma CapFollowsOtherOrder()
    ensures var first := seq(502, i requires 0 <= i < 502 => [i as CodeUnit]);
      var second := seq(501, i requires 0 <= i < 501 => [(501 - i) as CodeUnit]);
      var result := IntersectTokenIdSets([first, second]);
      var common := IntersectAll(first, [second]);
      && result.truncated && [501 as CodeUnit] in result.ids
      && [501 as CodeUnit] !in Take(InOrderOf(first, common), TOKEN_INTERSECTION_CAP)
  {
    hide Filter;
    var first := seq(502, i requires 0 <= i < 502 => [i as CodeUnit]);
    var second := seq(501, i requires 0 <= i < 501 => [(501 - i) as CodeUnit]);
    forall i | 0 <= i < 501 ensures second[i] in first {
      assert first[501 - i] == second[i];
    }
    FilterAll(second, In(first));
    assert Intersect(first, second) == second;
    assert [second][1..] == [] && [first, second][1..] == [second];
    assert IntersectAll(first, [second]) == second;
    forall i | 0 <= i < |first[1..]| ensures first[1..][i] in second {
      assert first[1..][i] == [(i + 1) as CodeUnit] == second[500 - i];
    }
    FilterAll(first[1..], In(second));
    assert first[0] !in second by {
      assert forall i :: 0 <= i < 501 ==> second[i][0] != first[0][0];
    }
    FilterStep(first, In(second));
    assert InOrderOf(first, second) == first[1..];
    assert second[0] == [501 as CodeUnit] && Take(second, TOKEN_INTERSECTION_CAP)[0] == second[0];
    forall i | 0 <= i < 500 ensures first[1..][i] != [501 as CodeUnit] {
      assert first[1..][i][0] == (i + 1) as CodeUnit;
    }
  }
}
