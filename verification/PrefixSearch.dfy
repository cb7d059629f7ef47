/** Name-prefix search in two casings: two capped range scans, deduplicated by id and capped
    again (src/harper/resource-directory-search-queries.ts). */
module PrefixSearch {
  import opened Sequences
  import opened StableSort

  /** `dedupeById`: a row is kept unless its id has been seen. */
  function DedupeById<T>(rows: seq<T>, idOf: T -> string, seen: set<string>): seq<T>
    decreases rows
  {
    if rows == [] then []
    else if idOf(rows[0]) in seen then DedupeById(rows[1..], idOf, seen)
    else [rows[0]] + DedupeById(rows[1..], idOf, seen + {idOf(rows[0])})
  }

  /** `prefixSearch`: `lower` and `title` are the rows each casing selects, in index order;
      `None` when both casings are the same text. */
  function TwoCasingSearch<T>(lower: seq<T>, title: Option<seq<T>>, idOf: T -> string, cap: nat): seq<T> {
    if title.None? then Take(lower, cap)
    else Take(DedupeById(Take(lower, cap) + Take(title.value, cap), idOf, {}), cap)
  }

  ghost predicate DistinctIds<T>(rows: seq<T>, idOf: T -> string) {
    forall i, j :: 0 <= i < j < |rows| ==> idOf(rows[i]) != idOf(rows[j])
  }

  function Ids<T>(rows: seq<T>, idOf: T -> string): set<string> {
    set i | 0 <= i < |rows| :: idOf(rows[i])
  }

  function Unseen<T>(idOf: T -> string, seen: set<string>): T -> bool {
    (row: T) => idOf(row) !in seen
  }

  lemma {:induction false} DedupeOfDistinct<T>(rows: seq<T>, idOf: T -> string, seen: set<string>)
    requires DistinctIds(rows, idOf)
    ensures DedupeById(rows, idOf, seen) == Filter(rows, Unseen(idOf, seen))
    decreases rows
  {
    if rows == [] {
    } else {
      var more := seen + {idOf(rows[0])};
      DedupeOfDistinct(rows[1..], idOf, seen);
      DedupeOfDistinct(rows[1..], idOf, more);
      FilterAgrees(rows[1..], Unseen(idOf, seen), Unseen(idOf, more));
    }
  }

  lemma {:induction false} DedupeConcat<T>(a: seq<T>, b: seq<T>, idOf: T -> string, seen: set<string>)
    ensures DedupeById(a + b, idOf, seen) ==
            DedupeById(a, idOf, seen) + DedupeById(b, idOf, seen + Ids(a, idOf))
    decreases a
  {
    if a == [] {
      assert a + b == b && seen + Ids(a, idOf) == seen;
    } else {
      assert (a + b)[1..] == a[1..] + b;
      IdsStep(a, idOf);
      if idOf(a[0]) in seen {
        DedupeConcat(a[1..], b, idOf, seen);
        assert seen + Ids(a, idOf) == seen + Ids(a[1..], idOf);
      } else {
        DedupeConcat(a[1..], b, idOf, seen + {idOf(a[0])});
        assert seen + Ids(a, idOf) == seen + {idOf(a[0])} + Ids(a[1..], idOf);
      }
    }
  }

  lemma IdsStep<T>(a: seq<T>, idOf: T -> string)
    requires a != []
    ensures Ids(a, idOf) == {idOf(a[0])} + Ids(a[1..], idOf)
  {
    forall id | id in Ids(a, idOf) ensures id in {idOf(a[0])} + Ids(a[1..], idOf) {
      var i :| 0 <= i < |a| && idOf(a[i]) == id;
      if i > 0 {
        assert a[1..][i - 1] == a[i];
      }
    }
    forall id | id in Ids(a[1..], idOf) ensures id in Ids(a, idOf) {
      var i :| 0 <= i < |a[1..]| && idOf(a[1..][i]) == id;
      assert a[i + 1] == a[1..][i];
    }
  }

  /** Two lists without repeats: all of the first, then the new rows of the second. */
  lemma DedupeOfTwo<T>(a: seq<T>, b: seq<T>, idOf: T -> string)
    requires DistinctIds(a, idOf) && DistinctIds(b, idOf)
    ensures DedupeById(a + b, idOf, {}) == a + Filter(b, Unseen(idOf, Ids(a, idOf)))
  {
    DedupeConcat(a, b, idOf, {});
    DedupeOfDistinct(a, idOf, {});
    FilterAll(a, Unseen(idOf, {}));
    assert {} + Ids(a, idOf) == Ids(a, idOf);
    DedupeOfDistinct(b, idOf, Ids(a, idOf));
  }

  /** At most as many rows are dropped as there are ids to drop. */
  lemma {:induction false} FewAreDropped<T>(rows: seq<T>, idOf: T -> string, seen: set<string>)
    requires DistinctIds(rows, idOf)
    ensures |rows| <= |Filter(rows, Unseen(idOf, seen))| + |seen|
  {
    if rows == [] {
    } else {
      var id := idOf(rows[0]);
      if id in seen {
        FewAreDropped(rows[1..], idOf, seen - {id});
        FilterAgrees(rows[1..], Unseen(idOf, seen), Unseen(idOf, seen - {id}));
      } else {
        FewAreDropped(rows[1..], idOf, seen);
      }
    }
  }

  lemma {:induction false} IdsCount<T>(rows: seq<T>, idOf: T -> string)
    ensures |Ids(rows, idOf)| <= |rows|
  {
    if rows == [] {
    } else {
      IdsStep(rows, idOf);
      IdsCount(rows[1..], idOf);
    }
  }

  lemma PrefixIsDistinct<T>(rows: seq<T>, idOf: T -> string, n: nat)
    requires DistinctIds(rows, idOf)
    ensures DistinctIds(Take(rows, n), idOf)
  {
  }

  /** Capping each scan before deduplicating costs nothing: the result is the first `cap`
      rows of deduplicating everything both casings select. */
  lemma CappedScansSuffice<T>(lower: seq<T>, title: seq<T>, idOf: T -> string, cap: nat)
    requires DistinctIds(lower, idOf) && DistinctIds(title, idOf)
    ensures TwoCasingSearch(lower, Some(title), idOf, cap) == Take(DedupeById(lower + title, idOf, {}), cap)
  {
    hide Filter, DedupeById, Ids, DistinctIds;
    var a, b := Take(lower, cap), Take(title, cap);
    PrefixIsDistinct(lower, idOf, cap);
    PrefixIsDistinct(title, idOf, cap);
    DedupeOfTwo(a, b, idOf);
    DedupeOfTwo(lower, title, idOf);
    if |lower| < cap {
      assert a == lower;
      var unseen := Unseen(idOf, Ids(lower, idOf));
      FewAreDropped(b, idOf, Ids(lower, idOf));
      IdsCount(lower, idOf);
      assert title == b + title[|b|..];
      FilterConcat(b, title[|b|..], unseen);
      if |title| <= cap {
        assert b == title;
      } else {
        PrefixOfLonger(lower + Filter(b, unseen), lower + Filter(title, unseen), cap);
      }
    } else {
      PrefixOfLonger(a, a + Filter(b, Unseen(idOf, Ids(a, idOf))), cap);
      PrefixOfLonger(a, lower + Filter(title, Unseen(idOf, Ids(lower, idOf))), cap);
    }
  }

  lemma PrefixOfLonger<T>(xs: seq<T>, ys: seq<T>, n: nat)
    requires xs <= ys && n <= |xs|
    ensures Take(xs, n) == Take(ys, n)
  {
  }

  /** The result has no id twice, and an id is found exactly when one of the casings selects
      it, unless the cap is reached. */
  lemma SearchFindsEachOnce<T>(lower: seq<T>, title: seq<T>, idOf: T -> string, cap: nat)
    requires DistinctIds(lower, idOf) && DistinctIds(title, idOf)
    ensures var found := TwoCasingSearch(lower, Some(title), idOf, cap);
      && DistinctIds(found, idOf) && |found| <= cap
      && Ids(found, idOf) <= Ids(lower, idOf) + Ids(title, idOf)
      && (|found| < cap ==> Ids(found, idOf) == Ids(lower, idOf) + Ids(title, idOf))
  {
    hide Filter, DedupeById, Unseen;
    CappedScansSuffice(lower, title, idOf, cap);
    DedupeOfTwo(lower, title, idOf);
    var unseen := Filter(title, Unseen(idOf, Ids(lower, idOf)));
    FreshRows(title, idOf, Ids(lower, idOf));
    AppendDistinct(lower, unseen, idOf);
    var all := lower + unseen;
    PrefixIsDistinct(all, idOf, cap);
    PrefixIds(all, idOf, cap);
  }

  lemma PrefixIds<T>(rows: seq<T>, idOf: T -> string, n: nat)
    ensures Ids(Take(rows, n), idOf) <= Ids(rows, idOf)
    ensures |Take(rows, n)| < n ==> Take(rows, n) == rows
  {
    forall id | id in Ids(Take(rows, n), idOf) ensures id in Ids(rows, idOf) {
      var i :| 0 <= i < |Take(rows, n)| && idOf(Take(rows, n)[i]) == id;
      assert rows[i] == Take(rows, n)[i];
    }
  }

  lemma {:induction false} FreshRows<T>(rows: seq<T>, idOf: T -> string, seen: set<string>)
    requires DistinctIds(rows, idOf)
    ensures var kept := Filter(rows, Unseen(idOf, seen));
      DistinctIds(kept, idOf) && Ids(kept, idOf) == Ids(rows, idOf) - seen
  {
    hide DistinctIds;
    if rows == [] {
    } else {
      var rest := Filter(rows[1..], Unseen(idOf, seen));
      TailDistinct(rows, idOf);
      FreshRows(rows[1..], idOf, seen);
      IdsStep(rows, idOf);
      if idOf(rows[0]) !in seen {
        var kept := [rows[0]] + rest;
        assert Filter(rows, Unseen(idOf, seen)) == kept && kept[1..] == rest;
        IdsStep(kept, idOf);
        ConsDistinct(rows[0], rest, idOf);
      }
    }
  }

  lemma TailDistinct<T>(rows: seq<T>, idOf: T -> string)
    requires rows != [] && DistinctIds(rows, idOf)
    ensures DistinctIds(rows[1..], idOf) && idOf(rows[0]) !in Ids(rows[1..], idOf)
  {
  }

  lemma ConsDistinct<T>(row: T, rest: seq<T>, idOf: T -> string)
    requires DistinctIds(rest, idOf) && idOf(row) !in Ids(rest, idOf)
    ensures DistinctIds([row] + rest, idOf)
  {
    forall j | 0 <= j < |rest| ensures idOf(rest[j]) in Ids(rest, idOf) {
    }
  }

  lemma {:induction false} AppendDistinct<T>(a: seq<T>, b: seq<T>, idOf: T -> string)
    requires DistinctIds(a, idOf) && DistinctIds(b, idOf) && Ids(a, idOf) * Ids(b, idOf) == {}
    ensures DistinctIds(a + b, idOf) && Ids(a + b, idOf) == Ids(a, idOf) + Ids(b, idOf)
  {
    var all := a + b;
    forall i, j | 0 <= i < j < |all| ensures idOf(all[i]) != idOf(all[j]) {
      if i < |a| <= j {
        assert idOf(all[i]) in Ids(a, idOf) && idOf(all[j]) in Ids(b, idOf);
        NotInBoth(Ids(a, idOf), Ids(b, idOf), idOf(all[i]));
      }
    }
    forall id ensures id in Ids(all, idOf) <==> id in Ids(a, idOf) + Ids(b, idOf) {
      if id in Ids(a, idOf) {
        var i :| 0 <= i < |a| && idOf(a[i]) == id;
        assert all[i] == a[i];
      }
      if id in Ids(b, idOf) {
        var i :| 0 <= i < |b| && idOf(b[i]) == id;
        assert all[|a| + i] == b[i];
      }
      if id in Ids(all, idOf) {
        var i :| 0 <= i < |all| && idOf(all[i]) == id;
        assert all[i] == if i < |a| then a[i] else b[i - |a|];
      }
    }
  }

  lemma NotInBoth<T>(a: set<T>, b: set<T>, x: T)
    requires a * b == {} && x in a
    ensures x !in b
  {
    assert x in b ==> x in a * b;
  }
}
