/** Directory sort order and the keys that feed `paginate`
    (src/harper/resource-directory-sorting.ts). Keys are taken after `toLowerCase`. */
module DirectorySorting {
  import opened Sequences
  import opened Texts
  import opened Pagination

  /** `compareDirectoryRows`: keys by `<`, ids by the collator. */
  function CompareRows<T>(keys: RowKeys<T>, collate: (Text, Text) -> int, a: T, b: T): int {
    var left, right := keys.At(a), keys.At(b);
    if left.sortKey == right.sortKey then collate(left.id, right.id)
    else if Less(left.sortKey, right.sortKey) then -1
    else 1
  }

  ghost predicate CollatesByCodeUnit(collate: (Text, Text) -> int) {
    forall a, b :: (collate(a, b) < 0 <==> Less(a, b)) && (collate(a, b) == 0 <==> a == b)
  }

  /** The comparison puts `a` first exactly when `b` lies after it as a cursor does, and ties
      exactly rows that share key and id. */
  lemma CompareRowsIff<T>(keys: RowKeys<T>, collate: (Text, Text) -> int, a: T, b: T)
    requires CollatesByCodeUnit(collate)
    ensures CompareRows(keys, collate, a, b) < 0 <==> After(keys.At(b), keys.At(a))
    ensures CompareRows(keys, collate, a, b) == 0 <==> keys.At(a) == keys.At(b)
  {
    var left, right := keys.At(a), keys.At(b);
    LessIrreflexive(left.sortKey);
    assert collate(left.id, right.id) < 0 <==> Less(left.id, right.id);
    assert collate(left.id, right.id) == 0 <==> left.id == right.id;
  }

  /** Sorting by `compareDirectoryRows` gives what `paginate` needs exactly when no two rows
      share both key and id, provided the collator orders ids as `>` does. */
  lemma SortedDirectoryIsStrict<T(!new)>(keys: RowKeys<T>, collate: (Text, Text) -> int, rows: seq<T>)
    requires CollatesByCodeUnit(collate)
    requires forall i, j :: 0 <= i < j < |rows| ==> CompareRows(keys, collate, rows[i], rows[j]) <= 0
    ensures StrictlySorted(keys, rows) <==>
      forall i, j :: 0 <= i < j < |rows| ==> keys.At(rows[i]) != keys.At(rows[j])
  {
    forall i, j | 0 <= i < j < |rows|
      ensures After(keys.At(rows[j]), keys.At(rows[i])) <==> keys.At(rows[i]) != keys.At(rows[j])
    {
      var a, b := keys.At(rows[i]), keys.At(rows[j]);
      assert CompareRows(keys, collate, rows[i], rows[j]) <= 0;
      LessTotal(a.sortKey, b.sortKey);
      LessTotal(a.id, b.id);
      AfterIrreflexive(a);
    }
  }

  // ---------------------------------------------------------------- branch cursors

  datatype Branch = Branch(firmName: Text, state: Text, city: Text, displayName: Text, id: Text)

  function BranchTail(branch: Branch): Text {
    branch.state + [NUL] + branch.city + [NUL] + branch.displayName
  }

  function BranchKey(branch: Branch): Text {
    branch.firmName + [NUL] + BranchTail(branch)
  }

  const BRANCH_KEYS: RowKeys<Branch> :=
    RowKeys((branch: Branch) => Some(BranchKey(branch)), (branch: Branch) => branch.id)

  /** A branch cursor never decodes to what was encoded: the sort key comes back cut down
      to the firm name. */
  lemma BranchCursorLosesLocation(branch: Branch)
    requires NUL !in branch.firmName
    ensures DecodeCursor(Some(EncodeCursor(BRANCH_KEYS.At(branch)))) ==
            Some(Cursor(branch.firmName, BranchTail(branch) + [NUL] + branch.id))
    ensures DecodeCursor(Some(EncodeCursor(BRANCH_KEYS.At(branch)))) != Some(BRANCH_KEYS.At(branch))
  {
    var cut := Cursor(branch.firmName, BranchTail(branch) + [NUL] + branch.id);
    DecodeUndoesEncode(cut);
    assert EncodeCursor(cut) == EncodeCursor(BRANCH_KEYS.At(branch));
    assert |BranchKey(branch)| > |branch.firmName|;
  }

  /** A NUL sorts before every other code unit, so joined keys compare part by part. */
  lemma {:induction false} JoinedOrder(a: Text, b: Text, x: Text, y: Text)
    requires NUL !in a && NUL !in b
    ensures Less(a + [NUL] + x, b + [NUL] + y) <==> Less(a, b) || (a == b && Less(x, y))
  {
    var s, t := a + [NUL] + x, b + [NUL] + y;
    if a == [] || b == [] {
      assert a == [] ==> s[0] == NUL && s[1..] == x;
      assert b == [] ==> t[0] == NUL && t[1..] == y;
      assert a != [] ==> s[0] == a[0] != NUL;
      assert b != [] ==> t[0] == b[0] != NUL;
    } else {
      assert s[1..] == a[1..] + [NUL] + x && t[1..] == b[1..] + [NUL] + y;
      assert a == [a[0]] + a[1..] && b == [b[0]] + b[1..];
      JoinedOrder(a[1..], b[1..], x, y);
    }
  }

  ghost predicate NulFreeBranch(branch: Branch) {
    NUL !in branch.firmName && NUL !in branch.state && NUL !in branch.city
  }

  /** The branch directory is ordered by firm name, then state, then city, then display name. */
  lemma BranchOrderIff(a: Branch, b: Branch)
    requires NulFreeBranch(a) && NulFreeBranch(b)
    ensures Less(BRANCH_KEYS.At(a).sortKey, BRANCH_KEYS.At(b).sortKey) <==>
      || Less(a.firmName, b.firmName)
      || (a.firmName == b.firmName &&
          (|| Less(a.state, b.state)
           || (a.state == b.state &&
               (Less(a.city, b.city) || (a.city == b.city && Less(a.displayName, b.displayName))))))
  {
    JoinedOrder(a.firmName, b.firmName, BranchTail(a), BranchTail(b));
    var restA, restB := a.city + [NUL] + a.displayName, b.city + [NUL] + b.displayName;
    assert BranchTail(a) == a.state + [NUL] + restA && BranchTail(b) == b.state + [NUL] + restB;
    JoinedOrder(a.state, b.state, restA, restB);
    JoinedOrder(a.city, b.city, a.displayName, b.displayName);
  }

  lemma {:induction false} NulSeparatesFirms(firm: Text, other: Text, tail: Text)
    requires NUL !in firm
    ensures Less(firm, other + [NUL] + tail) <==> !Less(other, firm)
  {
    var key := other + [NUL] + tail;
    if firm == [] {
    } else {
      if other == [] {
        assert key[0] == NUL;
      } else {
        assert key[1..] == other[1..] + [NUL] + tail;
        NulSeparatesFirms(firm[1..], other[1..], tail);
      }
    }
  }

  /** A decoded branch cursor resumes at the first row of the firm it points into. */
  lemma BranchResumesAtFirm(row: Branch, branch: Branch)
    requires NUL !in branch.firmName
    ensures After(BRANCH_KEYS.At(row), Cursor(branch.firmName, BranchTail(branch) + [NUL] + branch.id))
            <==> !Less(row.firmName, branch.firmName)
  {
    NulSeparatesFirms(branch.firmName, row.firmName, BranchTail(row));
    assert BranchKey(row)[|row.firmName|] == NUL;
    assert BRANCH_KEYS.At(row).sortKey == row.firmName + [NUL] + BranchTail(row);
  }

  ghost predicate FirmNamesNulFree(rows: seq<Branch>) {
    forall row :: row in rows ==> NUL !in row.firmName
  }

  lemma NextCursorIsLastRow(rows: seq<Branch>, cursor: Option<Cursor>, limit: nat)
    requires 1 <= limit && Paginate(BRANCH_KEYS, rows, cursor, limit).nextCursor.Some?
    ensures var start := Start(BRANCH_KEYS, rows, cursor);
      && start + limit < |rows|
      && Paginate(BRANCH_KEYS, rows, cursor, limit).nextCursor ==
           Some(EncodeCursor(BRANCH_KEYS.At(rows[start + limit - 1])))
  {
    hide EncodeCursor, Start;
  }

  /** With a next cursor, the following page starts at or before the last row shown. */
  lemma BranchPageStepsBack(rows: seq<Branch>, cursor: Option<Cursor>, limit: nat)
    requires 1 <= limit && FirmNamesNulFree(rows)
    requires Paginate(BRANCH_KEYS, rows, cursor, limit).nextCursor.Some?
    ensures var next := DecodeCursor(Paginate(BRANCH_KEYS, rows, cursor, limit).nextCursor);
      var start := Start(BRANCH_KEYS, rows, cursor);
      var resume := Start(BRANCH_KEYS, rows, next);
      && start + limit < |rows|
      && resume < start + limit
      && (forall i :: 0 <= i < resume ==> Less(rows[i].firmName, rows[start + limit - 1].firmName))
      && !Less(rows[resume].firmName, rows[start + limit - 1].firmName)
  {
    hide Paginate, DecodeCursor, EncodeCursor, After, BranchTail;
    var start := Start(BRANCH_KEYS, rows, cursor);
    NextCursorIsLastRow(rows, cursor, limit);
    var last := rows[start + limit - 1];
    BranchCursorLosesLocation(last);
    var next := Cursor(last.firmName, BranchTail(last) + [NUL] + last.id);
    LessIrreflexive(last.firmName);
    forall i | 0 <= i < |rows|
      ensures After(BRANCH_KEYS.At(rows[i]), next) <==> !Less(rows[i].firmName, last.firmName)
    {
      BranchResumesAtFirm(rows[i], last);
    }
  }

  /** When a page starts at a firm's first row and ends inside that firm, its next cursor
      brings the same page again. */
  lemma BranchPageCanRepeatForever(rows: seq<Branch>, limit: nat)
    requires 1 <= limit < |rows| && FirmNamesNulFree(rows)
    requires rows[0].firmName == rows[limit - 1].firmName
    ensures var page := Paginate(BRANCH_KEYS, rows, None, limit);
      && page.nextCursor.Some?
      && Paginate(BRANCH_KEYS, rows, DecodeCursor(page.nextCursor), limit) == page
  {
    BranchPageStepsBack(rows, None, limit);
    LessIrreflexive(rows[0].firmName);
  }

  lemma WindowHolds(keys: RowKeys<Branch>, rows: seq<Branch>, cursor: Option<Cursor>, limit: nat, k: nat)
    requires k < |rows| && Start(keys, rows, cursor) <= k < Start(keys, rows, cursor) + limit
    ensures rows[k] in Paginate(keys, rows, cursor, limit).items
  {
    hide EncodeCursor, Start;
    assert Paginate(keys, rows, cursor, limit).items[k - Start(keys, rows, cursor)] == rows[k];
  }

  lemma FirstPageHasNext(rows: seq<Branch>, limit: nat)
    requires 1 <= limit < |rows|
    ensures Start(BRANCH_KEYS, rows, None) == 0
    ensures Paginate(BRANCH_KEYS, rows, None, limit).nextCursor.Some?
  {
    hide EncodeCursor;
  }

  /** The last row of a page with a next cursor comes back on the following page. */
  lemma BranchPageRepeatsItsLastRow(rows: seq<Branch>, limit: nat)
    requires 1 <= limit < |rows| && FirmNamesNulFree(rows)
    ensures var page := Paginate(BRANCH_KEYS, rows, None, limit);
      var again := Paginate(BRANCH_KEYS, rows, DecodeCursor(page.nextCursor), limit);
      page.nextCursor.Some? && rows[limit - 1] in page.items && rows[limit - 1] in again.items
  {
    hide DecodeCursor, Paginate, Start, FirmNamesNulFree;
    FirstPageHasNext(rows, limit);
    BranchPageStepsBack(rows, None, limit);
    var page := Paginate(BRANCH_KEYS, rows, None, limit);
    WindowHolds(BRANCH_KEYS, rows, None, limit, limit - 1);
    WindowHolds(BRANCH_KEYS, rows, DecodeCursor(page.nextCursor), limit, limit - 1);
  }

  lemma SharedElementRepeats<T>(xs: seq<T>, ys: seq<T>, x: T)
    requires x in xs && x in ys
    ensures !Distinct(xs + ys)
  {
    var i :| 0 <= i < |xs| && xs[i] == x;
    var j :| 0 <= j < |ys| && ys[j] == x;
    assert (xs + ys)[i] == (xs + ys)[|xs| + j];
  }

  /** The branch directory walk shows each row once exactly when one page holds them all. */
  lemma BranchWalkRepeatsRows(rows: seq<Branch>, requests: seq<Request<Branch>>, limit: nat)
    requires 1 <= limit && FirmNamesNulFree(rows) && Distinct(rows)
    requires |requests| >= 2 && requests[0] == requests[1] == Request(rows, limit)
    ensures Distinct(Returned(BRANCH_KEYS, requests, None)) <==> |rows| <= limit
  {
    ReturnedStep(BRANCH_KEYS, requests, None);
    var page := Paginate(BRANCH_KEYS, rows, None, limit);
    if limit < |rows| {
      var next := DecodeCursor(page.nextCursor);
      BranchPageRepeatsItsLastRow(rows, limit);
      ReturnedStep(BRANCH_KEYS, requests[1..], next);
      assert rows[limit - 1] in Returned(BRANCH_KEYS, requests[1..], next);
      SharedElementRepeats(
        page.items, Returned(BRANCH_KEYS, requests[1..], next), rows[limit - 1]);
    } else {
      assert page.items == rows;
    }
  }
}
