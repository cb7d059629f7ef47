/** Keyset and offset cursors (src/harper/resource-pagination.ts).

    A cursor token stands for the text it carries: base64url over UTF-8 is a bijection on
    well-formed text, so packing and unpacking bytes is not part of this model. */
module Pagination {
  import opened Sequences
  import opened Texts

  const DEFAULT_LIMIT := 50
  const MAX_LIMIT := 100

  /** The clamp in `parsePagination`; `parsed` is `None` for `NaN`. */
  function PageLimit(parsed: Option<int>): (limit: nat)
    ensures 1 <= limit <= MAX_LIMIT
    ensures parsed.Some? && 1 <= parsed.value <= MAX_LIMIT ==> limit == parsed.value
    ensures parsed.Some? && parsed.value > 100 ==> limit == 100
    ensures parsed.None? || parsed.value < 1 ==> limit == 50
  {
    Min(if parsed.Some? && parsed.value > 0 then parsed.value else DEFAULT_LIMIT, MAX_LIMIT)
  }

  // ---------------------------------------------------------------- keyset cursors

  datatype Cursor = Cursor(sortKey: Text, id: Text)

  /** The two callbacks every caller of `paginate` supplies. */
  datatype RowKeys<!T> = RowKeys(keyOf: T -> Option<Text>, idOf: T -> Text) {
    function At(row: T): Cursor {
      Cursor(keyOf(row).GetOr([]), idOf(row))
    }
  }

  datatype Page<+T> = Page(items: seq<T>, nextCursor: Option<Text>)

  function EncodeCursor(at: Cursor): Text {
    at.sortKey + [NUL] + at.id
  }

  function DecodeCursor(token: Option<Text>): Option<Cursor> {
    if token.None? || token.value == [] then None
    else
      var raw := token.value;
      var idx := FirstIndex(raw, NUL);
      if idx == |raw| then None else Some(Cursor(raw[..idx], raw[idx + 1..]))
  }

  /** `cursorStart`'s test: the row lies strictly after the cursor. */
  predicate After(at: Cursor, cursor: Cursor) {
    Less(cursor.sortKey, at.sortKey) || (at.sortKey == cursor.sortKey && Less(cursor.id, at.id))
  }

  function CursorStart<T>(keys: RowKeys<T>, rows: seq<T>, cursor: Cursor): (start: nat)
    ensures start <= |rows|
    ensures forall i :: 0 <= i < start ==> !After(keys.At(rows[i]), cursor)
    ensures start < |rows| ==> After(keys.At(rows[start]), cursor)
  {
    if rows == [] || After(keys.At(rows[0]), cursor) then 0
    else 1 + CursorStart(keys, rows[1..], cursor)
  }

  function Start<T>(keys: RowKeys<T>, rows: seq<T>, cursor: Option<Cursor>): (start: nat)
    ensures start <= |rows|
  {
    if cursor.Some? then CursorStart(keys, rows, cursor.value) else 0
  }

  function Paginate<T>(keys: RowKeys<T>, rows: seq<T>, cursor: Option<Cursor>, limit: nat): Page<T> {
    var start := Start(keys, rows, cursor);
    var items := Slice(rows, start, start + limit);
    var more := start + limit < |rows|;
    Page(items, if more && |items| > 0 then Some(EncodeCursor(keys.At(items[|items| - 1]))) else None)
  }

  /** Decoding undoes encoding exactly for sort keys without a NUL. */
  lemma DecodeUndoesEncode(at: Cursor)
    ensures DecodeCursor(Some(EncodeCursor(at))) == Some(at) <==> NUL !in at.sortKey
  {
    var raw := EncodeCursor(at);
    var idx := FirstIndex(raw, NUL);
    assert raw[|at.sortKey|] == NUL;
    if NUL in at.sortKey {
      var i :| 0 <= i < |at.sortKey| && at.sortKey[i] == NUL;
      assert raw[i] == NUL;
      assert |raw[..idx]| < |at.sortKey|;
    } else {
      assert forall j :: 0 <= j < |at.sortKey| ==> raw[j] == at.sortKey[j];
      assert idx == |at.sortKey|;
      assert raw[..idx] == at.sortKey && raw[idx + 1..] == at.id;
    }
  }

  lemma AfterTransitive(a: Cursor, b: Cursor, c: Cursor)
    requires After(b, a) && After(c, b)
    ensures After(c, a)
  {
    if Less(a.sortKey, b.sortKey) && Less(b.sortKey, c.sortKey) {
      LessTransitive(a.sortKey, b.sortKey, c.sortKey);
    } else if a.sortKey == b.sortKey == c.sortKey {
      LessTransitive(a.id, b.id, c.id);
    }
  }

  lemma AfterIrreflexive(a: Cursor)
    ensures !After(a, a)
  {
    LessIrreflexive(a.sortKey);
    LessIrreflexive(a.id);
  }

  /** The order `paginate` asks of its input. */
  ghost predicate StrictlySorted<T(!new)>(keys: RowKeys<T>, rows: seq<T>) {
    forall i, j :: 0 <= i < j < |rows| ==> After(keys.At(rows[j]), keys.At(rows[i]))
  }

  ghost predicate NulFree<T(!new)>(keys: RowKeys<T>, rows: seq<T>) {
    forall row :: row in rows ==> NUL !in keys.At(row).sortKey
  }

  ghost predicate AfterOption(at: Cursor, cursor: Option<Cursor>) {
    cursor.Some? ==> After(at, cursor.value)
  }

  /** On sorted rows a cursor cuts the list in two: the rows after it are one suffix. */
  lemma CursorCutsSortedRows<T(!new)>(keys: RowKeys<T>, rows: seq<T>, cursor: Option<Cursor>)
    requires StrictlySorted(keys, rows)
    ensures forall i :: 0 <= i < |rows| ==>
      (AfterOption(keys.At(rows[i]), cursor) <==> Start(keys, rows, cursor) <= i)
  {
    var start := Start(keys, rows, cursor);
    if cursor.Some? && start < |rows| {
      forall i | start < i < |rows| ensures After(keys.At(rows[i]), cursor.value) {
        AfterTransitive(cursor.value, keys.At(rows[start]), keys.At(rows[i]));
      }
    }
  }

  /** A next cursor points at the last row shown; the next page starts right behind it. */
  lemma NextPageContinues<T(!new)>(
    keys: RowKeys<T>, rows: seq<T>, cursor: Option<Cursor>, limit: nat)
    requires 1 <= limit && StrictlySorted(keys, rows) && NulFree(keys, rows)
    ensures var page := Paginate(keys, rows, cursor, limit);
      var start := Start(keys, rows, cursor);
      if page.nextCursor.None? then page.items == rows[start..]
      else
        && start + limit < |rows|
        && page.items == rows[start..start + limit]
        && DecodeCursor(page.nextCursor) == Some(keys.At(rows[start + limit - 1]))
        && Start(keys, rows, DecodeCursor(page.nextCursor)) == start + limit
  {
    var page := Paginate(keys, rows, cursor, limit);
    if page.nextCursor.Some? {
      var end := Start(keys, rows, cursor) + limit;
      var last := keys.At(rows[end - 1]);
      assert page.items[|page.items| - 1] == rows[end - 1];
      DecodeUndoesEncode(last);
      CursorCutsSortedRows(keys, rows, Some(last));
      AfterIrreflexive(last);
      assert After(keys.At(rows[end]), last);
    }
  }

  // ---------------------------------------------------------------- walks

  /** A page request: the rows as they are stored when it arrives, and the limit it asks for. */
  datatype Request<+T> = Request(rows: seq<T>, limit: nat)

  /** Follows `nextCursor` from request to request; stops at a null cursor, or when the
      client stops asking (the requests run out). */
  function Walk<T>(keys: RowKeys<T>, requests: seq<Request<T>>, cursor: Option<Cursor>)
    : (pages: seq<seq<T>>)
    ensures |pages| <= |requests|
  {
    if requests == [] then []
    else
      var page := Paginate(keys, requests[0].rows, cursor, requests[0].limit);
      if page.nextCursor.None? then [page.items]
      else [page.items] + Walk(keys, requests[1..], DecodeCursor(page.nextCursor))
  }

  /** The walk saw a null cursor rather than running out of requests. */
  predicate Finished<T>(keys: RowKeys<T>, requests: seq<Request<T>>, cursor: Option<Cursor>) {
    if requests == [] then false
    else
      var page := Paginate(keys, requests[0].rows, cursor, requests[0].limit);
      page.nextCursor.None? || Finished(keys, requests[1..], DecodeCursor(page.nextCursor))
  }

  /** The rows a client has received by the end of a walk. */
  function Returned<T>(keys: RowKeys<T>, requests: seq<Request<T>>, cursor: Option<Cursor>)
    : seq<T>
  {
    Flatten(Walk(keys, requests, cursor))
  }

  lemma ReturnedStep<T>(keys: RowKeys<T>, requests: seq<Request<T>>, cursor: Option<Cursor>)
    requires requests != []
    ensures var page := Paginate(keys, requests[0].rows, cursor, requests[0].limit);
      Returned(keys, requests, cursor) ==
      if page.nextCursor.None? then page.items
      else page.items + Returned(keys, requests[1..], DecodeCursor(page.nextCursor))
  {
    var page := Paginate(keys, requests[0].rows, cursor, requests[0].limit);
    if page.nextCursor.Some? {
      var rest := Walk(keys, requests[1..], DecodeCursor(page.nextCursor));
      assert ([page.items] + rest)[1..] == rest;
    } else {
      assert Flatten([page.items]) == page.items + Flatten([]);
    }
  }

  ghost predicate GoodRequests<T(!new)>(keys: RowKeys<T>, requests: seq<Request<T>>) {
    forall k :: 0 <= k < |requests| ==>
      && 1 <= requests[k].limit
      && StrictlySorted(keys, requests[k].rows) && NulFree(keys, requests[k].rows)
  }

  /** Appending rows that all lie behind the last row of a sorted list keeps it sorted. */
  lemma AppendSorted<T(!new)>(keys: RowKeys<T>, rows: seq<T>, later: seq<T>)
    requires rows != [] && StrictlySorted(keys, rows) && StrictlySorted(keys, later)
    requires forall i :: 0 <= i < |later| ==>
      After(keys.At(later[i]), keys.At(rows[|rows| - 1]))
    ensures StrictlySorted(keys, rows + later)
  {
    var all := rows + later;
    forall i, j | 0 <= i < j < |all| ensures After(keys.At(all[j]), keys.At(all[i])) {
      if i < |rows| - 1 && |rows| <= j {
        AfterTransitive(keys.At(rows[i]), keys.At(rows[|rows| - 1]), keys.At(later[j - |rows|]));
      }
    }
  }

  ghost predicate AllAfter<T(!new)>(keys: RowKeys<T>, rows: seq<T>, cursor: Option<Cursor>) {
    forall i :: 0 <= i < |rows| ==> AfterOption(keys.At(rows[i]), cursor)
  }

  lemma AllAfterTransitive<T(!new)>(
    keys: RowKeys<T>, rows: seq<T>, cursor: Option<Cursor>, later: Cursor)
    requires AfterOption(later, cursor) && AllAfter(keys, rows, Some(later))
    ensures AllAfter(keys, rows, cursor)
  {
    if cursor.Some? {
      forall i | 0 <= i < |rows| ensures After(keys.At(rows[i]), cursor.value) {
        AfterTransitive(cursor.value, later, keys.At(rows[i]));
      }
    }
  }

  lemma SubSorted<T(!new)>(keys: RowKeys<T>, rows: seq<T>, from: nat, to: nat)
    requires StrictlySorted(keys, rows) && from <= to <= |rows|
    ensures StrictlySorted(keys, rows[from..to])
  {
    hide After;
    var part := rows[from..to];
    forall i, j | 0 <= i < j < |part| ensures After(keys.At(part[j]), keys.At(part[i])) {
      assert part[i] == rows[from + i] && part[j] == rows[from + j];
    }
  }

  /** One page: sorted, behind its cursor, and ending at the next cursor. */
  lemma PageShape<T(!new)>(keys: RowKeys<T>, rows: seq<T>, cursor: Option<Cursor>, limit: nat)
    requires 1 <= limit && StrictlySorted(keys, rows) && NulFree(keys, rows)
    ensures var page := Paginate(keys, rows, cursor, limit);
      && StrictlySorted(keys, page.items) && AllAfter(keys, page.items, cursor)
      && (page.nextCursor.Some? ==>
            page.items != [] &&
            DecodeCursor(page.nextCursor) == Some(keys.At(page.items[|page.items| - 1])))
  {
    hide StrictlySorted, NulFree, Paginate, DecodeCursor, Start, AfterOption;
    var start := Start(keys, rows, cursor);
    var items := Paginate(keys, rows, cursor, limit).items;
    CursorCutsSortedRows(keys, rows, cursor);
    NextPageContinues(keys, rows, cursor, limit);
    assert items == rows[start..start + |items|];
    SubSorted(keys, rows, start, start + |items|);
    forall i | 0 <= i < |items| ensures AfterOption(keys.At(items[i]), cursor) {
      assert items[i] == rows[start + i];
    }
  }

  lemma {:induction false} WalkIsIncreasing<T(!new)>(
    keys: RowKeys<T>, requests: seq<Request<T>>, cursor: Option<Cursor>)
    requires GoodRequests(keys, requests)
    ensures StrictlySorted(keys, Returned(keys, requests, cursor))
    ensures AllAfter(keys, Returned(keys, requests, cursor), cursor)
  {
    if requests == [] {
    } else {
      ReturnedStep(keys, requests, cursor);
      PageShape(keys, requests[0].rows, cursor, requests[0].limit);
      var page := Paginate(keys, requests[0].rows, cursor, requests[0].limit);
      var next := DecodeCursor(page.nextCursor);
      if page.nextCursor.Some? {
        WalkIsIncreasing(keys, requests[1..], next);
        var later := Returned(keys, requests[1..], next);
        AppendSorted(keys, page.items, later);
        AllAfterTransitive(keys, later, cursor, next.value);
      }
    }
  }

  ghost predicate Present<T(!new)>(keys: RowKeys<T>, rows: seq<T>, at: Cursor) {
    exists i :: 0 <= i < |rows| && keys.At(rows[i]) == at
  }

  lemma PresentInConcat<T(!new)>(keys: RowKeys<T>, rows: seq<T>, more: seq<T>, at: Cursor)
    requires Present(keys, rows, at) || Present(keys, more, at)
    ensures Present(keys, rows + more, at)
  {
    if Present(keys, rows, at) {
      var i :| 0 <= i < |rows| && keys.At(rows[i]) == at;
      assert (rows + more)[i] == rows[i];
    } else {
      var i :| 0 <= i < |more| && keys.At(more[i]) == at;
      assert (rows + more)[|rows| + i] == more[i];
    }
  }

  /** The page a client receives is the first `limit` rows after its cursor; with a next
      cursor, the page is exactly the rows between the two cursors. */
  lemma PageIsCursorWindow<T(!new)>(
    keys: RowKeys<T>, rows: seq<T>, cursor: Option<Cursor>, limit: nat)
    requires 1 <= limit && StrictlySorted(keys, rows) && NulFree(keys, rows)
    ensures var page := Paginate(keys, rows, cursor, limit);
      var next := DecodeCursor(page.nextCursor);
      && (page.nextCursor.Some? ==> next.Some? && |page.items| == limit)
      && forall row :: row in page.items <==>
           row in rows && AfterOption(keys.At(row), cursor) &&
           (page.nextCursor.Some? ==> !After(keys.At(row), next.value))
  {
    CursorCutsSortedRows(keys, rows, cursor);
    NextPageContinues(keys, rows, cursor, limit);
    CursorCutsSortedRows(keys, rows, DecodeCursor(Paginate(keys, rows, cursor, limit).nextCursor));
  }

  /** A stored position behind the cursor is on the page or behind the next cursor. */
  lemma OnPageOrLater<T(!new)>(
    keys: RowKeys<T>, rows: seq<T>, cursor: Option<Cursor>, limit: nat, at: Cursor)
    requires 1 <= limit && StrictlySorted(keys, rows) && NulFree(keys, rows)
    requires Present(keys, rows, at) && AfterOption(at, cursor)
    ensures var page := Paginate(keys, rows, cursor, limit);
      || Present(keys, page.items, at)
      || (page.nextCursor.Some? && AfterOption(at, DecodeCursor(page.nextCursor)))
  {
    var page := Paginate(keys, rows, cursor, limit);
    PageIsCursorWindow(keys, rows, cursor, limit);
    var k :| 0 <= k < |rows| && keys.At(rows[k]) == at;
    if rows[k] in page.items {
      var i :| 0 <= i < |page.items| && page.items[i] == rows[k];
    }
  }

  /** A position present at every request is met before the walk ends. */
  lemma {:induction false} WalkMeetsSurvivor<T(!new)>(
    keys: RowKeys<T>, requests: seq<Request<T>>, cursor: Option<Cursor>, at: Cursor)
    requires GoodRequests(keys, requests)
    requires Finished(keys, requests, cursor)
    requires AfterOption(at, cursor)
    requires forall k :: 0 <= k < |requests| ==> Present(keys, requests[k].rows, at)
    ensures Present(keys, Returned(keys, requests, cursor), at)
  {
    ReturnedStep(keys, requests, cursor);
    OnPageOrLater(keys, requests[0].rows, cursor, requests[0].limit, at);
    var page := Paginate(keys, requests[0].rows, cursor, requests[0].limit);
    if page.nextCursor.Some? {
      var next := DecodeCursor(page.nextCursor);
      if !Present(keys, page.items, at) {
        WalkMeetsSurvivor(keys, requests[1..], next, at);
      }
      PresentInConcat(keys, page.items, Returned(keys, requests[1..], next), at);
    }
  }

  /** A surviving row keeps its sort key from one request to the next. */
  ghost predicate KeysUnchanged<T(!new)>(keys: RowKeys<T>, requests: seq<Request<T>>) {
    forall j, k, row, row' |
      0 <= j < |requests| && 0 <= k < |requests| && row in requests[j].rows && row' in requests[k].rows ::
      keys.idOf(row) == keys.idOf(row') ==> keys.At(row) == keys.At(row')
  }

  lemma {:induction false} WalkReturnsStoredRows<T(!new)>(
    keys: RowKeys<T>, requests: seq<Request<T>>, cursor: Option<Cursor>)
    ensures forall row :: row in Returned(keys, requests, cursor) ==>
      exists k :: 0 <= k < |requests| && row in requests[k].rows
  {
    if requests == [] {
    } else {
      ReturnedStep(keys, requests, cursor);
      var page := Paginate(keys, requests[0].rows, cursor, requests[0].limit);
      assert forall row :: row in page.items ==> row in requests[0].rows;
      if page.nextCursor.Some? {
        WalkReturnsStoredRows(keys, requests[1..], DecodeCursor(page.nextCursor));
        assert forall k :: 0 <= k < |requests[1..]| ==> requests[1..][k] == requests[k + 1];
      }
    }
  }

  /** Stable paging under change: with rows inserted and deleted between requests no row
      comes back twice, and a finished walk returns each row that was there throughout. */
  lemma StablePaging<T(!new)>(keys: RowKeys<T>, requests: seq<Request<T>>)
    requires GoodRequests(keys, requests) && KeysUnchanged(keys, requests)
    ensures var returned := Returned(keys, requests, None);
      forall i, j :: 0 <= i < j < |returned| ==> keys.idOf(returned[i]) != keys.idOf(returned[j])
    ensures Finished(keys, requests, None) ==>
      forall at :: (forall k :: 0 <= k < |requests| ==> Present(keys, requests[k].rows, at)) ==>
        Present(keys, Returned(keys, requests, None), at)
  {
    var returned := Returned(keys, requests, None);
    WalkIsIncreasing(keys, requests, None);
    WalkReturnsStoredRows(keys, requests, None);
    forall i, j | 0 <= i < j < |returned|
      ensures keys.idOf(returned[i]) != keys.idOf(returned[j])
    {
      var a, b := returned[i], returned[j];
      assert a in returned && b in returned;
      AfterIrreflexive(keys.At(a));
    }
    if Finished(keys, requests, None) {
      forall at | forall k :: 0 <= k < |requests| ==> Present(keys, requests[k].rows, at)
        ensures Present(keys, returned, at)
      {
        WalkMeetsSurvivor(keys, requests, None, at);
      }
    }
  }

  ghost predicate FullButLast<T>(pages: seq<seq<T>>, limit: nat) {
    pages != [] &&
    if |pages| == 1 then |pages[0]| <= limit
    else |pages[0]| == limit && FullButLast(pages[1..], limit)
  }

  lemma WalkStep<T>(keys: RowKeys<T>, requests: seq<Request<T>>, cursor: Option<Cursor>)
    requires requests != []
    ensures var page := Paginate(keys, requests[0].rows, cursor, requests[0].limit);
      var walk := Walk(keys, requests, cursor);
      && walk != [] && walk[0] == page.items
      && walk[1..] == if page.nextCursor.None? then []
                      else Walk(keys, requests[1..], DecodeCursor(page.nextCursor))
  {
  }

  /** Every request finds the same rows. */
  ghost predicate Static<T>(rows: seq<T>, requests: seq<Request<T>>) {
    forall k :: 0 <= k < |requests| ==> requests[k].rows == rows && 1 <= requests[k].limit
  }

  /** A request without a cursor, or with a token that holds no NUL, starts at the first row. */
  lemma NoCursorStartsAtTop<T>(keys: RowKeys<T>, rows: seq<T>, token: Option<Text>)
    ensures token.None? || NUL !in token.value <==> DecodeCursor(token).None?
    ensures DecodeCursor(token).None? ==> Start(keys, rows, DecodeCursor(token)) == 0
  {
  }

  lemma {:induction false} StaticWalkFinishes<T(!new)>(
    keys: RowKeys<T>, rows: seq<T>, requests: seq<Request<T>>, cursor: Option<Cursor>)
    requires StrictlySorted(keys, rows) && NulFree(keys, rows) && Static(rows, requests)
    requires |requests| > |rows| - Start(keys, rows, cursor)
    ensures Finished(keys, requests, cursor)
  {
    var limit := requests[0].limit;
    var page := Paginate(keys, rows, cursor, limit);
    NextPageContinues(keys, rows, cursor, limit);
    if page.nextCursor.Some? {
      StaticWalkFinishes(keys, rows, requests[1..], DecodeCursor(page.nextCursor));
    }
  }

  lemma PageFits<T>(keys: RowKeys<T>, rows: seq<T>, cursor: Option<Cursor>, limit: nat)
    ensures |Paginate(keys, rows, cursor, limit).items| <= limit
  {
    hide EncodeCursor, Start;
  }

  /** On a fixed sorted list every page but the last is full. */
  lemma {:induction false} StaticWalkFillsPages<T(!new)>(
    keys: RowKeys<T>, rows: seq<T>, requests: seq<Request<T>>, cursor: Option<Cursor>, limit: nat)
    requires StrictlySorted(keys, rows) && NulFree(keys, rows) && Static(rows, requests)
    requires forall k :: 0 <= k < |requests| ==> requests[k].limit == limit
    requires |requests| > |rows| - Start(keys, rows, cursor)
    ensures FullButLast(Walk(keys, requests, cursor), limit)
  {
    hide StrictlySorted, NulFree, Paginate, Walk, DecodeCursor, Start;
    assert requests[0].limit == limit && 1 <= limit;
    var page := Paginate(keys, rows, cursor, limit);
    WalkStep(keys, requests, cursor);
    NextPageContinues(keys, rows, cursor, limit);
    PageFits(keys, rows, cursor, limit);
    if page.nextCursor.Some? {
      StaticWalkFillsPages(keys, rows, requests[1..], DecodeCursor(page.nextCursor), limit);
    }
  }

  lemma StaticStep<T>(rows: seq<T>, requests: seq<Request<T>>)
    requires Static(rows, requests) && requests != []
    ensures requests[0].rows == rows && 1 <= requests[0].limit && Static(rows, requests[1..])
  {
  }

  /** One page of such a walk and what comes after it. */
  lemma StaticPage<T(!new)>(
    keys: RowKeys<T>, rows: seq<T>, requests: seq<Request<T>>, cursor: Option<Cursor>)
    requires StrictlySorted(keys, rows) && NulFree(keys, rows)
    requires requests != [] && requests[0].rows == rows && requests[0].limit >= 1
    ensures var limit, start := requests[0].limit, Start(keys, rows, cursor);
      var page := Paginate(keys, rows, cursor, limit);
      if page.nextCursor.None? then Returned(keys, requests, cursor) == rows[start..]
      else
        && start + limit < |rows| && Start(keys, rows, DecodeCursor(page.nextCursor)) == start + limit
        && Returned(keys, requests, cursor) ==
             rows[start..start + limit] + Returned(keys, requests[1..], DecodeCursor(page.nextCursor))
  {
    hide StrictlySorted, NulFree, Paginate, Returned, DecodeCursor, Start;
    ReturnedStep(keys, requests, cursor);
    NextPageContinues(keys, rows, cursor, requests[0].limit);
  }

  /** On a fixed sorted list the pages, of whatever sizes, concatenate to the rows behind
      the first cursor. */
  lemma {:induction false} StaticWalk<T(!new)>(
    keys: RowKeys<T>, rows: seq<T>, requests: seq<Request<T>>, cursor: Option<Cursor>)
    requires StrictlySorted(keys, rows) && NulFree(keys, rows) && Static(rows, requests)
    requires |requests| > |rows| - Start(keys, rows, cursor)
    ensures Returned(keys, requests, cursor) == rows[Start(keys, rows, cursor)..]
  {
    hide StrictlySorted, NulFree, Paginate, Returned, DecodeCursor, Start, Static;
    var limit, start := requests[0].limit, Start(keys, rows, cursor);
    var next := DecodeCursor(Paginate(keys, rows, cursor, limit).nextCursor);
    StaticStep(rows, requests);
    StaticPage(keys, rows, requests, cursor);
    if Paginate(keys, rows, cursor, limit).nextCursor.Some? {
      StaticWalk(keys, rows, requests[1..], next);
      SplitTail(rows, start, start + limit);
    }
  }

  // ---------------------------------------------------------------- rows in any order

  /** The number of rows on the first `q` full pages. */
  function PageEnd(q: nat, limit: nat): nat {
    q * limit
  }

  lemma PageEndsGrow(q: nat, limit: nat)
    ensures PageEnd(0, limit) == 0 && PageEnd(1, limit) == limit
    ensures PageEnd(q + 1, limit) == PageEnd(q, limit) + limit
    ensures q >= 1 ==> PageEnd(q, limit) >= limit
  {
    if q >= 1 {
      assert q * limit == limit + (q - 1) * limit;
    }
  }

  lemma {:induction false} PageEndsOrder(j: nat, k: nat, limit: nat)
    requires j <= k
    ensures PageEnd(j, limit) <= PageEnd(k, limit)
  {
    hide PageEnd;
    if j < k {
      PageEndsGrow(k - 1, limit);
      PageEndsOrder(j, k - 1, limit);
    }
  }

  /** A cursor at the row before place `p` resumes at place `p`: that row lies after the
      cursor and none before it does. */
  ghost predicate ResumesAt<T(!new)>(keys: RowKeys<T>, rows: seq<T>, p: nat)
    requires 1 <= p < |rows|
  {
    && After(keys.At(rows[p]), keys.At(rows[p - 1]))
    && forall i :: 0 <= i < p ==> !After(keys.At(rows[i]), keys.At(rows[p - 1]))
  }

  /** Every page boundary from page `q` on resumes where the page ended. */
  ghost predicate BoundariesResume<T(!new)>(keys: RowKeys<T>, rows: seq<T>, limit: nat, q: nat)
    requires 1 <= limit
  {
    forall k: nat :: k > q && 0 < PageEnd(k, limit) < |rows| ==> ResumesAt(keys, rows, PageEnd(k, limit))
  }

  ghost predicate DistinctPositions<T>(keys: RowKeys<T>, rows: seq<T>) {
    forall i, j :: 0 <= i < j < |rows| ==> keys.At(rows[i]) != keys.At(rows[j])
  }

  lemma ResumesAtStart<T(!new)>(keys: RowKeys<T>, rows: seq<T>, p: nat)
    requires 1 <= p < |rows|
    ensures ResumesAt(keys, rows, p) <==> CursorStart(keys, rows, keys.At(rows[p - 1])) == p
  {
  }

  lemma BoundaryStep<T(!new)>(keys: RowKeys<T>, rows: seq<T>, limit: nat, q: nat)
    requires 1 <= limit && PageEnd(q + 1, limit) < |rows|
    ensures BoundariesResume(keys, rows, limit, q) <==>
      1 <= PageEnd(q + 1, limit) && ResumesAt(keys, rows, PageEnd(q + 1, limit)) &&
      BoundariesResume(keys, rows, limit, q + 1)
  {
    hide ResumesAt, PageEnd;
    PageEndsGrow(q, limit);
    PageEndsGrow(q + 1, limit);
  }

  lemma NoBoundaryLeft<T(!new)>(keys: RowKeys<T>, rows: seq<T>, limit: nat, q: nat)
    requires 1 <= limit && PageEnd(q + 1, limit) >= |rows|
    ensures BoundariesResume(keys, rows, limit, q)
  {
    hide PageEnd, ResumesAt;
    forall k: nat | k > q ensures PageEnd(k, limit) >= |rows| {
      PageEndsOrder(q + 1, k, limit);
    }
  }

  /** A page on rows in any order. */
  lemma AnyPage<T>(keys: RowKeys<T>, rows: seq<T>, cursor: Option<Cursor>, limit: nat)
    requires 1 <= limit && forall row :: row in rows ==> NUL !in keys.At(row).sortKey
    ensures var start := Start(keys, rows, cursor);
      var page := Paginate(keys, rows, cursor, limit);
      if start + limit < |rows| then
        page.items == rows[start..start + limit] && page.nextCursor.Some? &&
        DecodeCursor(page.nextCursor) == Some(keys.At(rows[start + limit - 1]))
      else page.items == rows[start..] && page.nextCursor.None?
  {
    var start := Start(keys, rows, cursor);
    if start + limit < |rows| {
      DecodeUndoesEncode(keys.At(rows[start + limit - 1]));
    }
  }

  /** What a walk returns begins with the row its first page starts at. */
  lemma WalkBegins<T>(keys: RowKeys<T>, rows: seq<T>, requests: seq<Request<T>>, cursor: Option<Cursor>)
    requires requests != [] && requests[0].rows == rows && 1 <= requests[0].limit
    requires forall row :: row in rows ==> NUL !in keys.At(row).sortKey
    ensures var start := Start(keys, rows, cursor);
      if start == |rows| then Returned(keys, requests, cursor) == []
      else Returned(keys, requests, cursor) != [] && Returned(keys, requests, cursor)[0] == rows[start]
  {
    ReturnedStep(keys, requests, cursor);
    AnyPage(keys, rows, cursor, requests[0].limit);
  }

  lemma SameTail<T>(rows: seq<T>, start: nat, p: nat, rest: seq<T>)
    requires start <= p <= |rows|
    ensures rows[start..p] + rest == rows[start..] <==> rest == rows[p..]
  {
    SplitTail(rows, start, p);
    assert (rows[start..p] + rest)[p - start..] == rest;
    assert rows[start..][p - start..] == rows[p..];
  }

  lemma WrongStart<T>(
    keys: RowKeys<T>, rows: seq<T>, requests: seq<Request<T>>, cursor: Option<Cursor>, p: nat)
    requires requests != [] && requests[0].rows == rows && 1 <= requests[0].limit
    requires forall row :: row in rows ==> NUL !in keys.At(row).sortKey
    requires DistinctPositions(keys, rows) && p < |rows| && Start(keys, rows, cursor) != p
    ensures Returned(keys, requests, cursor) != rows[p..]
  {
    hide Returned, Start;
    WalkBegins(keys, rows, requests, cursor);
    assert rows[p..] != [] && rows[p..][0] == rows[p];
  }

  /** The walk ends and shows the rows from `start` on. */
  ghost predicate ShowsFrom<T(!new)>(
    keys: RowKeys<T>, rows: seq<T>, requests: seq<Request<T>>, cursor: Option<Cursor>, start: nat)
    requires start <= |rows|
  {
    Finished(keys, requests, cursor) && Returned(keys, requests, cursor) == rows[start..]
  }

  /** Every request asks for `limit` of the same rows, in any order but with different
      positions and keys that survive the cursor. */
  ghost predicate SameRequests<T(!new)>(keys: RowKeys<T>, rows: seq<T>, requests: seq<Request<T>>, limit: nat) {
    && 1 <= limit && NulFree(keys, rows) && DistinctPositions(keys, rows)
    && forall k :: 0 <= k < |requests| ==> requests[k] == Request(rows, limit)
  }

  lemma LastPageShows<T(!new)>(
    keys: RowKeys<T>, rows: seq<T>, requests: seq<Request<T>>, cursor: Option<Cursor>, limit: nat)
    requires SameRequests(keys, rows, requests, limit) && requests != []
    requires Start(keys, rows, cursor) + limit >= |rows|
    ensures ShowsFrom(keys, rows, requests, cursor, Start(keys, rows, cursor))
  {
    hide Returned, Start, DistinctPositions, Paginate;
    ReturnedStep(keys, requests, cursor);
    AnyPage(keys, rows, cursor, limit);
  }

  /** A page with a next cursor in front of the rest of the walk. */
  lemma PageInFront<T(!new)>(
    keys: RowKeys<T>, rows: seq<T>, requests: seq<Request<T>>, cursor: Option<Cursor>, limit: nat)
    requires SameRequests(keys, rows, requests, limit) && requests != []
    requires Start(keys, rows, cursor) + limit < |rows|
    ensures var start := Start(keys, rows, cursor);
      var next := Some(keys.At(rows[start + limit - 1]));
      && Finished(keys, requests, cursor) == Finished(keys, requests[1..], next)
      && Returned(keys, requests, cursor) == rows[start..start + limit] + Returned(keys, requests[1..], next)
  {
    hide Returned, Start, DistinctPositions, Paginate, DecodeCursor;
    ReturnedStep(keys, requests, cursor);
    AnyPage(keys, rows, cursor, limit);
  }

  lemma PageShowsIff<T(!new)>(
    keys: RowKeys<T>, rows: seq<T>, requests: seq<Request<T>>, cursor: Option<Cursor>, limit: nat)
    requires SameRequests(keys, rows, requests, limit) && |requests| >= 2
    requires Start(keys, rows, cursor) + limit < |rows|
    ensures var start := Start(keys, rows, cursor);
      var next := Some(keys.At(rows[start + limit - 1]));
      ShowsFrom(keys, rows, requests, cursor, start) <==>
        Start(keys, rows, next) == start + limit && ShowsFrom(keys, rows, requests[1..], next, start + limit)
  {
    hide Returned, Finished, Start, Paginate, DecodeCursor, DistinctPositions;
    var start := Start(keys, rows, cursor);
    var p := start + limit;
    var next := Some(keys.At(rows[p - 1]));
    PageInFront(keys, rows, requests, cursor, limit);
    SameTail(rows, start, p, Returned(keys, requests[1..], next));
    if Start(keys, rows, next) != p {
      WrongStart(keys, rows, requests[1..], next, p);
    }
  }

  lemma {:induction false} WalkFromPageIff<T(!new)>(
    keys: RowKeys<T>, rows: seq<T>, requests: seq<Request<T>>, cursor: Option<Cursor>, limit: nat, q: nat)
    requires SameRequests(keys, rows, requests, limit)
    requires Start(keys, rows, cursor) == PageEnd(q, limit) <= |rows|
    requires |requests| > |rows| - PageEnd(q, limit)
    ensures ShowsFrom(keys, rows, requests, cursor, PageEnd(q, limit)) <==> BoundariesResume(keys, rows, limit, q)
    decreases |requests|
  {
    hide BoundariesResume, ShowsFrom, ResumesAt, PageEnd, CursorStart, DistinctPositions, NulFree;
    var p := PageEnd(q + 1, limit);
    PageEndsGrow(q, limit);
    if p >= |rows| {
      NoBoundaryLeft(keys, rows, limit, q);
      LastPageShows(keys, rows, requests, cursor, limit);
    } else {
      var next := Some(keys.At(rows[p - 1]));
      BoundaryStep(keys, rows, limit, q);
      ResumesAtStart(keys, rows, p);
      PageShowsIff(keys, rows, requests, cursor, limit);
      if Start(keys, rows, next) == p {
        WalkFromPageIff(keys, rows, requests[1..], next, limit, q + 1);
      }
    }
  }

  /** On a list in any order a walk shows exactly the list if and only if at every page
      boundary the cursor resumes behind the page: no earlier row may lie after the last row
      of the page, and the next row must. */
  lemma UnsortedWalkIff<T(!new)>(keys: RowKeys<T>, rows: seq<T>, requests: seq<Request<T>>, limit: nat)
    requires NulFree(keys, rows) && DistinctPositions(keys, rows)
    requires 1 <= limit && |requests| > |rows|
    requires forall k :: 0 <= k < |requests| ==> requests[k] == Request(rows, limit)
    ensures (Finished(keys, requests, None) && Returned(keys, requests, None) == rows) <==>
      forall k: nat :: 0 < PageEnd(k, limit) < |rows| ==> ResumesAt(keys, rows, PageEnd(k, limit))
  {
    hide NulFree, DistinctPositions, Returned, Finished, ResumesAt, PageEnd;
    assert SameRequests(keys, rows, requests, limit);
    PageEndsGrow(0, limit);
    WalkFromPageIff(keys, rows, requests, None, limit, 0);
    assert rows[0..] == rows;
  }

  /** Rows that are their own key and id. */
  const WORD_KEYS: RowKeys<Text> := RowKeys((row: Text) => Some(row), (row: Text) => row)

  /** For instance two rows in the wrong order: pages of one end with the second never shown. */
  lemma UnsortedRosterLosesRow()
    ensures var keys := WORD_KEYS;
      var rows: seq<Text> := [[98], [97]];
      var requests := [Request(rows, 1), Request(rows, 1)];
      && Finished(keys, requests, None)
      && Returned(keys, requests, None) == [[98]]
  {
    var keys := WORD_KEYS;
    var rows: seq<Text> := [[98], [97]];
    var b := Cursor([98], [98]);
    DecodeUndoesEncode(b);
    assert Paginate(keys, rows, None, 1) == Page([[98]], Some(EncodeCursor(b)));
    var start := CursorStart(keys, rows, b);
    assert start == 2 by {
      assert !Less([98], [98]) by { LessIrreflexive([98]); }
      assert !Less([98], [97]);
    }
    assert Paginate(keys, rows, Some(b), 1) == Page([], None);
    var requests := [Request(rows, 1), Request(rows, 1)];
    assert requests[1..] == [Request(rows, 1)];
    assert Walk(keys, requests[1..], Some(b)) == [[]];
    assert Flatten<Text>([[[98]], []]) == [[98]] + Flatten<Text>([[]]);
    assert Walk(keys, requests, None) == [[[98]], []];
  }

  // ---------------------------------------------------------------- offset cursors

  function Decimal(n: nat): (s: Text)
    ensures s != [] && forall c :: c in s ==> IsDigit(c)
  {
    (if n < 10 then [] else Decimal(n / 10)) + [(48 + n % 10) as CodeUnit]
  }

  function DecimalValue(s: Text): (n: nat)
    requires forall c :: c in s ==> IsDigit(c)
  {
    if s == [] then 0
    else
      assert IsDigit(s[|s| - 1]);
      10 * DecimalValue(s[..|s| - 1]) + (s[|s| - 1] as int - 48)
  }

  function EncodeOffsetCursor(offset: int): Text {
    Decimal(if offset < 0 then 0 else offset)
  }

  function DecodeOffsetCursor(token: Option<Text>): nat {
    if token.None? || token.value == [] then 0
    else if forall c :: c in token.value ==> IsDigit(c) then DecimalValue(token.value)
    else 0
  }

  lemma {:induction false} DecimalRoundTrip(n: nat)
    ensures DecimalValue(Decimal(n)) == n
  {
    var s := Decimal(n);
    if n >= 10 {
      DecimalRoundTrip(n / 10);
      assert s[..|s| - 1] == Decimal(n / 10);
    } else {
      assert s[..|s| - 1] == [];
    }
  }

  lemma OffsetRoundTrip(offset: int)
    ensures DecodeOffsetCursor(Some(EncodeOffsetCursor(offset))) == if offset < 0 then 0 else offset
  {
    DecimalRoundTrip(if offset < 0 then 0 else offset);
  }

  /** A token that is anything but decimal digits counts as the first page. */
  lemma OffsetTokenReads(token: Option<Text>)
    ensures DecodeOffsetCursor(token) ==
      if token.Some? && token.value != [] && forall i :: 0 <= i < |token.value| ==> 48 <= token.value[i] <= 57
      then DecimalValue(token.value) else 0
  {
    if token.Some? {
      var s := token.value;
      assert (forall c :: c in s ==> IsDigit(c)) <==> forall i :: 0 <= i < |s| ==> IsDigit(s[i]);
    }
  }
}
