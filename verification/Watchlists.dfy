/** User watchlists: the six actions of the endpoint (src/harper/resource-user-watchlists.ts)
    over the two tables of its store (src/harper/resource-user-watchlists-store.ts). */
module Watchlists {
  import opened Sequences
  import opened StableSort
  import opened Texts
  import opened UriComponent
  import Pagination

  const MAX_NAME_LENGTH: nat := 120
  const MAX_NOTE_LENGTH: nat := 2_000
  const MAX_LISTS_PER_USER: nat := 50
  const MAX_LIST_ID_LENGTH: nat := 240
  const MAX_ADVISOR_ID_LENGTH: nat := 200

  datatype ListRow = ListRow(id: Text, userId: Text, name: Text)

  datatype EntryRow = EntryRow(id: Text, listId: Text, advisorId: Text, rank: Option<nat>, note: Text)

  datatype Store = Store(lists: map<Text, ListRow>, entries: map<Text, EntryRow>)

  /** A field of the untrusted body: null or undefined, a string, or anything else with the
      string it converts to. */
  datatype Value = Absent | Str(text: Text) | Other(text: Text)

  datatype Body = Body(listId: Value, id: Value, name: Value, advisorId: Value, rank: Value, note: Value)

  datatype Action = Create | Rename | DeleteList | AddEntry | UpdateEntry | DeleteEntry | Unsupported

  datatype Response =
    | Saved(listId: Text, name: Text)
    | ListDeleted(listId: Text)
    | EntryDeleted(entryId: Text)
    | Status(code: int)

  // ---------------------------------------------------------------- input handling

  function TextValue(value: Value, max: nat): (r: Text)
    ensures |r| <= max
  {
    if value.Str? then Take(Trim(value.text, IsSpace), max) else []
  }

  /** The text read is what stands between the outer white space, cut to the limit; anything
      but a string reads as empty. */
  lemma TextValueReads(value: Value, max: nat, from: nat, to: nat)
    requires value.Str? ==>
      && from <= to <= |value.text|
      && (from < to ==> !IsSpace(value.text[from]) && !IsSpace(value.text[to - 1]))
      && (forall k :: 0 <= k < from || to <= k < |value.text| ==> IsSpace(value.text[k]))
    ensures TextValue(value, max) == if value.Str? then Take(value.text[from..to], max) else []
  {
    hide Trim;
    if value.Str? {
      if from < to {
        TrimIff(value.text, IsSpace, from, to);
      } else {
        forall k | 0 <= k < |value.text| ensures IsSpace(value.text[k]) {
          assert k < from || to <= k;
        }
        TrimOfBlank(value.text, IsSpace);
      }
    }
  }

  /** The number spelled by the leading digits; `None` without any. */
  function LeadingDigits(s: Text, seen: Option<nat>): Option<nat>
    decreases s
  {
    if s == [] || !IsDigit(s[0]) then seen
    else LeadingDigits(s[1..], Some(10 * seen.GetOr(0) + (s[0] as int - 48)))
  }

  /** `positiveInt`: `parseInt` in base ten, kept when greater than zero. */
  function PositiveInt(value: Value): (r: Option<nat>)
    ensures r.Some? ==> r.value > 0
  {
    var s := TrimLeft(if value.Absent? then [] else value.text, IsSpace);
    var negative := s != [] && s[0] == 45;
    var unsigned := if s != [] && (s[0] == 43 || s[0] == 45) then s[1..] else s;
    var parsed := LeadingDigits(unsigned, None);
    if parsed.Some? && parsed.value > 0 && !negative then parsed else None
  }

  ghost predicate AllDigits(s: Text) {
    forall c :: c in s ==> IsDigit(c)
  }

  function DigitsValue(digits: Text): Option<nat>
    requires AllDigits(digits)
  {
    if digits == [] then None else Some(Pagination.DecimalValue(digits))
  }

  lemma OneMoreDigit(seen: Text, digit: CodeUnit)
    requires AllDigits(seen) && IsDigit(digit)
    ensures AllDigits(seen + [digit])
    ensures DigitsValue(seen + [digit]) == Some(10 * DigitsValue(seen).GetOr(0) + (digit as int - 48))
  {
    assert (seen + [digit])[..|seen|] == seen;
  }

  lemma {:induction false} LeadingDigitsSpell(seen: Text, digits: Text, rest: Text)
    requires AllDigits(seen) && AllDigits(digits) && (rest == [] || !IsDigit(rest[0]))
    ensures AllDigits(seen + digits)
    ensures LeadingDigits(digits + rest, DigitsValue(seen)) == DigitsValue(seen + digits)
    decreases digits
  {
    hide DigitsValue, Pagination.DecimalValue;
    if digits == [] {
      assert digits + rest == rest && seen + digits == seen;
    } else {
      assert (digits + rest)[0] == digits[0] && (digits + rest)[1..] == digits[1..] + rest;
      assert digits[0] in digits;
      OneMoreDigit(seen, digits[0]);
      assert seen + [digits[0]] + digits[1..] == seen + digits;
      LeadingDigitsSpell(seen + [digits[0]], digits[1..], rest);
    }
  }

  /** A rank is read off leading white space, an optional sign and a run of digits: the
      decimal number they spell, if there are any, the sign is not a minus and it is not zero. */
  lemma PositiveIntReads(spaces: Text, sign: Text, digits: Text, rest: Text)
    requires (forall k :: 0 <= k < |spaces| ==> IsSpace(spaces[k])) && AllDigits(digits)
    requires sign == [] || sign == [43] || sign == [45]
    requires rest == [] || !IsDigit(rest[0])
    requires sign == [] && digits == [] && rest != [] ==> !IsSpace(rest[0]) && rest[0] != 43 && rest[0] != 45
    ensures PositiveInt(Str(spaces + (sign + (digits + rest)))) ==
      if sign == [45] || digits == [] || Pagination.DecimalValue(digits) == 0 then None
      else Some(Pagination.DecimalValue(digits))
  {
    hide TrimLeft, LeadingDigits, Pagination.DecimalValue;
    var tail := digits + rest;
    var s := sign + tail;
    assert digits != [] ==> digits[0] in digits && tail[0] == digits[0];
    assert sign == [] ==> s == tail;
    assert sign != [] ==> s[0] == sign[0] && s[1..] == tail;
    TrimLeftOfSpaces(spaces, s);
    LeadingDigitsSpell([], digits, rest);
    assert [] + digits == digits;
  }

  lemma {:induction false} TrimLeftOfSpaces(spaces: Text, s: Text)
    requires (forall k :: 0 <= k < |spaces| ==> IsSpace(spaces[k])) && (s == [] || !IsSpace(s[0]))
    ensures TrimLeft(spaces + s, IsSpace) == s
  {
    if spaces == [] {
      assert spaces + s == s;
    } else {
      assert (spaces + s)[1..] == spaces[1..] + s;
      TrimLeftOfSpaces(spaces[1..], s);
    }
  }

  // ---------------------------------------------------------------- ids

  function EntryId(listId: Text, advisorId: Text): Option<Text> {
    var l, a := EncodeURIComponent(listId), EncodeURIComponent(advisorId);
    if l.None? || a.None? then None else Some(l.value + [COLON] + a.value)
  }

  /** `newId("list", userId)` with the random UUID as an input. */
  function NewListId(userId: Text, uuid: Text): Option<Text> {
    var u := EncodeURIComponent(userId);
    if u.None? then None else Some([108, 105, 115, 116, COLON] + u.value + [COLON] + uuid)
  }

  /** A composite id belongs to one (list, advisor) pair only. */
  lemma EntryIdIsInjective(l: Text, a: Text, l': Text, a': Text)
    requires EntryId(l, a).Some? && EntryId(l, a) == EntryId(l', a')
    ensures l == l' && a == a'
  {
    hide EncodeURIComponent;
    EncodeIsColonFree(l);
    EncodeIsColonFree(l');
    FirstSeparatorDecides(COLON,
      EncodeURIComponent(l).value, EncodeURIComponent(l').value,
      EncodeURIComponent(a).value, EncodeURIComponent(a').value);
    EncodeIsInjective(l, l');
    EncodeIsInjective(a, a');
  }

  // ---------------------------------------------------------------- the actions

  datatype Found<+R> = Found(row: R) | Refused(code: int)

  function RequireOwnedList(store: Store, userId: Text, raw: Value): (r: Found<ListRow>)
    ensures r.Found? ==> r.row.userId == userId
  {
    var listId := TextValue(raw, MAX_LIST_ID_LENGTH);
    if listId == [] then Refused(400)
    else if listId !in store.lists || store.lists[listId].userId != userId then Refused(404)
    else Found(store.lists[listId])
  }

  /** An id that cannot be percent-encoded throws before the table is read (status 500). */
  function RequireEntry(store: Store, listId: Text, advisorId: Text): Found<EntryRow> {
    var id := EntryId(listId, advisorId);
    if id.None? then Refused(500)
    else if id.value !in store.entries then Refused(404)
    else
      var row := store.entries[id.value];
      if row.listId != listId || row.advisorId != advisorId then Refused(404) else Found(row)
  }

  function ListTarget(body: Body): Value {
    if body.listId.Absent? then body.id else body.listId
  }

  function ListsOf(store: Store, userId: Text): set<Text> {
    set id | id in store.lists && store.lists[id].userId == userId
  }

  function EntriesOf(store: Store, listId: Text): set<Text> {
    set id | id in store.entries && store.entries[id].listId == listId
  }

  function DoCreate(store: Store, userId: Text, body: Body, uuid: Text): (Store, Response) {
    var name := TextValue(body.name, MAX_NAME_LENGTH);
    if name == [] then (store, Status(400))
    else if |ListsOf(store, userId)| >= MAX_LISTS_PER_USER then (store, Status(400))
    else if NewListId(userId, uuid).None? then (store, Status(500))
    else
      var id := NewListId(userId, uuid).value;
      (store.(lists := store.lists[id := ListRow(id, userId, name)]), Saved(id, name))
  }

  function DoRename(store: Store, userId: Text, body: Body): (Store, Response) {
    var list := RequireOwnedList(store, userId, ListTarget(body));
    var name := TextValue(body.name, MAX_NAME_LENGTH);
    if list.Refused? then (store, Status(list.code))
    else if name == [] then (store, Status(400))
    else (store.(lists := store.lists[list.row.id := list.row.(name := name)]), Saved(list.row.id, name))
  }

  function DoDeleteList(store: Store, userId: Text, body: Body): (Store, Response) {
    var list := RequireOwnedList(store, userId, ListTarget(body));
    if list.Refused? then (store, Status(list.code))
    else
      (Store(store.lists - {list.row.id}, store.entries - EntriesOf(store, list.row.id)),
       ListDeleted(list.row.id))
  }

  function DoAddEntry(store: Store, userId: Text, body: Body): (Store, Response) {
    var list := RequireOwnedList(store, userId, body.listId);
    var advisorId := TextValue(body.advisorId, MAX_ADVISOR_ID_LENGTH);
    if list.Refused? then (store, Status(list.code))
    else if advisorId == [] then (store, Status(400))
    else if EntryId(list.row.id, advisorId).None? then (store, Status(500))
    else
      var id := EntryId(list.row.id, advisorId).value;
      var row := EntryRow(
        id, list.row.id, advisorId, PositiveInt(body.rank), TextValue(body.note, MAX_NOTE_LENGTH));
      (store.(entries := store.entries[id := row]), Saved(list.row.id, list.row.name))
  }

  function DoUpdateEntry(store: Store, userId: Text, body: Body): (Store, Response) {
    var list := RequireOwnedList(store, userId, body.listId);
    var advisorId := TextValue(body.advisorId, MAX_ADVISOR_ID_LENGTH);
    if list.Refused? then (store, Status(list.code))
    else if advisorId == [] then (store, Status(400))
    else
      var existing := RequireEntry(store, list.row.id, advisorId);
      if existing.Refused? then (store, Status(existing.code))
      else
        var row := existing.row.(
          rank := PositiveInt(body.rank), note := TextValue(body.note, MAX_NOTE_LENGTH));
        (store.(entries := store.entries[row.id := row]), Saved(list.row.id, list.row.name))
  }

  function DoDeleteEntry(store: Store, userId: Text, body: Body): (Store, Response) {
    var list := RequireOwnedList(store, userId, body.listId);
    var advisorId := TextValue(body.advisorId, MAX_ADVISOR_ID_LENGTH);
    if list.Refused? then (store, Status(list.code))
    else if advisorId == [] then (store, Status(400))
    else
      var entry := RequireEntry(store, list.row.id, advisorId);
      if entry.Refused? then (store, Status(entry.code))
      else (store.(entries := store.entries - {entry.row.id}), EntryDeleted(entry.row.id))
  }

  /** One POST; `userId` is `None` for a visitor who is not signed in. */
  datatype Request = Request(userId: Option<Text>, action: Action, body: Body, uuid: Text)

  function Post(store: Store, request: Request): (Store, Response) {
    if request.userId.None? then (store, Status(401))
    else
      var userId, body := request.userId.value, request.body;
      match request.action
      case Create => DoCreate(store, userId, body, request.uuid)
      case Rename => DoRename(store, userId, body)
      case DeleteList => DoDeleteList(store, userId, body)
      case AddEntry => DoAddEntry(store, userId, body)
      case UpdateEntry => DoUpdateEntry(store, userId, body)
      case DeleteEntry => DoDeleteEntry(store, userId, body)
      case Unsupported => (store, Status(400))
  }

  // ---------------------------------------------------------------- the invariant

  ghost predicate ListsValid(store: Store) {
    forall id :: id in store.lists ==>
      store.lists[id].id == id && 0 < |store.lists[id].name| <= MAX_NAME_LENGTH
  }

  ghost predicate ValidEntry(store: Store, row: EntryRow) {
    && EntryId(row.listId, row.advisorId) == Some(row.id)
    && row.listId in store.lists
    && 0 < |row.advisorId| <= MAX_ADVISOR_ID_LENGTH && |row.note| <= MAX_NOTE_LENGTH
    && (row.rank.Some? ==> row.rank.value > 0)
  }

  /** Every entry sits under the id of its pair and belongs to a stored list. */
  ghost predicate EntriesValid(store: Store) {
    forall id :: id in store.entries ==> store.entries[id].id == id && ValidEntry(store, store.entries[id])
  }

  ghost predicate WithinCap(store: Store) {
    forall userId :: |ListsOf(store, userId)| <= MAX_LISTS_PER_USER
  }

  ghost predicate Invariant(store: Store) {
    ListsValid(store) && EntriesValid(store) && WithinCap(store)
  }

  /** Lists of other users, and entries in them, are the same in both stores. */
  ghost predicate OthersUntouched(before: Store, after: Store, userId: Text) {
    && (forall id :: id in before.lists && before.lists[id].userId != userId ==>
          id in after.lists && after.lists[id] == before.lists[id])
    && (forall id :: id in after.lists && after.lists[id].userId != userId ==>
          id in before.lists && before.lists[id] == after.lists[id])
    && (forall id :: id in before.entries && !OwnsEntry(before, userId, id) ==>
          id in after.entries && after.entries[id] == before.entries[id])
    && (forall id :: id in after.entries && !OwnsEntry(after, userId, id) ==>
          id in before.entries && before.entries[id] == after.entries[id])
  }

  ghost predicate OwnsEntry(store: Store, userId: Text, id: Text) {
    id in store.entries && store.entries[id].listId in store.lists &&
    store.lists[store.entries[id].listId].userId == userId
  }

  lemma CapAfterSubset(before: Store, after: Store)
    requires WithinCap(before)
    requires forall id :: id in after.lists ==>
      id in before.lists && after.lists[id].userId == before.lists[id].userId
    ensures WithinCap(after)
  {
    forall userId ensures |ListsOf(after, userId)| <= MAX_LISTS_PER_USER {
      SubsetSize(ListsOf(after, userId), ListsOf(before, userId));
    }
  }

  /** A random UUID gives a list id that no stored list has. */
  ghost predicate FreshUuid(store: Store, request: Request) {
    request.userId.Some? && NewListId(request.userId.value, request.uuid).Some? ==>
      NewListId(request.userId.value, request.uuid).value !in store.lists
  }

  lemma ListsAfterCreate(store: Store, row: ListRow, userId: Text)
    requires row.id !in store.lists
    ensures ListsOf(store.(lists := store.lists[row.id := row]), userId) ==
      ListsOf(store, userId) + if userId == row.userId then {row.id} else {}
  {
  }

  lemma CapAfterCreate(store: Store, row: ListRow)
    requires WithinCap(store) && row.id !in store.lists
    requires |ListsOf(store, row.userId)| < MAX_LISTS_PER_USER
    ensures WithinCap(store.(lists := store.lists[row.id := row]))
  {
    hide ListsOf;
    var next := store.(lists := store.lists[row.id := row]);
    forall u ensures |ListsOf(next, u)| <= MAX_LISTS_PER_USER {
      ListsAfterCreate(store, row, u);
    }
  }

  lemma CreateKeepsInvariant(store: Store, request: Request)
    requires Invariant(store) && FreshUuid(store, request) && request.userId.Some?
    ensures var next := DoCreate(store, request.userId.value, request.body, request.uuid).0;
      Invariant(next) && OthersUntouched(store, next, request.userId.value)
  {
    hide EntryId, TextValue, ListsOf, NewListId, WithinCap;
    var userId := request.userId.value;
    var (next, response) := DoCreate(store, userId, request.body, request.uuid);
    if response.Saved? {
      CapAfterCreate(store, next.lists[response.listId]);
    }
  }

  lemma RenameKeepsInvariant(store: Store, userId: Text, body: Body)
    requires Invariant(store)
    ensures var next := DoRename(store, userId, body).0;
      Invariant(next) && OthersUntouched(store, next, userId)
  {
    hide EntryId, TextValue;
    CapAfterSubset(store, DoRename(store, userId, body).0);
  }

  /** The states `deleteList` passes through: any of the list's entries gone, in any order,
      the list still there. */
  lemma PartialDeleteKeepsInvariant(store: Store, userId: Text, listId: Text, gone: set<Text>)
    requires Invariant(store) && listId in store.lists && store.lists[listId].userId == userId
    requires gone <= EntriesOf(store, listId)
    ensures var next := store.(entries := store.entries - gone);
      Invariant(next) && OthersUntouched(store, next, userId)
  {
    hide EntryId;
    CapAfterSubset(store, store.(entries := store.entries - gone));
  }

  lemma DeleteListKeepsInvariant(store: Store, userId: Text, body: Body)
    requires Invariant(store)
    ensures var next := DoDeleteList(store, userId, body).0;
      Invariant(next) && OthersUntouched(store, next, userId)
  {
    hide EntryId, TextValue;
    CapAfterSubset(store, DoDeleteList(store, userId, body).0);
  }

  /** Saving a well-formed entry of an owned list keeps the invariant. */
  lemma PutEntryKeepsInvariant(store: Store, userId: Text, row: EntryRow)
    requires Invariant(store) && ValidEntry(store, row) && store.lists[row.listId].userId == userId
    ensures var next := store.(entries := store.entries[row.id := row]);
      Invariant(next) && OthersUntouched(store, next, userId)
  {
    hide EntryId, WithinCap, ListsValid, ValidEntry;
    var next := store.(entries := store.entries[row.id := row]);
    CapAfterSubset(store, next);
    ListsStayValid(store, next);
    PutEntryKeepsEntries(store, row);
    PutEntryLeavesOthers(store, userId, row);
  }

  lemma ListsStayValid(store: Store, next: Store)
    requires ListsValid(store) && next.lists == store.lists
    ensures ListsValid(next)
  {
  }

  lemma PutEntryKeepsEntries(store: Store, row: EntryRow)
    requires EntriesValid(store) && ValidEntry(store, row)
    ensures EntriesValid(store.(entries := store.entries[row.id := row]))
  {
    hide EntryId;
  }

  lemma PutEntryLeavesOthers(store: Store, userId: Text, row: EntryRow)
    requires EntriesValid(store) && ValidEntry(store, row) && store.lists[row.listId].userId == userId
    ensures OthersUntouched(store, store.(entries := store.entries[row.id := row]), userId)
  {
    hide EntryId;
    if row.id in store.entries {
      var was := store.entries[row.id];
      EntryIdIsInjective(was.listId, was.advisorId, row.listId, row.advisorId);
    }
  }

  lemma AddEntryKeepsInvariant(store: Store, userId: Text, body: Body)
    requires Invariant(store)
    ensures var next := DoAddEntry(store, userId, body).0;
      Invariant(next) && OthersUntouched(store, next, userId)
  {
    hide EntryId, TextValue, PositiveInt, OthersUntouched, EntriesValid, WithinCap;
    var (next, response) := DoAddEntry(store, userId, body);
    if response.Saved? {
      var advisorId := TextValue(body.advisorId, MAX_ADVISOR_ID_LENGTH);
      PutEntryKeepsInvariant(store, userId, next.entries[EntryId(response.listId, advisorId).value]);
    } else {
      NothingTouched(store, userId);
    }
  }

  lemma UpdateEntryKeepsInvariant(store: Store, userId: Text, body: Body)
    requires Invariant(store)
    ensures var next := DoUpdateEntry(store, userId, body).0;
      Invariant(next) && OthersUntouched(store, next, userId)
  {
    hide EntryId, TextValue, PositiveInt, OthersUntouched, WithinCap;
    var (next, response) := DoUpdateEntry(store, userId, body);
    if response.Saved? {
      var existing := RequireEntry(store, response.listId, TextValue(body.advisorId, MAX_ADVISOR_ID_LENGTH));
      PutEntryKeepsInvariant(store, userId, next.entries[existing.row.id]);
    } else {
      NothingTouched(store, userId);
    }
  }

  lemma DeleteEntryKeepsInvariant(store: Store, userId: Text, body: Body)
    requires Invariant(store)
    ensures var next := DoDeleteEntry(store, userId, body).0;
      Invariant(next) && OthersUntouched(store, next, userId)
  {
    hide EntryId, TextValue, OthersUntouched, WithinCap;
    var (next, response) := DoDeleteEntry(store, userId, body);
    if response.EntryDeleted? {
      PartialDeleteKeepsInvariant(store, userId, store.entries[response.entryId].listId, {response.entryId});
    } else {
      NothingTouched(store, userId);
    }
  }

  /** Each action keeps the invariant and leaves other users' data alone; a refused request
      changes nothing. */
  lemma PostKeepsInvariant(store: Store, request: Request)
    requires Invariant(store) && FreshUuid(store, request)
    ensures var (next, response) := Post(store, request);
      && Invariant(next)
      && (response.Status? ==> next == store)
      && forall userId :: request.userId == Some(userId) ==> OthersUntouched(store, next, userId)
  {
    hide Invariant, OthersUntouched, TextValue, EntryId, PositiveInt;
    if request.userId.Some? {
      var userId := request.userId.value;
      match request.action
      case Create => CreateKeepsInvariant(store, request);
      case Rename => RenameKeepsInvariant(store, userId, request.body);
      case DeleteList => DeleteListKeepsInvariant(store, userId, request.body);
      case AddEntry => AddEntryKeepsInvariant(store, userId, request.body);
      case UpdateEntry => UpdateEntryKeepsInvariant(store, userId, request.body);
      case DeleteEntry => DeleteEntryKeepsInvariant(store, userId, request.body);
      case Unsupported => NothingTouched(store, userId);
    }
  }

  lemma NothingTouched(store: Store, userId: Text)
    ensures OthersUntouched(store, store, userId)
  {
  }

  function Run(store: Store, requests: seq<Request>): Store
    decreases requests
  {
    if requests == [] then store else Run(Post(store, requests[0]).0, requests[1..])
  }

  ghost predicate FreshUuids(store: Store, requests: seq<Request>)
    decreases requests
  {
    requests == [] ||
    (FreshUuid(store, requests[0]) && FreshUuids(Post(store, requests[0]).0, requests[1..]))
  }

  /** The invariant holds after any sequence of requests from an empty store. */
  lemma {:induction false} RunKeepsInvariant(store: Store, requests: seq<Request>)
    requires Invariant(store) && FreshUuids(store, requests)
    ensures Invariant(Run(store, requests))
    decreases requests
  {
    hide Invariant, Post, FreshUuid;
    if requests == [] {
    } else {
      PostKeepsInvariant(store, requests[0]);
      RunKeepsInvariant(Post(store, requests[0]).0, requests[1..]);
    }
  }

  ghost function ListView(store: Store, userId: Text): map<Text, ListRow> {
    map id | id in store.lists && store.lists[id].userId == userId :: store.lists[id]
  }

  ghost function EntryView(store: Store, userId: Text): map<Text, EntryRow> {
    map id | id in store.entries && OwnsEntry(store, userId, id) :: store.entries[id]
  }

  lemma BystanderListsStay(before: Store, after: Store, userId: Text, other: Text)
    requires OthersUntouched(before, after, userId) && other != userId
    ensures ListView(after, other) == ListView(before, other)
  {
    hide OwnsEntry;
  }

  lemma BystanderOwnsSame(before: Store, after: Store, userId: Text, other: Text, id: Text)
    requires EntriesValid(before) && EntriesValid(after)
    requires OthersUntouched(before, after, userId) && other != userId
    ensures OwnsEntry(after, other, id) <==> OwnsEntry(before, other, id)
    ensures OwnsEntry(after, other, id) ==> after.entries[id] == before.entries[id]
  {
    hide EntryId;
    if id in before.entries && id in after.entries {
      EntryIdIsInjective(before.entries[id].listId, before.entries[id].advisorId,
        after.entries[id].listId, after.entries[id].advisorId);
    }
  }

  lemma BystanderEntriesStay(before: Store, after: Store, userId: Text, other: Text)
    requires EntriesValid(before) && EntriesValid(after)
    requires OthersUntouched(before, after, userId) && other != userId
    ensures EntryView(after, other) == EntryView(before, other)
  {
    hide EntriesValid, OthersUntouched;
    forall id ensures (OwnsEntry(after, other, id) <==> OwnsEntry(before, other, id)) &&
      (OwnsEntry(after, other, id) ==> after.entries[id] == before.entries[id])
    {
      BystanderOwnsSame(before, after, userId, other, id);
    }
  }

  /** A user who sends nothing finds every list and entry as it was, whatever the others do. */
  lemma {:induction false} RunLeavesBystandersAlone(store: Store, requests: seq<Request>, other: Text)
    requires Invariant(store) && FreshUuids(store, requests)
    requires forall k :: 0 <= k < |requests| ==> requests[k].userId != Some(other)
    ensures ListView(Run(store, requests), other) == ListView(store, other)
    ensures EntryView(Run(store, requests), other) == EntryView(store, other)
    decreases requests
  {
    hide Post, FreshUuid, OthersUntouched, EntriesValid, ListsValid, WithinCap, ListView, EntryView;
    if requests == [] {
    } else {
      var next := Post(store, requests[0]).0;
      PostKeepsInvariant(store, requests[0]);
      if requests[0].userId.Some? {
        BystanderListsStay(store, next, requests[0].userId.value, other);
        BystanderEntriesStay(store, next, requests[0].userId.value, other);
      } else {
        UnsignedChangesNothing(store, requests[0]);
      }
      RunLeavesBystandersAlone(next, requests[1..], other);
    }
  }

  lemma UnsignedChangesNothing(store: Store, request: Request)
    requires request.userId.None?
    ensures Post(store, request) == (store, Status(401))
  {
  }

  /** A run answers its requests one after the other. */
  lemma {:induction false} RunAppend(store: Store, requests: seq<Request>, request: Request)
    ensures Run(store, requests + [request]) == Post(Run(store, requests), request).0
    decreases requests
  {
    hide Post;
    if requests == [] {
      assert ([] + [request])[1..] == [];
      assert Run(Post(store, request).0, []) == Post(store, request).0;
    } else {
      assert (requests + [request])[1..] == requests[1..] + [request];
      RunAppend(Post(store, requests[0]).0, requests[1..], request);
    }
  }

  lemma EmptyStoreIsValid()
    ensures Invariant(Store(map[], map[]))
  {
    forall userId ensures |ListsOf(Store(map[], map[]), userId)| == 0 {
    }
  }

  // ---------------------------------------------------------------- what the actions mean

  /** The simple reading of a store: rank and note by (list, advisor) pair. */
  ghost function Lookup(store: Store, listId: Text, advisorId: Text): Option<(Option<nat>, Text)> {
    if exists id :: id in store.entries && store.entries[id].listId == listId &&
                    store.entries[id].advisorId == advisorId then
      var id :| id in store.entries && store.entries[id].listId == listId &&
                store.entries[id].advisorId == advisorId;
      Some((store.entries[id].rank, store.entries[id].note))
    else None
  }

  lemma LookupById(store: Store, listId: Text, advisorId: Text)
    requires EntriesValid(store)
    ensures var id := EntryId(listId, advisorId);
      Lookup(store, listId, advisorId) ==
        if id.Some? && id.value in store.entries
        then Some((store.entries[id.value].rank, store.entries[id.value].note)) else None
  {
    hide EntryId;
    var id := EntryId(listId, advisorId);
    if id.Some? && id.value in store.entries {
      var row := store.entries[id.value];
      EntryIdIsInjective(listId, advisorId, row.listId, row.advisorId);
      assert row.listId == listId && row.advisorId == advisorId;
    }
  }

  /** A pair that is stored is always found, with no mismatch left to refuse. */
  lemma EntryFoundIffStored(store: Store, listId: Text, advisorId: Text)
    requires EntriesValid(store)
    ensures RequireEntry(store, listId, advisorId).Found? <==> Lookup(store, listId, advisorId).Some?
  {
    hide EntryId;
    LookupById(store, listId, advisorId);
    var id := EntryId(listId, advisorId);
    if id.Some? && id.value in store.entries {
      EntryIdIsInjective(
        listId, advisorId, store.entries[id.value].listId, store.entries[id.value].advisorId);
    }
  }

  lemma EntryIdsDiffer(l: Text, a: Text, l': Text, a': Text)
    requires EntryId(l, a).Some? && (l != l' || a != a')
    ensures EntryId(l', a') != EntryId(l, a)
  {
    hide EntryId;
    if EntryId(l', a') == EntryId(l, a) {
      EntryIdIsInjective(l, a, l', a');
    }
  }

  /** A saved entry, new or updated, changes exactly its own pair. */
  lemma SavedEntryChangesItsPair(store: Store, request: Request, l: Text, a: Text)
    requires Invariant(store) && request.userId.Some?
    requires request.action.AddEntry? || request.action.UpdateEntry?
    requires Post(store, request).1.Saved?
    ensures var (next, response) := Post(store, request);
      var pair := (response.listId, TextValue(request.body.advisorId, 200));
      Lookup(next, l, a) ==
        if (l, a) == pair
        then Some((PositiveInt(request.body.rank), TextValue(request.body.note, 2_000)))
        else Lookup(store, l, a)
  {
    hide EntryId, TextValue, PositiveInt, Lookup, OthersUntouched, WithinCap, ListsValid;
    var (next, response) := Post(store, request);
    var advisorId := TextValue(request.body.advisorId, MAX_ADVISOR_ID_LENGTH);
    AddEntryKeepsInvariant(store, request.userId.value, request.body);
    UpdateEntryKeepsInvariant(store, request.userId.value, request.body);
    LookupById(store, l, a);
    LookupById(next, l, a);
    if (l, a) != (response.listId, advisorId) {
      EntryIdsDiffer(response.listId, advisorId, l, a);
    }
  }

  /** A deleted entry takes away exactly its own pair. */
  lemma DeletedEntryRemovesItsPair(store: Store, request: Request, l: Text, a: Text)
    requires Invariant(store) && request.userId.Some? && request.action.DeleteEntry?
    requires Post(store, request).1.EntryDeleted?
    ensures var (next, response) := Post(store, request);
      var gone := store.entries[response.entryId];
      && gone.advisorId == TextValue(request.body.advisorId, MAX_ADVISOR_ID_LENGTH)
      && gone.listId == TextValue(request.body.listId, MAX_LIST_ID_LENGTH)
      && Lookup(next, l, a) ==
           if (l, a) == (gone.listId, gone.advisorId) then None else Lookup(store, l, a)
  {
    hide EntryId, TextValue, Lookup;
    var (next, response) := Post(store, request);
    var gone := store.entries[response.entryId];
    DeleteEntryKeepsInvariant(store, request.userId.value, request.body);
    LookupById(store, l, a);
    LookupById(next, l, a);
    if (l, a) != (gone.listId, gone.advisorId) {
      EntryIdsDiffer(gone.listId, gone.advisorId, l, a);
    }
  }

  /** A deleted list takes its entries with it and nothing else. */
  lemma DeletedListRemovesItsPairs(store: Store, request: Request, l: Text, a: Text)
    requires Invariant(store) && request.userId.Some? && request.action.DeleteList?
    requires Post(store, request).1.ListDeleted?
    ensures var (next, response) := Post(store, request);
      && next.lists == store.lists - {response.listId}
      && Lookup(next, l, a) == if l == response.listId then None else Lookup(store, l, a)
  {
    hide EntryId, TextValue, Lookup;
    var (next, response) := Post(store, request);
    DeleteListKeepsInvariant(store, request.userId.value, request.body);
    LookupById(store, l, a);
    LookupById(next, l, a);
    var id := EntryId(l, a);
    if id.Some? && id.value in store.entries {
      EntryIdIsInjective(l, a, store.entries[id.value].listId, store.entries[id.value].advisorId);
    }
  }

  // ---------------------------------------------------------------- lists with long ids

  /** Some request can address the list. */
  ghost predicate Reachable(store: Store, userId: Text, listId: Text)
    requires listId in store.lists
  {
    exists raw: Value :: RequireOwnedList(store, userId, raw) == Found(store.lists[listId])
  }

  /** A list whose id is longer than the 240 units the endpoint reads cannot be addressed by
      any request. */
  lemma LongListIdIsUnreachable(store: Store, userId: Text, listId: Text)
    requires ListsValid(store) && listId in store.lists && |listId| > MAX_LIST_ID_LENGTH
    ensures !Reachable(store, userId, listId)
  {
    hide Trim;
    forall raw: Value ensures RequireOwnedList(store, userId, raw) != Found(store.lists[listId]) {
      assert TextValue(raw, MAX_LIST_ID_LENGTH) != listId;
    }
  }

  /** A list can be addressed by its owner exactly when its id is non-empty, has no outer white
      space and fits the 240 units the endpoint reads. */
  lemma ReachableIff(store: Store, listId: Text)
    requires ListsValid(store) && listId in store.lists
    ensures Reachable(store, store.lists[listId].userId, listId) <==>
      listId != [] && |listId| <= MAX_LIST_ID_LENGTH &&
      exists raw: Value :: TextValue(raw, MAX_LIST_ID_LENGTH) == listId
  {
    hide TextValue;
    var userId := store.lists[listId].userId;
    if |listId| > MAX_LIST_ID_LENGTH {
      LongListIdIsUnreachable(store, userId, listId);
    }
    if raw: Value :| TextValue(raw, MAX_LIST_ID_LENGTH) == listId {
      if listId != [] {
        assert RequireOwnedList(store, userId, raw) == Found(store.lists[listId]);
      }
    }
  }

  /** A list just created, under a UUID of 36 units without white space, can be addressed by
      its owner exactly when the encoded user id has at most 198 units. */
  lemma CreatedListReachableIff(store: Store, userId: Text, body: Body, uuid: Text)
    requires ListsValid(store) && DoCreate(store, userId, body, uuid).1.Saved?
    requires |uuid| == 36 && !IsSpace(uuid[35])
    ensures var (next, response) := DoCreate(store, userId, body, uuid);
      && EncodeURIComponent(userId).Some?
      && response.listId in next.lists && next.lists[response.listId].userId == userId
      && (Reachable(next, userId, response.listId) <==> |EncodeURIComponent(userId).value| <= 198)
  {
    hide TextValue, EncodeURIComponent, ListsOf;
    var (next, response) := DoCreate(store, userId, body, uuid);
    var encoded := EncodeURIComponent(userId).value;
    var id := response.listId;
    assert id == [108, 105, 115, 116, COLON] + encoded + [COLON] + uuid;
    assert |id| == 42 + |encoded| && id[0] == 108 && id[|id| - 1] == uuid[35];
    ReachableIff(next, id);
    if |id| <= MAX_LIST_ID_LENGTH {
      TextValueReads(Str(id), MAX_LIST_ID_LENGTH, 0, |id|);
      assert Take(id[0..|id|], MAX_LIST_ID_LENGTH) == id;
      assert TextValue(Str(id), MAX_LIST_ID_LENGTH) == id;
    }
  }

  function Letters(n: nat): Text {
    seq(n, _ => 97)
  }

  lemma {:induction false} LettersEncode(n: nat)
    ensures EncodeURIComponent(Letters(n)) == Some(Letters(n))
  {
    LettersPoints(n);
  }

  lemma {:induction false} LettersPoints(n: nat)
    ensures Points(Letters(n)).Some? && EncodePoints(Points(Letters(n)).value) == Letters(n)
  {
    if n == 0 {
    } else {
      LettersPoints(n - 1);
      assert Letters(n)[1..] == Letters(n - 1);
      var rest := Points(Letters(n - 1)).value;
      assert ([97] + rest)[1..] == rest;
      assert Letters(n) == [97] + Letters(n - 1);
    }
  }

  /** From an empty store a user with an id of 199 letters can create a list that no request
      of theirs can address afterwards. */
  lemma LongUserIdStrandsList(body: Body, uuid: Text)
    requires TextValue(body.name, MAX_NAME_LENGTH) != [] && |uuid| == 36 && !IsSpace(uuid[35])
    ensures var (next, response) := DoCreate(Store(map[], map[]), Letters(199), body, uuid);
      && response.Saved? && response.listId in next.lists
      && next.lists[response.listId].userId == Letters(199)
      && !Reachable(next, Letters(199), response.listId)
  {
    hide TextValue, EncodeURIComponent;
    LettersEncode(199);
    EmptyStoreIsValid();
    NoListsYet(Letters(199));
    CreatedListReachableIff(Store(map[], map[]), Letters(199), body, uuid);
  }

  lemma NoListsYet(userId: Text)
    ensures |ListsOf(Store(map[], map[]), userId)| == 0
  {
  }

  // ---------------------------------------------------------------- the tables

  class WatchlistTables {
    var lists: map<Text, ListRow>
    var entries: map<Text, EntryRow>
    /** Every state the two tables have been in, oldest first. */
    ghost var history: seq<Store>

    ghost function Value(): Store
      reads this
    {
      Store(lists, entries)
    }

    constructor ()
      ensures Invariant(Value()) && Value() == Store(map[], map[]) && history == [Value()]
    {
      lists, entries := map[], map[];
      history := [Store(map[], map[])];
      EmptyStoreIsValid();
    }

    /** A write or delete the store may refuse. */
    method WriteList(row: ListRow, refused: bool)
      modifies this
      ensures lists == (if refused then old(lists) else old(lists)[row.id := row]) && entries == old(entries)
      ensures history == old(history) + [Value()]
    {
      if !refused {
        lists := lists[row.id := row];
      }
      history := history + [Store(lists, entries)];
    }

    method WriteEntry(row: EntryRow, refused: bool)
      modifies this
      ensures lists == old(lists) && entries == if refused then old(entries) else old(entries)[row.id := row]
      ensures history == old(history) + [Value()]
    {
      if !refused {
        entries := entries[row.id := row];
      }
      history := history + [Store(lists, entries)];
    }

    method DeleteListRow(id: Text, refused: bool)
      modifies this
      ensures lists == (if refused then old(lists) else old(lists) - {id}) && entries == old(entries)
      ensures history == old(history) + [Value()]
    {
      if !refused {
        lists := lists - {id};
      }
      history := history + [Store(lists, entries)];
    }

    method DeleteEntryRow(id: Text, refused: bool)
      modifies this
      ensures lists == old(lists) && entries == if refused then old(entries) else old(entries) - {id}
      ensures history == old(history) + [Value()]
    {
      if !refused {
        entries := entries - {id};
      }
      history := history + [Store(lists, entries)];
    }

    /** `deleteList`: the entries one by one, then the list. The store refuses to delete the
        entries in `broken`, and the list row if `refused`; a refusal ends the request with
        status `code` and leaves the list in place. */
    method DeleteWholeList(userId: Text, body: Body, broken: set<Text>, refused: bool, code: int)
      returns (response: Response)
      requires Invariant(Value())
      modifies this
      ensures Invariant(Value()) && OthersUntouched(old(Value()), Value(), userId)
      ensures SafeSince(old(Value()), userId, old(history), history)
      ensures var (next, done) := DoDeleteList(old(Value()), userId, body);
        if done.Status? then Value() == old(Value()) && response == done
        else if refused || broken * EntriesOf(old(Value()), done.listId) != {} then
          response == Status(code) && lists == old(lists) &&
          entries == old(entries) - (EntriesOf(old(Value()), done.listId) - broken)
        else Value() == next && response == done
    {
      hide Invariant, OthersUntouched, TextValue, SafeSince;
      ghost var before := Value();
      NothingTouched(before, userId);
      SafeStart(before, userId, history);
      var found := RequireOwnedList(Store(lists, entries), userId, ListTarget(body));
      if found.Refused? {
        return Status(found.code);
      }
      var list := found.row;
      OwnedListId(before, userId, body);
      var all := EntriesOf(Store(lists, entries), list.id);
      var ok := DeleteEntries(userId, list.id, all, broken, before);
      if !ok {
        return Status(code);
      }
      DisjointMinus(all, broken);
      ghost var emptied, earlier := Value(), history;
      DeleteListRow(list.id, refused);
      if refused {
        assert Value() == emptied;
        SafeStep(before, userId, old(history), earlier, Value());
        return Status(code);
      }
      DeleteListKeepsInvariant(before, userId, body);
      assert Value() == DoDeleteList(before, userId, body).0;
      SafeStep(before, userId, old(history), earlier, Value());
      response := ListDeleted(list.id);
    }

    /** The entries of one list, one delete at a time; every state on the way is safe. */
    method DeleteEntries(userId: Text, listId: Text, all: set<Text>, broken: set<Text>, ghost before: Store)
      returns (ok: bool)
      requires Invariant(before) && Value() == before
      requires listId in lists && lists[listId].userId == userId && all == EntriesOf(before, listId)
      modifies this
      ensures lists == before.lists && entries == before.entries - (all - broken)
      ensures Invariant(Value()) && OthersUntouched(before, Value(), userId)
      ensures ok <==> all * broken == {}
      ensures SafeSince(before, userId, old(history), history)
    {
      hide Invariant, OthersUntouched, EntriesOf, SafeSince;
      SafeStart(before, userId, history);
      var todo := all;
      ok := true;
      PartialDeleteKeepsInvariant(before, userId, listId, {});
      assert before.entries - {} == before.entries;
      assert Value() == before.(entries := before.entries - {});
      while todo != {}
        invariant todo <= all
        invariant lists == before.lists && entries == before.entries - (all - todo - broken)
        invariant Invariant(Value()) && OthersUntouched(before, Value(), userId)
        invariant ok <==> (all - todo) * broken == {}
        invariant SafeSince(before, userId, old(history), history)
        decreases |todo|
      {
        var id :| id in todo;
        ghost var earlier := history;
        DeleteEntryRow(id, id in broken);
        ok := ok && id !in broken;
        todo := todo - {id};
        assert entries == before.entries - (all - todo - broken);
        PartialDeleteKeepsInvariant(before, userId, listId, all - todo - broken);
        assert Value() == before.(entries := before.entries - (all - todo - broken));
        SafeStep(before, userId, old(history), earlier, Value());
      }
      assert all - todo == all;
    }

    /** The other five actions write at most one row. If the store refuses that write nothing
        changes and the request ends with status `code`. */
    method PostSingleWrite(request: Request, refused: bool, code: int) returns (response: Response)
      requires Invariant(Value()) && FreshUuid(Value(), request) && !request.action.DeleteList?
      modifies this
      ensures var (next, done) := Post(old(Value()), request);
        if refused && !done.Status? then Value() == old(Value()) && response == Status(code)
        else Value() == next && response == done
      ensures Invariant(Value())
      ensures forall userId :: request.userId == Some(userId) ==>
        OthersUntouched(old(Value()), Value(), userId)
      ensures history == old(history) + if Post(old(Value()), request).1.Status? then [] else [Value()]
    {
      PostKeepsInvariant(Value(), request);
      if request.userId.Some? {
        NothingTouched(Value(), request.userId.value);
      }
      hide Invariant, OthersUntouched, TextValue, PositiveInt, EntryId, FreshUuid;
      if request.userId.None? {
        return Status(401);
      }
      var userId, body := request.userId.value, request.body;
      var store := Store(lists, entries);
      var name := TextValue(body.name, MAX_NAME_LENGTH);
      if request.action.Create? {
        if name == [] || |ListsOf(store, userId)| >= MAX_LISTS_PER_USER {
          return Status(400);
        }
        var id := NewListId(userId, request.uuid);
        if id.None? {
          return Status(500);
        }
        WriteList(ListRow(id.value, userId, name), refused);
        response := Saved(id.value, name);
      } else if request.action.Rename? {
        var list := RequireOwnedList(store, userId, ListTarget(body));
        if list.Refused? {
          return Status(list.code);
        }
        if name == [] {
          return Status(400);
        }
        WriteList(list.row.(name := name), refused);
        response := Saved(list.row.id, name);
      } else if request.action.Unsupported? {
        return Status(400);
      } else {
        response := PostEntry(request, refused, code);
        return;
      }
      if refused {
        response := Status(code);
      }
    }

    method PostEntry(request: Request, refused: bool, code: int) returns (response: Response)
      requires request.userId.Some?
      requires request.action.AddEntry? || request.action.UpdateEntry? || request.action.DeleteEntry?
      modifies this
      ensures var (next, done) := Post(old(Value()), request);
        if refused && !done.Status? then Value() == old(Value()) && response == Status(code)
        else Value() == next && response == done
      ensures history == old(history) + if Post(old(Value()), request).1.Status? then [] else [Value()]
    {
      hide TextValue, PositiveInt, EntryId;
      var userId, body := request.userId.value, request.body;
      var store := Store(lists, entries);
      var list := RequireOwnedList(store, userId, body.listId);
      if list.Refused? {
        return Status(list.code);
      }
      var advisorId := TextValue(body.advisorId, MAX_ADVISOR_ID_LENGTH);
      if advisorId == [] {
        return Status(400);
      }
      var rank, note := PositiveInt(body.rank), TextValue(body.note, MAX_NOTE_LENGTH);
      if request.action.AddEntry? {
        var id := EntryId(list.row.id, advisorId);
        if id.None? {
          return Status(500);
        }
        WriteEntry(EntryRow(id.value, list.row.id, advisorId, rank, note), refused);
        return if refused then Status(code) else Saved(list.row.id, list.row.name);
      }
      var existing := RequireEntry(store, list.row.id, advisorId);
      if existing.Refused? {
        return Status(existing.code);
      }
      if request.action.UpdateEntry? {
        WriteEntry(existing.row.(rank := rank, note := note), refused);
        return if refused then Status(code) else Saved(list.row.id, list.row.name);
      }
      DeleteEntryRow(existing.row.id, refused);
      response := if refused then Status(code) else EntryDeleted(existing.row.id);
    }
  }

  lemma DisjointMinus<T>(a: set<T>, b: set<T>)
    requires a * b == {}
    ensures a - b == a
  {
    forall x | x in a ensures x !in b {
      assert x in b ==> x in a * b;
    }
  }

  /** The states added to a history since `past` keep the invariant and spare other users. */
  ghost predicate SafeSince(before: Store, userId: Text, past: seq<Store>, history: seq<Store>) {
    && |past| <= |history| && history[..|past|] == past
    && forall k :: |past| <= k < |history| ==> Invariant(history[k]) && OthersUntouched(before, history[k], userId)
  }

  lemma SafeStep(before: Store, userId: Text, past: seq<Store>, history: seq<Store>, next: Store)
    requires SafeSince(before, userId, past, history)
    requires Invariant(next) && OthersUntouched(before, next, userId)
    ensures SafeSince(before, userId, past, history + [next])
  {
    hide Invariant, OthersUntouched;
  }

  lemma SafeStart(before: Store, userId: Text, past: seq<Store>)
    ensures SafeSince(before, userId, past, past)
  {
  }

  lemma OwnedListId(store: Store, userId: Text, body: Body)
    requires Invariant(store)
    ensures var list := RequireOwnedList(store, userId, ListTarget(body));
      list.Found? ==>
        list.row.id in store.lists && store.lists[list.row.id] == list.row && list.row.userId == userId
  {
    hide TextValue, EntryId;
  }
}
