/** When a watchlist request succeeds, what it then writes, and with which status it is refused
    otherwise (src/harper/resource-user-watchlists.ts): read off the request and the two
    tables. */
module WatchlistOutcomes {
  import opened Sequences
  import opened Texts
  import opened UriComponent
  import opened Watchlists

  /** The id names a list of the user. */
  ghost predicate Owns(store: Store, userId: Text, listId: Text) {
    listId != [] && listId in store.lists && store.lists[listId].userId == userId
  }

  /** Some stored entry is the pair's. */
  ghost predicate PairStored(store: Store, listId: Text, advisorId: Text) {
    exists id :: id in store.entries && store.entries[id].listId == listId &&
                 store.entries[id].advisorId == advisorId
  }

  lemma PairStoredIffFound(store: Store, listId: Text, advisorId: Text)
    requires EntriesValid(store)
    ensures PairStored(store, listId, advisorId) <==> RequireEntry(store, listId, advisorId).Found?
    ensures RequireEntry(store, listId, advisorId).Refused? ==>
      RequireEntry(store, listId, advisorId).code ==
        if WellFormed(listId) && WellFormed(advisorId) then 404 else 500
  {
    hide EncodeURIComponent, WellFormed;
    EncodesIff(listId);
    EncodesIff(advisorId);
    EntryFoundIffStored(store, listId, advisorId);
  }

  /** The entry id of a pair: both parts percent-encoded, with a colon between them. */
  lemma EntryIdSpells(listId: Text, advisorId: Text)
    ensures EntryId(listId, advisorId).Some? <==> WellFormed(listId) && WellFormed(advisorId)
    ensures EntryId(listId, advisorId).Some? ==>
      exists l, a :: EntryId(listId, advisorId).value == l + [58] + a && 58 !in l && 58 !in a &&
        DecodeURIComponent(l) == Some(listId) && DecodeURIComponent(a) == Some(advisorId)
  {
    hide EncodeURIComponent, WellFormed, DecodeURIComponent;
    EncodesIff(listId);
    EncodesIff(advisorId);
    if EntryId(listId, advisorId).Some? {
      var l, a := EncodeURIComponent(listId).value, EncodeURIComponent(advisorId).value;
      EncodeIsColonFree(listId);
      EncodeIsColonFree(advisorId);
      DecodeUndoesEncode(listId);
      DecodeUndoesEncode(advisorId);
      assert EntryId(listId, advisorId).value == l + [58] + a;
    }
  }

  /** Without a signed-in user, and for an unknown action, nothing is written. */
  lemma RefusedOutright(store: Store, request: Request)
    ensures request.userId.None? ==> Post(store, request) == (store, Status(401))
    ensures request.userId.Some? && request.action.Unsupported? ==> Post(store, request) == (store, Status(400))
  {
  }

  /** A list is created exactly for a name that is not blank, below the cap of 50, and a user id
      that encodes; the table gains one row, under an id made of the user and the UUID. */
  lemma CreateOutcome(store: Store, request: Request)
    requires request.userId.Some? && request.action.Create?
    ensures var (next, response) := Post(store, request);
      var userId, name := request.userId.value, TextValue(request.body.name, 120);
      var owned := set id | id in store.lists && store.lists[id].userId == userId;
      && (response.Saved? <==> name != [] && |owned| < 50 && WellFormed(userId))
      && (response.Saved? ==>
            exists u, id :: id == [108, 105, 115, 116, 58] + u + [58] + request.uuid &&
              DecodeURIComponent(u) == Some(userId) && response == Saved(id, name) &&
              next == store.(lists := store.lists[id := ListRow(id, userId, name)]))
      && (!response.Saved? ==>
            next == store && response == Status(if name == [] || |owned| >= 50 then 400 else 500))
  {
    hide EncodeURIComponent, WellFormed, DecodeURIComponent, TextValue;
    var userId := request.userId.value;
    EncodesIff(userId);
    if Post(store, request).1.Saved? {
      DecodeUndoesEncode(userId);
      var u, id := EncodeURIComponent(userId).value, Post(store, request).1.listId;
      assert id == [108, 105, 115, 116, 58] + u + [58] + request.uuid;
    }
  }

  /** The id a rename or a deletion of a list is about: `listId`, or `id` when that is absent. */
  ghost function TargetId(body: Body): Text {
    TextValue(if body.listId == Absent then body.id else body.listId, 240)
  }

  /** A rename succeeds exactly for a list of the user and a name that is not blank, and changes
      that list's name alone. */
  lemma RenameOutcome(store: Store, request: Request)
    requires Invariant(store) && request.userId.Some? && request.action.Rename?
    ensures var (next, response) := Post(store, request);
      var userId, name := request.userId.value, TextValue(request.body.name, 120);
      var listId := TargetId(request.body);
      && (response.Saved? <==> Owns(store, userId, listId) && name != [])
      && (response.Saved? ==>
            response == Saved(listId, name) &&
            next == store.(lists := store.lists[listId := ListRow(listId, userId, name)]))
      && (!response.Saved? ==>
            next == store &&
            response == Status(if listId != [] && !Owns(store, userId, listId) then 404 else 400))
  {
    hide TextValue, EntriesValid, WithinCap;
  }

  /** Deleting a list succeeds exactly for a list of the user. What it removes:
      `DeletedListRemovesItsPairs`. */
  lemma DeleteListOutcome(store: Store, request: Request)
    requires Invariant(store) && request.userId.Some? && request.action.DeleteList?
    ensures var (next, response) := Post(store, request);
      var userId, listId := request.userId.value, TargetId(request.body);
      && (response.ListDeleted? <==> Owns(store, userId, listId))
      && (response.ListDeleted? ==> response == ListDeleted(listId))
      && (!response.ListDeleted? ==> next == store && response == Status(if listId == [] then 400 else 404))
  {
    hide TextValue, EntriesValid, WithinCap;
  }

  /** An entry is added exactly when the list is the user's, an advisor is named and both ids
      encode, whether or not the pair is stored. What is then stored: `SavedEntryChangesItsPair`. */
  lemma AddEntryOutcome(store: Store, request: Request)
    requires Invariant(store) && request.userId.Some? && request.action.AddEntry?
    ensures var (next, response) := Post(store, request);
      var userId, listId := request.userId.value, TextValue(request.body.listId, 240);
      var advisorId := TextValue(request.body.advisorId, 200);
      && (response.Saved? <==>
            Owns(store, userId, listId) && advisorId != [] && WellFormed(listId) && WellFormed(advisorId))
      && (response.Saved? ==> response == Saved(listId, store.lists[listId].name) && next.lists == store.lists)
      && (response.Saved? ==> PairStored(next, listId, advisorId))
      && (!response.Saved? ==>
            next == store &&
            response == Status(
              if listId == [] then 400 else if !Owns(store, userId, listId) then 404
              else if advisorId == [] then 400 else 500))
  {
    hide TextValue, PositiveInt, EntriesValid, WithinCap, WellFormed, EntryId;
    var listId := TextValue(request.body.listId, 240);
    var advisorId := TextValue(request.body.advisorId, 200);
    EntryIdSpells(listId, advisorId);
    var (next, response) := Post(store, request);
    if response.Saved? {
      var id := EntryId(listId, advisorId).value;
      assert id in next.entries && next.entries[id].listId == listId;
    }
  }

  /** How an update or a deletion of an entry is refused. */
  ghost function EntryRefusal(store: Store, userId: Text, listId: Text, advisorId: Text): int {
    if listId == [] then 400 else if !Owns(store, userId, listId) then 404
    else if advisorId == [] then 400
    else if WellFormed(listId) && WellFormed(advisorId) then 404 else 500
  }

  /** An entry is updated exactly when the list is the user's and the pair is stored. */
  lemma UpdateEntryOutcome(store: Store, request: Request)
    requires Invariant(store) && request.userId.Some? && request.action.UpdateEntry?
    ensures var (next, response) := Post(store, request);
      var userId, listId := request.userId.value, TextValue(request.body.listId, 240);
      var advisorId := TextValue(request.body.advisorId, 200);
      && (response.Saved? <==>
            Owns(store, userId, listId) && advisorId != [] && PairStored(store, listId, advisorId))
      && (response.Saved? ==> response == Saved(listId, store.lists[listId].name) && next.lists == store.lists)
      && (!response.Saved? ==>
            next == store && response == Status(EntryRefusal(store, userId, listId, advisorId)))
  {
    hide TextValue, PositiveInt, WithinCap, WellFormed, RequireEntry, PairStored, EntriesValid;
    PairStoredIffFound(
      store, TextValue(request.body.listId, 240), TextValue(request.body.advisorId, 200));
  }

  /** An entry is deleted exactly when the list is the user's and the pair is stored. */
  lemma DeleteEntryOutcome(store: Store, request: Request)
    requires Invariant(store) && request.userId.Some? && request.action.DeleteEntry?
    ensures var (next, response) := Post(store, request);
      var userId, listId := request.userId.value, TextValue(request.body.listId, 240);
      var advisorId := TextValue(request.body.advisorId, 200);
      && (response.EntryDeleted? <==>
            Owns(store, userId, listId) && advisorId != [] && PairStored(store, listId, advisorId))
      && next.lists == store.lists
      && (!response.EntryDeleted? ==>
            next == store && response == Status(EntryRefusal(store, userId, listId, advisorId)))
  {
    hide TextValue, PositiveInt, WithinCap, WellFormed, RequireEntry, PairStored, EntriesValid;
    PairStoredIffFound(
      store, TextValue(request.body.listId, 240), TextValue(request.body.advisorId, 200));
  }
}
