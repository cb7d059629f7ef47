/** Recruiting totals: grouped folds over moves against the filter-then-fold of the watchlist
    (src/harper/resource-recruiting-market-helpers.ts, src/harper/resource-recruiting-watchlist.ts). */
module FirmMomentum {
  import opened Sequences
  import opened StableSort
  import opened InsertionMaps

  /** A figure as stored: absent (null, undefined or the empty string), not a finite number,
      or a number. */
  datatype Figure = Missing | Unreadable | Known(amount: real)

  datatype Firm = Firm(id: string, name: string)

  datatype Location = Location(place: Option<string>, city: Option<string>, state: Option<string>)

  datatype Move = Move(
    id: string, toFirm: Option<Firm>, fromFirm: Option<Firm>, aum: Figure, t12: Figure, location: Location)

  datatype Summary = Summary(count: int, knownAum: real, unknownAum: int, missingT12: int)

  const EMPTY := Summary(0, 0.0, 0, 0)

  function AddToSummary(summary: Summary, move: Move): Summary {
    Summary(
      summary.count + 1,
      summary.knownAum + (if move.aum.Known? then move.aum.amount else 0.0),
      summary.unknownAum + (if move.aum.Known? then 0 else 1),
      summary.missingT12 + (if move.t12.Known? then 0 else 1))
  }

  function FoldSummary(summary: Summary, moves: seq<Move>): Summary
    decreases moves
  {
    if moves == [] then summary else FoldSummary(AddToSummary(summary, moves[0]), moves[1..])
  }

  function SummarizeMoves(moves: seq<Move>): Summary {
    FoldSummary(EMPTY, moves)
  }

  datatype Side = Inbound | Outbound

  /** The firm on one side of a move; a firm without an id does not count. */
  function FirmOn(side: Side, move: Move): Option<Firm> {
    var firm := if side.Inbound? then move.toFirm else move.fromFirm;
    if firm.Some? && firm.value.id != "" then firm else None
  }

  predicate Touches(side: Side, move: Move, firmId: string) {
    FirmOn(side, move).Some? && FirmOn(side, move).value.id == firmId
  }

  // ---------------------------------------------------------------- the grouped fold

  datatype Account = Account(firm: Firm, inbound: Summary, outbound: Summary, moveIds: seq<string>)

  function FoldFirmMove(byFirm: seq<Entry<string, Account>>, side: Side, move: Move)
    : seq<Entry<string, Account>>
  {
    var firm := FirmOn(side, move);
    if firm.None? then byFirm
    else Put(byFirm, firm.value.id, Advance(Lookup(byFirm, firm.value.id), firm.value, side, move))
  }

  function Advance(previous: Option<Account>, firm: Firm, side: Side, move: Move): Account {
    var account := previous.GetOr(Account(firm, EMPTY, EMPTY, []));
    match side
    case Inbound =>
      account.(inbound := AddToSummary(account.inbound, move), moveIds := account.moveIds + [move.id])
    case Outbound =>
      account.(outbound := AddToSummary(account.outbound, move), moveIds := account.moveIds + [move.id])
  }

  function FoldMoves(byFirm: seq<Entry<string, Account>>, moves: seq<Move>): seq<Entry<string, Account>>
    decreases moves
  {
    if moves == [] then byFirm
    else FoldMoves(FoldFirmMove(FoldFirmMove(byFirm, Inbound, moves[0]), Outbound, moves[0]), moves[1..])
  }

  datatype MomentumRow = MomentumRow(account: Account, netMoveCount: int, netKnownAum: real)

  function ToRow(account: Account): MomentumRow {
    MomentumRow(
      account,
      account.inbound.count - account.outbound.count,
      account.inbound.knownAum - account.outbound.knownAum)
  }

  const MORE_NET_AUM: (MomentumRow, MomentumRow) -> bool :=
    (a: MomentumRow, b: MomentumRow) => a.netKnownAum > b.netKnownAum

  function Rows(byFirm: seq<Entry<string, Account>>): seq<MomentumRow> {
    Map(byFirm, (e: Entry<string, Account>) => ToRow(e.value))
  }

  /** `refresh` is the index lookup that renders the current chip of a firm, when it has one. */
  function Momentum(refresh: string -> Option<Firm>, moves: seq<Move>): seq<MomentumRow> {
    Map(Sort(MORE_NET_AUM, Rows(FoldMoves([], moves))), (row: MomentumRow) => Refreshed(refresh, row))
  }

  function Refreshed(refresh: string -> Option<Firm>, row: MomentumRow): MomentumRow {
    row.(account := row.account.(firm := refresh(row.account.firm.id).GetOr(row.account.firm)))
  }

  // ---------------------------------------------------------------- the watchlist

  function MovesOf(side: Side, moves: seq<Move>, firmId: string): seq<Move> {
    Filter(moves, move => Touches(side, move, firmId))
  }

  function MoveIds(moves: seq<Move>): seq<string> {
    Map(moves, (move: Move) => move.id)
  }

  /** The figures of `watchlistItem` for a resolved firm. */
  function WatchlistItem(moves: seq<Move>, firm: Firm): MomentumRow {
    var inbound, outbound := MovesOf(Inbound, moves, firm.id), MovesOf(Outbound, moves, firm.id);
    var totals := Account(
      firm, SummarizeMoves(inbound), SummarizeMoves(outbound), MoveIds(inbound + outbound));
    ToRow(totals)
  }

  // ---------------------------------------------------------------- fold against filter

  function IdsIf(side: Side, move: Move, firmId: string): seq<string> {
    if Touches(side, move, firmId) then [move.id] else []
  }

  /** The ids a firm's account collects: per move, once for each side it is on. */
  function CollectedIds(moves: seq<Move>, firmId: string): seq<string> {
    if moves == [] then []
    else IdsIf(Inbound, moves[0], firmId) + IdsIf(Outbound, moves[0], firmId) + CollectedIds(moves[1..], firmId)
  }

  /** The firm as its first move names it. */
  function FirstChip(moves: seq<Move>, firmId: string): Option<Firm> {
    if moves == [] then None
    else if Touches(Inbound, moves[0], firmId) then FirmOn(Inbound, moves[0])
    else if Touches(Outbound, moves[0], firmId) then FirmOn(Outbound, moves[0])
    else FirstChip(moves[1..], firmId)
  }

  ghost function Advanced(previous: Option<Account>, side: Side, move: Move, firmId: string)
    : Option<Account>
  {
    if Touches(side, move, firmId) then Some(Advance(previous, FirmOn(side, move).value, side, move))
    else previous
  }

  /** What the fold does to the account of one firm. */
  ghost function AccountAfter(previous: Option<Account>, moves: seq<Move>, firmId: string): Option<Account>
    decreases moves
  {
    if moves == [] then previous
    else
      AccountAfter(
        Advanced(Advanced(previous, Inbound, moves[0], firmId), Outbound, moves[0], firmId),
        moves[1..], firmId)
  }

  lemma FoldedOnce(byFirm: seq<Entry<string, Account>>, side: Side, move: Move, firmId: string)
    ensures Lookup(FoldFirmMove(byFirm, side, move), firmId) ==
      Advanced(Lookup(byFirm, firmId), side, move, firmId)
  {
    hide Lookup, Put, Advance;
    var firm := FirmOn(side, move);
    if firm.Some? {
      PutLookup(
        byFirm, firm.value.id, Advance(Lookup(byFirm, firm.value.id), firm.value, side, move), firmId);
    }
  }

  lemma {:induction false} FoldByFirm(byFirm: seq<Entry<string, Account>>, moves: seq<Move>, firmId: string)
    ensures Lookup(FoldMoves(byFirm, moves), firmId) == AccountAfter(Lookup(byFirm, firmId), moves, firmId)
    decreases moves
  {
    hide Lookup, FoldFirmMove, Advanced;
    if moves == [] {
    } else {
      var arrived := FoldFirmMove(byFirm, Inbound, moves[0]);
      FoldedOnce(byFirm, Inbound, moves[0], firmId);
      FoldedOnce(arrived, Outbound, moves[0], firmId);
      FoldByFirm(FoldFirmMove(arrived, Outbound, moves[0]), moves[1..], firmId);
    }
  }

  lemma FoldOneMove(start: Summary, side: Side, moves: seq<Move>, firmId: string)
    requires moves != []
    ensures FoldSummary(start, MovesOf(side, moves, firmId)) ==
      FoldSummary(
        if Touches(side, moves[0], firmId) then AddToSummary(start, moves[0]) else start,
        MovesOf(side, moves[1..], firmId))
  {
    hide Touches, AddToSummary;
    var rest := MovesOf(side, moves[1..], firmId);
    if Touches(side, moves[0], firmId) {
      assert MovesOf(side, moves, firmId) == [moves[0]] + rest;
    } else {
      assert MovesOf(side, moves, firmId) == rest;
    }
  }

  lemma AdvancedBothSides(previous: Account, move: Move, firmId: string)
    ensures Advanced(Advanced(Some(previous), Inbound, move, firmId), Outbound, move, firmId) ==
      Some(Account(
        previous.firm,
        if Touches(Inbound, move, firmId) then AddToSummary(previous.inbound, move) else previous.inbound,
        if Touches(Outbound, move, firmId) then AddToSummary(previous.outbound, move) else previous.outbound,
        previous.moveIds + IdsIf(Inbound, move, firmId) + IdsIf(Outbound, move, firmId)))
  {
    hide AddToSummary, Touches;
    var ids := previous.moveIds;
    assert ids + [] == ids && ids + [move.id] + [] == ids + [move.id];
  }

  lemma {:induction false} ExistingAccount(previous: Account, moves: seq<Move>, firmId: string)
    ensures AccountAfter(Some(previous), moves, firmId) == Some(Account(
      previous.firm,
      FoldSummary(previous.inbound, MovesOf(Inbound, moves, firmId)),
      FoldSummary(previous.outbound, MovesOf(Outbound, moves, firmId)),
      previous.moveIds + CollectedIds(moves, firmId)))
    decreases moves
  {
    hide FirmOn, AddToSummary, Touches, Advanced, MovesOf, IdsIf;
    if moves == [] {
      NoMovesFold(previous, firmId);
    } else {
      FoldOneMove(previous.inbound, Inbound, moves, firmId);
      FoldOneMove(previous.outbound, Outbound, moves, firmId);
      AdvancedBothSides(previous, moves[0], firmId);
      var next := Advanced(Advanced(Some(previous), Inbound, moves[0], firmId), Outbound, moves[0], firmId);
      ExistingAccount(next.value, moves[1..], firmId);
      var ids, more := IdsIf(Inbound, moves[0], firmId), IdsIf(Outbound, moves[0], firmId);
      assert previous.moveIds + (ids + more + CollectedIds(moves[1..], firmId)) ==
        previous.moveIds + ids + more + CollectedIds(moves[1..], firmId);
    }
  }

  lemma NoMovesFold(previous: Account, firmId: string)
    ensures MovesOf(Inbound, [], firmId) == [] == MovesOf(Outbound, [], firmId)
    ensures previous.moveIds + CollectedIds([], firmId) == previous.moveIds
  {
  }

  lemma {:induction false} AccountIsFilterThenFold(moves: seq<Move>, firmId: string)
    ensures AccountAfter(None, moves, firmId) ==
      if FirstChip(moves, firmId).None? then None
      else Some(Account(
        FirstChip(moves, firmId).value,
        SummarizeMoves(MovesOf(Inbound, moves, firmId)),
        SummarizeMoves(MovesOf(Outbound, moves, firmId)),
        CollectedIds(moves, firmId)))
  {
    hide AddToSummary, FoldSummary;
    if moves == [] {
    } else {
      var first := FirstChip(moves, firmId);
      var next := Advanced(Advanced(None, Inbound, moves[0], firmId), Outbound, moves[0], firmId);
      if next.None? {
        FoldOneMove(EMPTY, Inbound, moves, firmId);
        FoldOneMove(EMPTY, Outbound, moves, firmId);
        AccountIsFilterThenFold(moves[1..], firmId);
        assert CollectedIds(moves, firmId) == CollectedIds(moves[1..], firmId);
      } else {
        StartedAccount(moves, firmId);
      }
    }
  }

  lemma StartedAccount(moves: seq<Move>, firmId: string)
    requires moves != [] && (Touches(Inbound, moves[0], firmId) || Touches(Outbound, moves[0], firmId))
    ensures FirstChip(moves, firmId).Some?
    ensures AccountAfter(None, moves, firmId) ==
      AccountAfter(Some(Account(FirstChip(moves, firmId).value, EMPTY, EMPTY, [])), moves, firmId)
    ensures AccountAfter(None, moves, firmId) == Some(Account(
      FirstChip(moves, firmId).value,
      SummarizeMoves(MovesOf(Inbound, moves, firmId)),
      SummarizeMoves(MovesOf(Outbound, moves, firmId)),
      CollectedIds(moves, firmId)))
  {
    hide AddToSummary, FoldSummary, MovesOf, CollectedIds;
    var start := Account(FirstChip(moves, firmId).value, EMPTY, EMPTY, []);
    ExistingAccount(start, moves, firmId);
    assert [] + CollectedIds(moves, firmId) == CollectedIds(moves, firmId);
    assert Advanced(Advanced(None, Inbound, moves[0], firmId), Outbound, moves[0], firmId) ==
      Advanced(Advanced(Some(start), Inbound, moves[0], firmId), Outbound, moves[0], firmId);
  }

  /** One firm's account after the grouped fold is the fold of the filtered moves, taken in
      the same order. */
  lemma FoldIsFilterThenFold(moves: seq<Move>, firmId: string)
    ensures Lookup(FoldMoves([], moves), firmId) ==
      if FirstChip(moves, firmId).None? then None
      else Some(Account(
        FirstChip(moves, firmId).value,
        SummarizeMoves(MovesOf(Inbound, moves, firmId)),
        SummarizeMoves(MovesOf(Outbound, moves, firmId)),
        CollectedIds(moves, firmId)))
  {
    hide FoldMoves, AccountAfter, FirstChip, FoldSummary, MovesOf, CollectedIds;
    FoldByFirm([], moves, firmId);
    AccountIsFilterThenFold(moves, firmId);
  }

  lemma IdsOfOneMore(side: Side, moves: seq<Move>, firmId: string)
    requires moves != []
    ensures MoveIds(MovesOf(side, moves, firmId)) ==
      IdsIf(side, moves[0], firmId) + MoveIds(MovesOf(side, moves[1..], firmId))
  {
    hide Touches;
    var rest := MovesOf(side, moves[1..], firmId);
    if Touches(side, moves[0], firmId) {
      assert MovesOf(side, moves, firmId) == [moves[0]] + rest;
    } else {
      assert MovesOf(side, moves, firmId) == rest;
    }
  }

  lemma IdsConcat(a: seq<Move>, b: seq<Move>)
    ensures MoveIds(a + b) == MoveIds(a) + MoveIds(b)
  {
  }

  lemma NoIds(side: Side, firmId: string)
    ensures MoveIds(MovesOf(side, [], firmId)) == []
  {
  }

  lemma Interleaved<T>(a: seq<T>, b: seq<T>, rest: seq<T>, c: seq<T>, d: seq<T>)
    requires multiset(rest) == multiset(c) + multiset(d)
    ensures multiset(a + b + rest) == multiset(a + c) + multiset(b + d)
  {
  }

  lemma {:induction false} CollectedBothSides(moves: seq<Move>, firmId: string)
    ensures multiset(CollectedIds(moves, firmId)) ==
      multiset(MoveIds(MovesOf(Inbound, moves, firmId))) + multiset(MoveIds(MovesOf(Outbound, moves, firmId)))
  {
    hide MovesOf, MoveIds, IdsIf;
    if moves == [] {
      NoIds(Inbound, firmId);
      NoIds(Outbound, firmId);
    } else {
      CollectedBothSides(moves[1..], firmId);
      IdsOfOneMore(Inbound, moves, firmId);
      IdsOfOneMore(Outbound, moves, firmId);
      Interleaved(
        IdsIf(Inbound, moves[0], firmId), IdsIf(Outbound, moves[0], firmId), CollectedIds(moves[1..], firmId),
        MoveIds(MovesOf(Inbound, moves[1..], firmId)), MoveIds(MovesOf(Outbound, moves[1..], firmId)));
    }
  }

  lemma CollectedPermutes(moves: seq<Move>, firmId: string)
    ensures multiset(CollectedIds(moves, firmId)) ==
      multiset(MoveIds(MovesOf(Inbound, moves, firmId) + MovesOf(Outbound, moves, firmId)))
  {
    hide MovesOf, MoveIds, CollectedIds;
    CollectedBothSides(moves, firmId);
    IdsConcat(MovesOf(Inbound, moves, firmId), MovesOf(Outbound, moves, firmId));
  }

  lemma {:induction false} FoldKeepsKeys(byFirm: seq<Entry<string, Account>>, moves: seq<Move>)
    requires DistinctKeys(byFirm)
    ensures DistinctKeys(FoldMoves(byFirm, moves))
    decreases moves
  {
    hide DistinctKeys, Put, Lookup, Advance, FirmOn;
    if moves == [] {
    } else {
      var arrived := FoldFirmMove(byFirm, Inbound, moves[0]);
      FoldOneKeepsKeys(byFirm, Inbound, moves[0]);
      FoldOneKeepsKeys(arrived, Outbound, moves[0]);
      FoldKeepsKeys(FoldFirmMove(arrived, Outbound, moves[0]), moves[1..]);
    }
  }

  lemma FoldOneKeepsKeys(byFirm: seq<Entry<string, Account>>, side: Side, move: Move)
    requires DistinctKeys(byFirm)
    ensures DistinctKeys(FoldFirmMove(byFirm, side, move))
  {
    hide DistinctKeys, Put, Lookup, Advance, FirmOn;
    var firm := FirmOn(side, move);
    if firm.Some? {
      PutKeys(
        byFirm, firm.value.id, Advance(Lookup(byFirm, firm.value.id), firm.value, side, move));
    }
  }

  lemma {:induction false} ChipHasId(moves: seq<Move>, firmId: string)
    ensures FirstChip(moves, firmId).Some? ==>
      FirstChip(moves, firmId).value.id == firmId && firmId != ""
    ensures FirstChip(moves, firmId).Some? <==>
      exists k, side :: 0 <= k < |moves| && Touches(side, moves[k], firmId)
  {
    hide FirmOn;
    if moves == [] {
    } else {
      ChipHasId(moves[1..], firmId);
      NonEmptyId(moves[0], firmId);
      if k, side :| 0 <= k < |moves| && Touches(side, moves[k], firmId) {
        if k > 0 {
          assert moves[1..][k - 1] == moves[k];
        } else {
          assert side.Inbound? || side.Outbound?;
        }
      }
    }
  }

  lemma NonEmptyId(move: Move, firmId: string)
    ensures forall side :: Touches(side, move, firmId) ==> firmId != ""
  {
  }

  ghost predicate KeepsIds(refresh: string -> Option<Firm>) {
    forall id :: refresh(id).Some? ==> refresh(id).value.id == id
  }

  /** The row of one firm, before sorting: its watchlist figures under its first chip. */
  lemma RowOfFirm(moves: seq<Move>, e: nat)
    requires e < |FoldMoves([], moves)|
    ensures var entry := FoldMoves([], moves)[e];
      var item := WatchlistItem(moves, entry.value.firm);
      && entry.value.firm.id == entry.key && FirstChip(moves, entry.key) == Some(entry.value.firm)
      && ToRow(entry.value) ==
           item.(account := item.account.(moveIds := CollectedIds(moves, entry.key)))
  {
    hide Lookup, FoldMoves, FoldSummary, MovesOf, CollectedIds, FirstChip;
    var entry := FoldMoves([], moves)[e];
    FoldKeepsKeys([], moves);
    EntryIsLookup(FoldMoves([], moves), e);
    FoldIsFilterThenFold(moves, entry.key);
    ChipHasId(moves, entry.key);
  }

  /** Each momentum row shows what a watchlist item for that firm shows, with the same move
      ids in another order. */
  lemma MomentumRowIsWatchlistItem(refresh: string -> Option<Firm>, moves: seq<Move>, k: nat)
    requires KeepsIds(refresh) && k < |Momentum(refresh, moves)|
    ensures var row := Momentum(refresh, moves)[k];
      var item := WatchlistItem(moves, row.account.firm);
      && row == item.(account := item.account.(moveIds := row.account.moveIds))
      && row.account.moveIds == CollectedIds(moves, row.account.firm.id)
      && multiset(row.account.moveIds) == multiset(item.account.moveIds)
      && FirstChip(moves, row.account.firm.id).Some?
  {
    hide FoldMoves, FoldSummary, MovesOf, CollectedIds, FirstChip, Sort;
    var rows := Rows(FoldMoves([], moves));
    var sorted := Sort(MORE_NET_AUM, rows);
    SortPermutes(MORE_NET_AUM, rows);
    MembersOfPermutation(sorted, rows, sorted[k]);
    var e: nat :| e < |rows| && rows[e] == sorted[k];
    RowOfFirm(moves, e);
    CollectedPermutes(moves, sorted[k].account.firm.id);
  }

  lemma RowIdsDiffer(refresh: string -> Option<Firm>, moves: seq<Move>, i: nat, j: nat)
    requires KeepsIds(refresh) && i < j < |Momentum(refresh, moves)|
    ensures Momentum(refresh, moves)[i].account.firm.id != Momentum(refresh, moves)[j].account.firm.id
  {
    hide FoldMoves, Sort;
    var folded := FoldMoves([], moves);
    var sorted := Sort(MORE_NET_AUM, Rows(folded));
    var id := (row: MomentumRow) => row.account.firm.id;
    FoldKeepsKeys([], moves);
    forall a: nat, b: nat | a < b < |folded| ensures id(Rows(folded)[a]) != id(Rows(folded)[b]) {
      RowOfFirm(moves, a);
      RowOfFirm(moves, b);
    }
    SortPermutes(MORE_NET_AUM, Rows(folded));
    DistinctKeysSurvive(Rows(folded), sorted, id);
    assert id(sorted[i]) != id(sorted[j]);
  }

  lemma MomentumSorted(refresh: string -> Option<Firm>, moves: seq<Move>)
    ensures var rows := Momentum(refresh, moves);
      && (forall i, j :: 0 <= i < j < |rows| ==> rows[i].netKnownAum >= rows[j].netKnownAum)
      && |rows| == |FoldMoves([], moves)|
  {
    hide FoldMoves, Sort;
    SortSorts(MORE_NET_AUM, Rows(FoldMoves([], moves)));
  }

  lemma MomentumListsTouched(refresh: string -> Option<Firm>, moves: seq<Move>, firmId: string)
    requires KeepsIds(refresh)
    ensures var rows := Momentum(refresh, moves);
      (exists k :: 0 <= k < |rows| && rows[k].account.firm.id == firmId) <==>
        exists k, side :: 0 <= k < |moves| && Touches(side, moves[k], firmId)
  {
    hide FoldMoves, FoldSummary, MovesOf, CollectedIds, FirstChip, Sort, Touches, Lookup;
    var folded := FoldMoves([], moves);
    var rows := Rows(folded);
    var sorted := Sort(MORE_NET_AUM, rows);
    var shown := Momentum(refresh, moves);
    SortPermutes(MORE_NET_AUM, rows);
    ChipHasId(moves, firmId);
    FoldIsFilterThenFold(moves, firmId);
    LookupNone(folded, firmId);
    if k :| 0 <= k < |shown| && shown[k].account.firm.id == firmId {
      MomentumRowIsWatchlistItem(refresh, moves, k);
    }
    if FirstChip(moves, firmId).Some? {
      var e: nat :| e < |folded| && folded[e].key == firmId;
      RowOfFirm(moves, e);
      MembersOfPermutation(rows, sorted, rows[e]);
      var k :| 0 <= k < |sorted| && sorted[k] == rows[e];
      assert shown[k].account.firm.id == firmId;
    }
  }

  /** Every firm on either side of a move has exactly one row, and rows come by descending
      net AUM. */
  lemma MomentumListsEveryFirmOnce(
    refresh: string -> Option<Firm>, moves: seq<Move>, firmId: string)
    requires KeepsIds(refresh)
    ensures var rows := Momentum(refresh, moves);
      && (forall i, j :: 0 <= i < j < |rows| ==> rows[i].netKnownAum >= rows[j].netKnownAum)
      && (forall i, j :: 0 <= i < j < |rows| ==> rows[i].account.firm.id != rows[j].account.firm.id)
      && |rows| == |FoldMoves([], moves)|
      && ((exists k :: 0 <= k < |rows| && rows[k].account.firm.id == firmId) <==>
            exists k, side :: 0 <= k < |moves| && Touches(side, moves[k], firmId))
  {
    hide KeepsIds, Momentum, FoldMoves, Touches;
    MomentumSorted(refresh, moves);
    forall i, j | 0 <= i < j < |Momentum(refresh, moves)|
      ensures Momentum(refresh, moves)[i].account.firm.id != Momentum(refresh, moves)[j].account.firm.id
    {
      RowIdsDiffer(refresh, moves, i, j);
    }
    MomentumListsTouched(refresh, moves, firmId);
  }
}
