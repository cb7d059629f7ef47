/** Sums over the recruiting rollups: what the rows of a page add up to
    (src/harper/resource-recruiting-market-helpers.ts, src/harper/resource-recruiting-watchlist.ts). */
module MarketTotals {
  import opened Sequences
  import opened StableSort
  import opened InsertionMaps
  import opened FirmMomentum

  function Plus(a: Summary, b: Summary): Summary {
    Summary(
      a.count + b.count, a.knownAum + b.knownAum, a.unknownAum + b.unknownAum, a.missingT12 + b.missingT12)
  }

  function Minus(a: Summary, b: Summary): Summary {
    Summary(
      a.count - b.count, a.knownAum - b.knownAum, a.unknownAum - b.unknownAum, a.missingT12 - b.missingT12)
  }

  lemma PlusLaws(a: Summary, b: Summary, c: Summary)
    ensures Plus(Plus(a, b), c) == Plus(a, Plus(b, c))
    ensures Plus(a, EMPTY) == a && Plus(EMPTY, a) == a
    ensures Plus(a, Minus(b, a)) == b
  {
  }

  lemma SwapLaw(a: Summary, b: Summary, c: Summary, d: Summary)
    ensures Plus(Plus(a, b), Plus(c, d)) == Plus(Plus(a, c), Plus(b, d))
  {
  }

  lemma NetLaw(v: Summary, x: Summary, y: Summary, a: Summary, b: Summary)
    ensures Plus(Minus(Plus(v, x), y), Minus(a, b)) == Plus(v, Minus(Plus(x, a), Plus(y, b)))
  {
  }

  lemma ReplaceLaw(v: Summary, gone: Summary, one: Summary, rest: Summary)
    ensures Plus(Plus(Minus(v, gone), Plus(gone, one)), rest) == Plus(v, Plus(one, rest))
  {
  }

  function One(move: Move): Summary {
    AddToSummary(EMPTY, move)
  }

  lemma AddIsPlus(summary: Summary, move: Move)
    ensures AddToSummary(summary, move) == Plus(summary, One(move))
  {
  }

  function Total<T>(xs: seq<T>, f: T -> Summary): Summary {
    if xs == [] then EMPTY else Plus(f(xs[0]), Total(xs[1..], f))
  }

  lemma {:induction false} TotalConcat<T>(xs: seq<T>, ys: seq<T>, f: T -> Summary)
    ensures Total(xs + ys, f) == Plus(Total(xs, f), Total(ys, f))
  {
    if xs == [] {
      assert xs + ys == ys;
    } else {
      assert (xs + ys)[1..] == xs[1..] + ys;
      TotalConcat(xs[1..], ys, f);
    }
  }

  lemma TotalInsert<T>(less: (T, T) -> bool, xs: seq<T>, x: T, f: T -> Summary)
    ensures Total(Insert(less, xs, x), f) == Plus(Total(xs, f), f(x))
  {
    hide Position, Insert, Plus;
    var i := Position(less, xs, x);
    InsertIsSplice(less, xs, x);
    assert xs == xs[..i] + xs[i..] && [x][1..] == [];
    TotalConcat(xs[..i], xs[i..], f);
    TotalConcat(xs[..i] + [x], xs[i..], f);
    TotalConcat(xs[..i], [x], f);
    PlusLaws(f(x), EMPTY, EMPTY);
    SwapLaw(Total(xs[..i], f), f(x), Total(xs[i..], f), EMPTY);
    PlusLaws(Total(xs[i..], f), EMPTY, EMPTY);
  }

  lemma {:induction false} TotalInsertAll<T>(less: (T, T) -> bool, acc: seq<T>, xs: seq<T>, f: T -> Summary)
    ensures Total(InsertAll(less, acc, xs), f) == Plus(Total(acc, f), Total(xs, f))
    decreases xs
  {
    hide Insert, Plus;
    if xs == [] {
      PlusLaws(Total(acc, f), EMPTY, EMPTY);
    } else {
      TotalInsert(less, acc, xs[0], f);
      TotalInsertAll(less, Insert(less, acc, xs[0]), xs[1..], f);
      PlusLaws(Total(acc, f), f(xs[0]), Total(xs[1..], f));
    }
  }

  lemma {:induction false} FoldAdds(start: Summary, moves: seq<Move>)
    ensures FoldSummary(start, moves) == Plus(start, SummarizeMoves(moves))
    decreases moves
  {
    hide Plus, AddToSummary, One;
    if moves == [] {
      PlusLaws(start, EMPTY, EMPTY);
    } else {
      FoldAdds(AddToSummary(start, moves[0]), moves[1..]);
      AddIsPlus(start, moves[0]);
      PlusLaws(start, One(moves[0]), SummarizeMoves(moves[1..]));
      SummarizeCons(moves);
    }
  }

  lemma {:induction false} SummarizeCons(moves: seq<Move>)
    requires moves != []
    ensures SummarizeMoves(moves) == Plus(One(moves[0]), SummarizeMoves(moves[1..]))
    decreases moves, 0
  {
    hide Plus, AddToSummary;
    FoldAdds(One(moves[0]), moves[1..]);
  }

  function ValueTotal<V>(m: seq<Entry<string, V>>, f: V -> Summary): Summary {
    if m == [] then EMPTY else Plus(f(m[0].value), ValueTotal(m[1..], f))
  }

  lemma {:induction false} PutTotal<V>(m: seq<Entry<string, V>>, key: string, value: V, f: V -> Summary)
    ensures var previous := Lookup(m, key);
      ValueTotal(Put(m, key, value), f) ==
        Plus(Minus(ValueTotal(m, f), if previous.Some? then f(previous.value) else EMPTY), f(value))
  {
    if m != [] && m[0].key != key {
      PutTotal(m[1..], key, value, f);
      assert Put(m, key, value)[1..] == Put(m[1..], key, value);
    }
  }

  // ---------------------------------------------------------------- nets over all firms

  function Net(account: Account): Summary {
    Minus(account.inbound, account.outbound)
  }

  /** Sums of the net columns of a momentum table. */
  function NetColumns(rows: seq<MomentumRow>): (int, real) {
    if rows == [] then (0, 0.0)
    else
      var rest := NetColumns(rows[1..]);
      (rows[0].netMoveCount + rest.0, rows[0].netKnownAum + rest.1)
  }

  /** The moves with a firm on the given side. */
  function MovesWithFirm(side: Side, moves: seq<Move>): seq<Move> {
    Filter(moves, (move: Move) => FirmOn(side, move).Some?)
  }

  lemma FoldOneNet(byFirm: seq<Entry<string, Account>>, side: Side, move: Move)
    ensures var change := if FirmOn(side, move).Some? then One(move) else EMPTY;
      ValueTotal(FoldFirmMove(byFirm, side, move), Net) ==
        if side.Inbound? then Plus(ValueTotal(byFirm, Net), change) else Minus(ValueTotal(byFirm, Net), change)
  {
    hide ValueTotal, Lookup, Put;
    var firm := FirmOn(side, move);
    if firm.Some? {
      var previous := Lookup(byFirm, firm.value.id);
      PutTotal(byFirm, firm.value.id, Advance(previous, firm.value, side, move), Net);
    }
  }

  lemma SummarizeFiltered(moves: seq<Move>, p: Move -> bool)
    requires moves != []
    ensures SummarizeMoves(Filter(moves, p)) ==
      Plus(if p(moves[0]) then One(moves[0]) else EMPTY, SummarizeMoves(Filter(moves[1..], p)))
  {
    hide Plus, One, AddToSummary, FoldSummary;
    var rest := Filter(moves[1..], p);
    if p(moves[0]) {
      assert Filter(moves, p) == [moves[0]] + rest;
      SummarizeCons([moves[0]] + rest);
    } else {
      PlusLaws(SummarizeMoves(rest), EMPTY, EMPTY);
    }
  }

  lemma {:induction false} FoldNets(byFirm: seq<Entry<string, Account>>, moves: seq<Move>)
    ensures ValueTotal(FoldMoves(byFirm, moves), Net) ==
      Plus(ValueTotal(byFirm, Net),
           Minus(SummarizeMoves(MovesWithFirm(Inbound, moves)), SummarizeMoves(MovesWithFirm(Outbound, moves))))
    decreases moves
  {
    hide ValueTotal, FoldFirmMove, FirmOn, AddToSummary, Plus, Minus, SummarizeMoves, Net;
    if moves == [] {
      NothingNets(ValueTotal(byFirm, Net));
    } else {
      var arrived := FoldFirmMove(byFirm, Inbound, moves[0]);
      FoldOneNet(byFirm, Inbound, moves[0]);
      FoldOneNet(arrived, Outbound, moves[0]);
      SummarizeFiltered(moves, (move: Move) => FirmOn(Inbound, move).Some?);
      SummarizeFiltered(moves, (move: Move) => FirmOn(Outbound, move).Some?);
      FoldNets(FoldFirmMove(arrived, Outbound, moves[0]), moves[1..]);
      NetLaw(ValueTotal(byFirm, Net),
        if FirmOn(Inbound, moves[0]).Some? then One(moves[0]) else EMPTY,
        if FirmOn(Outbound, moves[0]).Some? then One(moves[0]) else EMPTY,
        SummarizeMoves(MovesWithFirm(Inbound, moves[1..])), SummarizeMoves(MovesWithFirm(Outbound, moves[1..])));
    }
  }

  lemma NothingNets(v: Summary)
    ensures Plus(v, Minus(SummarizeMoves([]), SummarizeMoves([]))) == v
  {
  }

  function RowNet(row: MomentumRow): Summary {
    Net(row.account)
  }

  ghost predicate NetsMatch(row: MomentumRow) {
    row.netMoveCount == RowNet(row).count && row.netKnownAum == RowNet(row).knownAum
  }

  lemma {:induction false} NetColumnsAreTotals(rows: seq<MomentumRow>)
    requires forall k :: 0 <= k < |rows| ==> NetsMatch(rows[k])
    ensures NetColumns(rows) == (Total(rows, RowNet).count, Total(rows, RowNet).knownAum)
  {
    if rows == [] {
    } else {
      NetColumnsAreTotals(rows[1..]);
    }
  }

  lemma {:induction false} RefreshKeepsTotal(refresh: string -> Option<Firm>, rows: seq<MomentumRow>)
    ensures Total(Map(rows, (row: MomentumRow) => Refreshed(refresh, row)), RowNet) == Total(rows, RowNet)
  {
    if rows == [] {
    } else {
      RefreshKeepsTotal(refresh, rows[1..]);
      var shown := Map(rows, (row: MomentumRow) => Refreshed(refresh, row));
      assert shown[1..] == Map(rows[1..], (row: MomentumRow) => Refreshed(refresh, row));
    }
  }

  lemma {:induction false} RowsKeepTotal(byFirm: seq<Entry<string, Account>>)
    ensures Total(Rows(byFirm), RowNet) == ValueTotal(byFirm, Net)
  {
    if byFirm == [] {
    } else {
      RowsKeepTotal(byFirm[1..]);
      assert Rows(byFirm)[1..] == Rows(byFirm[1..]);
    }
  }

  /** The net columns add up to the moves that arrive somewhere minus the moves that leave
      somewhere. */
  lemma NetsAddUp(refresh: string -> Option<Firm>, moves: seq<Move>)
    ensures var arrivals := SummarizeMoves(MovesWithFirm(Inbound, moves));
      var departures := SummarizeMoves(MovesWithFirm(Outbound, moves));
      NetColumns(Momentum(refresh, moves)) ==
        (arrivals.count - departures.count, arrivals.knownAum - departures.knownAum)
  {
    hide FoldMoves, SummarizeMoves, MovesWithFirm, Sort, NetColumns, Total, ValueTotal;
    var rows := Rows(FoldMoves([], moves));
    var sorted := Sort(MORE_NET_AUM, rows);
    SortPermutes(MORE_NET_AUM, rows);
    forall k | 0 <= k < |sorted| ensures NetsMatch(Refreshed(refresh, sorted[k])) {
      MembersOfPermutation(sorted, rows, sorted[k]);
    }
    NetColumnsAreTotals(Momentum(refresh, moves));
    RefreshKeepsTotal(refresh, sorted);
    SortKeepsTotal(MORE_NET_AUM, rows, RowNet);
    RowsKeepTotal(FoldMoves([], moves));
    FoldNets([], moves);
    NoneIsEmpty();
  }

  lemma NoneIsEmpty()
    ensures ValueTotal([], Net) == EMPTY
  {
  }

  lemma SortKeepsTotal<T>(less: (T, T) -> bool, xs: seq<T>, f: T -> Summary)
    ensures Total(Sort(less, xs), f) == Total(xs, f)
  {
    TotalInsertAll(less, [], xs, f);
  }

  /** When every move has a firm on both sides, what some firms win others lose. */
  lemma NetsCancel(refresh: string -> Option<Firm>, moves: seq<Move>)
    requires forall k :: 0 <= k < |moves| ==>
      FirmOn(Inbound, moves[k]).Some? && FirmOn(Outbound, moves[k]).Some?
    ensures NetColumns(Momentum(refresh, moves)) == (0, 0.0)
  {
    hide FirmOn, SummarizeMoves, Momentum, NetColumns;
    NetsAddUp(refresh, moves);
    FilterAll(moves, (move: Move) => FirmOn(Inbound, move).Some?);
    FilterAll(moves, (move: Move) => FirmOn(Outbound, move).Some?);
    assert MovesWithFirm(Inbound, moves) == moves == MovesWithFirm(Outbound, moves);
  }

  // ---------------------------------------------------------------- market activity

  datatype Market = Market(
    market: string, city: Option<string>, state: Option<string>, summary: Summary, moveIds: seq<string>)

  function MarketOf(move: Move): string {
    move.location.place.GetOr("Unknown market")
  }

  function EmptyMarket(move: Move): Market {
    Market(MarketOf(move), move.location.city, move.location.state, EMPTY, [])
  }

  function Join(previous: Option<Market>, move: Move): Market {
    var market := previous.GetOr(EmptyMarket(move));
    market.(summary := AddToSummary(market.summary, move), moveIds := market.moveIds + [move.id])
  }

  function FoldMarkets(acc: seq<Entry<string, Market>>, moves: seq<Move>): seq<Entry<string, Market>>
    decreases moves
  {
    if moves == [] then acc
    else
      var key := MarketOf(moves[0]);
      FoldMarkets(Put(acc, key, Join(Lookup(acc, key), moves[0])), moves[1..])
  }

  const BUSIER: (Market, Market) -> bool :=
    (a: Market, b: Market) =>
      a.summary.knownAum > b.summary.knownAum ||
      (a.summary.knownAum == b.summary.knownAum && a.summary.count > b.summary.count)

  function Values<V>(m: seq<Entry<string, V>>): seq<V> {
    Map(m, (e: Entry<string, V>) => e.value)
  }

  function MarketActivity(moves: seq<Move>): seq<Market> {
    Sort(BUSIER, Values(FoldMarkets([], moves)))
  }

  function MovesIn(moves: seq<Move>, market: string): seq<Move> {
    Filter(moves, move => MarketOf(move) == market)
  }

  ghost function MarketAfter(previous: Option<Market>, moves: seq<Move>, key: string): Option<Market>
    decreases moves
  {
    if moves == [] then previous
    else MarketAfter(if MarketOf(moves[0]) == key then Some(Join(previous, moves[0])) else previous, moves[1..], key)
  }

  lemma {:induction false} FoldByMarket(acc: seq<Entry<string, Market>>, moves: seq<Move>, key: string)
    ensures Lookup(FoldMarkets(acc, moves), key) == MarketAfter(Lookup(acc, key), moves, key)
    decreases moves
  {
    hide Lookup, Put, Join;
    if moves == [] {
    } else {
      var own := MarketOf(moves[0]);
      var joined := Join(Lookup(acc, own), moves[0]);
      PutLookup(acc, own, joined, key);
      FoldByMarket(Put(acc, own, joined), moves[1..], key);
    }
  }

  ghost function MarketFold(start: Market, mine: seq<Move>): Market {
    start.(summary := FoldSummary(start.summary, mine), moveIds := start.moveIds + MoveIds(mine))
  }

  lemma FoldNothing(start: Market)
    ensures MarketFold(start, []) == start
  {
    assert start.moveIds + MoveIds([]) == start.moveIds;
  }

  lemma FoldOneMore(start: Market, move: Move, rest: seq<Move>)
    ensures MarketFold(start, [move] + rest) == MarketFold(Join(Some(start), move), rest)
  {
    hide AddToSummary, FoldSummary, MoveIds;
    SummaryOneMore(start.summary, move, rest);
    IdsOneMore(start.moveIds, move, rest);
  }

  lemma SummaryOneMore(start: Summary, move: Move, rest: seq<Move>)
    ensures FoldSummary(start, [move] + rest) == FoldSummary(AddToSummary(start, move), rest)
  {
    hide AddToSummary;
    assert ([move] + rest)[1..] == rest;
  }

  lemma IdsOneMore(ids: seq<string>, move: Move, rest: seq<Move>)
    ensures ids + MoveIds([move] + rest) == ids + [move.id] + MoveIds(rest)
  {
    assert MoveIds([move] + rest) == [move.id] + MoveIds(rest);
  }

  lemma JoinStarts(move: Move)
    ensures Join(None, move) == Join(Some(EmptyMarket(move)), move)
  {
  }

  lemma MovesInHead(moves: seq<Move>, key: string)
    requires moves != []
    ensures MovesIn(moves, key) ==
      (if MarketOf(moves[0]) == key then [moves[0]] else []) + MovesIn(moves[1..], key)
  {
    hide MarketOf;
  }

  lemma {:induction false} ExistingMarket(previous: Market, moves: seq<Move>, key: string)
    ensures MarketAfter(Some(previous), moves, key) == Some(MarketFold(previous, MovesIn(moves, key)))
    decreases moves
  {
    hide MarketFold, MarketOf, Join, MovesIn;
    if moves == [] {
      NoMovesIn(key);
      FoldNothing(previous);
    } else {
      var rest := MovesIn(moves[1..], key);
      MovesInHead(moves, key);
      if MarketOf(moves[0]) == key {
        FoldOneMore(previous, moves[0], rest);
        ExistingMarket(Join(Some(previous), moves[0]), moves[1..], key);
      } else {
        assert [] + rest == rest;
        ExistingMarket(previous, moves[1..], key);
      }
    }
  }

  lemma NoMovesIn(key: string)
    ensures MovesIn([], key) == []
  {
  }

  lemma {:induction false} MarketIsFilterThenFold(moves: seq<Move>, key: string)
    ensures var mine := MovesIn(moves, key);
      MarketAfter(None, moves, key) == if mine == [] then None else Some(MarketFold(EmptyMarket(mine[0]), mine))
  {
    hide MarketFold, MarketOf, Join, MovesIn, EmptyMarket;
    if moves == [] {
      NoMovesIn(key);
    } else {
      var rest := MovesIn(moves[1..], key);
      MovesInHead(moves, key);
      if MarketOf(moves[0]) == key {
        JoinStarts(moves[0]);
        FoldOneMore(EmptyMarket(moves[0]), moves[0], rest);
        ExistingMarket(Join(None, moves[0]), moves[1..], key);
      } else {
        assert [] + rest == rest;
        MarketIsFilterThenFold(moves[1..], key);
      }
    }
  }

  lemma {:induction false} MarketKeys(acc: seq<Entry<string, Market>>, moves: seq<Move>)
    requires DistinctKeys(acc)
    ensures DistinctKeys(FoldMarkets(acc, moves))
    decreases moves
  {
    hide DistinctKeys, Put, Lookup;
    if moves == [] {
    } else {
      var key := MarketOf(moves[0]);
      PutKeys(acc, key, Join(Lookup(acc, key), moves[0]));
      MarketKeys(Put(acc, key, Join(Lookup(acc, key), moves[0])), moves[1..]);
    }
  }

  lemma MarketEntry(moves: seq<Move>, e: nat)
    requires e < |FoldMarkets([], moves)|
    ensures var entry := FoldMarkets([], moves)[e];
      var mine := MovesIn(moves, entry.key);
      && mine != []
      && entry.value == EmptyMarket(mine[0]).(summary := SummarizeMoves(mine), moveIds := MoveIds(mine))
      && entry.value.market == entry.key
  {
    hide Lookup, FoldSummary, MarketOf, MarketAfter;
    var entry := FoldMarkets([], moves)[e];
    var mine := MovesIn(moves, entry.key);
    MarketKeys([], moves);
    EntryIsLookup(FoldMarkets([], moves), e);
    FoldByMarket([], moves, entry.key);
    NoMarketYet(entry.key);
    MarketIsFilterThenFold(moves, entry.key);
    assert [] + MoveIds(mine) == MoveIds(mine);
    if mine != [] {
      FilterMembers(moves, move => MarketOf(move) == entry.key, mine[0]);
    }
  }

  lemma NoMarketYet(key: string)
    ensures Lookup<string, Market>([], key).None?
  {
  }

  /** Each market row is the plain summary of the moves in that market. */
  lemma MarketRowIsItsMoves(moves: seq<Move>, k: nat)
    requires k < |MarketActivity(moves)|
    ensures var row := MarketActivity(moves)[k];
      var mine := MovesIn(moves, row.market);
      && mine != []
      && row == Market(
           row.market, mine[0].location.city, mine[0].location.state, SummarizeMoves(mine), MoveIds(mine))
  {
    hide Sort, FoldMarkets, FoldSummary;
    var rows := Values(FoldMarkets([], moves));
    var sorted := MarketActivity(moves);
    SortPermutes(BUSIER, rows);
    MembersOfPermutation(sorted, rows, sorted[k]);
    var e: nat :| e < |rows| && rows[e] == sorted[k];
    MarketEntry(moves, e);
  }

  lemma ActivityIsSorted(moves: seq<Move>)
    ensures var rows := MarketActivity(moves);
      forall i, j :: 0 <= i < j < |rows| ==>
        || rows[i].summary.knownAum > rows[j].summary.knownAum
        || (rows[i].summary.knownAum == rows[j].summary.knownAum &&
            rows[i].summary.count >= rows[j].summary.count)
  {
    hide Sort, FoldMarkets;
    SortSorts(BUSIER, Values(FoldMarkets([], moves)));
  }

  /** Every market with a move has exactly one row; rows come by descending known AUM, then
      by descending number of moves. */
  lemma MarketsListedOnce(moves: seq<Move>, market: string)
    ensures var rows := MarketActivity(moves);
      && (forall i, j :: 0 <= i < j < |rows| ==>
            || rows[i].summary.knownAum > rows[j].summary.knownAum
            || (rows[i].summary.knownAum == rows[j].summary.knownAum &&
                rows[i].summary.count >= rows[j].summary.count))
      && (forall i, j :: 0 <= i < j < |rows| ==> rows[i].market != rows[j].market)
      && ((exists k :: 0 <= k < |rows| && rows[k].market == market) <==> MovesIn(moves, market) != [])
  {
    hide Sort, FoldMarkets, MovesIn, Lookup, FoldSummary, MarketAfter;
    var folded := FoldMarkets([], moves);
    var rows := Values(folded);
    var sorted := MarketActivity(moves);
    SortPermutes(BUSIER, rows);
    ActivityIsSorted(moves);
    forall e: nat | e < |folded| ensures rows[e].market == folded[e].key {
      MarketEntry(moves, e);
    }
    MarketKeys([], moves);
    DistinctKeysSurvive(rows, sorted, (row: Market) => row.market);
    if k :| 0 <= k < |sorted| && sorted[k].market == market {
      MarketRowIsItsMoves(moves, k);
    } else if MovesIn(moves, market) != [] {
      FoldByMarket([], moves, market);
      NoMarketYet(market);
      MarketIsFilterThenFold(moves, market);
      LookupNone(folded, market);
      var e: nat :| e < |folded| && folded[e].key == market;
      MembersOfPermutation(rows, sorted, rows[e]);
      assert false;
    }
  }

  lemma {:induction false} ValuesKeepTotal<V>(m: seq<Entry<string, V>>, f: V -> Summary)
    ensures Total(Values(m), f) == ValueTotal(m, f)
  {
    if m == [] {
    } else {
      ValuesKeepTotal(m[1..], f);
      assert Values(m)[1..] == Values(m[1..]);
    }
  }

  function SummaryOf(row: Market): Summary {
    row.summary
  }

  lemma {:induction false} FoldMarketTotals(acc: seq<Entry<string, Market>>, moves: seq<Move>)
    ensures ValueTotal(FoldMarkets(acc, moves), SummaryOf) ==
      Plus(ValueTotal(acc, SummaryOf), SummarizeMoves(moves))
    decreases moves
  {
    hide ValueTotal, Lookup, Put, Plus, Minus, FoldSummary, One;
    if moves == [] {
      PlusLaws(ValueTotal(acc, SummaryOf), EMPTY, EMPTY);
      NothingSummed();
    } else {
      var key := MarketOf(moves[0]);
      var previous := Lookup(acc, key);
      var joined := Join(previous, moves[0]);
      var gone := if previous.Some? then previous.value.summary else EMPTY;
      PutTotal(acc, key, joined, SummaryOf);
      AddIsPlus(gone, moves[0]);
      SummarizeCons(moves);
      FoldMarketTotals(Put(acc, key, joined), moves[1..]);
      ReplaceLaw(ValueTotal(acc, SummaryOf), gone, One(moves[0]), SummarizeMoves(moves[1..]));
    }
  }

  lemma NothingSummed()
    ensures SummarizeMoves([]) == EMPTY
  {
  }

  /** The market rows add up to the dashboard total: no move is lost or counted twice. */
  lemma MarketsAddUp(moves: seq<Move>)
    ensures Total(MarketActivity(moves), SummaryOf) == SummarizeMoves(moves)
  {
    hide FoldMarkets, ValueTotal, Total, Sort, SummarizeMoves;
    SortKeepsTotal(BUSIER, Values(FoldMarkets([], moves)), SummaryOf);
    ValuesKeepTotal(FoldMarkets([], moves), SummaryOf);
    FoldMarketTotals([], moves);
    NothingYet();
  }

  lemma NothingYet()
    ensures ValueTotal([], SummaryOf) == EMPTY
  {
  }

  // ---------------------------------------------------------------- watchlist totals

  /** `summarizeWatchlistSide` over the items of the resolved firms, in request order. */
  function WatchlistSide(side: Side, moves: seq<Move>, watched: seq<string>): Summary {
    Total(watched, firmId => SummarizeMoves(MovesOf(side, moves, firmId)))
  }

  function MovesOfAny(side: Side, moves: seq<Move>, watched: seq<string>): seq<Move> {
    Filter(moves, move => FirmOn(side, move).Some? && FirmOn(side, move).value.id in watched)
  }

  lemma {:induction false} DisjointFilters(
    moves: seq<Move>, p: Move -> bool, q: Move -> bool, both: Move -> bool)
    requires forall k :: 0 <= k < |moves| ==>
      (both(moves[k]) <==> p(moves[k]) || q(moves[k])) && !(p(moves[k]) && q(moves[k]))
    ensures SummarizeMoves(Filter(moves, both)) ==
      Plus(SummarizeMoves(Filter(moves, p)), SummarizeMoves(Filter(moves, q)))
  {
    hide Plus, SummarizeMoves, One;
    if moves == [] {
      NothingSummed();
      PlusLaws(EMPTY, EMPTY, EMPTY);
    } else {
      var x := if p(moves[0]) then One(moves[0]) else EMPTY;
      var y := if q(moves[0]) then One(moves[0]) else EMPTY;
      DisjointFilters(moves[1..], p, q, both);
      SummarizeFiltered(moves, p);
      SummarizeFiltered(moves, q);
      SummarizeFiltered(moves, both);
      PlusLaws(One(moves[0]), EMPTY, EMPTY);
      PlusLaws(EMPTY, EMPTY, EMPTY);
      SwapLaw(x, y, SummarizeMoves(Filter(moves[1..], p)), SummarizeMoves(Filter(moves[1..], q)));
    }
  }

  lemma WatchlistCons(side: Side, moves: seq<Move>, watched: seq<string>)
    requires watched != []
    ensures WatchlistSide(side, moves, watched) ==
      Plus(SummarizeMoves(MovesOf(side, moves, watched[0])), WatchlistSide(side, moves, watched[1..]))
  {
    hide Plus, SummarizeMoves, MovesOf;
  }

  /** Over distinct firms the watchlist totals count every move once. */
  lemma {:induction false} DistinctWatchlistCountsOnce(side: Side, moves: seq<Move>, watched: seq<string>)
    requires Distinct(watched)
    ensures WatchlistSide(side, moves, watched) == SummarizeMoves(MovesOfAny(side, moves, watched))
  {
    hide Plus, SummarizeMoves, FirmOn;
    if watched == [] {
      FilterNone(moves, move => FirmOn(side, move).Some? && FirmOn(side, move).value.id in watched);
      NothingSummed();
    } else {
      var head, rest := watched[0], watched[1..];
      WatchlistCons(side, moves, watched);
      DistinctWatchlistCountsOnce(side, moves, rest);
      DisjointFilters(
        moves,
        move => Touches(side, move, head),
        move => FirmOn(side, move).Some? && FirmOn(side, move).value.id in rest,
        move => FirmOn(side, move).Some? && FirmOn(side, move).value.id in watched);
    }
  }

  /** A single arrival at one firm. */
  function Arrival(firmId: string): Move {
    Move("move", Some(Firm(firmId, "firm")), None, Missing, Missing, Location(None, None, None))
  }

  lemma {:induction false} CountIsLength(moves: seq<Move>)
    ensures SummarizeMoves(moves).count == |moves|
  {
    hide FoldSummary;
    if moves == [] {
      NothingSummed();
    } else {
      SummarizeCons(moves);
      CountIsLength(moves[1..]);
    }
  }

  lemma ArrivalsAt(firmId: string, other: string)
    requires firmId != ""
    ensures |MovesOf(Inbound, [Arrival(firmId)], other)| == if other == firmId then 1 else 0
  {
    var arrival := [Arrival(firmId)];
    assert arrival[1..] == [];
  }

  lemma {:induction false} WatchedTimes(firmId: string, watched: seq<string>)
    requires firmId != ""
    ensures WatchlistSide(Inbound, [Arrival(firmId)], watched).count == multiset(watched)[firmId]
  {
    hide SummarizeMoves, MovesOf, WatchlistSide;
    var arrival := [Arrival(firmId)];
    if watched == [] {
      NobodyWatched(arrival);
    } else {
      WatchedTimes(firmId, watched[1..]);
      WatchlistCons(Inbound, arrival, watched);
      assert watched == [watched[0]] + watched[1..];
      ArrivalsAt(firmId, watched[0]);
      CountIsLength(MovesOf(Inbound, arrival, watched[0]));
    }
  }

  lemma NobodyWatched(moves: seq<Move>)
    ensures WatchlistSide(Inbound, moves, []) == EMPTY
  {
  }

  /** The totals are right for every set of moves exactly when no firm is watched twice; the
      request parsing does not remove repeats. */
  lemma WatchlistTotalsIff(watched: seq<string>)
    requires forall k :: 0 <= k < |watched| ==> watched[k] != ""
    ensures (forall moves ::
               WatchlistSide(Inbound, moves, watched) == SummarizeMoves(MovesOfAny(Inbound, moves, watched)))
      <==> Distinct(watched)
  {
    hide SummarizeMoves, WatchlistSide, MovesOfAny;
    if Distinct(watched) {
      forall moves
        ensures WatchlistSide(Inbound, moves, watched) == SummarizeMoves(MovesOfAny(Inbound, moves, watched))
      {
        DistinctWatchlistCountsOnce(Inbound, moves, watched);
      }
    } else {
      var i, j :| 0 <= i < j < |watched| && watched[i] == watched[j];
      assert watched == watched[..i] + [watched[i]] + watched[i + 1..j] + [watched[j]] + watched[j + 1..];
      WatchedTimes(watched[i], watched);
      OneArrival(watched[i], watched);
    }
  }

  lemma OneArrival(firmId: string, watched: seq<string>)
    ensures SummarizeMoves(MovesOfAny(Inbound, [Arrival(firmId)], watched)).count <= 1
  {
    CountIsLength(MovesOfAny(Inbound, [Arrival(firmId)], watched));
  }
}
