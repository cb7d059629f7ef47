/** What the recruiting figures are sums and counts of, apart from the folds that compute them
    (src/harper/resource-recruiting-market-helpers.ts, src/harper/resource-recruiting-watchlist.ts). */
module RecruitingSums {
  import opened Sequences
  import opened StableSort
  import opened FirmMomentum
  import opened MarketTotals

  function Sum(amounts: seq<real>): real {
    if amounts == [] then 0.0 else amounts[0] + Sum(amounts[1..])
  }

  function KnownAums(moves: seq<Move>): seq<real> {
    Map(
      Filter(moves, (move: Move) => move.aum.Known?),
      (move: Move) => if move.aum.Known? then move.aum.amount else 0.0)
  }

  /** How many moves there are, the sum of their known AUMs, and how many have no known AUM and
      no known T-12. */
  ghost predicate Sums(summary: Summary, moves: seq<Move>) {
    && summary.count == |moves|
    && summary.knownAum == Sum(KnownAums(moves))
    && summary.unknownAum == |Filter(moves, (move: Move) => !move.aum.Known?)|
    && summary.missingT12 == |Filter(moves, (move: Move) => !move.t12.Known?)|
  }

  lemma KnownAumsStep(moves: seq<Move>)
    requires moves != []
    ensures Sum(KnownAums(moves)) ==
      (if moves[0].aum.Known? then moves[0].aum.amount else 0.0) + Sum(KnownAums(moves[1..]))
  {
    hide Filter;
    var known := (move: Move) => move.aum.Known?;
    FilterStep(moves, known);
    if known(moves[0]) {
      assert Filter(moves, known)[1..] == Filter(moves[1..], known);
      assert KnownAums(moves)[1..] == KnownAums(moves[1..]);
    } else {
      assert Filter(moves, known) == Filter(moves[1..], known);
    }
  }

  /** A summary is the count of its moves, the sum of their known AUMs and the counts of the
      moves that lack a figure. */
  lemma {:induction false} SummaryIsSums(moves: seq<Move>)
    ensures Sums(SummarizeMoves(moves), moves)
  {
    hide Filter, KnownAums, FoldSummary;
    if moves == [] {
      NothingSummed();
      NoMoves();
    } else {
      SummaryIsSums(moves[1..]);
      SummarizeCons(moves);
      KnownAumsStep(moves);
      FilterStep(moves, (move: Move) => !move.aum.Known?);
      FilterStep(moves, (move: Move) => !move.t12.Known?);
    }
  }

  lemma NoMoves()
    ensures Sums(Summary(0, 0.0, 0, 0), [])
  {
  }

  /** The moves to a firm and the moves away from it. */
  function Arrivals(moves: seq<Move>, firmId: string): seq<Move> {
    Filter(moves, (move: Move) => move.toFirm.Some? && move.toFirm.value.id == firmId)
  }

  function Departures(moves: seq<Move>, firmId: string): seq<Move> {
    Filter(moves, (move: Move) => move.fromFirm.Some? && move.fromFirm.value.id == firmId)
  }

  lemma SidesOfFirm(moves: seq<Move>, firmId: string)
    requires firmId != ""
    ensures MovesOf(Inbound, moves, firmId) == Arrivals(moves, firmId)
    ensures MovesOf(Outbound, moves, firmId) == Departures(moves, firmId)
  {
    FilterAgrees(moves, (move: Move) => Touches(Inbound, move, firmId),
      (move: Move) => move.toFirm.Some? && move.toFirm.value.id == firmId);
    FilterAgrees(moves, (move: Move) => Touches(Outbound, move, firmId),
      (move: Move) => move.fromFirm.Some? && move.fromFirm.value.id == firmId);
  }

  /** A watchlist item shows the figures of the moves to its firm and away from it, and the
      differences of their counts and known AUMs. */
  lemma WatchlistItemIsSums(moves: seq<Move>, firm: Firm)
    requires firm.id != ""
    ensures var item := WatchlistItem(moves, firm);
      var arrivals, departures := Arrivals(moves, firm.id), Departures(moves, firm.id);
      && item.account.firm == firm
      && Sums(item.account.inbound, arrivals) && Sums(item.account.outbound, departures)
      && item.netMoveCount == |arrivals| - |departures|
      && item.netKnownAum == Sum(KnownAums(arrivals)) - Sum(KnownAums(departures))
      && item.account.moveIds == MoveIds(arrivals) + MoveIds(departures)
  {
    hide FoldSummary, Filter, KnownAums, Arrivals, Departures, MovesOf;
    SidesOfFirm(moves, firm.id);
    SummaryIsSums(Arrivals(moves, firm.id));
    SummaryIsSums(Departures(moves, firm.id));
    IdsConcat(Arrivals(moves, firm.id), Departures(moves, firm.id));
  }

  /** A momentum row shows the figures of the moves to its firm and away from it. */
  lemma MomentumRowIsSums(refresh: string -> Option<Firm>, moves: seq<Move>, k: nat)
    requires KeepsIds(refresh) && k < |Momentum(refresh, moves)|
    ensures var row := Momentum(refresh, moves)[k];
      var arrivals, departures := Arrivals(moves, row.account.firm.id), Departures(moves, row.account.firm.id);
      && row.account.firm.id != ""
      && Sums(row.account.inbound, arrivals) && Sums(row.account.outbound, departures)
      && row.netMoveCount == |arrivals| - |departures|
      && row.netKnownAum == Sum(KnownAums(arrivals)) - Sum(KnownAums(departures))
  {
    hide Momentum, WatchlistItem, Sums, Arrivals, Departures, FirstChip, KeepsIds, CollectedIds;
    var row := Momentum(refresh, moves)[k];
    MomentumRowIsWatchlistItem(refresh, moves, k);
    ChipHasId(moves, row.account.firm.id);
    WatchlistItemIsSums(moves, row.account.firm);
  }

  /** The moves of one market; a move without a place label counts for the unknown market. */
  function MovesToMarket(moves: seq<Move>, market: string): seq<Move> {
    Filter(moves, (move: Move) =>
      if move.location.place.Some? then move.location.place.value == market else market == "Unknown market")
  }

  /** A market row shows the figures and ids of the moves in that market, under the city and
      state of the first of them. */
  lemma MarketRowIsSums(moves: seq<Move>, k: nat)
    requires k < |MarketActivity(moves)|
    ensures var row := MarketActivity(moves)[k];
      var mine := MovesToMarket(moves, row.market);
      && mine != [] && Sums(row.summary, mine) && row.moveIds == MoveIds(mine)
      && row.city == mine[0].location.city && row.state == mine[0].location.state
  {
    hide MarketActivity, Sums, Filter;
    var row := MarketActivity(moves)[k];
    MarketRowIsItsMoves(moves, k);
    FilterAgrees(moves, (move: Move) => MarketOf(move) == row.market, (move: Move) =>
      if move.location.place.Some? then move.location.place.value == row.market
      else row.market == "Unknown market");
    SummaryIsSums(MovesIn(moves, row.market));
  }

  /** Over distinct firm ids the watchlist totals are the figures of all moves to one of the
      firms and of all moves away from one. */
  lemma WatchlistTotalsAreSums(moves: seq<Move>, watched: seq<string>)
    requires Distinct(watched) && "" !in watched
    ensures Sums(WatchlistSide(Inbound, moves, watched),
      Filter(moves, (move: Move) => move.toFirm.Some? && move.toFirm.value.id in watched))
    ensures Sums(WatchlistSide(Outbound, moves, watched),
      Filter(moves, (move: Move) => move.fromFirm.Some? && move.fromFirm.value.id in watched))
  {
    hide Sums, WatchlistSide, Distinct;
    DistinctWatchlistCountsOnce(Inbound, moves, watched);
    DistinctWatchlistCountsOnce(Outbound, moves, watched);
    SummaryIsSums(MovesOfAny(Inbound, moves, watched));
    SummaryIsSums(MovesOfAny(Outbound, moves, watched));
    FilterAgrees(moves, (move: Move) => FirmOn(Inbound, move).Some? && FirmOn(Inbound, move).value.id in watched,
      (move: Move) => move.toFirm.Some? && move.toFirm.value.id in watched);
    FilterAgrees(moves, (move: Move) => FirmOn(Outbound, move).Some? && FirmOn(Outbound, move).value.id in watched,
      (move: Move) => move.fromFirm.Some? && move.fromFirm.value.id in watched);
  }
}
