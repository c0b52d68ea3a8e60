/**
 The refresh worker's rows (internal/scanner/scanner.go, runRefresh and
 mapGammaToMarket): what a Gamma answer becomes, and how token IDs survive it.
 */
module Refresh {
  import opened Wrappers
  import opened Models
  import opened MarketTable
  import opened BookMerge

  /**
   A Gamma market; dates are given as parsed, None if absent or malformed, and
   the token list as its first two entries, None if it has fewer.
   */
  datatype Gamma = Gamma(
    slug: string, id: string, conditionId: string, question: string, outcomes: string,
    startDate: Option<int>, endDate: Option<int>,
    enableOrderBook: bool, acceptingOrders: bool, ready: bool, funded: bool, active: bool, closed: bool,
    orderMinSize: real, orderPriceMinTickSize: real, bestBid: real, bestAsk: real, lastTradePrice: real,
    volumeClob: real, volumeNum: real,
    tokens: Option<(string, string)>)

  function TextIf(s: string): Option<Value> {
    if s != "" then Some(Text(s)) else None
  }

  function FloatIf(x: real): Option<Value> {
    if x > 0.0 then Some(Float(FromJson(x))) else None
  }

  function InstantIf(t: Option<int>): Option<Value> {
    if t.Some? then Some(Instant(t.value)) else None
  }

  function StatusOf(g: Gamma): string {
    if g.closed then "closed"
    else if g.active && g.ready && g.funded then "active"
    else if g.funded then "funded"
    else "upcoming"
  }

  /** Which columns an answer fills, and with what. */
  function GammaColumn(g: Gamma, c: Column): Option<Value> {
    match c
    case ConditionId => TextIf(g.conditionId)
    case TokenIdYes => if g.tokens.Some? then Some(Text(g.tokens.value.0)) else None
    case TokenIdNo => if g.tokens.Some? then Some(Text(g.tokens.value.1)) else None
    case Question => TextIf(g.question)
    case Outcomes => TextIf(g.outcomes)
    case StartDate => InstantIf(g.startDate)
    case EndDate => InstantIf(g.endDate)
    case GammaMarketId => TextIf(g.id)
    case EnableOrderBook => Some(Flag(g.enableOrderBook))
    case AcceptingOrders => Some(Flag(g.acceptingOrders))
    case Ready => Some(Flag(g.ready))
    case Funded => Some(Flag(g.funded))
    case OrderMinSize => FloatIf(g.orderMinSize)
    case OrderPriceMinTickSize => FloatIf(g.orderPriceMinTickSize)
    case BestBid => FloatIf(g.bestBid)
    case BestAsk => FloatIf(g.bestAsk)
    case LastTradePrice => FloatIf(g.lastTradePrice)
    case VolumeClob => FloatIf(g.volumeClob)
    case VolumeNum => FloatIf(g.volumeNum)
    case Status => Some(Text(StatusOf(g)))
    case WinningOutcome => None
    case PriceToBeat => None
    case LastBookHash => None
  }

  function MapGammaToMarket(g: Gamma, symbol: string, interval: string): (m: Market)
    ensures forall c :: Get(m.columns, c) == GammaColumn(g, c)
  {
    Market(g.slug, symbol, interval, map c: Column | GammaColumn(g, c).Some? :: GammaColumn(g, c).value)
  }

  /** A cell as a reader sees it, NULL being an empty text. */
  function ReadText(cell: Option<Value>): string {
    if cell.Some? && cell.value.Text? then cell.value.text else ""
  }

  function ReadNumber(cell: Option<Value>): real {
    if cell.Some? && cell.value.Float? && cell.value.number.FromJson? then cell.value.number.value else 0.0
  }

  function ReadTokens(yes: Option<Value>, no: Option<Value>): Option<(string, string)> {
    if yes.Some? && no.Some? then Some((ReadText(yes), ReadText(no))) else None
  }

  function Positive(x: real): real {
    if x > 0.0 then x else 0.0
  }

  predicate TextsReadBack(cs: Columns, g: Gamma) {
    && ReadText(Get(cs, ConditionId)) == g.conditionId && ReadText(Get(cs, GammaMarketId)) == g.id
    && ReadText(Get(cs, Question)) == g.question && ReadText(Get(cs, Outcomes)) == g.outcomes
    && Get(cs, StartDate) == (if g.startDate.Some? then Some(Instant(g.startDate.value)) else None)
    && Get(cs, EndDate) == (if g.endDate.Some? then Some(Instant(g.endDate.value)) else None)
  }

  predicate TokensReadBack(cs: Columns, g: Gamma) {
    ReadTokens(Get(cs, TokenIdYes), Get(cs, TokenIdNo)) == g.tokens
  }

  /** A closed market is closed, one that is not funded upcoming, and a funded one active if it is ready and active. */
  predicate StatusReadsBack(cs: Columns, g: Gamma) {
    && (g.closed ==> Get(cs, Status) == Some(Text("closed")))
    && (!g.closed && !g.funded ==> Get(cs, Status) == Some(Text("upcoming")))
    && (!g.closed && g.funded && g.ready && g.active ==> Get(cs, Status) == Some(Text("active")))
    && (!g.closed && g.funded && !(g.ready && g.active) ==> Get(cs, Status) == Some(Text("funded")))
  }

  predicate FlagsReadBack(cs: Columns, g: Gamma) {
    && Get(cs, EnableOrderBook) == Some(Flag(g.enableOrderBook))
    && Get(cs, AcceptingOrders) == Some(Flag(g.acceptingOrders))
    && Get(cs, Ready) == Some(Flag(g.ready)) && Get(cs, Funded) == Some(Flag(g.funded))
  }

  predicate PricesReadBack(cs: Columns, g: Gamma) {
    && ReadNumber(Get(cs, BestBid)) == Positive(g.bestBid) && ReadNumber(Get(cs, BestAsk)) == Positive(g.bestAsk)
    && ReadNumber(Get(cs, LastTradePrice)) == Positive(g.lastTradePrice)
  }

  predicate SizesReadBack(cs: Columns, g: Gamma) {
    && ReadNumber(Get(cs, OrderMinSize)) == Positive(g.orderMinSize)
    && ReadNumber(Get(cs, OrderPriceMinTickSize)) == Positive(g.orderPriceMinTickSize)
    && ReadNumber(Get(cs, VolumeClob)) == Positive(g.volumeClob)
    && ReadNumber(Get(cs, VolumeNum)) == Positive(g.volumeNum)
  }

  lemma TextsAndFlagsReadBack(g: Gamma, symbol: string, interval: string)
    ensures TextsReadBack(MapGammaToMarket(g, symbol, interval).columns, g)
    ensures FlagsReadBack(MapGammaToMarket(g, symbol, interval).columns, g)
  {
  }

  lemma TokensAndStatusReadBack(g: Gamma, symbol: string, interval: string)
    ensures TokensReadBack(MapGammaToMarket(g, symbol, interval).columns, g)
    ensures StatusReadsBack(MapGammaToMarket(g, symbol, interval).columns, g)
  {
  }

  lemma NumberReadsBack(g: Gamma, symbol: string, interval: string, c: Column, x: real)
    requires GammaColumn(g, c) == FloatIf(x)
    ensures ReadNumber(Get(MapGammaToMarket(g, symbol, interval).columns, c)) == Positive(x)
  {
  }

  lemma AllPricesReadBack(g: Gamma, symbol: string, interval: string)
    ensures PricesReadBack(MapGammaToMarket(g, symbol, interval).columns, g)
  {
    NumberReadsBack(g, symbol, interval, BestBid, g.bestBid);
    NumberReadsBack(g, symbol, interval, BestAsk, g.bestAsk);
    NumberReadsBack(g, symbol, interval, LastTradePrice, g.lastTradePrice);
  }

  lemma AllSizesReadBack(g: Gamma, symbol: string, interval: string)
    ensures SizesReadBack(MapGammaToMarket(g, symbol, interval).columns, g)
  {
    NumberReadsBack(g, symbol, interval, OrderMinSize, g.orderMinSize);
    NumberReadsBack(g, symbol, interval, OrderPriceMinTickSize, g.orderPriceMinTickSize);
    NumberReadsBack(g, symbol, interval, VolumeClob, g.volumeClob);
    NumberReadsBack(g, symbol, interval, VolumeNum, g.volumeNum);
  }

  /** What Gamma says can be read back, nothing lost or misplaced, save numbers that are not positive. */
  lemma MappingReadsBack(g: Gamma, symbol: string, interval: string)
    ensures var m := MapGammaToMarket(g, symbol, interval);
            && (m.slug, m.symbol, m.interval) == (g.slug, symbol, interval)
            && TextsReadBack(m.columns, g) && FlagsReadBack(m.columns, g)
            && PricesReadBack(m.columns, g) && SizesReadBack(m.columns, g)
            && TokensReadBack(m.columns, g) && StatusReadsBack(m.columns, g)
  {
    TextsAndFlagsReadBack(g, symbol, interval);
    TokensAndStatusReadBack(g, symbol, interval);
    AllPricesReadBack(g, symbol, interval);
    AllSizesReadBack(g, symbol, interval);
  }

  /**
   Which columns a mapped market has: the four flags and the status always, the
   outcome, the price to beat and the book hash never, both tokens or neither;
   no empty text but in a token, and no number that is not positive.
   */
  lemma MappingFillsColumns(g: Gamma, symbol: string, interval: string, c: Column)
    ensures var cell := Get(MapGammaToMarket(g, symbol, interval).columns, c);
            && (c in {EnableOrderBook, AcceptingOrders, Ready, Funded, Status} ==> cell.Some?)
            && (c in {WinningOutcome, PriceToBeat, LastBookHash} ==> cell.None?)
            && (IsTokenColumn(c) ==> (cell.Some? <==> g.tokens.Some?))
            && (cell.Some? && cell.value.Text? ==> cell.value.text != "" || IsTokenColumn(c))
            && (cell.Some? && cell.value.Float? ==> ReadNumber(cell) > 0.0)
  {
    assert Get(MapGammaToMarket(g, symbol, interval).columns, c) == GammaColumn(g, c);
  }

  /** A token column that is neither NULL nor empty. */
  predicate HasToken(columns: Columns, c: Column) {
    TextOf(columns, c).Some? && TextOf(columns, c).value != ""
  }

  predicate IsTokenColumn(c: Column) {
    c == TokenIdYes || c == TokenIdNo
  }

  /** A column taken over from the stored row unless the new columns have a token in it. */
  function KeepToken(columns: Columns, stored: Columns, c: Column): Columns {
    if HasToken(columns, c) then columns
    else if c in stored then columns[c := stored[c]]
    else columns - {c}
  }

  /** What refresh writes for a stored row and the answer to its slug. */
  function Refreshed(g: Gamma, row: Row): Market {
    var m := MapGammaToMarket(g, row.symbol, row.interval);
    m.(columns := KeepToken(KeepToken(m.columns, row.columns, TokenIdYes), row.columns, TokenIdNo))
  }

  function RefreshedAll(selected: seq<string>, t: Table, gamma: string -> Option<Gamma>): seq<Market>
    requires forall slug | slug in selected :: slug in t
  {
    if selected == [] then []
    else
      var n := |selected| - 1;
      RefreshedAll(selected[..n], t, gamma) +
      if gamma(selected[n]).Some? then [Refreshed(gamma(selected[n]).value, t[selected[n]])] else []
  }

  /** The yes and the no token of a market, as far as it has them. */
  function MarketTokens(columns: Columns): seq<string> {
    (if HasToken(columns, TokenIdYes) then [TextOf(columns, TokenIdYes).value] else []) +
    (if HasToken(columns, TokenIdNo) then [TextOf(columns, TokenIdNo).value] else [])
  }

  /** The token IDs to fetch books for, in market order. */
  function TokensOf(markets: seq<Market>): seq<string> {
    if markets == [] then []
    else TokensOf(markets[..|markets| - 1]) + MarketTokens(markets[|markets| - 1].columns)
  }

  lemma TokensSnoc(markets: seq<Market>, m: Market)
    ensures TokensOf(markets + [m]) == TokensOf(markets) + MarketTokens(m.columns)
  {
    assert (markets + [m])[..|markets|] == markets;
  }

  /** The loop of runRefresh; a cancelled cycle writes nothing. */
  method RefreshMarkets(selected: seq<string>, t: Table, gamma: string -> Option<Gamma>, cancelled: nat -> bool)
    returns (r: Option<(seq<Market>, seq<string>)>)
    requires forall slug | slug in selected :: slug in t
    ensures r == if !Uncancelled(cancelled, |selected|) then None
                 else Some((RefreshedAll(selected, t, gamma), TokensOf(RefreshedAll(selected, t, gamma))))
  {
    var updated, tokens := [], [];
    var i := 0;
    while i < |selected|
      invariant 0 <= i <= |selected|
      invariant Uncancelled(cancelled, i)
      invariant updated == RefreshedAll(selected[..i], t, gamma) && tokens == TokensOf(updated)
    {
      if cancelled(i) {
        return None;
      }
      StillUncancelled(cancelled, i);
      assert selected[..i + 1][..i] == selected[..i];
      var answer := gamma(selected[i]);
      if answer.Some? {
        var m := Refreshed(answer.value, t[selected[i]]);
        TokensSnoc(updated, m);
        updated := updated + [m];
        tokens := tokens + MarketTokens(m.columns);
      }
      i := i + 1;
    }
    assert selected[..i] == selected;
    return Some((updated, tokens));
  }

  // ---- What refresh writes ----

  lemma KeepsOtherColumns(g: Gamma, row: Row, c: Column)
    requires !IsTokenColumn(c)
    ensures Get(Refreshed(g, row).columns, c) == Get(MapGammaToMarket(g, row.symbol, row.interval).columns, c)
  {
  }

  /** What refresh writes says, but for the tokens, what Gamma says, under Gamma's slug and the stored names. */
  lemma RefreshReadsBack(g: Gamma, row: Row)
    ensures var m := Refreshed(g, row);
            && (m.slug, m.symbol, m.interval) == (g.slug, row.symbol, row.interval)
            && TextsReadBack(m.columns, g) && FlagsReadBack(m.columns, g) && StatusReadsBack(m.columns, g)
            && PricesReadBack(m.columns, g) && SizesReadBack(m.columns, g)
  {
    MappingReadsBack(g, row.symbol, row.interval);
    forall c | !IsTokenColumn(c)
      ensures Get(Refreshed(g, row).columns, c) == Get(MapGammaToMarket(g, row.symbol, row.interval).columns, c)
    {
      KeepsOtherColumns(g, row, c);
    }
    SameButTokens(Refreshed(g, row).columns, MapGammaToMarket(g, row.symbol, row.interval).columns, g);
  }

  lemma SameButTokens(cs: Columns, other: Columns, g: Gamma)
    requires forall c | !IsTokenColumn(c) :: Get(cs, c) == Get(other, c)
    ensures TextsReadBack(other, g) ==> TextsReadBack(cs, g)
    ensures FlagsReadBack(other, g) ==> FlagsReadBack(cs, g)
    ensures StatusReadsBack(other, g) ==> StatusReadsBack(cs, g)
    ensures PricesReadBack(other, g) ==> PricesReadBack(cs, g)
    ensures SizesReadBack(other, g) ==> SizesReadBack(cs, g)
  {
  }

  /** The tokens are Gamma's where it has one that is not empty, and the stored ones elsewhere. */
  lemma RefreshKeepsTokens(g: Gamma, row: Row)
    ensures var cs := Refreshed(g, row).columns;
            && Get(cs, TokenIdYes) == (if g.tokens.Some? && g.tokens.value.0 != "" then Some(Text(g.tokens.value.0))
                                       else Get(row.columns, TokenIdYes))
            && Get(cs, TokenIdNo) == (if g.tokens.Some? && g.tokens.value.1 != "" then Some(Text(g.tokens.value.1))
                                      else Get(row.columns, TokenIdNo))
  {
    RefreshedToken(g, row, TokenIdYes);
    RefreshedToken(g, row, TokenIdNo);
  }

  /** The tokens of a market that books are fetched for: yes before no, empty ones left out. */
  lemma CollectsTokens(columns: Columns, yes: string, no: string)
    requires ReadText(Get(columns, TokenIdYes)) == yes && ReadText(Get(columns, TokenIdNo)) == no
    ensures yes != "" && no != "" ==> MarketTokens(columns) == [yes, no]
    ensures yes != "" && no == "" ==> MarketTokens(columns) == [yes]
    ensures yes == "" && no != "" ==> MarketTokens(columns) == [no]
    ensures yes == "" && no == "" ==> MarketTokens(columns) == []
  {
  }

  predicate AnyHasTokenId(markets: seq<Market>, token: string) {
    exists i | 0 <= i < |markets| :: HasTokenId(markets[i].columns, token)
  }

  lemma AnyHasTokenIdSnoc(markets: seq<Market>, n: nat, token: string)
    requires |markets| == n + 1
    ensures AnyHasTokenId(markets, token) <==>
            AnyHasTokenId(markets[..n], token) || HasTokenId(markets[n].columns, token)
  {
    assert forall i | 0 <= i < n :: markets[..n][i] == markets[i];
  }

  /** Of a list of markets, books are fetched for exactly their tokens that are not empty. */
  lemma {:induction false} CollectsAllTokens(markets: seq<Market>, token: string)
    ensures token in TokensOf(markets) <==> token != "" && AnyHasTokenId(markets, token)
  {
    if markets != [] {
      var n := |markets| - 1;
      CollectsAllTokens(markets[..n], token);
      CollectsOwnTokens(markets[n].columns, token);
      AnyHasTokenIdSnoc(markets, n, token);
      assert TokensOf(markets) == TokensOf(markets[..n]) + MarketTokens(markets[n].columns);
    }
  }

  lemma CollectsOwnTokens(columns: Columns, token: string)
    ensures token in MarketTokens(columns) <==> token != "" && HasTokenId(columns, token)
  {
    CollectsTokens(columns, ReadText(Get(columns, TokenIdYes)), ReadText(Get(columns, TokenIdNo)));
  }

  predicate HasTokenId(columns: Columns, token: string) {
    Get(columns, TokenIdYes) == Some(Text(token)) || Get(columns, TokenIdNo) == Some(Text(token))
  }

  // ---- Token preservation ----

  /** The token that a refresh writes: Gamma's if it has one, else the stored one. */
  lemma RefreshedToken(g: Gamma, row: Row, c: Column)
    requires IsTokenColumn(c)
    ensures Get(Refreshed(g, row).columns, c) ==
            if GammaColumn(g, c).Some? && GammaColumn(g, c).value.text != "" then GammaColumn(g, c)
            else Get(row.columns, c)
  {
    var m := MapGammaToMarket(g, row.symbol, row.interval);
    assert Get(m.columns, c) == GammaColumn(g, c);
  }

  /** Refreshing one row keeps every stored token, unless Gamma answers with the slug of another row. */
  lemma RefreshKeepsTokenIff(t: Table, selected: string, g: Gamma, stamp: int, slug: string, c: Column)
    requires IsTokenColumn(c) && selected in t && slug in t && HasToken(t[slug].columns, c)
    requires c in t[selected].columns ==> t[selected].columns[c].Text?
    ensures var after := Upsert(t, Write(Refreshed(g, t[selected]), stamp));
            slug in after &&
            (HasToken(after[slug].columns, c) <==>
               !(g.slug == slug && TextOf(t[selected].columns, c) == Some("") &&
                 (g.tokens.None? || GammaColumn(g, c) == Some(Text("")))))
  {
    RefreshedToken(g, t[selected], c);
  }

  /** What is written under Gamma's slug when it answers for a stored row, before or after books are merged in. */
  ghost predicate Carries(w: Write, g: Gamma, row: Row) {
    w.market.slug == g.slug &&
    forall c | IsTokenColumn(c) :: Get(w.market.columns, c) == Get(Refreshed(g, row).columns, c)
  }

  /** A write of a refresh cycle that read table t; echoed if Gamma answered with the slug it was asked for. */
  ghost predicate IsRefreshWrite(t: Table, w: Write, echoed: bool) {
    exists g: Gamma, slug :: slug in t && Carries(w, g, t[slug]) && (echoed ==> g.slug == slug)
  }

  lemma MergedRefreshIsRefreshWrite(t: Table, slug: string, g: Gamma, received: seq<Books>, stamp: int)
    requires slug in t
    ensures IsRefreshWrite(t, Write(Refreshed(g, t[slug]), stamp), g.slug == slug)
    ensures IsRefreshWrite(t, Write(Merged(Refreshed(g, t[slug]), received), stamp), g.slug == slug)
  {
    var m := Refreshed(g, t[slug]);
    forall c | IsTokenColumn(c)
      ensures Get(Merged(m, received).columns, c) == Get(m.columns, c)
    {
      MergeKeepsOthers(m.columns, received, c);
    }
    assert Carries(Write(m, stamp), g, t[slug]);
    assert Carries(Write(Merged(m, received), stamp), g, t[slug]);
  }

  /** The row is there and holds a token. */
  predicate HoldsToken(t: Table, slug: string, c: Column) {
    ReadText(Cell(t, slug, c)) != ""
  }

  lemma {:induction false} CycleKeepsToken(t: Table, writes: seq<Write>, slug: string, c: Column)
    requires IsTokenColumn(c) && HoldsToken(t, slug, c)
    requires forall w | w in writes :: IsRefreshWrite(t, w, true)
    ensures HoldsToken(UpsertAll(t, writes), slug, c)
  {
    if writes != [] {
      var n := |writes| - 1;
      CycleKeepsToken(t, writes[..n], slug, c);
      var w := writes[n];
      assert w in writes;
      if w.market.slug == slug {
        var g: Gamma, s :| s in t && Carries(w, g, t[s]) && g.slug == s;
        RefreshedToken(g, t[slug], c);
        assert Get(w.market.columns, c) == Get(Refreshed(g, t[slug]).columns, c);
      }
    }
  }

  /** Cycles of refresh writes; each cycle reads the table that the ones before left. */
  ghost predicate RefreshRun(t: Table, cycles: seq<seq<Write>>, echoed: bool)
    decreases |cycles|
  {
    cycles == [] ||
    ((forall w | w in cycles[0] :: IsRefreshWrite(t, w, echoed)) &&
     RefreshRun(UpsertAll(t, cycles[0]), cycles[1..], echoed))
  }

  function AllOf(writes: seq<Write>): seq<Write> {
    writes
  }

  function AfterRefreshes(t: Table, cycles: seq<seq<Write>>): Table {
    AfterCycles(t, cycles, AllOf)
  }

  /** If Gamma echoes slugs, then over any refresh cycles a token ID, once stored, never becomes NULL or empty. */
  lemma {:induction false} RefreshRunKeepsTokens(t: Table, cycles: seq<seq<Write>>, slug: string, c: Column)
    requires RefreshRun(t, cycles, true) && IsTokenColumn(c) && HoldsToken(t, slug, c)
    ensures HoldsToken(AfterRefreshes(t, cycles), slug, c)
    decreases |cycles|
  {
    if cycles != [] {
      CycleKeepsToken(t, cycles[0], slug, c);
      RefreshRunKeepsTokens(UpsertAll(t, cycles[0]), cycles[1..], slug, c);
    }
  }

  // ---- Whatever Gamma answers ----

  /** The column holds texts or NULL. */
  ghost predicate IsTextColumn(t: Table, c: Column) {
    forall slug :: Cell(t, slug, c).Some? ==> Cell(t, slug, c).value.Text?
  }

  /** No row holds an empty token. */
  ghost predicate NoEmptyToken(t: Table, c: Column) {
    forall slug :: Cell(t, slug, c) != Some(Text(""))
  }

  lemma WriteCarriesToken(t: Table, w: Write, c: Column)
    requires IsTokenColumn(c) && IsTextColumn(t, c) && NoEmptyToken(t, c) && IsRefreshWrite(t, w, false)
    ensures c in w.market.columns ==> HasToken(w.market.columns, c)
  {
    var g: Gamma, selected :| selected in t && Carries(w, g, t[selected]);
    RefreshedToken(g, t[selected], c);
    assert Get(w.market.columns, c) == Get(Refreshed(g, t[selected]).columns, c);
    assert Cell(t, selected, c) != Some(Text(""));
  }

  lemma WriteAddsNoEmptyToken(u: Table, w: Write, c: Column)
    requires IsTextColumn(u, c) && NoEmptyToken(u, c)
    requires c in w.market.columns ==> HasToken(w.market.columns, c)
    ensures IsTextColumn(Upsert(u, w), c) && NoEmptyToken(Upsert(u, w), c)
    ensures forall slug | HoldsToken(u, slug, c) :: HoldsToken(Upsert(u, w), slug, c)
  {
    forall slug
      ensures Cell(Upsert(u, w), slug, c) == if Sets(w, slug, c) then Some(w.market.columns[c]) else Cell(u, slug, c)
    {
      UpsertCell(u, w, slug, c);
    }
  }

  lemma {:induction false} CycleAddsNoEmptyToken(t: Table, writes: seq<Write>, c: Column)
    requires IsTokenColumn(c) && IsTextColumn(t, c) && NoEmptyToken(t, c)
    requires forall w | w in writes :: IsRefreshWrite(t, w, false)
    ensures IsTextColumn(UpsertAll(t, writes), c) && NoEmptyToken(UpsertAll(t, writes), c)
    ensures forall slug | HoldsToken(t, slug, c) :: HoldsToken(UpsertAll(t, writes), slug, c)
  {
    if writes != [] {
      var n := |writes| - 1;
      CycleAddsNoEmptyToken(t, writes[..n], c);
      assert writes[n] in writes;
      WriteCarriesToken(t, writes[n], c);
      WriteAddsNoEmptyToken(UpsertAll(t, writes[..n]), writes[n], c);
    }
  }

  lemma {:induction false} RunAddsNoEmptyToken(t: Table, cycles: seq<seq<Write>>, c: Column)
    requires RefreshRun(t, cycles, false) && IsTokenColumn(c) && IsTextColumn(t, c) && NoEmptyToken(t, c)
    ensures IsTextColumn(AfterRefreshes(t, cycles), c) && NoEmptyToken(AfterRefreshes(t, cycles), c)
    ensures forall slug | HoldsToken(t, slug, c) :: HoldsToken(AfterRefreshes(t, cycles), slug, c)
    decreases |cycles|
  {
    if cycles != [] {
      CycleAddsNoEmptyToken(t, cycles[0], c);
      RunAddsNoEmptyToken(UpsertAll(t, cycles[0]), cycles[1..], c);
    }
  }

  /** Whatever refresh cycles do to the table, the tokens it holds stay. */
  ghost predicate StoredTokensStay(t: Table, c: Column) {
    forall cycles, slug | RefreshRun(t, cycles, false) && HoldsToken(t, slug, c) ::
      HoldsToken(AfterRefreshes(t, cycles), slug, c)
  }

  /** An answer with nothing but a slug and a token list. */
  function Bare(slug: string, tokens: Option<(string, string)>): Gamma {
    Gamma(slug, "", "", "", "", None, None, false, false, false, false, false, false,
          0.0, 0.0, 0.0, 0.0, 0.0, 0.0, 0.0, tokens)
  }

  /** The write of a cycle that selected one row, for which Gamma gave such an answer. */
  function BareWrite(row: Row, slug: string, tokens: Option<(string, string)>): Write {
    Write(Refreshed(Bare(slug, tokens), row), 0)
  }

  lemma BareRefresh(t: Table, selected: string, slug: string, tokens: Option<(string, string)>, c: Column)
    requires IsTokenColumn(c) && selected in t && Cell(t, selected, c) == Some(Text(""))
    ensures var w := BareWrite(t[selected], slug, tokens);
            && w.market.slug == slug && RefreshRun(t, [[w]], false)
            && AfterRefreshes(t, [[w]]) == UpsertAll(t, [w]) == Upsert(t, w)
            && Cell(Upsert(t, w), slug, c) ==
               if tokens.Some? && GammaColumn(Bare(slug, tokens), c) != Some(Text(""))
               then GammaColumn(Bare(slug, tokens), c) else Some(Text(""))
  {
    var g, w := Bare(slug, tokens), BareWrite(t[selected], slug, tokens);
    RefreshedToken(g, t[selected], c);
    assert Carries(w, g, t[selected]);
    assert [w][..0] == [] && UpsertAll(t, []) == t;
    assert AllOf([w]) == [w] && [[w]][1..] == [];
    assert AfterCycles(UpsertAll(t, [w]), [], AllOf) == UpsertAll(t, [w]);
  }

  /**
   Whatever Gamma answers, under whatever slugs: the tokens of a table survive
   all refresh cycles exactly if no row holds an empty token, or no row a token.
   */
  lemma StoredTokensStayIff(t: Table, c: Column)
    requires IsTokenColumn(c) && IsTextColumn(t, c)
    ensures StoredTokensStay(t, c) <==> NoEmptyToken(t, c) || forall slug :: !HoldsToken(t, slug, c)
  {
    if NoEmptyToken(t, c) {
      forall cycles, slug | RefreshRun(t, cycles, false) && HoldsToken(t, slug, c)
        ensures HoldsToken(AfterRefreshes(t, cycles), slug, c)
      {
        RunAddsNoEmptyToken(t, cycles, c);
      }
    } else if slug :| HoldsToken(t, slug, c) {
      var empty :| empty in t && Cell(t, empty, c) == Some(Text(""));
      BareRefresh(t, empty, slug, None, c);
      assert !HoldsToken(AfterRefreshes(t, [[BareWrite(t[empty], slug, None)]]), slug, c);
    }
  }

  /** The same of tokens that are stored in the course of a run. */
  ghost predicate TokensStay(t: Table, c: Column) {
    forall before, after, slug | RefreshRun(t, before, false) && RefreshRun(AfterRefreshes(t, before), after, false) ::
      HoldsToken(AfterRefreshes(t, before), slug, c) ==>
      HoldsToken(AfterRefreshes(AfterRefreshes(t, before), after), slug, c)
  }

  /**
   With an empty token about, refresh can store a token and lose it again: tokens
   stay once they are stored exactly if there is none.
   */
  lemma TokensStayIff(t: Table, c: Column)
    requires IsTokenColumn(c) && IsTextColumn(t, c)
    ensures TokensStay(t, c) <==> NoEmptyToken(t, c)
  {
    if NoEmptyToken(t, c) {
      forall before, after, slug |
        RefreshRun(t, before, false) && RefreshRun(AfterRefreshes(t, before), after, false) &&
        HoldsToken(AfterRefreshes(t, before), slug, c)
        ensures HoldsToken(AfterRefreshes(AfterRefreshes(t, before), after), slug, c)
      {
        RunAddsNoEmptyToken(t, before, c);
        RunAddsNoEmptyToken(AfterRefreshes(t, before), after, c);
      }
    } else {
      var empty :| empty in t && Cell(t, empty, c) == Some(Text(""));
      var before, after, slug := TokenComesAndGoes(t, empty, c);
      assert !HoldsToken(AfterRefreshes(AfterRefreshes(t, before), after), slug, c);
    }
  }

  /** The row with the empty token is answered for twice under a new slug, with a token list and then without. */
  lemma TokenComesAndGoes(t: Table, empty: string, c: Column)
    returns (before: seq<seq<Write>>, after: seq<seq<Write>>, slug: string)
    requires IsTokenColumn(c) && empty in t && Cell(t, empty, c) == Some(Text(""))
    ensures RefreshRun(t, before, false) && RefreshRun(AfterRefreshes(t, before), after, false)
    ensures HoldsToken(AfterRefreshes(t, before), slug, c)
    ensures !HoldsToken(AfterRefreshes(AfterRefreshes(t, before), after), slug, c)
  {
    slug := empty + "2";
    assert |slug| != |empty|;
    var tokens := Some(("yes", "no"));
    BareRefresh(t, empty, slug, tokens, c);
    before := [[BareWrite(t[empty], slug, tokens)]];
    var u := AfterRefreshes(t, before);
    assert u[empty] == t[empty];
    BareRefresh(u, empty, slug, None, c);
    after := [[BareWrite(u[empty], slug, None)]];
  }

  /** Discovery has no such care: its write keeps a stored token exactly if Gamma's is absent or not empty. */
  lemma DiscoveryKeepsTokenIff(t: Table, g: Gamma, symbol: string, interval: string, stamp: int, c: Column)
    requires IsTokenColumn(c) && g.slug in t && HasToken(t[g.slug].columns, c)
    ensures HasToken(Upsert(t, Write(MapGammaToMarket(g, symbol, interval), stamp))[g.slug].columns, c) <==>
            GammaColumn(g, c) != Some(Text(""))
  {
    var m := MapGammaToMarket(g, symbol, interval);
    assert Get(m.columns, c) == GammaColumn(g, c);
  }
}
