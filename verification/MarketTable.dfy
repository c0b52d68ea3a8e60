/**
 The new_markets table: rows keyed by slug, written by
 INSERT ... ON CONFLICT (slug) DO UPDATE SET column = COALESCE(EXCLUDED.column,
 new_markets.column) (internal/db/postgres.go).
 */
module MarketTable {
  import opened Wrappers
  import opened Models

  /** The columns under COALESCE. */
  datatype Column =
    | ConditionId | TokenIdYes | TokenIdNo | Question | Outcomes | StartDate | EndDate
    | GammaMarketId | EnableOrderBook | AcceptingOrders | Ready | Funded
    | OrderMinSize | OrderPriceMinTickSize | BestBid | BestAsk | LastTradePrice
    | VolumeClob | VolumeNum | Status | WinningOutcome | PriceToBeat | LastBookHash

  datatype Value = Text(text: string) | Flag(flag: bool) | Float(number: Number) | Instant(time: int)

  /** The non-null columns; a column that is absent is NULL. */
  type Columns = map<Column, Value>

  /** A market as a worker hands it to the store. */
  datatype Market = Market(slug: string, symbol: string, interval: string, columns: Columns)

  datatype Row = Row(symbol: string, interval: string, columns: Columns, updatedAt: int)

  type Table = map<string, Row>

  /** An upsert, stamped with the start of its transaction. */
  datatype Write = Write(market: Market, stamp: int)

  function Coalesce(excluded: Columns, stored: Columns): Columns {
    map c | c in excluded.Keys + stored.Keys :: if c in excluded then excluded[c] else stored[c]
  }

  function Upsert(t: Table, w: Write): Table {
    var m := w.market;
    if m.slug in t
    then t[m.slug := t[m.slug].(columns := Coalesce(m.columns, t[m.slug].columns), updatedAt := w.stamp)]
    else t[m.slug := Row(m.symbol, m.interval, m.columns, w.stamp)]
  }

  function UpsertAll(t: Table, writes: seq<Write>): Table {
    if writes == [] then t
    else Upsert(UpsertAll(t, writes[..|writes| - 1]), writes[|writes| - 1])
  }

  /** The table after cycles of writes. */
  function AfterCycles<C>(t: Table, cycles: seq<C>, writes: C -> seq<Write>): Table
    decreases |cycles|
  {
    if cycles == [] then t else AfterCycles(UpsertAll(t, writes(cycles[0])), cycles[1..], writes)
  }

  function Stamped(markets: seq<Market>, stamp: int): (writes: seq<Write>)
    ensures |writes| == |markets|
  {
    seq(|markets|, i requires 0 <= i < |markets| => Write(markets[i], stamp))
  }

  // ---- The table as registers ----

  function Get(columns: Columns, c: Column): Option<Value> {
    if c in columns then Some(columns[c]) else None
  }

  function Cell(t: Table, slug: string, c: Column): Option<Value> {
    if slug in t then Get(t[slug].columns, c) else None
  }

  predicate Sets(w: Write, slug: string, c: Column) {
    w.market.slug == slug && c in w.market.columns
  }

  /** The last non-null value written to a column of a slug. */
  function LastWritten(writes: seq<Write>, slug: string, c: Column): Option<Value> {
    if writes == [] then None
    else
      var n := |writes| - 1;
      if Sets(writes[n], slug, c) then Some(writes[n].market.columns[c]) else LastWritten(writes[..n], slug, c)
  }

  lemma {:induction false} LastWrittenIsLast(writes: seq<Write>, slug: string, c: Column, i: nat)
    requires i < |writes| && Sets(writes[i], slug, c)
    requires forall j | i < j < |writes| :: !Sets(writes[j], slug, c)
    ensures LastWritten(writes, slug, c) == Some(writes[i].market.columns[c])
  {
    if i < |writes| - 1 {
      LastWrittenIsLast(writes[..|writes| - 1], slug, c, i);
    }
  }

  lemma UpsertCell(u: Table, w: Write, slug: string, c: Column)
    ensures Cell(Upsert(u, w), slug, c) == if Sets(w, slug, c) then Some(w.market.columns[c]) else Cell(u, slug, c)
  {
  }

  /** Each column is a register that ignores nulls, whoever writes and in whatever order. */
  lemma {:induction false} ColumnIsRegister(t: Table, writes: seq<Write>, slug: string, c: Column)
    ensures Cell(UpsertAll(t, writes), slug, c) ==
            if LastWritten(writes, slug, c).Some? then LastWritten(writes, slug, c) else Cell(t, slug, c)
  {
    if writes != [] {
      var n := |writes| - 1;
      ColumnIsRegister(t, writes[..n], slug, c);
      UpsertCell(UpsertAll(t, writes[..n]), writes[n], slug, c);
    }
  }

  lemma ColumnNeverReturnsToNull(t: Table, writes: seq<Write>, slug: string, c: Column)
    requires Cell(t, slug, c).Some?
    ensures Cell(UpsertAll(t, writes), slug, c).Some?
  {
    ColumnIsRegister(t, writes, slug, c);
  }

  /** Rows are those stored before and those written; one that exists keeps its symbol and interval. */
  lemma {:induction false} RowsAndIdentities(t: Table, writes: seq<Write>, slug: string)
    ensures slug in UpsertAll(t, writes) <==> slug in t || exists i | 0 <= i < |writes| :: writes[i].market.slug == slug
    ensures slug in t ==> UpsertAll(t, writes)[slug].symbol == t[slug].symbol &&
                          UpsertAll(t, writes)[slug].interval == t[slug].interval
  {
    if writes != [] {
      var n := |writes| - 1;
      RowsAndIdentities(t, writes[..n], slug);
      assert forall i | 0 <= i < n :: writes[..n][i] == writes[i];
    }
  }

  /** A row that is not in the table takes symbol and interval from the first write to it. */
  lemma {:induction false} FirstWriteNames(t: Table, writes: seq<Write>, slug: string, i: nat)
    requires slug !in t && i < |writes| && writes[i].market.slug == slug
    requires forall j | 0 <= j < i :: writes[j].market.slug != slug
    ensures slug in UpsertAll(t, writes)
    ensures UpsertAll(t, writes)[slug].symbol == writes[i].market.symbol
    ensures UpsertAll(t, writes)[slug].interval == writes[i].market.interval
  {
    var n := |writes| - 1;
    if i < n {
      FirstWriteNames(t, writes[..n], slug, i);
    } else {
      RowsAndIdentities(t, writes[..n], slug);
      assert forall j | 0 <= j < n :: writes[..n][j] == writes[j];
    }
  }

  lemma {:induction false} UpsertAllAppend(t: Table, a: seq<Write>, b: seq<Write>)
    ensures UpsertAll(t, a + b) == UpsertAll(UpsertAll(t, a), b)
  {
    if b == [] {
      assert a + b == a;
    } else {
      UpsertAllAppend(t, a, b[..|b| - 1]);
      assert (a + b)[..|a + b| - 1] == a + b[..|b| - 1];
    }
  }

  lemma {:induction false} LastWrittenAppend(a: seq<Write>, b: seq<Write>, slug: string, c: Column)
    ensures LastWritten(a + b, slug, c) ==
            if LastWritten(b, slug, c).Some? then LastWritten(b, slug, c) else LastWritten(a, slug, c)
  {
    if b == [] {
      assert a + b == a;
    } else {
      LastWrittenAppend(a, b[..|b| - 1], slug, c);
      assert (a + b)[..|a + b| - 1] == a + b[..|b| - 1];
    }
  }

  lemma {:induction false} WrittenIffSet(writes: seq<Write>, slug: string, c: Column)
    ensures LastWritten(writes, slug, c).Some? <==> exists i | 0 <= i < |writes| :: Sets(writes[i], slug, c)
  {
    if writes != [] {
      var n := |writes| - 1;
      WrittenIffSet(writes[..n], slug, c);
      assert forall i | 0 <= i < n :: writes[..n][i] == writes[i];
    }
  }

  lemma {:induction false} UpdatedByLastWrite(t: Table, writes: seq<Write>, slug: string, i: nat)
    requires i < |writes| && writes[i].market.slug == slug
    requires forall j | i < j < |writes| :: writes[j].market.slug != slug
    ensures slug in UpsertAll(t, writes) && UpsertAll(t, writes)[slug].updatedAt == writes[i].stamp
  {
    if i < |writes| - 1 {
      UpdatedByLastWrite(t, writes[..|writes| - 1], slug, i);
    }
  }

  /** Each market of the second batch is one of the first with nulls filled in or values replaced, none nulled. */
  predicate Supersedes(post: seq<Market>, pre: seq<Market>) {
    |pre| == |post| &&
    forall i | 0 <= i < |pre| :: pre[i].slug == post[i].slug && pre[i].columns.Keys <= post[i].columns.Keys
  }

  /**
   Upserting a batch before its order books are merged in, then anything by
   anyone, then the merged batch, leaves every column of every row as if the
   first upsert had not been made.
   */
  lemma FirstUpsertIsAbsorbed(
    t: Table, pre: seq<Market>, stamp1: int, between: seq<Write>, post: seq<Market>, stamp2: int,
    slug: string, c: Column)
    requires Supersedes(post, pre)
    ensures Cell(UpsertAll(t, Stamped(pre, stamp1) + between + Stamped(post, stamp2)), slug, c) ==
            Cell(UpsertAll(t, between + Stamped(post, stamp2)), slug, c)
  {
    var first, last := Stamped(pre, stamp1), Stamped(post, stamp2);
    ColumnIsRegister(t, first + between + last, slug, c);
    ColumnIsRegister(t, between + last, slug, c);
    LastWrittenAppend(first + between, last, slug, c);
    LastWrittenAppend(first, between, slug, c);
    LastWrittenAppend(between, last, slug, c);
    WrittenIffSet(first, slug, c);
    WrittenIffSet(last, slug, c);
    if i :| 0 <= i < |first| && Sets(first[i], slug, c) {
      assert Sets(last[i], slug, c);
    }
  }

  /** A row that already existed is the same in every respect. */
  lemma FirstUpsertIsAbsorbedInRow(
    t: Table, pre: seq<Market>, stamp1: int, between: seq<Write>, post: seq<Market>, stamp2: int, slug: string)
    requires Supersedes(post, pre) && slug in t
    ensures var with := UpsertAll(t, Stamped(pre, stamp1) + between + Stamped(post, stamp2));
            var without := UpsertAll(t, between + Stamped(post, stamp2));
            slug in with && slug in without && with[slug] == without[slug]
  {
    var first, last := Stamped(pre, stamp1), Stamped(post, stamp2);
    var with, without := UpsertAll(t, first + between + last), UpsertAll(t, between + last);
    RowsAndIdentities(t, first + between + last, slug);
    RowsAndIdentities(t, between + last, slug);
    forall c
      ensures Get(with[slug].columns, c) == Get(without[slug].columns, c)
    {
      FirstUpsertIsAbsorbed(t, pre, stamp1, between, post, stamp2, slug, c);
    }
    SameColumns(with[slug].columns, without[slug].columns);
    if i :| 0 <= i < |first| && first[i].market.slug == slug {
      assert (between + last)[|between| + i].market.slug == slug;
    }
    SameStamp(t, first, between + last, slug);
    assert first + between + last == first + (between + last);
  }

  lemma SameColumns(a: Columns, b: Columns)
    requires forall c :: Get(a, c) == Get(b, c)
    ensures a == b
  {
    assert forall c :: c in a <==> Get(a, c).Some?;
    assert forall c :: c in b <==> Get(b, c).Some?;
    assert forall c | c in a :: Get(a, c).value == Get(b, c).value;
  }

  /** Writes to rows that a later write touches again do not show in updated_at. */
  lemma {:induction false} SameStamp(t: Table, first: seq<Write>, rest: seq<Write>, slug: string)
    requires slug in t
    requires (exists i | 0 <= i < |first| :: first[i].market.slug == slug) ==>
             exists i | 0 <= i < |rest| :: rest[i].market.slug == slug
    ensures slug in UpsertAll(t, first + rest) && slug in UpsertAll(t, rest)
    ensures UpsertAll(t, first + rest)[slug].updatedAt == UpsertAll(t, rest)[slug].updatedAt
  {
    if rest == [] {
      assert first + rest == first;
      Untouched(t, first, slug);
    } else {
      var n := |rest| - 1;
      assert (first + rest)[..|first + rest| - 1] == first + rest[..n];
      RowsAndIdentities(t, first + rest, slug);
      RowsAndIdentities(t, rest, slug);
      if rest[n].market.slug != slug {
        assert forall i | 0 <= i < n :: rest[..n][i] == rest[i];
        SameStamp(t, first, rest[..n], slug);
      }
    }
  }

  lemma {:induction false} Untouched(t: Table, writes: seq<Write>, slug: string)
    requires forall i | 0 <= i < |writes| :: writes[i].market.slug != slug
    ensures slug in UpsertAll(t, writes) <==> slug in t
    ensures slug in t ==> UpsertAll(t, writes)[slug] == t[slug]
  {
    if writes != [] {
      Untouched(t, writes[..|writes| - 1], slug);
    }
  }

  class MarketStore {
    var markets: Table

    constructor ()
      ensures markets == map[]
    {
      markets := map[];
    }

    method UpsertBySlug(m: Market, stamp: int)
      modifies this
      ensures markets == Upsert(old(markets), Write(m, stamp))
    {
      if m.slug in markets {
        var row := markets[m.slug];
        markets := markets[m.slug := row.(columns := Coalesce(m.columns, row.columns), updatedAt := stamp)];
      } else {
        markets := markets[m.slug := Row(m.symbol, m.interval, m.columns, stamp)];
      }
    }

    /** One transaction: all rows carry its start as updated_at; when it fails, nothing is stored. */
    method UpsertMarketsBatch(batch: seq<Market>, stamp: int, fails: bool)
      modifies this
      ensures markets == if fails then old(markets) else UpsertAll(old(markets), Stamped(batch, stamp))
    {
      if fails {
        return;
      }
      var i := 0;
      while i < |batch|
        invariant 0 <= i <= |batch|
        invariant markets == UpsertAll(old(markets), Stamped(batch[..i], stamp))
      {
        assert Stamped(batch[..i + 1], stamp)[..i] == Stamped(batch[..i], stamp);
        UpsertBySlug(batch[i], stamp);
        i := i + 1;
      }
      assert batch[..i] == batch;
    }
  }
}
