/**
 Whole discovery and refresh cycles (internal/scanner/scanner.go): the answers
 of Gamma become markets, which are upserted, merged with order books and
 upserted again. Below the code, what a cycle writes is shown to be what the
 run theorems on discovery and refresh expect.
 */
module Scanner {
  import opened Wrappers
  import opened Models
  import opened MarketTable
  import opened Batching
  import opened BookMerge
  import opened Refresh
  import Discovery
  import DiscoveryRuns
  import Slugs
  import RefreshSchedule

  /** What both kinds of cycles are answered with after Gamma: order books and the fate of the two upserts. */
  datatype Environment = Environment(
    answers: nat -> Answer, bookCancelled: nat -> bool,
    stamp1: int, fails1: bool, stamp2: int, fails2: bool)

  /** Gamma's markets for the tasks, in task order. */
  function FoundAll(tasks: seq<Discovery.Task>, gamma: string -> Option<Gamma>): seq<Market> {
    if tasks == [] then []
    else
      var task := tasks[|tasks| - 1];
      FoundAll(tasks[..|tasks| - 1], gamma) +
      if gamma(task.slug).Some? then [MapGammaToMarket(gamma(task.slug).value, task.symbol, task.interval)] else []
  }

  /** The Gamma loop of runDiscovery; a cancelled cycle writes nothing. */
  method FetchMarkets(tasks: seq<Discovery.Task>, gamma: string -> Option<Gamma>, cancelled: nat -> bool)
    returns (r: Option<(seq<Market>, seq<string>)>)
    ensures r == if !Uncancelled(cancelled, |tasks|) then None
                 else Some((FoundAll(tasks, gamma), TokensOf(FoundAll(tasks, gamma))))
  {
    var markets, tokens := [], [];
    var i := 0;
    while i < |tasks|
      invariant 0 <= i <= |tasks|
      invariant Uncancelled(cancelled, i)
      invariant markets == FoundAll(tasks[..i], gamma) && tokens == TokensOf(markets)
    {
      if cancelled(i) {
        return None;
      }
      StillUncancelled(cancelled, i);
      assert tasks[..i + 1][..i] == tasks[..i];
      var answer := gamma(tasks[i].slug);
      if answer.Some? {
        var m := MapGammaToMarket(answer.value, tasks[i].symbol, tasks[i].interval);
        TokensSnoc(markets, m);
        markets := markets + [m];
        tokens := tokens + MarketTokens(m.columns);
      }
      i := i + 1;
    }
    assert tasks[..i] == tasks;
    return Some((markets, tokens));
  }

  method Allocate(markets: seq<Market>) returns (objects: seq<NewMarket>)
    ensures fresh(objects) && Distinct(objects)
    ensures Views(objects) == markets
  {
    objects := [];
    var i := 0;
    while i < |markets|
      invariant 0 <= i == |objects| <= |markets|
      invariant fresh(objects) && forall j, k | 0 <= j < k < |objects| :: objects[j] != objects[k]
      invariant forall j | 0 <= j < i :: objects[j].View() == markets[j]
    {
      var m := new NewMarket(markets[i]);
      objects := objects + [m];
      i := i + 1;
    }
  }

  /** The writes of a cycle over these markets, when so many book batches are done. */
  function CycleWrites(markets: seq<Market>, batchSize: nat, env: Environment, batches: nat): seq<Write>
    requires batchSize > 0
  {
    var tokens := TokensOf(markets);
    (if env.fails1 then [] else Stamped(markets, env.stamp1)) +
    if tokens == [] || batches < |Chunk(tokens, batchSize)| || env.fails2 then []
    else Stamped(MergedAll(markets, Received(env.answers, batches)), env.stamp2)
  }

  /** The common end of runDiscovery and runRefresh: upsert, merge, upsert. */
  method UpsertAndMerge(store: MarketStore, markets: seq<Market>, tokens: seq<string>, batchSize: nat, env: Environment)
    returns (batches: nat)
    requires batchSize > 0 && tokens == TokensOf(markets)
    modifies store
    ensures batches <= |Chunk(tokens, batchSize)|
    ensures batches == |Chunk(tokens, batchSize)| || env.bookCancelled(batches)
    ensures store.markets == UpsertAll(old(store.markets), CycleWrites(markets, batchSize, env, batches))
  {
    batches := 0;
    if |markets| > 0 {
      store.UpsertMarketsBatch(markets, env.stamp1, env.fails1);
    }
    ghost var first := if env.fails1 then [] else Stamped(markets, env.stamp1);
    assert store.markets == UpsertAll(old(store.markets), first);
    if |tokens| > 0 {
      var objects := Allocate(markets);
      batches := FetchAndMergeCLOBData(
        objects, tokens, batchSize, env.answers, env.bookCancelled, store, env.stamp2, env.fails2);
      ghost var merged := MergedAll(markets, Received(env.answers, batches));
      UpsertAllAppend(old(store.markets), first, Stamped(merged, env.stamp2));
    }
    assert first + [] == first;
  }

  method RunDiscovery(store: MarketStore, latest: Discovery.Latest, cfg: Discovery.Config,
                      clock: Discovery.Pair -> Discovery.Reading, gamma: string -> Option<Gamma>,
                      cancelled: nat -> bool, batchSize: nat, env: Environment)
    returns (batches: nat)
    requires batchSize > 0
    modifies store
    ensures var pairs := Discovery.PairsOf(Discovery.COINS, Discovery.INTERVALS);
            var tasks := Discovery.TasksFrom(pairs, Discovery.Source(latest, cfg, clock));
            store.markets ==
            if !Uncancelled(cancelled, |tasks|) then old(store.markets)
            else UpsertAll(old(store.markets), CycleWrites(FoundAll(tasks, gamma), batchSize, env, batches))
  {
    batches := 0;
    var tasks := Discovery.GenerateTasks(Discovery.COINS, Discovery.INTERVALS, latest, cfg, clock);
    var found := FetchMarkets(tasks, gamma, cancelled);
    if found.Some? {
      batches := UpsertAndMerge(store, found.value.0, found.value.1, batchSize, env);
    }
  }

  /** One refresh cycle over the rows that were selected from the table as it was when the cycle began. */
  method RunRefresh(store: MarketStore, selected: seq<string>, gamma: string -> Option<Gamma>, cancelled: nat -> bool,
                    batchSize: nat, env: Environment)
    returns (batches: nat)
    requires batchSize > 0 && forall slug | slug in selected :: slug in store.markets
    modifies store
    ensures store.markets ==
            if !Uncancelled(cancelled, |selected|) then old(store.markets)
            else UpsertAll(old(store.markets),
                           CycleWrites(RefreshedAll(selected, old(store.markets), gamma), batchSize, env, batches))
  {
    batches := 0;
    var updated := RefreshMarkets(selected, store.markets, gamma, cancelled);
    if updated.Some? {
      batches := UpsertAndMerge(store, updated.value.0, updated.value.1, batchSize, env);
    }
  }

  // ---- What cycles write ----

  /** m is one of the markets, plain or with the received books merged in. */
  ghost predicate ComesFrom(markets: seq<Market>, received: seq<Books>, m: Market) {
    exists i | 0 <= i < |markets| :: m == markets[i] || m == Merged(markets[i], received)
  }

  /** A market whose slug no other market of the batch has is the last to write its columns. */
  lemma {:induction false} LastStamped(markets: seq<Market>, stamp: int, i: nat, c: Column)
    requires i < |markets| && OnlySlug(markets, i)
    ensures LastWritten(Stamped(markets, stamp), markets[i].slug, c) == Get(markets[i].columns, c)
  {
    var writes := Stamped(markets, stamp);
    if c in markets[i].columns {
      LastWrittenIsLast(writes, markets[i].slug, c, i);
    } else {
      WrittenIffSet(writes, markets[i].slug, c);
    }
  }

  predicate OnlySlug(markets: seq<Market>, i: nat)
    requires i < |markets|
  {
    forall j | 0 <= j < |markets| && markets[j].slug == markets[i].slug :: j == i
  }

  /** After a cycle whose first upsert succeeds, a column that books do not touch holds what the market says. */
  lemma CycleStoresMarket(
    t: Table, markets: seq<Market>, batchSize: nat, env: Environment, batches: nat, i: nat, c: Column)
    requires batchSize > 0 && !env.fails1 && i < |markets| && OnlySlug(markets, i) && !IsBookColumn(c)
    ensures Cell(UpsertAll(t, CycleWrites(markets, batchSize, env, batches)), markets[i].slug, c) ==
            if c in markets[i].columns then Some(markets[i].columns[c]) else Cell(t, markets[i].slug, c)
  {
    var received := Received(env.answers, batches);
    var first, merged := Stamped(markets, env.stamp1), Stamped(MergedAll(markets, received), env.stamp2);
    ColumnIsRegister(t, CycleWrites(markets, batchSize, env, batches), markets[i].slug, c);
    LastWrittenAppend(first, merged, markets[i].slug, c);
    LastStamped(markets, env.stamp1, i, c);
    LastStamped(MergedAll(markets, received), env.stamp2, i, c);
    MergeKeepsOthers(markets[i].columns, received, c);
    assert first + [] == first;
  }

  /**
   After a cycle in which all requests for books were made and the second upsert
   succeeded, every column holds what the market says with the books merged in.
   */
  lemma CycleStoresMerged(
    t: Table, markets: seq<Market>, batchSize: nat, env: Environment, batches: nat, i: nat, c: Column)
    requires batchSize > 0 && !env.fails2 && i < |markets| && OnlySlug(markets, i)
    requires TokensOf(markets) != [] && batches == |Chunk(TokensOf(markets), batchSize)|
    ensures var columns := MergeAll(markets[i].columns, Received(env.answers, batches));
            Cell(UpsertAll(t, CycleWrites(markets, batchSize, env, batches)), markets[i].slug, c) ==
            if c in columns then Some(columns[c]) else Cell(t, markets[i].slug, c)
  {
    var received := Received(env.answers, batches);
    var first, merged := if env.fails1 then [] else Stamped(markets, env.stamp1),
                         Stamped(MergedAll(markets, received), env.stamp2);
    ColumnIsRegister(t, CycleWrites(markets, batchSize, env, batches), markets[i].slug, c);
    LastWrittenAppend(first, merged, markets[i].slug, c);
    LastStamped(markets, env.stamp1, i, c);
    LastStamped(MergedAll(markets, received), env.stamp2, i, c);
    MergeNeverNulls(markets[i].columns, received);
  }

  lemma StampedOrigin(markets: seq<Market>, stamp: int, w: Write) returns (i: nat)
    requires w in Stamped(markets, stamp)
    ensures i < |markets| && w == Write(markets[i], stamp)
  {
    i :| 0 <= i < |markets| && Stamped(markets, stamp)[i] == w;
  }

  lemma CycleWriteOrigin(markets: seq<Market>, batchSize: nat, env: Environment, batches: nat, w: Write)
    requires batchSize > 0 && w in CycleWrites(markets, batchSize, env, batches)
    ensures ComesFrom(markets, Received(env.answers, batches), w.market)
  {
    var received := Received(env.answers, batches);
    if w in Stamped(markets, env.stamp1) {
      var i := StampedOrigin(markets, env.stamp1, w);
    } else {
      var i := StampedOrigin(MergedAll(markets, received), env.stamp2, w);
      assert w.market == Merged(markets[i], received);
    }
  }

  /**
   The upsert before the merge leaves no trace in any column once the upsert
   after it is made, whatever other workers write in between.
   */
  lemma UpsertBeforeMergeIsAbsorbed(t: Table, markets: seq<Market>, env: Environment, batches: nat, between: seq<Write>,
                                    slug: string, c: Column)
    ensures var merged := MergedAll(markets, Received(env.answers, batches));
            Cell(UpsertAll(t, Stamped(markets, env.stamp1) + between + Stamped(merged, env.stamp2)), slug, c) ==
            Cell(UpsertAll(t, between + Stamped(merged, env.stamp2)), slug, c)
  {
    var merged := MergedAll(markets, Received(env.answers, batches));
    MergedSupersedes(markets, Received(env.answers, batches));
    FirstUpsertIsAbsorbed(t, markets, env.stamp1, between, merged, env.stamp2, slug, c);
  }

  lemma {:induction false} FoundOrigin(tasks: seq<Discovery.Task>, gamma: string -> Option<Gamma>, m: Market)
    requires m in FoundAll(tasks, gamma)
    ensures exists task :: task in tasks && gamma(task.slug).Some? &&
              m == MapGammaToMarket(gamma(task.slug).value, task.symbol, task.interval)
  {
    var n := |tasks| - 1;
    if m in FoundAll(tasks[..n], gamma) {
      FoundOrigin(tasks[..n], gamma, m);
      var task :| task in tasks[..n] && gamma(task.slug).Some? &&
        m == MapGammaToMarket(gamma(task.slug).value, task.symbol, task.interval);
      assert task in tasks;
    } else {
      assert tasks[n] in tasks;
    }
  }

  /** Gamma answers with the slug it was asked for and with the start date of that market. */
  ghost predicate GammaEchoes(gamma: string -> Option<Gamma>, symbol: string, interval: string, slug: string,
                              start: Discovery.StartDates)
  {
    gamma(slug).Some? ==>
      gamma(slug).value.slug == slug &&
      gamma(slug).value.startDate == Some(start(symbol, interval, Discovery.TsOf(slug, interval)))
  }

  /** Under that hypothesis, what discovery writes is what the run theorems assume of it. */
  lemma DiscoveryWritesAnswers(tasks: seq<Discovery.Task>, gamma: string -> Option<Gamma>, start: Discovery.StartDates,
                               batchSize: nat, env: Environment, batches: nat, w: Write)
    requires batchSize > 0 && w in CycleWrites(FoundAll(tasks, gamma), batchSize, env, batches)
    requires forall task | task in tasks :: GammaEchoes(gamma, task.symbol, task.interval, task.slug, start)
    ensures exists task :: task in tasks && gamma(task.slug).Some? && Discovery.Answers(w, task, start)
  {
    var markets := FoundAll(tasks, gamma);
    var received := Received(env.answers, batches);
    CycleWriteOrigin(markets, batchSize, env, batches, w);
    var i :| 0 <= i < |markets| && (w.market == markets[i] || w.market == Merged(markets[i], received));
    FoundOrigin(tasks, gamma, markets[i]);
    var task :| task in tasks && gamma(task.slug).Some? &&
      markets[i] == MapGammaToMarket(gamma(task.slug).value, task.symbol, task.interval);
    FoundAnswers(task, gamma, start, markets[i], received, w);
  }

  lemma FoundAnswers(task: Discovery.Task, gamma: string -> Option<Gamma>, start: Discovery.StartDates,
                     m: Market, received: seq<Books>, w: Write)
    requires GammaEchoes(gamma, task.symbol, task.interval, task.slug, start) && gamma(task.slug).Some?
    requires m == MapGammaToMarket(gamma(task.slug).value, task.symbol, task.interval)
    requires w.market == m || w.market == Merged(m, received)
    ensures Discovery.Answers(w, task, start)
  {
    MergeKeepsOthers(m.columns, received, StartDate);
    assert Get(m.columns, StartDate) == GammaColumn(gamma(task.slug).value, StartDate);
  }

  lemma {:induction false} RefreshedOrigin(selected: seq<string>, t: Table, gamma: string -> Option<Gamma>, m: Market)
    requires forall slug | slug in selected :: slug in t
    requires m in RefreshedAll(selected, t, gamma)
    ensures exists slug :: slug in selected && gamma(slug).Some? && m == Refreshed(gamma(slug).value, t[slug])
  {
    var n := |selected| - 1;
    if m in RefreshedAll(selected[..n], t, gamma) {
      RefreshedOrigin(selected[..n], t, gamma, m);
      var slug :| slug in selected[..n] && gamma(slug).Some? && m == Refreshed(gamma(slug).value, t[slug]);
      assert slug in selected;
    } else {
      assert selected[n] in selected;
    }
  }

  lemma RefreshedStartDate(g: Gamma, row: Row)
    ensures Get(Refreshed(g, row).columns, StartDate) == InstantIf(g.startDate)
  {
    var m := MapGammaToMarket(g, row.symbol, row.interval);
    assert Get(m.columns, StartDate) == GammaColumn(g, StartDate);
  }

  /** What refresh writes is written for a row of the table it read. */
  lemma RefreshWriteOrigin(selected: seq<string>, t: Table, gamma: string -> Option<Gamma>, batchSize: nat,
                           env: Environment, batches: nat, w: Write) returns (slug: string)
    requires forall s | s in selected :: s in t
    requires batchSize > 0 && w in CycleWrites(RefreshedAll(selected, t, gamma), batchSize, env, batches)
    ensures slug in selected && gamma(slug).Some?
    ensures var m := Refreshed(gamma(slug).value, t[slug]);
            w == Write(m, w.stamp) || w == Write(Merged(m, Received(env.answers, batches)), w.stamp)
  {
    var markets := RefreshedAll(selected, t, gamma);
    var received := Received(env.answers, batches);
    CycleWriteOrigin(markets, batchSize, env, batches, w);
    var i :| 0 <= i < |markets| && (w.market == markets[i] || w.market == Merged(markets[i], received));
    RefreshedOrigin(selected, t, gamma, markets[i]);
    slug :| slug in selected && gamma(slug).Some? && markets[i] == Refreshed(gamma(slug).value, t[slug]);
  }

  /** Whatever Gamma answers, a refresh cycle makes only writes of the kind that the token theorems speak of. */
  lemma RefreshWritesCarryTokens(selected: seq<string>, t: Table, gamma: string -> Option<Gamma>, batchSize: nat,
                                 env: Environment, batches: nat, w: Write)
    requires forall slug | slug in selected :: slug in t
    requires batchSize > 0 && w in CycleWrites(RefreshedAll(selected, t, gamma), batchSize, env, batches)
    ensures IsRefreshWrite(t, w, false)
  {
    var slug := RefreshWriteOrigin(selected, t, gamma, batchSize, env, batches, w);
    MergedRefreshIsRefreshWrite(t, slug, gamma(slug).value, Received(env.answers, batches), w.stamp);
  }

  /** If Gamma echoes, refresh only rewrites rows, keeping names, start dates and tokens. */
  lemma RefreshWritesRewrite(selected: seq<string>, t: Table, gamma: string -> Option<Gamma>,
                             start: Discovery.StartDates, batchSize: nat, env: Environment, batches: nat, w: Write)
    requires forall slug | slug in selected ::
               slug in t && GammaEchoes(gamma, t[slug].symbol, t[slug].interval, slug, start)
    requires batchSize > 0 && w in CycleWrites(RefreshedAll(selected, t, gamma), batchSize, env, batches)
    ensures Discovery.Rewrites(w, t, start) && DiscoveryRuns.WritesRow(w, t, start) && IsRefreshWrite(t, w, true)
  {
    var slug := RefreshWriteOrigin(selected, t, gamma, batchSize, env, batches, w);
    var g := gamma(slug).value;
    assert GammaEchoes(gamma, t[slug].symbol, t[slug].interval, slug, start);
    MergeKeepsOthers(Refreshed(g, t[slug]).columns, Received(env.answers, batches), StartDate);
    RefreshedStartDate(g, t[slug]);
    MergedRefreshIsRefreshWrite(t, slug, g, Received(env.answers, batches), w.stamp);
  }

  // ---- Discovery cycles with refreshes in between ----

  /** A refresh cycle: the table it read, the rows it selected there, and how it was answered. */
  datatype RefreshCycle = RefreshCycle(
    read: Table, selected: seq<string>, gamma: string -> Option<Gamma>, batchSize: nat, env: Environment, batches: nat)

  /** What refresh read may be out of date when it writes, but its rows are still there under their names. */
  ghost predicate ReadBefore(r: RefreshCycle, now: Table, start: Discovery.StartDates) {
    && r.batchSize > 0
    && (forall slug | slug in r.read :: Discovery.InPair(now, slug, r.read[slug].symbol, r.read[slug].interval))
    && (forall slug | slug in r.selected ::
          slug in r.read && GammaEchoes(r.gamma, r.read[slug].symbol, r.read[slug].interval, slug, start))
  }

  ghost predicate WritesOfRefresh(w: Write, now: Table, start: Discovery.StartDates) {
    exists r: RefreshCycle :: ReadBefore(r, now, start) &&
      w in CycleWrites(RefreshedAll(r.selected, r.read, r.gamma), r.batchSize, r.env, r.batches)
  }

  lemma LateRefreshWritesRow(w: Write, now: Table, start: Discovery.StartDates)
    requires WritesOfRefresh(w, now, start)
    ensures DiscoveryRuns.WritesRow(w, now, start)
  {
    var r: RefreshCycle :| ReadBefore(r, now, start) &&
      w in CycleWrites(RefreshedAll(r.selected, r.read, r.gamma), r.batchSize, r.env, r.batches);
    RefreshWritesRewrite(r.selected, r.read, r.gamma, start, r.batchSize, r.env, r.batches, w);
  }

  /**
   The writes of a discovery cycle, with those of any refresh cycles among them,
   make up a cycle in the sense of the run theorems, refreshes of rows that the
   same cycle has just inserted included.
   */
  lemma DiscoveryCycleIsOk(t: Table, cfg: Discovery.Config, start: Discovery.StartDates, c: Discovery.Cycle,
                           gamma: string -> Option<Gamma>, batchSize: nat, env: Environment, batches: nat)
    requires Discovery.OnGrid(t, start) && Discovery.IsLatest(t, c.latest) && Discovery.ClockOk(cfg, c) && batchSize > 0
    requires forall task | task in Discovery.Tasks(cfg, c) ::
               GammaEchoes(gamma, task.symbol, task.interval, task.slug, start)
    requires forall i | 0 <= i < |c.writes| ::
               c.writes[i] in CycleWrites(FoundAll(Discovery.Tasks(cfg, c), gamma), batchSize, env, batches) ||
               WritesOfRefresh(c.writes[i], UpsertAll(t, c.writes[..i]), start)
    ensures Discovery.CycleOk(t, cfg, start, c)
  {
    forall i | 0 <= i < |c.writes|
      ensures Discovery.IsAnswer(c.writes[i], cfg, start, c) ||
              DiscoveryRuns.WritesRow(c.writes[i], UpsertAll(t, c.writes[..i]), start)
    {
      if c.writes[i] in CycleWrites(FoundAll(Discovery.Tasks(cfg, c), gamma), batchSize, env, batches) {
        DiscoveryWritesAnswers(Discovery.Tasks(cfg, c), gamma, start, batchSize, env, batches, c.writes[i]);
      } else {
        LateRefreshWritesRow(c.writes[i], UpsertAll(t, c.writes[..i]), start);
      }
    }
    DiscoveryRuns.MixedWritesAreOk(t, cfg, start, c, c.writes, |c.writes|);
    assert c.writes[..|c.writes|] == c.writes;
  }

  lemma {:induction false} FoundCovers(tasks: seq<Discovery.Task>, gamma: string -> Option<Gamma>, task: Discovery.Task)
    requires task in tasks && gamma(task.slug).Some?
    ensures MapGammaToMarket(gamma(task.slug).value, task.symbol, task.interval) in FoundAll(tasks, gamma)
  {
    var n := |tasks| - 1;
    if task != tasks[n] {
      assert task in tasks[..n];
      FoundCovers(tasks[..n], gamma, task);
    }
  }

  /** A cycle whose first upsert succeeds writes a requested slug exactly if Gamma has a market for it. */
  lemma WrittenIffAnswered(tasks: seq<Discovery.Task>, gamma: string -> Option<Gamma>, start: Discovery.StartDates,
                           batchSize: nat, env: Environment, batches: nat, task: Discovery.Task)
    requires batchSize > 0 && !env.fails1 && task in tasks
    requires forall other | other in tasks :: GammaEchoes(gamma, other.symbol, other.interval, other.slug, start)
    ensures var writes := CycleWrites(FoundAll(tasks, gamma), batchSize, env, batches);
            gamma(task.slug).Some? <==> exists i | 0 <= i < |writes| :: writes[i].market.slug == task.slug
  {
    var markets := FoundAll(tasks, gamma);
    var writes := CycleWrites(markets, batchSize, env, batches);
    if gamma(task.slug).Some? {
      FoundCovers(tasks, gamma, task);
      var i :| 0 <= i < |markets| && markets[i] == MapGammaToMarket(gamma(task.slug).value, task.symbol, task.interval);
      assert writes[i] == Stamped(markets, env.stamp1)[i];
      assert writes[i].market.slug == task.slug;
    }
    if i :| 0 <= i < |writes| && writes[i].market.slug == task.slug {
      DiscoveryWritesAnswers(tasks, gamma, start, batchSize, env, batches, writes[i]);
    }
  }

  /** The writes of a discovery cycle are all among those of c, with refresh cycles in between, if at all. */
  ghost predicate IsCycle(t: Table, cfg: Discovery.Config, start: Discovery.StartDates, c: Discovery.Cycle,
                          gamma: string -> Option<Gamma>, batchSize: nat, env: Environment, batches: nat)
    requires batchSize > 0
  {
    var own := CycleWrites(FoundAll(Discovery.Tasks(cfg, c), gamma), batchSize, env, batches);
    && (forall i | 0 <= i < |own| :: own[i] in c.writes)
    && (forall i | 0 <= i < |c.writes| ::
          c.writes[i] in own || WritesOfRefresh(c.writes[i], UpsertAll(t, c.writes[..i]), start))
  }

  lemma {:induction false} FirstWrite(writes: seq<Write>, slug: string, i: nat) returns (first: nat)
    requires i < |writes| && writes[i].market.slug == slug
    ensures first < |writes| && writes[first].market.slug == slug
    ensures forall j | 0 <= j < first :: writes[j].market.slug != slug
  {
    if j :| 0 <= j < i && writes[j].market.slug == slug {
      first := FirstWrite(writes, slug, j);
    } else {
      first := i;
    }
  }

  /** The first write of a row that was not there is discovery's own: refresh only writes rows that are. */
  lemma NewRowIsDiscovered(
    t: Table, start: Discovery.StartDates, writes: seq<Write>, own: seq<Write>, slug: string, i: nat) returns (w: Write)
    requires slug !in t && i < |writes| && writes[i].market.slug == slug
    requires forall k | 0 <= k < |writes| ::
               writes[k] in own || WritesOfRefresh(writes[k], UpsertAll(t, writes[..k]), start)
    ensures w in own && w.market.slug == slug
  {
    var first := FirstWrite(writes, slug, i);
    w := writes[first];
    if w !in own {
      LateRefreshWritesRow(w, UpsertAll(t, writes[..first]), start);
      RowsAndIdentities(t, writes[..first], slug);
    }
  }

  /**
   A cycle whose first upsert succeeds finds a timestamp that it asks for exactly
   if Gamma has that market, whatever refresh does meanwhile.
   */
  lemma FindsIffAnswered(t: Table, cfg: Discovery.Config, start: Discovery.StartDates, c: Discovery.Cycle,
                         gamma: string -> Option<Gamma>, batchSize: nat, env: Environment, batches: nat,
                         p: Discovery.Pair, ts: int)
    requires Discovery.OnGrid(t, start) && Discovery.StartIncreasing(start) && cfg.futureCount >= 0
    requires Discovery.CycleOk(t, cfg, start, c) && batchSize > 0 && !env.fails1
    requires IsCycle(t, cfg, start, c, gamma, batchSize, env, batches)
    requires forall task | task in Discovery.Tasks(cfg, c) ::
               GammaEchoes(gamma, task.symbol, task.interval, task.slug, start)
    requires p.0 in Discovery.COINS && p.1 in Discovery.INTERVALS && ts in Discovery.Asked(p, cfg, c)
    ensures DiscoveryRuns.Finds(c, p, ts) <==> gamma(Slugs.PrintSlug(p.0, p.1, ts)).Some?
  {
    var slug := Slugs.PrintSlug(p.0, p.1, ts);
    var task := Discovery.Task(p.0, p.1, slug);
    var tasks := Discovery.Tasks(cfg, c);
    var own := CycleWrites(FoundAll(tasks, gamma), batchSize, env, batches);
    DiscoveryRuns.AskedIsTask(t, cfg, start, c, p, ts);
    WrittenIffAnswered(tasks, gamma, start, batchSize, env, batches, task);
    if DiscoveryRuns.Finds(c, p, ts) {
      var i :| 0 <= i < |c.writes| && c.writes[i].market.slug == slug;
      var w := NewRowIsDiscovered(t, start, c.writes, own, slug, i);
      var k :| 0 <= k < |own| && own[k] == w;
    }
    if gamma(slug).Some? {
      var k :| 0 <= k < |own| && own[k].market.slug == slug;
      assert own[k] in c.writes;
    }
  }

  /** The markets that Gamma has of what is asked for are a prefix of it. */
  ghost predicate AnswersPrefix(cfg: Discovery.Config, c: Discovery.Cycle, gamma: string -> Option<Gamma>,
                                p: Discovery.Pair)
    requires Slugs.KnownInterval(p.1)
  {
    var asked := Discovery.Asked(p, cfg, c);
    forall j, k | 0 <= j < k < |asked| && gamma(Slugs.PrintSlug(p.0, p.1, asked[k])).Some? ::
      gamma(Slugs.PrintSlug(p.0, p.1, asked[j])).Some?
  }

  /** So the condition under which no gap opens is one on Gamma's answers. */
  lemma FindsPrefixIffAnswersPrefix(t: Table, cfg: Discovery.Config, start: Discovery.StartDates, c: Discovery.Cycle,
                                    gamma: string -> Option<Gamma>, batchSize: nat, env: Environment, batches: nat,
                                    p: Discovery.Pair)
    requires Discovery.OnGrid(t, start) && Discovery.StartIncreasing(start) && cfg.futureCount >= 0
    requires Discovery.CycleOk(t, cfg, start, c) && batchSize > 0 && !env.fails1
    requires IsCycle(t, cfg, start, c, gamma, batchSize, env, batches)
    requires forall task | task in Discovery.Tasks(cfg, c) ::
               GammaEchoes(gamma, task.symbol, task.interval, task.slug, start)
    requires p.0 in Discovery.COINS && p.1 in Discovery.INTERVALS
    ensures DiscoveryRuns.FindsPrefix(cfg, c, p) <==> AnswersPrefix(cfg, c, gamma, p)
  {
    var asked := Discovery.Asked(p, cfg, c);
    forall k | 0 <= k < |asked|
      ensures DiscoveryRuns.Finds(c, p, asked[k]) <==> gamma(Slugs.PrintSlug(p.0, p.1, asked[k])).Some?
    {
      FindsIffAnswered(t, cfg, start, c, gamma, batchSize, env, batches, p, asked[k]);
    }
  }

  lemma {:induction false} RefreshedCovers(
    selected: seq<string>, t: Table, gamma: string -> Option<Gamma>, slug: string)
    requires forall s | s in selected :: s in t
    requires slug in selected && gamma(slug).Some?
    ensures Refreshed(gamma(slug).value, t[slug]) in RefreshedAll(selected, t, gamma)
  {
    var n := |selected| - 1;
    if slug != selected[n] {
      assert slug in selected[..n];
      RefreshedCovers(selected[..n], t, gamma, slug);
    }
  }

  /** A selected row is written by the cycle if Gamma answers for it with its slug and the first upsert succeeds. */
  lemma AnsweredIsTouched(selected: seq<string>, t: Table, gamma: string -> Option<Gamma>, cutoff: int,
                          batchSize: nat, env: Environment, batches: nat, slug: string)
    requires forall s | s in selected :: s in t
    requires batchSize > 0 && slug in selected && gamma(slug).Some? && gamma(slug).value.slug == slug && !env.fails1
    ensures var writes := CycleWrites(RefreshedAll(selected, t, gamma), batchSize, env, batches);
            RefreshSchedule.Touches(RefreshSchedule.Cycle(cutoff, selected, writes), slug)
  {
    var markets := RefreshedAll(selected, t, gamma);
    RefreshedCovers(selected, t, gamma, slug);
    var i :| 0 <= i < |markets| && markets[i] == Refreshed(gamma(slug).value, t[slug]);
    var writes := CycleWrites(markets, batchSize, env, batches);
    assert writes[i] == Stamped(markets, env.stamp1)[i];
    assert writes[i].market.slug == slug;
  }

  // ---- What a row holds after a cycle ----

  /** Gamma answers for each of the slugs, if at all, with a market of that slug. */
  ghost predicate EchoesSlugs(gamma: string -> Option<Gamma>, slugs: seq<string>) {
    forall slug | slug in slugs && gamma(slug).Some? :: gamma(slug).value.slug == slug
  }

  predicate DistinctSlugs(markets: seq<Market>) {
    forall i, j | 0 <= i < j < |markets| :: markets[i].slug != markets[j].slug
  }

  lemma {:induction false} RefreshedSlugsDistinct(selected: seq<string>, t: Table, gamma: string -> Option<Gamma>)
    requires forall s | s in selected :: s in t
    requires EchoesSlugs(gamma, selected) && forall i, j | 0 <= i < j < |selected| :: selected[i] != selected[j]
    ensures DistinctSlugs(RefreshedAll(selected, t, gamma))
  {
    if selected != [] {
      var n := |selected| - 1;
      var before := RefreshedAll(selected[..n], t, gamma);
      assert forall s | s in selected[..n] :: s in selected;
      RefreshedSlugsDistinct(selected[..n], t, gamma);
      forall i | 0 <= i < |before|
        ensures before[i].slug != selected[n]
      {
        RefreshedOrigin(selected[..n], t, gamma, before[i]);
        var s :| s in selected[..n] && gamma(s).Some? && before[i] == Refreshed(gamma(s).value, t[s]);
        assert s in selected;
      }
      assert selected[n] in selected;
    }
  }

  lemma {:induction false} FoundSlugsDistinct(tasks: seq<Discovery.Task>, gamma: string -> Option<Gamma>)
    requires forall task | task in tasks && gamma(task.slug).Some? :: gamma(task.slug).value.slug == task.slug
    requires Discovery.DistinctSlugs(tasks)
    ensures DistinctSlugs(FoundAll(tasks, gamma))
  {
    if tasks != [] {
      var n := |tasks| - 1;
      var before := FoundAll(tasks[..n], gamma);
      assert forall task | task in tasks[..n] :: task in tasks;
      FoundSlugsDistinct(tasks[..n], gamma);
      forall i | 0 <= i < |before|
        ensures before[i].slug != tasks[n].slug
      {
        FoundOrigin(tasks[..n], gamma, before[i]);
        var task :| task in tasks[..n] && gamma(task.slug).Some? &&
          before[i] == MapGammaToMarket(gamma(task.slug).value, task.symbol, task.interval);
        assert task in tasks;
      }
      assert tasks[n] in tasks;
    }
  }

  /** A text, number or instant of Gamma's where it has one, else what was stored. */
  predicate TextStored(now: Option<Value>, said: string, before: Option<Value>) {
    now == if said != "" then Some(Text(said)) else before
  }

  predicate NumberStored(now: Option<Value>, said: real, before: Option<Value>) {
    now == if said > 0.0 then Some(Float(FromJson(said))) else before
  }

  predicate InstantStored(now: Option<Value>, said: Option<int>, before: Option<Value>) {
    now == if said.Some? then Some(Instant(said.value)) else before
  }

  predicate HoldsTexts(cs: Columns, stored: Columns, g: Gamma) {
    && TextStored(Get(cs, ConditionId), g.conditionId, Get(stored, ConditionId))
    && TextStored(Get(cs, GammaMarketId), g.id, Get(stored, GammaMarketId))
    && TextStored(Get(cs, Question), g.question, Get(stored, Question))
    && TextStored(Get(cs, Outcomes), g.outcomes, Get(stored, Outcomes))
    && InstantStored(Get(cs, StartDate), g.startDate, Get(stored, StartDate))
    && InstantStored(Get(cs, EndDate), g.endDate, Get(stored, EndDate))
  }

  predicate HoldsSizes(cs: Columns, stored: Columns, g: Gamma) {
    && NumberStored(Get(cs, OrderMinSize), g.orderMinSize, Get(stored, OrderMinSize))
    && NumberStored(Get(cs, OrderPriceMinTickSize), g.orderPriceMinTickSize, Get(stored, OrderPriceMinTickSize))
    && NumberStored(Get(cs, VolumeClob), g.volumeClob, Get(stored, VolumeClob))
    && NumberStored(Get(cs, VolumeNum), g.volumeNum, Get(stored, VolumeNum))
  }

  /** But for tokens and the columns that books replace, the columns hold what Gamma says over what was stored. */
  predicate HoldsAnswer(cs: Columns, stored: Columns, g: Gamma) {
    FlagsReadBack(cs, g) && StatusReadsBack(cs, g) && HoldsTexts(cs, stored, g) && HoldsSizes(cs, stored, g)
  }

  /** The columns that were stored, if any. */
  function StoredColumns(t: Table, slug: string): Columns {
    if slug in t then t[slug].columns else map[]
  }

  /** The column holds what Gamma's answer maps to, over what was stored. */
  ghost predicate HoldsMapped(cs: Columns, stored: Columns, g: Gamma, c: Column) {
    Get(cs, c) == if GammaColumn(g, c).Some? then GammaColumn(g, c) else Get(stored, c)
  }

  lemma MappedTextsAreHeld(cs: Columns, stored: Columns, g: Gamma)
    requires forall c | !IsBookColumn(c) && !IsTokenColumn(c) :: HoldsMapped(cs, stored, g, c)
    ensures HoldsTexts(cs, stored, g)
  {
    assert HoldsMapped(cs, stored, g, ConditionId) && HoldsMapped(cs, stored, g, GammaMarketId);
    assert HoldsMapped(cs, stored, g, Question) && HoldsMapped(cs, stored, g, Outcomes);
    assert HoldsMapped(cs, stored, g, StartDate) && HoldsMapped(cs, stored, g, EndDate);
  }

  lemma MappedFlagsAreHeld(cs: Columns, stored: Columns, g: Gamma)
    requires forall c | !IsBookColumn(c) && !IsTokenColumn(c) :: HoldsMapped(cs, stored, g, c)
    ensures FlagsReadBack(cs, g) && StatusReadsBack(cs, g)
  {
    assert HoldsMapped(cs, stored, g, EnableOrderBook) && HoldsMapped(cs, stored, g, AcceptingOrders);
    assert HoldsMapped(cs, stored, g, Ready) && HoldsMapped(cs, stored, g, Funded);
    assert HoldsMapped(cs, stored, g, Status);
  }

  lemma MappedNumberIsHeld(cs: Columns, stored: Columns, g: Gamma, c: Column, x: real)
    requires HoldsMapped(cs, stored, g, c) && GammaColumn(g, c) == FloatIf(x)
    ensures NumberStored(Get(cs, c), x, Get(stored, c))
  {
  }

  lemma MappedIsHeld(cs: Columns, stored: Columns, g: Gamma)
    requires forall c | !IsBookColumn(c) && !IsTokenColumn(c) :: HoldsMapped(cs, stored, g, c)
    ensures HoldsAnswer(cs, stored, g)
  {
    MappedTextsAreHeld(cs, stored, g);
    MappedFlagsAreHeld(cs, stored, g);
    MappedNumberIsHeld(cs, stored, g, OrderMinSize, g.orderMinSize);
    MappedNumberIsHeld(cs, stored, g, OrderPriceMinTickSize, g.orderPriceMinTickSize);
    MappedNumberIsHeld(cs, stored, g, VolumeClob, g.volumeClob);
    MappedNumberIsHeld(cs, stored, g, VolumeNum, g.volumeNum);
  }

  /**
   After a refresh cycle whose first upsert succeeds, every selected row that Gamma
   answered for holds what it said.
   */
  lemma RefreshStoresAnswer(selected: seq<string>, t: Table, gamma: string -> Option<Gamma>,
                            batchSize: nat, env: Environment, batches: nat, slug: string)
    requires forall s | s in selected :: s in t
    requires EchoesSlugs(gamma, selected) && forall i, j | 0 <= i < j < |selected| :: selected[i] != selected[j]
    requires batchSize > 0 && !env.fails1 && slug in selected && gamma(slug).Some?
    ensures var after := UpsertAll(t, CycleWrites(RefreshedAll(selected, t, gamma), batchSize, env, batches));
            slug in after && HoldsAnswer(after[slug].columns, t[slug].columns, gamma(slug).value)
  {
    var g, markets := gamma(slug).value, RefreshedAll(selected, t, gamma);
    var after := UpsertAll(t, CycleWrites(markets, batchSize, env, batches));
    RefreshedSlugsDistinct(selected, t, gamma);
    RefreshedCovers(selected, t, gamma, slug);
    var i :| 0 <= i < |markets| && markets[i] == Refreshed(g, t[slug]);
    assert OnlySlug(markets, i);
    RowsAndIdentities(t, CycleWrites(markets, batchSize, env, batches), slug);
    forall c | !IsBookColumn(c) && !IsTokenColumn(c)
      ensures HoldsMapped(after[slug].columns, t[slug].columns, g, c)
    {
      CycleStoresMarket(t, markets, batchSize, env, batches, i, c);
      KeepsOtherColumns(g, t[slug], c);
      assert Get(MapGammaToMarket(g, t[slug].symbol, t[slug].interval).columns, c) == GammaColumn(g, c);
    }
    MappedIsHeld(after[slug].columns, t[slug].columns, g);
  }

  lemma StatusDecides(row: Row, g: Gamma, cutoff: int)
    requires StatusReadsBack(row.columns, g)
    ensures RefreshSchedule.Eligible(row, cutoff) <==>
            (row.interval == "5m" || row.interval == "15m") && ((!g.closed && !g.funded) || row.updatedAt < cutoff)
  {
  }

  /**
   So it is for refresh to decide what it selects again: a row that Gamma reports
   neither closed nor funded at any time, the others when they are stored enough.
   */
  lemma RefreshDecidesEligibility(selected: seq<string>, t: Table, gamma: string -> Option<Gamma>, batchSize: nat,
                                  env: Environment, batches: nat, slug: string, cutoff: int)
    requires forall s | s in selected :: s in t
    requires EchoesSlugs(gamma, selected) && forall i, j | 0 <= i < j < |selected| :: selected[i] != selected[j]
    requires batchSize > 0 && !env.fails1 && slug in selected && gamma(slug).Some?
    ensures var after := UpsertAll(t, CycleWrites(RefreshedAll(selected, t, gamma), batchSize, env, batches));
            var g := gamma(slug).value;
            slug in after &&
            (RefreshSchedule.Eligible(after[slug], cutoff) <==>
               (t[slug].interval == "5m" || t[slug].interval == "15m") &&
               ((!g.closed && !g.funded) || after[slug].updatedAt < cutoff))
  {
    var writes := CycleWrites(RefreshedAll(selected, t, gamma), batchSize, env, batches);
    RefreshStoresAnswer(selected, t, gamma, batchSize, env, batches, slug);
    RowsAndIdentities(t, writes, slug);
    StatusDecides(UpsertAll(t, writes)[slug], gamma(slug).value, cutoff);
  }

  /** After a discovery cycle whose first upsert succeeds, the row of every task that Gamma answered for does. */
  lemma DiscoveryStoresAnswer(tasks: seq<Discovery.Task>, t: Table, gamma: string -> Option<Gamma>,
                              batchSize: nat, env: Environment, batches: nat, task: Discovery.Task)
    requires forall other | other in tasks && gamma(other.slug).Some? :: gamma(other.slug).value.slug == other.slug
    requires Discovery.DistinctSlugs(tasks)
    requires batchSize > 0 && !env.fails1 && task in tasks && gamma(task.slug).Some?
    ensures var after := UpsertAll(t, CycleWrites(FoundAll(tasks, gamma), batchSize, env, batches));
            && task.slug in after
            && HoldsAnswer(after[task.slug].columns, StoredColumns(t, task.slug), gamma(task.slug).value)
            && (task.slug !in t ==>
                  after[task.slug].symbol == task.symbol && after[task.slug].interval == task.interval)
  {
    var g, markets := gamma(task.slug).value, FoundAll(tasks, gamma);
    var writes := CycleWrites(markets, batchSize, env, batches);
    var after := UpsertAll(t, writes);
    FoundSlugsDistinct(tasks, gamma);
    FoundCovers(tasks, gamma, task);
    var i :| 0 <= i < |markets| && markets[i] == MapGammaToMarket(g, task.symbol, task.interval);
    assert OnlySlug(markets, i);
    assert writes[i] == Stamped(markets, env.stamp1)[i];
    assert writes[i].market.slug == task.slug;
    RowsAndIdentities(t, writes, task.slug);
    forall c | !IsBookColumn(c) && !IsTokenColumn(c)
      ensures HoldsMapped(after[task.slug].columns, StoredColumns(t, task.slug), g, c)
    {
      CycleStoresMarket(t, markets, batchSize, env, batches, i, c);
      assert Get(markets[i].columns, c) == GammaColumn(g, c);
    }
    MappedIsHeld(after[task.slug].columns, StoredColumns(t, task.slug), g);
    if task.slug !in t {
      assert forall j | 0 <= j < i :: writes[j].market.slug == markets[j].slug;
      FirstWriteNames(t, writes, task.slug, i);
    }
  }
}
