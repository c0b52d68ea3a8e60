/** What any sequence of discovery cycles keeps, with refresh writes in between. */
module DiscoveryRuns {
  import opened Wrappers
  import opened GoText
  import opened Slugs
  import opened MarketTable
  import opened Discovery

  function WritesOf(c: Cycle): seq<Write> {
    c.writes
  }

  function TableAfter(t: Table, cycles: seq<Cycle>): Table {
    AfterCycles(t, cycles, WritesOf)
  }

  ghost predicate RunOk(t: Table, cfg: Config, start: StartDates, cycles: seq<Cycle>)
    decreases |cycles|
  {
    cycles == [] ||
    (CycleOk(t, cfg, start, cycles[0]) && RunOk(UpsertAll(t, cycles[0].writes), cfg, start, cycles[1..]))
  }

  // ---- The grid invariant ----

  /** A row that is written again under its own name keeps its name and its start date. */
  lemma WriteKeepsGrid(u: Table, start: StartDates, w: Write, symbol: string, interval: string)
    requires OnGrid(u, start) && WellFormed(symbol, interval, w.market.slug)
    requires w.market.slug in u ==> u[w.market.slug].symbol == symbol && u[w.market.slug].interval == interval
    requires w.market.slug !in u ==>
             w.market.symbol == symbol && w.market.interval == interval && StartDate in w.market.columns
    requires StartDate in w.market.columns ==>
             w.market.columns[StartDate] == Instant(start(symbol, interval, TsOf(w.market.slug, interval)))
    ensures OnGrid(Upsert(u, w), start)
  {
    var u' := Upsert(u, w);
    forall slug | slug in u'
      ensures RowOk(slug, u'[slug], start)
    {
      if slug in u {
        assert RowOk(slug, u[slug], start);
      }
    }
  }

  lemma SameName(symbol1: string, interval1: string, symbol2: string, interval2: string, slug: string)
    requires WellFormed(symbol1, interval1, slug) && WellFormed(symbol2, interval2, slug)
    ensures symbol1 == symbol2 && interval1 == interval2
  {
    PrintSlugInjective(symbol1, interval1, TsOf(slug, interval1), symbol2, interval2, TsOf(slug, interval2));
  }

  /** A cycle asks for no slug twice. */
  lemma TasksDistinct(t: Table, cfg: Config, start: StartDates, c: Cycle)
    requires OnGrid(t, start) && IsLatest(t, c.latest) && ClockOk(cfg, c)
    ensures DistinctSlugs(Tasks(cfg, c))
  {
    var pairs, source := PairsOf(COINS, INTERVALS), Source(c.latest, cfg, c.clock);
    forall p | p in pairs
      ensures KnownInterval(p.1) && source(p) == PrintAll(p.0, p.1, Asked(p, cfg, c))
      ensures Distinct(source(p))
      ensures forall slug | slug in source(p) :: WellFormed(p.0, p.1, slug)
    {
      PairIffListed(COINS, INTERVALS, p);
      SourceDistinct(t, cfg, start, c, p);
    }
    forall p, q, slug | p in pairs && q in pairs && slug in source(p) && slug in source(q)
      ensures p == q
    {
      SameName(p.0, p.1, q.0, q.1, slug);
    }
    PairsDistinct(COINS, INTERVALS);
    TasksFromDistinct(pairs, source);
  }

  lemma SourceDistinct(t: Table, cfg: Config, start: StartDates, c: Cycle, p: Pair)
    requires OnGrid(t, start) && IsLatest(t, c.latest) && ClockOk(cfg, c) && KnownInterval(p.1)
    ensures var slugs := PrintAll(p.0, p.1, Asked(p, cfg, c));
            && PairSlugs(p.0, p.1, c.latest, cfg, c.clock(p)) == slugs
            && Distinct(slugs)
            && (forall slug | slug in slugs :: WellFormed(p.0, p.1, slug))
  {
    var asked := Asked(p, cfg, c);
    assert p in c.latest ==> RowOk(c.latest[p], t[c.latest[p]], start);
    PairSlugsAreAsked(p, cfg, c);
    forall slug | slug in PrintAll(p.0, p.1, asked)
      ensures WellFormed(p.0, p.1, slug)
    {
      AskedSlugShape(p, cfg, c, slug);
    }
    forall i, j | 0 <= i < j < |asked|
      ensures PrintSlug(p.0, p.1, asked[i]) != PrintSlug(p.0, p.1, asked[j])
    {
      AskedDistinct(p, cfg, c, i, j);
      AskedShape(p, cfg, c, asked[i]);
      AskedShape(p, cfg, c, asked[j]);
      if PrintSlug(p.0, p.1, asked[i]) == PrintSlug(p.0, p.1, asked[j]) {
        PrintSlugInjective(p.0, p.1, asked[i], p.0, p.1, asked[j]);
      }
    }
  }

  lemma {:induction false} WritesKeepGrid(t: Table, cfg: Config, start: StartDates, c: Cycle, writes: seq<Write>)
    requires OnGrid(t, start) && IsLatest(t, c.latest) && ClockOk(cfg, c)
    requires forall w | w in writes :: IsAnswer(w, cfg, start, c) || Rewrites(w, t, start)
    ensures OnGrid(UpsertAll(t, writes), start)
  {
    if writes != [] {
      var n := |writes| - 1;
      var u, w := UpsertAll(t, writes[..n]), writes[n];
      var slug := w.market.slug;
      WritesKeepGrid(t, cfg, start, c, writes[..n]);
      assert slug in u ==> RowOk(slug, u[slug], start);
      if task :| task in Tasks(cfg, c) && Answers(w, task, start) {
        TaskShape(t, cfg, start, c, task);
        if slug in u {
          SameName(u[slug].symbol, u[slug].interval, task.symbol, task.interval, slug);
        }
        WriteKeepsGrid(u, start, w, task.symbol, task.interval);
      } else {
        assert w in writes && Rewrites(w, t, start);
        RowsAndIdentities(t, writes[..n], slug);
        WriteKeepsGrid(u, start, w, t[slug].symbol, t[slug].interval);
      }
    }
  }

  lemma CycleKeepsGrid(t: Table, cfg: Config, start: StartDates, c: Cycle)
    requires OnGrid(t, start) && CycleOk(t, cfg, start, c)
    ensures OnGrid(UpsertAll(t, c.writes), start)
  {
    WritesKeepGrid(t, cfg, start, c, c.writes);
  }

  /** No stored market ever disappears or changes its pair. */
  lemma {:induction false} RunKeepsRows(t: Table, cycles: seq<Cycle>, slug: string, symbol: string, interval: string)
    requires InPair(t, slug, symbol, interval)
    ensures InPair(TableAfter(t, cycles), slug, symbol, interval)
    decreases |cycles|
  {
    if cycles != [] {
      RowsAndIdentities(t, cycles[0].writes, slug);
      RunKeepsRows(UpsertAll(t, cycles[0].writes), cycles[1..], slug, symbol, interval);
    }
  }

  lemma {:induction false} RunKeepsGrid(t: Table, cfg: Config, start: StartDates, cycles: seq<Cycle>)
    requires OnGrid(t, start) && RunOk(t, cfg, start, cycles)
    ensures OnGrid(TableAfter(t, cycles), start)
    decreases |cycles|
  {
    if cycles != [] {
      CycleKeepsGrid(t, cfg, start, cycles[0]);
      RunKeepsGrid(UpsertAll(t, cycles[0].writes), cfg, start, cycles[1..]);
    }
  }

  lemma {:induction false} RunOkSplit(t: Table, cfg: Config, start: StartDates, before: seq<Cycle>, c: Cycle)
    requires RunOk(t, cfg, start, before + [c])
    ensures RunOk(t, cfg, start, before) && CycleOk(TableAfter(t, before), cfg, start, c)
    decreases |before|
  {
    if before == [] {
      assert (before + [c])[0] == c;
    } else {
      assert (before + [c])[0] == before[0] && (before + [c])[1..] == before[1..] + [c];
      RunOkSplit(UpsertAll(t, before[0].writes), cfg, start, before[1..], c);
    }
  }

  /**
   From an empty store, in every reachable state every slug is well formed, and
   whatever a cycle asks for is newer than everything stored for its pair,
   whether the cycle is anchored or falls back on the clock.
   */
  lemma DiscoveryRun(cfg: Config, start: StartDates, before: seq<Cycle>, c: Cycle, task: Task, slug: string)
    requires StartIncreasing(start) && cfg.futureCount >= 0 && RunOk(map[], cfg, start, before + [c])
    ensures var t := TableAfter(map[], before);
            && OnGrid(t, start)
            && (task in Tasks(cfg, c) ==> WellFormed(task.symbol, task.interval, task.slug))
            && (task in Tasks(cfg, c) && InPair(t, slug, task.symbol, task.interval) ==>
                  TsOf(slug, task.interval) < TsOf(task.slug, task.interval))
  {
    RunOkSplit(map[], cfg, start, before, c);
    RunKeepsGrid(map[], cfg, start, before);
    var t := TableAfter(map[], before);
    if task in Tasks(cfg, c) {
      TaskShape(t, cfg, start, c, task);
      if InPair(t, slug, task.symbol, task.interval) {
        RequestsAreNew(t, cfg, start, c, task, slug);
      }
    }
  }

  // ---- Gaps ----

  function Stored(t: Table, p: Pair): set<int> {
    set slug | slug in t && InPair(t, slug, p.0, p.1) :: TsOf(slug, p.1)
  }

  lemma StoredIffSlug(t: Table, start: StartDates, p: Pair, ts: int)
    requires OnGrid(t, start) && KnownInterval(p.1) && IsInt64(ts)
    ensures ts in Stored(t, p) <==> PrintSlug(p.0, p.1, ts) in t
  {
    var slug := PrintSlug(p.0, p.1, ts);
    SlugRoundTrip(p.0, p.1, ts);
    if ts in Stored(t, p) {
      var s :| s in t && InPair(t, s, p.0, p.1) && TsOf(s, p.1) == ts;
      assert RowOk(s, t[s], start);
    }
    if slug in t {
      var row := t[slug];
      assert RowOk(slug, row, start);
      PrintSlugInjective(row.symbol, row.interval, TsOf(slug, row.interval), p.0, p.1, ts);
      assert InPair(t, slug, p.0, p.1) && TsOf(slug, p.1) == ts;
    }
  }

  /** What a cycle adds to a pair is among what it asked for. */
  lemma NewlyStored(t: Table, cfg: Config, start: StartDates, c: Cycle, p: Pair, ts: int)
    requires OnGrid(t, start) && CycleOk(t, cfg, start, c) && KnownInterval(p.1) && IsInt64(ts)
    requires ts in Stored(UpsertAll(t, c.writes), p) && ts !in Stored(t, p)
    ensures ts in Asked(p, cfg, c)
  {
    var slug := PrintSlug(p.0, p.1, ts);
    CycleKeepsGrid(t, cfg, start, c);
    StoredIffSlug(t, start, p, ts);
    StoredIffSlug(UpsertAll(t, c.writes), start, p, ts);
    RowsAndIdentities(t, c.writes, slug);
    var i :| 0 <= i < |c.writes| && c.writes[i].market.slug == slug;
    assert c.writes[i] in c.writes && !Rewrites(c.writes[i], t, start);
    var task :| task in Tasks(cfg, c) && Answers(c.writes[i], task, start);
    TaskShape(t, cfg, start, c, task);
    PrintSlugInjective(task.symbol, task.interval, TsOf(slug, task.interval), p.0, p.1, ts);
  }

  lemma StoredGrows(t: Table, writes: seq<Write>, p: Pair, ts: int)
    requires ts in Stored(t, p)
    ensures ts in Stored(UpsertAll(t, writes), p)
  {
    var slug :| slug in t && InPair(t, slug, p.0, p.1) && TsOf(slug, p.1) == ts;
    RowsAndIdentities(t, writes, slug);
    assert InPair(UpsertAll(t, writes), slug, p.0, p.1);
  }

  /** The newest stored timestamp of a pair. */
  ghost predicate IsNewest(t: Table, p: Pair, ts: int) {
    ts in Stored(t, p) && forall other | other in Stored(t, p) :: other <= ts
  }

  lemma {:induction false} GreatestFrom(s: set<int>, x: int) returns (greatest: int)
    requires x in s
    ensures greatest in s && forall y | y in s :: y <= greatest
  {
    if y :| y in s && y > x {
      greatest := GreatestFrom(s - {x}, y);
      assert forall z | z in s :: z == x || z in s - {x};
    } else {
      greatest := x;
    }
  }

  lemma {:induction false} RunKeepsStored(t: Table, cycles: seq<Cycle>, p: Pair, ts: int)
    requires ts in Stored(t, p)
    ensures ts in Stored(TableAfter(t, cycles), p)
    decreases |cycles|
  {
    if cycles != [] {
      StoredGrows(t, cycles[0].writes, p, ts);
      RunKeepsStored(UpsertAll(t, cycles[0].writes), cycles[1..], p, ts);
    }
  }

  /** Once a pair has a market it always has a newest one, which never gets older. */
  lemma NewestNeverDecreases(t: Table, cycles: seq<Cycle>, p: Pair, newest: int) returns (later: int)
    requires IsNewest(t, p, newest)
    ensures IsNewest(TableAfter(t, cycles), p, later) && newest <= later
    ensures forall other | IsNewest(TableAfter(t, cycles), p, other) :: other == later
  {
    RunKeepsStored(t, cycles, p, newest);
    later := GreatestFrom(Stored(TableAfter(t, cycles), p), newest);
  }

  lemma StoredIsOnGrid(t: Table, start: StartDates, p: Pair, ts: int)
    requires OnGrid(t, start) && ts in Stored(t, p)
    ensures KnownInterval(p.1) && 0 <= ts && IsInt64(ts) && ts % Duration(p.1).value == 0
  {
    var slug :| slug in t && InPair(t, slug, p.0, p.1) && TsOf(slug, p.1) == ts;
    assert RowOk(slug, t[slug], start);
  }

  /** The timestamp that discovery anchors on. */
  function Anchor(c: Cycle, p: Pair): int
    requires p in c.latest
  {
    TsOf(c.latest[p], p.1)
  }

  lemma AnchorIsStored(t: Table, start: StartDates, c: Cycle, p: Pair)
    requires OnGrid(t, start) && StartIncreasing(start) && IsLatest(t, c.latest) && p in c.latest
    ensures Anchor(c, p) in Stored(t, p) && KnownInterval(p.1)
    ensures forall ts | ts in Stored(t, p) :: ts <= Anchor(c, p)
  {
    var latest := c.latest[p];
    assert InPair(t, latest, p.0, p.1);
    assert RowOk(latest, t[latest], start);
    forall ts | ts in Stored(t, p)
      ensures ts <= Anchor(c, p)
    {
      var slug :| slug in t && InPair(t, slug, p.0, p.1) && TsOf(slug, p.1) == ts;
      AnchorIsNewest(t, start, c.latest, p, slug);
    }
  }

  lemma CycleAsksForNewer(t: Table, cfg: Config, start: StartDates, c: Cycle, p: Pair, ts: int, stored: int)
    requires OnGrid(t, start) && StartIncreasing(start) && CycleOk(t, cfg, start, c) && cfg.futureCount >= 0
    requires KnownInterval(p.1) && stored in Stored(t, p) && ts in Asked(p, cfg, c)
    ensures stored < ts
  {
    var slug :| slug in t && InPair(t, slug, p.0, p.1) && TsOf(slug, p.1) == stored;
    AnchorIsNewest(t, start, c.latest, p, slug);
    RequestedIsNewer(Anchor(c, p), Duration(p.1).value, cfg, c.clock(p), ts);
  }

  /** A window that is passed over is never stored, however discovery goes on. */
  lemma {:induction false} GapIsPermanent(
    t: Table, cfg: Config, start: StartDates, cycles: seq<Cycle>, p: Pair, gap: int, later: int)
    requires OnGrid(t, start) && StartIncreasing(start) && RunOk(t, cfg, start, cycles) && cfg.futureCount >= 0
    requires KnownInterval(p.1) && IsInt64(gap)
    requires gap !in Stored(t, p) && later in Stored(t, p) && gap <= later
    ensures gap !in Stored(TableAfter(t, cycles), p)
    decreases |cycles|
  {
    if cycles != [] {
      var c := cycles[0];
      var t' := UpsertAll(t, c.writes);
      if gap in Stored(t', p) {
        NewlyStored(t, cfg, start, c, p, gap);
        CycleAsksForNewer(t, cfg, start, c, p, gap, later);
      }
      StoredGrows(t, c.writes, p, later);
      CycleKeepsGrid(t, cfg, start, c);
      GapIsPermanent(t', cfg, start, cycles[1..], p, gap, later);
    }
  }

  /** From the given window up to the newest one stored, no window of the grid is missing. */
  ghost predicate GapFree(stored: set<int>, from: int, dur: int)
    requires dur > 0
  {
    forall ts, newer | newer in stored && from <= ts <= newer && ts % dur == from % dur :: ts in stored
  }

  /** Whatever of the candidates is stored is a prefix of them. */
  ghost predicate PrefixStored(stored: set<int>, candidates: seq<int>) {
    forall j, k | 0 <= j < k < |candidates| && candidates[k] in stored :: candidates[j] in stored
  }

  lemma GapFreeFromPrefix(before: set<int>, after: set<int>, from: int, anchor: int, dur: int, n: int)
    requires (dur == 300 || dur == 900) && Fits(anchor, dur, n)
    requires anchor in before && from <= anchor && anchor % dur == from % dur && GapFree(before, from, dur)
    requires forall ts | ts in before :: ts <= anchor && ts in after
    requires forall ts | ts in after && ts !in before :: ts in Following(anchor, dur, n)
    ensures GapFree(after, from, dur) <==> PrefixStored(after, Following(anchor, dur, n))
  {
    var f := Following(anchor, dur, n);
    if GapFree(after, from, dur) {
      forall j, k | 0 <= j < k < |f| && f[k] in after
        ensures f[j] in after
      {
        FollowingAt(anchor, dur, n, j);
        FollowingAt(anchor, dur, n, k);
        assert f[j] in f;
        FollowingIsNextGridPoints(anchor, dur, n, f[j]);
      }
    }
    if PrefixStored(after, f) {
      forall ts, newer | newer in after && from <= ts <= newer && ts % dur == from % dur
        ensures ts in after
      {
        if ts > anchor && ts < newer {
          FollowingIsNextGridPoints(anchor, dur, n, newer);
          FollowingIsNextGridPoints(anchor, dur, n, ts);
          var j :| 0 <= j < |f| && f[j] == ts;
          var k :| 0 <= k < |f| && f[k] == newer;
          FollowingAt(anchor, dur, n, j);
          FollowingAt(anchor, dur, n, k);
          assert j < k;
        }
      }
    }
  }

  ghost predicate Anchored(cfg: Config, c: Cycle, p: Pair) {
    && p in c.latest && KnownInterval(p.1)
    && !IsStale(Anchor(c, p), Duration(p.1).value, cfg.futureCount, c.clock(p).check)
  }

  /** The cycle writes the market of this timestamp. */
  predicate Finds(c: Cycle, p: Pair, ts: int) {
    exists i | 0 <= i < |c.writes| :: c.writes[i].market.slug == PrintSlug(p.0, p.1, ts)
  }

  /** What a cycle finds of what it asks for is a prefix of it. */
  ghost predicate FindsPrefix(cfg: Config, c: Cycle, p: Pair)
    requires KnownInterval(p.1)
  {
    var asked := Asked(p, cfg, c);
    forall j, k | 0 <= j < k < |asked| && Finds(c, p, asked[k]) :: Finds(c, p, asked[j])
  }

  /** A timestamp that is asked for is stored after the cycle exactly if the cycle finds it. */
  lemma StoredIffFound(t: Table, cfg: Config, start: StartDates, c: Cycle, p: Pair, ts: int)
    requires OnGrid(t, start) && StartIncreasing(start) && CycleOk(t, cfg, start, c) && cfg.futureCount >= 0
    requires KnownInterval(p.1) && ts in Asked(p, cfg, c)
    ensures ts in Stored(UpsertAll(t, c.writes), p) <==> Finds(c, p, ts)
  {
    if p in c.latest {
      assert RowOk(c.latest[p], t[c.latest[p]], start);
    }
    AskedShape(p, cfg, c, ts);
    CycleKeepsGrid(t, cfg, start, c);
    StoredIffSlug(t, start, p, ts);
    StoredIffSlug(UpsertAll(t, c.writes), start, p, ts);
    RowsAndIdentities(t, c.writes, PrintSlug(p.0, p.1, ts));
    if ts in Stored(t, p) {
      CycleAsksForNewer(t, cfg, start, c, p, ts, ts);
    }
  }

  /** A timestamp that is asked for is a task of the cycle, and its market is not stored yet. */
  lemma AskedIsTask(t: Table, cfg: Config, start: StartDates, c: Cycle, p: Pair, ts: int)
    requires OnGrid(t, start) && StartIncreasing(start) && CycleOk(t, cfg, start, c) && cfg.futureCount >= 0
    requires p.0 in COINS && p.1 in INTERVALS && ts in Asked(p, cfg, c)
    ensures Task(p.0, p.1, PrintSlug(p.0, p.1, ts)) in Tasks(cfg, c) && PrintSlug(p.0, p.1, ts) !in t
  {
    if p in c.latest {
      assert RowOk(c.latest[p], t[c.latest[p]], start);
    }
    AskedShape(p, cfg, c, ts);
    TaskIffAsked(t, cfg, start, c, p, ts);
    StoredIffSlug(t, start, p, ts);
    if ts in Stored(t, p) {
      CycleAsksForNewer(t, cfg, start, c, p, ts, ts);
    }
  }

  lemma FindsPrefixIffStored(t: Table, cfg: Config, start: StartDates, c: Cycle, p: Pair)
    requires OnGrid(t, start) && StartIncreasing(start) && CycleOk(t, cfg, start, c) && cfg.futureCount >= 0
    requires KnownInterval(p.1)
    ensures FindsPrefix(cfg, c, p) <==> PrefixStored(Stored(UpsertAll(t, c.writes), p), Asked(p, cfg, c))
  {
    var asked := Asked(p, cfg, c);
    forall k | 0 <= k < |asked|
      ensures asked[k] in Stored(UpsertAll(t, c.writes), p) <==> Finds(c, p, asked[k])
    {
      StoredIffFound(t, cfg, start, c, p, asked[k]);
    }
  }

  /** An anchored cycle opens no gap exactly if what it finds is a prefix of what it asks for. */
  lemma AnchoredCycleGapFreeIffPrefix(t: Table, cfg: Config, start: StartDates, c: Cycle, p: Pair, from: int)
    requires OnGrid(t, start) && StartIncreasing(start) && CycleOk(t, cfg, start, c) && Anchored(cfg, c, p)
    requires from <= Anchor(c, p) && from % Duration(p.1).value == 0
    requires GapFree(Stored(t, p), from, Duration(p.1).value)
    ensures GapFree(Stored(UpsertAll(t, c.writes), p), from, Duration(p.1).value) <==> FindsPrefix(cfg, c, p)
  {
    AnchoredCycleGapFreeIffStored(t, cfg, start, c, p, from);
    if cfg.futureCount < 0 {
      assert Asked(p, cfg, c) == [];
    } else {
      FindsPrefixIffStored(t, cfg, start, c, p);
    }
  }

  /** What is stored stays, and what comes in was asked for. */
  lemma StoredAfterCycle(t: Table, cfg: Config, start: StartDates, c: Cycle, p: Pair)
    requires OnGrid(t, start) && CycleOk(t, cfg, start, c) && KnownInterval(p.1)
    ensures forall ts | ts in Stored(t, p) :: ts in Stored(UpsertAll(t, c.writes), p)
    ensures forall ts | ts in Stored(UpsertAll(t, c.writes), p) && ts !in Stored(t, p) :: ts in Asked(p, cfg, c)
  {
    var before, after := Stored(t, p), Stored(UpsertAll(t, c.writes), p);
    CycleKeepsGrid(t, cfg, start, c);
    forall ts | ts in before
      ensures ts in after
    {
      StoredGrows(t, c.writes, p, ts);
    }
    forall ts | ts in after && ts !in before
      ensures ts in Asked(p, cfg, c)
    {
      StoredIsOnGrid(UpsertAll(t, c.writes), start, p, ts);
      NewlyStored(t, cfg, start, c, p, ts);
    }
  }

  lemma AnchoredCycleGapFreeIffStored(t: Table, cfg: Config, start: StartDates, c: Cycle, p: Pair, from: int)
    requires OnGrid(t, start) && StartIncreasing(start) && CycleOk(t, cfg, start, c) && Anchored(cfg, c, p)
    requires from <= Anchor(c, p) && from % Duration(p.1).value == 0
    requires GapFree(Stored(t, p), from, Duration(p.1).value)
    ensures var after := Stored(UpsertAll(t, c.writes), p);
            GapFree(after, from, Duration(p.1).value) <==> PrefixStored(after, Asked(p, cfg, c))
  {
    var before, after := Stored(t, p), Stored(UpsertAll(t, c.writes), p);
    AnchorIsStored(t, start, c, p);
    StoredIsOnGrid(t, start, p, Anchor(c, p));
    StoredAfterCycle(t, cfg, start, c, p);
    GapFreeFromPrefix(before, after, from, Anchor(c, p), Duration(p.1).value, cfg.futureCount);
  }

  /** Every cycle of the run is anchored in the pair and finds a prefix of what it asks for. */
  ghost predicate AnchoredRun(cfg: Config, cycles: seq<Cycle>, p: Pair)
    requires KnownInterval(p.1)
  {
    forall i | 0 <= i < |cycles| :: Anchored(cfg, cycles[i], p) && FindsPrefix(cfg, cycles[i], p)
  }

  lemma AnchoredTail(cfg: Config, cycles: seq<Cycle>, p: Pair)
    requires KnownInterval(p.1) && cycles != [] && AnchoredRun(cfg, cycles, p)
    ensures Anchored(cfg, cycles[0], p) && FindsPrefix(cfg, cycles[0], p) && AnchoredRun(cfg, cycles[1..], p)
  {
    assert forall i | 0 <= i < |cycles| - 1 :: cycles[1..][i] == cycles[i + 1];
  }

  /** Over such a run the stored windows of the pair stay without a hole. */
  lemma {:induction false} AnchoredRunIsGapFree(
    t: Table, cfg: Config, start: StartDates, cycles: seq<Cycle>, p: Pair, from: int)
    requires OnGrid(t, start) && StartIncreasing(start) && RunOk(t, cfg, start, cycles)
    requires KnownInterval(p.1) && AnchoredRun(cfg, cycles, p)
    requires from in Stored(t, p) && GapFree(Stored(t, p), from, Duration(p.1).value)
    ensures GapFree(Stored(TableAfter(t, cycles), p), from, Duration(p.1).value)
    decreases |cycles|
  {
    if cycles != [] {
      var c := cycles[0];
      AnchorIsStored(t, start, c, p);
      StoredIsOnGrid(t, start, p, from);
      AnchoredTail(cfg, cycles, p);
      AnchoredCycleGapFreeIffPrefix(t, cfg, start, c, p, from);
      CycleKeepsGrid(t, cfg, start, c);
      StoredGrows(t, c.writes, p, from);
      AnchoredRunIsGapFree(UpsertAll(t, c.writes), cfg, start, cycles[1..], p, from);
    }
  }

  lemma StaleAnchorIsBehind(anchor: int, dur: int, n: nat, check: int, now: int)
    requires (dur == 300 || dur == 900) && 0 <= check <= now && anchor % dur == 0 && 0 <= anchor
    requires (anchor + n * dur) * SECOND < check
    ensures anchor <= WindowStart(now, dur) && (n >= 1 ==> anchor < WindowStart(now, dur))
  {
    assert n >= 1 ==> dur <= n * dur;
    assert 0 <= n * dur;
    assert anchor + n * dur <= UnixSeconds(now);
  }

  /**
   A stale anchor's next window is passed over by the fallback exactly if the
   anchor lies before the window that is open then. It always does if the
   look-ahead is at least one window.
   */
  lemma FallbackSkipsIff(anchor: int, dur: int, cfg: Config, r: Reading)
    requires (dur == 300 || dur == 900) && cfg.futureCount >= 0 && cfg.initialCount > 0
    requires 0 <= r.check <= r.fallback && anchor % dur == 0
    requires Fits(anchor, dur, cfg.futureCount) && Fits(WindowStart(r.fallback, dur), dur, cfg.initialCount)
    requires IsStale(anchor, dur, cfg.futureCount, r.check)
    ensures anchor + dur !in Requested(anchor, dur, cfg, r) <==> anchor < WindowStart(r.fallback, dur)
    ensures cfg.futureCount >= 1 ==> anchor < WindowStart(r.fallback, dur)
  {
    LiveAnchorReachesNow(anchor, dur, cfg.futureCount, r.check);
    StaleAnchorIsBehind(anchor, dur, cfg.futureCount, r.check, r.fallback);
    FollowingAt(WindowStart(r.fallback, dur), dur, cfg.initialCount, 0);
    var asked := Following(WindowStart(r.fallback, dur), dur, cfg.initialCount);
    assert asked[0] in asked;
    FallbackIsNextWindows(dur, cfg.initialCount, r.fallback, anchor + dur);
  }

  /** Without look-ahead, an anchor that has just opened is stale at once, and the fallback asks for its successor. */
  lemma FallbackMayFollowAnchor(n: int)
    requires n > 0 && Fits(300, 300, n)
    ensures var cfg, r := Config(0, n), Reading(301 * SECOND, 301 * SECOND);
            IsStale(300, 300, cfg.futureCount, r.check) && Requested(300, 300, cfg, r)[0] == 600
  {
    FollowingAt(300, 300, n, 0);
  }

  /** Whatever is asked for then lies beyond that window. */
  lemma FallbackAsksBeyond(anchor: int, dur: int, cfg: Config, r: Reading, ts: int)
    requires (dur == 300 || dur == 900) && 0 <= r.check <= r.fallback && anchor % dur == 0
    requires Fits(anchor, dur, cfg.futureCount) && Fits(WindowStart(r.fallback, dur), dur, cfg.initialCount)
    requires IsStale(anchor, dur, cfg.futureCount, r.check) && anchor < WindowStart(r.fallback, dur)
    requires ts in Requested(anchor, dur, cfg, r)
    ensures anchor + dur < ts && IsInt64(anchor + dur)
  {
    FallbackIsNextWindows(dur, cfg.initialCount, r.fallback, ts);
  }

  /** The cycle falls back from a stale anchor, past the window after it. */
  ghost predicate SkipsWindow(cfg: Config, c: Cycle, p: Pair) {
    && p in c.latest && KnownInterval(p.1) && !Anchored(cfg, c, p)
    && Anchor(c, p) < WindowStart(c.clock(p).fallback, Duration(p.1).value)
  }

  lemma FallbackAddsBeyond(t: Table, cfg: Config, start: StartDates, c: Cycle, p: Pair, ts: int)
    requires OnGrid(t, start) && StartIncreasing(start) && CycleOk(t, cfg, start, c) && SkipsWindow(cfg, c, p)
    requires ts in Stored(UpsertAll(t, c.writes), p) && ts > Anchor(c, p)
    ensures Anchor(c, p) + Duration(p.1).value < ts && IsInt64(Anchor(c, p) + Duration(p.1).value)
  {
    AnchorIsStored(t, start, c, p);
    StoredIsOnGrid(t, start, p, Anchor(c, p));
    CycleKeepsGrid(t, cfg, start, c);
    StoredIsOnGrid(UpsertAll(t, c.writes), start, p, ts);
    NewlyStored(t, cfg, start, c, p, ts);
    FallbackAsksBeyond(Anchor(c, p), Duration(p.1).value, cfg, c.clock(p), ts);
  }

  /** Once a fallback that skips a window finds anything, that window stays missing for good. */
  lemma FallbackLeavesHole(
    t: Table, cfg: Config, start: StartDates, c: Cycle, cycles: seq<Cycle>, p: Pair, found: int)
    requires OnGrid(t, start) && StartIncreasing(start) && cfg.futureCount >= 0
    requires CycleOk(t, cfg, start, c) && RunOk(UpsertAll(t, c.writes), cfg, start, cycles)
    requires SkipsWindow(cfg, c, p) && found in Stored(UpsertAll(t, c.writes), p) && found > Anchor(c, p)
    ensures found > Anchor(c, p) + Duration(p.1).value
    ensures Anchor(c, p) + Duration(p.1).value !in Stored(TableAfter(UpsertAll(t, c.writes), cycles), p)
  {
    var hole, t' := Anchor(c, p) + Duration(p.1).value, UpsertAll(t, c.writes);
    FallbackAddsBeyond(t, cfg, start, c, p, found);
    if hole in Stored(t', p) {
      FallbackAddsBeyond(t, cfg, start, c, p, hole);
    }
    CycleKeepsGrid(t, cfg, start, c);
    GapIsPermanent(t', cfg, start, cycles, p, hole, found);
  }

  // ---- Exactly when the store has a hole ----

  /** The cycle finds nothing of what it asks for if that skips a window, and else a prefix of it. */
  ghost predicate LeavesNoHole(cfg: Config, c: Cycle, p: Pair)
    requires KnownInterval(p.1)
  {
    if SkipsWindow(cfg, c, p) then FindsNothing(cfg, c, p) else FindsPrefix(cfg, c, p)
  }

  /** The cycle finds none of what it asks for. */
  ghost predicate FindsNothing(cfg: Config, c: Cycle, p: Pair)
    requires KnownInterval(p.1)
  {
    forall k | 0 <= k < |Asked(p, cfg, c)| :: !Finds(c, p, Asked(p, cfg, c)[k])
  }

  lemma NothingFoundNothingStored(t: Table, cfg: Config, start: StartDates, c: Cycle, p: Pair)
    requires OnGrid(t, start) && StartIncreasing(start) && CycleOk(t, cfg, start, c) && cfg.futureCount >= 0
    requires KnownInterval(p.1) && FindsNothing(cfg, c, p)
    ensures Stored(UpsertAll(t, c.writes), p) == Stored(t, p)
  {
    StoredAfterCycle(t, cfg, start, c, p);
    forall ts | ts in Stored(UpsertAll(t, c.writes), p)
      ensures ts in Stored(t, p)
    {
      if ts !in Stored(t, p) {
        StoredIffFound(t, cfg, start, c, p, ts);
      }
    }
  }

  lemma HoleIsGap(stored: set<int>, from: int, anchor: int, interval: string, found: int)
    requires KnownInterval(interval) && from <= anchor
    requires anchor % Duration(interval).value == 0 && from % Duration(interval).value == 0
    requires found in stored && found > anchor + Duration(interval).value
    requires anchor + Duration(interval).value !in stored
    ensures !GapFree(stored, from, Duration(interval).value)
  {
    var dur := Duration(interval).value;
    assert (anchor + dur) % dur == from % dur;
  }

  /** A cycle that skips a window and finds anything opens a gap. */
  lemma SkippingOpensGap(t: Table, cfg: Config, start: StartDates, c: Cycle, p: Pair, from: int, found: int)
    requires OnGrid(t, start) && StartIncreasing(start) && CycleOk(t, cfg, start, c) && cfg.futureCount >= 0
    requires SkipsWindow(cfg, c, p) && from in Stored(t, p) && found in Asked(p, cfg, c) && Finds(c, p, found)
    ensures !GapFree(Stored(UpsertAll(t, c.writes), p), from, Duration(p.1).value)
  {
    var hole := Anchor(c, p) + Duration(p.1).value;
    AnchorIsStored(t, start, c, p);
    StoredIsOnGrid(t, start, p, from);
    StoredIsOnGrid(t, start, p, Anchor(c, p));
    StoredIffFound(t, cfg, start, c, p, found);
    CycleAsksForNewer(t, cfg, start, c, p, found, Anchor(c, p));
    FallbackAddsBeyond(t, cfg, start, c, p, found);
    if hole in Stored(UpsertAll(t, c.writes), p) {
      FallbackAddsBeyond(t, cfg, start, c, p, hole);
    }
    HoleIsGap(Stored(UpsertAll(t, c.writes), p), from, Anchor(c, p), p.1, found);
  }

  lemma FallbackFromOpenWindow(anchor: int, dur: int, cfg: Config, r: Reading)
    requires (dur == 300 || dur == 900) && cfg.futureCount >= 0 && 0 <= r.check <= r.fallback && anchor % dur == 0
    requires Fits(anchor, dur, cfg.futureCount) && IsStale(anchor, dur, cfg.futureCount, r.check)
    requires anchor >= WindowStart(r.fallback, dur)
    ensures anchor == WindowStart(r.fallback, dur)
  {
    LiveAnchorReachesNow(anchor, dur, cfg.futureCount, r.check);
    StaleAnchorIsBehind(anchor, dur, cfg.futureCount, r.check, r.fallback);
  }

  /** A fallback that skips nothing goes on from the anchor. */
  lemma FallbackFollows(t: Table, cfg: Config, start: StartDates, c: Cycle, p: Pair)
    requires OnGrid(t, start) && StartIncreasing(start) && CycleOk(t, cfg, start, c) && cfg.futureCount >= 0
    requires p in c.latest && KnownInterval(p.1) && !Anchored(cfg, c, p) && !SkipsWindow(cfg, c, p)
    ensures var dur := Duration(p.1).value;
            && Asked(p, cfg, c) == Following(Anchor(c, p), dur, cfg.initialCount)
            && Fits(Anchor(c, p), dur, cfg.initialCount)
  {
    AnchorIsStored(t, start, c, p);
    StoredIsOnGrid(t, start, p, Anchor(c, p));
    FallbackFromOpenWindow(Anchor(c, p), Duration(p.1).value, cfg, c.clock(p));
  }

  /** So it opens a gap as an anchored cycle does. */
  lemma FollowingFallbackGapFreeIff(t: Table, cfg: Config, start: StartDates, c: Cycle, p: Pair, from: int)
    requires OnGrid(t, start) && StartIncreasing(start) && CycleOk(t, cfg, start, c) && cfg.futureCount >= 0
    requires p in c.latest && KnownInterval(p.1) && !Anchored(cfg, c, p) && !SkipsWindow(cfg, c, p)
    requires from in Stored(t, p) && GapFree(Stored(t, p), from, Duration(p.1).value)
    ensures GapFree(Stored(UpsertAll(t, c.writes), p), from, Duration(p.1).value) <==> FindsPrefix(cfg, c, p)
  {
    var before, after := Stored(t, p), Stored(UpsertAll(t, c.writes), p);
    FallbackFollows(t, cfg, start, c, p);
    AnchorIsStored(t, start, c, p);
    StoredIsOnGrid(t, start, p, from);
    StoredIsOnGrid(t, start, p, Anchor(c, p));
    StoredAfterCycle(t, cfg, start, c, p);
    GapFreeFromPrefix(before, after, from, Anchor(c, p), Duration(p.1).value, cfg.initialCount);
    FindsPrefixIffStored(t, cfg, start, c, p);
  }

  lemma CycleGapFreeIff(t: Table, cfg: Config, start: StartDates, c: Cycle, p: Pair, from: int)
    requires OnGrid(t, start) && StartIncreasing(start) && CycleOk(t, cfg, start, c) && cfg.futureCount >= 0
    requires KnownInterval(p.1) && from in Stored(t, p) && GapFree(Stored(t, p), from, Duration(p.1).value)
    ensures GapFree(Stored(UpsertAll(t, c.writes), p), from, Duration(p.1).value) <==> LeavesNoHole(cfg, c, p)
  {
    var slug :| slug in t && InPair(t, slug, p.0, p.1) && TsOf(slug, p.1) == from;
    AnchorIsNewest(t, start, c.latest, p, slug);
    StoredIsOnGrid(t, start, p, from);
    if Anchored(cfg, c, p) {
      AnchoredCycleGapFreeIffPrefix(t, cfg, start, c, p, from);
    } else if SkipsWindow(cfg, c, p) {
      if FindsNothing(cfg, c, p) {
        NothingFoundNothingStored(t, cfg, start, c, p);
      } else {
        var k :| 0 <= k < |Asked(p, cfg, c)| && Finds(c, p, Asked(p, cfg, c)[k]);
        SkippingOpensGap(t, cfg, start, c, p, from, Asked(p, cfg, c)[k]);
      }
    } else {
      FollowingFallbackGapFreeIff(t, cfg, start, c, p, from);
    }
  }

  /** A hole that one cycle leaves is there at the end of the run. */
  lemma HoleStays(t: Table, cfg: Config, start: StartDates, cycles: seq<Cycle>, p: Pair, from: int)
    requires OnGrid(t, start) && StartIncreasing(start) && RunOk(t, cfg, start, cycles) && cfg.futureCount >= 0
    requires KnownInterval(p.1) && from in Stored(t, p) && !GapFree(Stored(t, p), from, Duration(p.1).value)
    ensures !GapFree(Stored(TableAfter(t, cycles), p), from, Duration(p.1).value)
  {
    var dur := Duration(p.1).value;
    var ts, newer :| newer in Stored(t, p) && from <= ts <= newer && ts % dur == from % dur && ts !in Stored(t, p);
    StoredIsOnGrid(t, start, p, from);
    StoredIsOnGrid(t, start, p, newer);
    GapIsPermanent(t, cfg, start, cycles, p, ts, newer);
    RunKeepsStored(t, cycles, p, newer);
  }

  ghost predicate NoneLeavesHole(cfg: Config, cycles: seq<Cycle>, p: Pair)
    requires KnownInterval(p.1)
  {
    forall i | 0 <= i < |cycles| :: LeavesNoHole(cfg, cycles[i], p)
  }

  lemma HoleInHeadOrTail(cfg: Config, cycles: seq<Cycle>, p: Pair)
    requires KnownInterval(p.1) && cycles != []
    ensures NoneLeavesHole(cfg, cycles, p) <==> LeavesNoHole(cfg, cycles[0], p) && NoneLeavesHole(cfg, cycles[1..], p)
  {
    assert forall i | 0 <= i < |cycles| - 1 :: cycles[1..][i] == cycles[i + 1];
    assert forall i | 0 < i < |cycles| :: cycles[i] == cycles[1..][i - 1];
  }

  /**
   Over any run, anchored, falling back or both, the stored windows of a pair stay
   without a hole exactly if every cycle finds a prefix of what it asks for, and
   nothing if it skips a window.
   */
  lemma {:induction false} RunIsGapFreeIff(
    t: Table, cfg: Config, start: StartDates, cycles: seq<Cycle>, p: Pair, from: int)
    requires OnGrid(t, start) && StartIncreasing(start) && RunOk(t, cfg, start, cycles) && cfg.futureCount >= 0
    requires KnownInterval(p.1) && from in Stored(t, p) && GapFree(Stored(t, p), from, Duration(p.1).value)
    ensures GapFree(Stored(TableAfter(t, cycles), p), from, Duration(p.1).value) <==>
            NoneLeavesHole(cfg, cycles, p)
    decreases |cycles|
  {
    if cycles != [] {
      var c, rest := cycles[0], cycles[1..];
      HoleInHeadOrTail(cfg, cycles, p);
      CycleGapFreeIff(t, cfg, start, c, p, from);
      CycleKeepsGrid(t, cfg, start, c);
      StoredGrows(t, c.writes, p, from);
      if LeavesNoHole(cfg, c, p) {
        RunIsGapFreeIff(UpsertAll(t, c.writes), cfg, start, rest, p, from);
      } else {
        HoleStays(UpsertAll(t, c.writes), cfg, start, rest, p, from);
      }
    }
  }

  // ---- Refresh in the middle of a cycle ----

  /** Refresh writes a row under its own name and start date. */
  ghost predicate WritesRow(w: Write, u: Table, start: StartDates) {
    var slug := w.market.slug;
    && InPair(u, slug, w.market.symbol, w.market.interval)
    && Get(w.market.columns, StartDate) ==
       Some(Instant(start(w.market.symbol, w.market.interval, TsOf(slug, w.market.interval))))
  }

  /** The row was there when the cycle began, or one of the writes before is the answer that it came from. */
  lemma RowWriteIsOk(t: Table, cfg: Config, start: StartDates, c: Cycle, before: seq<Write>, w: Write)
    requires OnGrid(t, start) && IsLatest(t, c.latest) && ClockOk(cfg, c)
    requires forall v | v in before ::
               IsAnswer(v, cfg, start, c) || Rewrites(v, t, start)
    requires WritesRow(w, UpsertAll(t, before), start)
    ensures IsAnswer(w, cfg, start, c) || Rewrites(w, t, start)
  {
    var slug := w.market.slug;
    RowsAndIdentities(t, before, slug);
    if slug !in t {
      var i :| 0 <= i < |before| && before[i].market.slug == slug;
      assert before[i] in before && !Rewrites(before[i], t, start);
      var task :| task in Tasks(cfg, c) && Answers(before[i], task, start);
      TaskShape(t, cfg, start, c, task);
      WritesKeepGrid(t, cfg, start, c, before);
      assert RowOk(slug, UpsertAll(t, before)[slug], start);
      SameName(w.market.symbol, w.market.interval, task.symbol, task.interval, slug);
      assert Answers(w, task, start);
    }
  }

  /** Each write answers a task, or rewrites a row of the table that the writes before it left. */
  ghost predicate MixedWrites(t: Table, cfg: Config, start: StartDates, c: Cycle, writes: seq<Write>) {
    forall i | 0 <= i < |writes| ::
      IsAnswer(writes[i], cfg, start, c) || WritesRow(writes[i], UpsertAll(t, writes[..i]), start)
  }

  /**
   A refresh may write a row that the same cycle of discovery has just inserted:
   such a write answers the task that the row came from.
   */
  lemma {:induction false} MixedWritesAreOk(
    t: Table, cfg: Config, start: StartDates, c: Cycle, writes: seq<Write>, k: nat)
    requires OnGrid(t, start) && IsLatest(t, c.latest) && ClockOk(cfg, c)
    requires MixedWrites(t, cfg, start, c, writes) && k <= |writes|
    ensures forall w | w in writes[..k] :: IsAnswer(w, cfg, start, c) || Rewrites(w, t, start)
  {
    if k > 0 {
      MixedWritesAreOk(t, cfg, start, c, writes, k - 1);
      var w := writes[k - 1];
      assert writes[..k] == writes[..k - 1] + [w];
      if WritesRow(w, UpsertAll(t, writes[..k - 1]), start) {
        RowWriteIsOk(t, cfg, start, c, writes[..k - 1], w);
      }
    }
  }
}
