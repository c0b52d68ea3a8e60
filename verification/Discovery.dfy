/**
 Discovery cycles (internal/scanner/scanner.go, runDiscovery): for each coin and
 interval, read the latest stored slug, ask the Gamma API for the slugs that
 follow it, and store what it knows. Gamma is an environment that may answer
 for any of the requested slugs; the refresh worker may rewrite stored rows at
 any time.
 */
module Discovery {
  import opened Wrappers
  import opened GoText
  import opened Slugs
  import opened MarketTable

  const COINS := ["btc", "eth", "sol", "xrp"]
  const INTERVALS := ["5m", "15m"]

  type Pair = (string, string)

  /** The latest stored slug per coin and interval. */
  type Latest = map<Pair, string>

  /** FUTURE_SLUG_COUNT and INITIAL_SLUG_COUNT. */
  datatype Config = Config(futureCount: int, initialCount: int)

  /** The clock when the anchor is checked, and when the fallback reads it again. */
  datatype Reading = Reading(check: int, fallback: int)

  datatype Task = Task(symbol: string, interval: string, slug: string)

  // ---- Generating tasks ----

  /** The slugs to ask for: those after the anchor, or on any error those after the current window. */
  function PairSlugs(symbol: string, interval: string, latest: Latest, cfg: Config, r: Reading): seq<string> {
    var next := if (symbol, interval) in latest
                then NextSlugs(symbol, interval, latest[(symbol, interval)], cfg.futureCount, r.check)
                else Failure(Stale);
    var slugs := if next.Success? then next else InitialSlugs(symbol, interval, cfg.initialCount, r.fallback);
    if slugs.Success? then slugs.value else []
  }

  function PairTasks(symbol: string, interval: string, slugs: seq<string>): seq<Task> {
    seq(|slugs|, k requires 0 <= k < |slugs| => Task(symbol, interval, slugs[k]))
  }

  /** The tasks for a list of pairs, given the slugs to ask for in each. */
  function TasksFrom(pairs: seq<Pair>, source: Pair -> seq<string>): seq<Task> {
    if pairs == [] then []
    else
      var p := pairs[|pairs| - 1];
      TasksFrom(pairs[..|pairs| - 1], source) + PairTasks(p.0, p.1, source(p))
  }

  function Source(latest: Latest, cfg: Config, clock: Pair -> Reading): Pair -> seq<string> {
    (p: Pair) => PairSlugs(p.0, p.1, latest, cfg, clock(p))
  }

  function CoinPairs(coin: string, intervals: seq<string>): (pairs: seq<Pair>)
    ensures |pairs| == |intervals|
  {
    seq(|intervals|, j requires 0 <= j < |intervals| => (coin, intervals[j]))
  }

  /** All coins with all intervals, coin by coin. */
  function PairsOf(coins: seq<string>, intervals: seq<string>): seq<Pair> {
    if coins == [] then []
    else PairsOf(coins[..|coins| - 1], intervals) + CoinPairs(coins[|coins| - 1], intervals)
  }

  method GeneratePairSlugs(symbol: string, interval: string, latest: Latest, cfg: Config, r: Reading)
    returns (slugs: seq<string>)
    ensures slugs == PairSlugs(symbol, interval, latest, cfg, r)
  {
    var generated: Result<seq<string>, SlugError>;
    if (symbol, interval) in latest {
      generated := GenerateNextSlugs(symbol, interval, latest[(symbol, interval)], cfg.futureCount, r.check);
      if generated.Failure? {
        generated := GenerateInitialSlugs(symbol, interval, cfg.initialCount, r.fallback);
      }
    } else {
      generated := GenerateInitialSlugs(symbol, interval, cfg.initialCount, r.fallback);
    }
    slugs := if generated.Success? then generated.value else [];
  }

  lemma TasksFromNext(pairs: seq<Pair>, source: Pair -> seq<string>, j: nat)
    requires j < |pairs|
    ensures TasksFrom(pairs[..j + 1], source) ==
            TasksFrom(pairs[..j], source) + PairTasks(pairs[j].0, pairs[j].1, source(pairs[j]))
  {
    assert pairs[..j + 1][..j] == pairs[..j];
  }

  lemma {:induction false} TasksFromAppend(a: seq<Pair>, b: seq<Pair>, source: Pair -> seq<string>)
    ensures TasksFrom(a + b, source) == TasksFrom(a, source) + TasksFrom(b, source)
  {
    if b == [] {
      assert a + b == a;
    } else {
      var n := |b| - 1;
      TasksFromAppend(a, b[..n], source);
      TasksFromNext(b, source, n);
      TasksFromNext(a + b, source, |a| + n);
      assert b[..n + 1] == b && (a + b)[..|a| + n] == a + b[..n] && (a + b)[..|a| + n + 1] == a + b;
    }
  }

  method GenerateCoinTasks(symbol: string, intervals: seq<string>, latest: Latest, cfg: Config, clock: Pair -> Reading)
    returns (tasks: seq<Task>)
    ensures tasks == TasksFrom(CoinPairs(symbol, intervals), Source(latest, cfg, clock))
  {
    ghost var pairs, source := CoinPairs(symbol, intervals), Source(latest, cfg, clock);
    tasks := [];
    var j := 0;
    while j < |intervals|
      invariant 0 <= j <= |intervals|
      invariant tasks == TasksFrom(pairs[..j], source)
    {
      var slugs := GeneratePairSlugs(symbol, intervals[j], latest, cfg, clock((symbol, intervals[j])));
      TasksFromNext(pairs, source, j);
      tasks := tasks + PairTasks(symbol, intervals[j], slugs);
      j := j + 1;
    }
    assert pairs[..j] == pairs;
  }

  method GenerateTasks(coins: seq<string>, intervals: seq<string>, latest: Latest, cfg: Config, clock: Pair -> Reading)
    returns (tasks: seq<Task>)
    ensures tasks == TasksFrom(PairsOf(coins, intervals), Source(latest, cfg, clock))
  {
    tasks := [];
    var i := 0;
    while i < |coins|
      invariant 0 <= i <= |coins|
      invariant tasks == TasksFrom(PairsOf(coins[..i], intervals), Source(latest, cfg, clock))
    {
      var more := GenerateCoinTasks(coins[i], intervals, latest, cfg, clock);
      assert coins[..i + 1][..i] == coins[..i];
      TasksFromAppend(PairsOf(coins[..i], intervals), CoinPairs(coins[i], intervals), Source(latest, cfg, clock));
      tasks := tasks + more;
      i := i + 1;
    }
    assert coins[..i] == coins;
  }

  // ---- The store as discovery sees it ----

  /** start_date as a function of the market: present, and increasing with the timestamp within each pair. */
  type StartDates = (string, string, int) -> int

  ghost predicate StartIncreasing(start: StartDates) {
    forall symbol, interval, ts1, ts2 | ts1 < ts2 :: start(symbol, interval, ts1) < start(symbol, interval, ts2)
  }

  function TsOf(slug: string, interval: string): int {
    var ts := ParseSlug(slug, interval);
    if ts.Success? then ts.value else -1
  }

  /** The slug is printed from these parts, and its timestamp is the start of a window. */
  predicate WellFormed(symbol: string, interval: string, slug: string) {
    var ts := TsOf(slug, interval);
    && KnownInterval(interval) && ParseSlug(slug, interval).Success?
    && 0 <= ts && ts % Duration(interval).value == 0 && IsInt64(ts)
    && slug == PrintSlug(symbol, interval, ts)
  }

  function StartOf(row: Row): Option<int> {
    if StartDate in row.columns && row.columns[StartDate].Instant? then Some(row.columns[StartDate].time) else None
  }

  predicate InPair(t: Table, slug: string, symbol: string, interval: string) {
    slug in t && t[slug].symbol == symbol && t[slug].interval == interval
  }

  ghost predicate RowOk(slug: string, row: Row, start: StartDates) {
    && WellFormed(row.symbol, row.interval, slug)
    && StartOf(row) == Some(start(row.symbol, row.interval, TsOf(slug, row.interval)))
  }

  /** Every stored slug parses, lies on the grid of its interval and carries its start date. */
  ghost predicate OnGrid(t: Table, start: StartDates) {
    forall slug | slug in t :: RowOk(slug, t[slug], start)
  }

  /** What GetLatestSlugs returns: per pair, a row whose start_date is the greatest of those that are not null. */
  ghost predicate IsLatest(t: Table, latest: Latest) {
    && (forall p | p in latest :: InPair(t, latest[p], p.0, p.1) && StartOf(t[latest[p]]).Some?)
    && (forall p, slug | p in latest && InPair(t, slug, p.0, p.1) && StartOf(t[slug]).Some? ::
          StartOf(t[slug]).value <= StartOf(t[latest[p]]).value)
    && (forall slug | slug in t && StartOf(t[slug]).Some? :: (t[slug].symbol, t[slug].interval) in latest)
  }

  /** One cycle: what was read, and every upsert of discovery and refresh up to the next cycle. */
  datatype Cycle = Cycle(latest: Latest, clock: Pair -> Reading, writes: seq<Write>)

  function Tasks(cfg: Config, c: Cycle): seq<Task> {
    TasksFrom(PairsOf(COINS, INTERVALS), Source(c.latest, cfg, c.clock))
  }

  /** Discovery stores what Gamma says about a requested slug, under that slug. */
  ghost predicate Answers(w: Write, task: Task, start: StartDates) {
    && w.market.slug == task.slug && w.market.symbol == task.symbol && w.market.interval == task.interval
    && Get(w.market.columns, StartDate) ==
       Some(Instant(start(task.symbol, task.interval, TsOf(task.slug, task.interval))))
  }

  /** The write answers a task of the cycle. */
  ghost predicate IsAnswer(w: Write, cfg: Config, start: StartDates, c: Cycle) {
    exists task | task in Tasks(cfg, c) :: Answers(w, task, start)
  }

  /** Refresh stores what Gamma says about a stored slug, under that slug. */
  ghost predicate Rewrites(w: Write, t: Table, start: StartDates) {
    && w.market.slug in t
    && (StartDate in w.market.columns ==>
          var row := t[w.market.slug];
          w.market.columns[StartDate] == Instant(start(row.symbol, row.interval, TsOf(w.market.slug, row.interval))))
  }

  /** The clock is not negative and does not run backwards, and no timestamp overflows. */
  ghost predicate ClockOk(cfg: Config, c: Cycle) {
    forall p: Pair | KnownInterval(p.1) ::
      && 0 <= c.clock(p).check <= c.clock(p).fallback
      && Fits(WindowStart(c.clock(p).fallback, Duration(p.1).value), Duration(p.1).value, cfg.initialCount)
      && (p in c.latest ==> Fits(TsOf(c.latest[p], p.1), Duration(p.1).value, cfg.futureCount))
  }

  ghost predicate CycleOk(t: Table, cfg: Config, start: StartDates, c: Cycle) {
    && IsLatest(t, c.latest) && ClockOk(cfg, c)
    && (forall w | w in c.writes :: IsAnswer(w, cfg, start, c) || Rewrites(w, t, start))
  }

  // ---- What a cycle asks for ----

  /** The timestamps asked for when the anchor is ts. */
  function Requested(ts: int, dur: int, cfg: Config, r: Reading): seq<int>
    requires dur > 0
  {
    if IsStale(ts, dur, cfg.futureCount, r.check) then Following(WindowStart(r.fallback, dur), dur, cfg.initialCount)
    else Following(ts, dur, cfg.futureCount)
  }

  /** All requests lie after the anchor, in anchored and in fallback cycles, unless the look-ahead is negative. */
  lemma RequestedIsNewer(ts: int, dur: int, cfg: Config, r: Reading, t: int)
    requires (dur == 300 || dur == 900) && cfg.futureCount >= 0 && 0 <= r.check <= r.fallback
    requires Fits(ts, dur, cfg.futureCount) && Fits(WindowStart(r.fallback, dur), dur, cfg.initialCount)
    requires t in Requested(ts, dur, cfg, r)
    ensures ts < t
  {
    LiveAnchorReachesNow(ts, dur, cfg.futureCount, r.check);
    if IsStale(ts, dur, cfg.futureCount, r.check) {
      FallbackIsNextWindows(dur, cfg.initialCount, r.fallback, t);
    } else {
      FollowingIsNextGridPoints(ts, dur, cfg.futureCount, t);
    }
  }

  ghost predicate AlwaysNewer(cfg: Config, dur: int)
    requires dur > 0
  {
    forall ts: int, r: Reading, t: int |
      && ts % dur == 0 && Fits(ts, dur, cfg.futureCount)
      && 0 <= r.check <= r.fallback && Fits(WindowStart(r.fallback, dur), dur, cfg.initialCount)
      && t in Requested(ts, dur, cfg, r) ::
      ts < t
  }

  /**
   The guarantee that requests are newer than the anchor depends on the
   configuration: it holds exactly if the look-ahead is not negative or the
   fallback asks for nothing.
   */
  lemma AlwaysNewerIff(cfg: Config, dur: int)
    requires dur == 300 || dur == 900
    requires IsInt64(-cfg.futureCount * dur * SECOND) && Fits(0, dur, cfg.initialCount)
    ensures AlwaysNewer(cfg, dur) <==> cfg.futureCount >= 0 || cfg.initialCount <= 0
  {
    if cfg.futureCount >= 0 {
      forall ts: int, r: Reading, t: int |
        && ts % dur == 0 && Fits(ts, dur, cfg.futureCount)
        && 0 <= r.check <= r.fallback && Fits(WindowStart(r.fallback, dur), dur, cfg.initialCount)
        && t in Requested(ts, dur, cfg, r)
        ensures ts < t
      {
        RequestedIsNewer(ts, dur, cfg, r, t);
      }
    } else if cfg.initialCount > 0 {
      var r := Reading(1, 1);
      LiveAnchorReachesNow(dur, dur, cfg.futureCount, r.check);
      assert (dur + cfg.futureCount * dur) * SECOND < r.check;
      assert WindowStart(r.fallback, dur) == 0;
      FollowingAt(0, dur, cfg.initialCount, 0);
      assert Requested(dur, dur, cfg, r)[0] == dur;
      assert dur in Requested(dur, dur, cfg, r);
    } else {
      assert forall ts, r :: Requested(ts, dur, cfg, r) == [];
    }
  }

  /** The anchor is the newest stored market of its pair. */
  lemma AnchorIsNewest(t: Table, start: StartDates, latest: Latest, p: Pair, slug: string)
    requires OnGrid(t, start) && StartIncreasing(start) && IsLatest(t, latest)
    requires InPair(t, slug, p.0, p.1)
    ensures p in latest && TsOf(slug, p.1) <= TsOf(latest[p], p.1)
  {
    assert RowOk(slug, t[slug], start);
    assert (t[slug].symbol, t[slug].interval) == p;
    assert RowOk(latest[p], t[latest[p]], start);
  }

  /** The tasks are the slugs of the given pairs, no more and no fewer. */
  lemma {:induction false} TaskIffInSource(pairs: seq<Pair>, source: Pair -> seq<string>, task: Task)
    ensures task in TasksFrom(pairs, source) <==>
            (task.symbol, task.interval) in pairs && task.slug in source((task.symbol, task.interval))
  {
    if pairs != [] {
      var n := |pairs| - 1;
      var p := pairs[n];
      var tasks := PairTasks(p.0, p.1, source(p));
      TaskIffInSource(pairs[..n], source, task);
      assert pairs == pairs[..n] + [p];
      if task in tasks {
        var k :| 0 <= k < |source(p)| && tasks[k] == task;
      }
      if p == (task.symbol, task.interval) && task.slug in source(p) {
        var k :| 0 <= k < |source(p)| && source(p)[k] == task.slug;
        assert tasks[k] == task;
      }
    }
  }

  lemma {:induction false} PairIffListed(coins: seq<string>, intervals: seq<string>, p: Pair)
    ensures p in PairsOf(coins, intervals) <==> p.0 in coins && p.1 in intervals
  {
    if coins != [] {
      var n := |coins| - 1;
      var own := CoinPairs(coins[n], intervals);
      PairIffListed(coins[..n], intervals, p);
      assert coins == coins[..n] + [coins[n]];
      if p in own {
        var j :| 0 <= j < |intervals| && own[j] == p;
      }
      if p.0 == coins[n] && p.1 in intervals {
        var j :| 0 <= j < |intervals| && intervals[j] == p.1;
        assert own[j] == p;
      }
    }
  }

  /** The timestamps asked for in a pair: from the anchor if there is one, else from the current window. */
  function Asked(p: Pair, cfg: Config, c: Cycle): seq<int>
    requires KnownInterval(p.1)
  {
    var dur := Duration(p.1).value;
    if p in c.latest then Requested(TsOf(c.latest[p], p.1), dur, cfg, c.clock(p))
    else Following(WindowStart(c.clock(p).fallback, dur), dur, cfg.initialCount)
  }

  lemma PairSlugsAreAsked(p: Pair, cfg: Config, c: Cycle)
    requires KnownInterval(p.1)
    requires p in c.latest ==> ParseSlug(c.latest[p], p.1).Success?
    ensures PairSlugs(p.0, p.1, c.latest, cfg, c.clock(p)) == PrintAll(p.0, p.1, Asked(p, cfg, c))
  {
  }

  lemma AskedShape(p: Pair, cfg: Config, c: Cycle, ts: int)
    requires KnownInterval(p.1) && ClockOk(cfg, c) && ts in Asked(p, cfg, c)
    requires p in c.latest ==> TsOf(c.latest[p], p.1) % Duration(p.1).value == 0
    ensures 0 <= ts && IsInt64(ts) && ts % Duration(p.1).value == 0
  {
    var dur, r := Duration(p.1).value, c.clock(p);
    if p in c.latest && !IsStale(TsOf(c.latest[p], p.1), dur, cfg.futureCount, r.check) {
      FollowingShape(TsOf(c.latest[p], p.1), dur, cfg.futureCount, ts);
    } else {
      WindowHoldsNow(r.fallback, dur);
      FollowingShape(WindowStart(r.fallback, dur), dur, cfg.initialCount, ts);
    }
  }

  /** A requested slug names one of the timestamps asked for, which lies on the grid. */
  lemma TaskShape(t: Table, cfg: Config, start: StartDates, c: Cycle, task: Task)
    requires OnGrid(t, start) && IsLatest(t, c.latest) && ClockOk(cfg, c) && task in Tasks(cfg, c)
    ensures WellFormed(task.symbol, task.interval, task.slug)
    ensures TsOf(task.slug, task.interval) in Asked((task.symbol, task.interval), cfg, c)
  {
    var p := (task.symbol, task.interval);
    TaskIffInSource(PairsOf(COINS, INTERVALS), Source(c.latest, cfg, c.clock), task);
    PairIffListed(COINS, INTERVALS, p);
    assert p in c.latest ==> RowOk(c.latest[p], t[c.latest[p]], start);
    PairSlugsAreAsked(p, cfg, c);
    AskedSlugShape(p, cfg, c, task.slug);
  }

  lemma AskedSlugShape(p: Pair, cfg: Config, c: Cycle, slug: string)
    requires KnownInterval(p.1) && ClockOk(cfg, c) && slug in PrintAll(p.0, p.1, Asked(p, cfg, c))
    requires p in c.latest ==> TsOf(c.latest[p], p.1) % Duration(p.1).value == 0
    ensures WellFormed(p.0, p.1, slug) && TsOf(slug, p.1) in Asked(p, cfg, c)
  {
    var asked := Asked(p, cfg, c);
    var k :| 0 <= k < |asked| && PrintAll(p.0, p.1, asked)[k] == slug;
    AskedShape(p, cfg, c, asked[k]);
    PrintedShape(p.0, p.1, asked[k], slug);
  }

  /** For every coin and interval, a cycle asks for exactly the timestamps that follow the anchor or the clock. */
  lemma TaskIffAsked(t: Table, cfg: Config, start: StartDates, c: Cycle, p: Pair, ts: int)
    requires OnGrid(t, start) && IsLatest(t, c.latest) && ClockOk(cfg, c)
    requires p.0 in COINS && p.1 in INTERVALS && IsInt64(ts)
    ensures Task(p.0, p.1, PrintSlug(p.0, p.1, ts)) in Tasks(cfg, c) <==> ts in Asked(p, cfg, c)
  {
    var task := Task(p.0, p.1, PrintSlug(p.0, p.1, ts));
    SlugRoundTrip(p.0, p.1, ts);
    if task in Tasks(cfg, c) {
      TaskShape(t, cfg, start, c, task);
    }
    if ts in Asked(p, cfg, c) {
      TaskIffInSource(PairsOf(COINS, INTERVALS), Source(c.latest, cfg, c.clock), task);
      PairIffListed(COINS, INTERVALS, p);
      assert p in c.latest ==> RowOk(c.latest[p], t[c.latest[p]], start);
      PairSlugsAreAsked(p, cfg, c);
      var k :| 0 <= k < |Asked(p, cfg, c)| && Asked(p, cfg, c)[k] == ts;
      assert PrintAll(p.0, p.1, Asked(p, cfg, c))[k] == task.slug;
    }
  }

  /** An anchored cycle asks for the window that is open when the anchor is checked, or the anchor has passed it. */
  lemma CycleCoversOpenWindow(t: Table, cfg: Config, start: StartDates, c: Cycle, p: Pair)
    requires OnGrid(t, start) && IsLatest(t, c.latest) && ClockOk(cfg, c)
    requires p.0 in COINS && p.1 in INTERVALS && p in c.latest
    requires !IsStale(TsOf(c.latest[p], p.1), Duration(p.1).value, cfg.futureCount, c.clock(p).check)
    ensures var open := WindowStart(c.clock(p).check, Duration(p.1).value);
            open <= TsOf(c.latest[p], p.1) || Task(p.0, p.1, PrintSlug(p.0, p.1, open)) in Tasks(cfg, c)
  {
    var dur, anchor := Duration(p.1).value, TsOf(c.latest[p], p.1);
    var open := WindowStart(c.clock(p).check, dur);
    assert RowOk(c.latest[p], t[c.latest[p]], start);
    AnchoredCoversCurrentWindow(anchor, dur, cfg.futureCount, c.clock(p).check);
    if open > anchor {
      FollowingShape(anchor, dur, cfg.futureCount, open);
      TaskIffAsked(t, cfg, start, c, p, open);
    }
  }

  lemma FollowingShape(from: int, dur: int, n: int, ts: int)
    requires (dur == 300 || dur == 900) && Fits(from, dur, n) && from % dur == 0 && ts in Following(from, dur, n)
    ensures 0 <= ts && IsInt64(ts) && ts % dur == 0
  {
    FollowingIsNextGridPoints(from, dur, n, ts);
  }

  lemma PrintedShape(symbol: string, interval: string, ts: int, slug: string)
    requires KnownInterval(interval) && 0 <= ts && IsInt64(ts) && ts % Duration(interval).value == 0
    requires slug == PrintSlug(symbol, interval, ts)
    ensures WellFormed(symbol, interval, slug) && TsOf(slug, interval) == ts
  {
    SlugRoundTrip(symbol, interval, ts);
  }

  /** Every slug that a cycle asks for is newer than all that are stored for its coin and interval. */
  lemma RequestsAreNew(t: Table, cfg: Config, start: StartDates, c: Cycle, task: Task, slug: string)
    requires OnGrid(t, start) && StartIncreasing(start) && IsLatest(t, c.latest) && ClockOk(cfg, c)
    requires cfg.futureCount >= 0 && task in Tasks(cfg, c) && InPair(t, slug, task.symbol, task.interval)
    ensures TsOf(slug, task.interval) < TsOf(task.slug, task.interval)
  {
    var p := (task.symbol, task.interval);
    AnchorIsNewest(t, start, c.latest, p, slug);
    TaskShape(t, cfg, start, c, task);
    RequestedIsNewer(TsOf(c.latest[p], p.1), Duration(p.1).value, cfg, c.clock(p), TsOf(task.slug, p.1));
  }

  // ---- The first cycle ----

  /**
   A cycle over an empty store asks for the next windows, as many as configured, of
   5 and of 15 minutes, of the four coins.
   */
  lemma FirstCycleAsks(cfg: Config, c: Cycle, symbol: string, n: int, dur: int, ts: int)
    requires c.latest == map[] && ClockOk(cfg, c) && (n == 5 || n == 15) && dur == 60 * n && IsInt64(ts)
    ensures var open := c.clock((symbol, MinutesName(n))).fallback / SECOND / dur * dur;
            Task(symbol, MinutesName(n), SlugText(symbol, n, ts)) in Tasks(cfg, c) <==>
            symbol in {"btc", "eth", "sol", "xrp"} &&
            ts % dur == 0 && open < ts <= open + cfg.initialCount * dur
  {
    var p := (symbol, MinutesName(n));
    var task := Task(symbol, MinutesName(n), SlugText(symbol, n, ts));
    MinutesDuration(n);
    PrintsAsText(symbol, n, ts);
    MinutesListed(n);
    CoinsListed(symbol);
    if symbol in COINS {
      TaskIffAsked(map[], cfg, (_, _, _) => 0, c, p, ts);
      FallbackIsNextWindows(dur, cfg.initialCount, c.clock(p).fallback, ts);
    } else {
      TaskIffInSource(PairsOf(COINS, INTERVALS), Source(c.latest, cfg, c.clock), task);
      PairIffListed(COINS, INTERVALS, p);
    }
  }

  lemma MinutesListed(n: int)
    requires n == 5 || n == 15
    ensures MinutesName(n) in INTERVALS && KnownInterval(MinutesName(n))
  {
    assert NatText(15) == NatText(1) + [DigitText(5)];
    assert MinutesName(n) == if n == 5 then "5m" else "15m";
    assert INTERVALS[0] == "5m" && INTERVALS[1] == "15m";
  }

  lemma CoinsListed(symbol: string)
    ensures symbol in COINS <==> symbol in {"btc", "eth", "sol", "xrp"}
  {
    assert COINS[0] == "btc" && COINS[1] == "eth" && COINS[2] == "sol" && COINS[3] == "xrp";
  }

  /** No other intervals are asked for. */
  lemma TwoIntervals(cfg: Config, c: Cycle, task: Task)
    requires task in Tasks(cfg, c)
    ensures task.interval == "5m" || task.interval == "15m"
  {
    TaskIffInSource(PairsOf(COINS, INTERVALS), Source(c.latest, cfg, c.clock), task);
    PairIffListed(COINS, INTERVALS, (task.symbol, task.interval));
  }

  // ---- No slug is asked for twice ----

  lemma AskedDistinct(p: Pair, cfg: Config, c: Cycle, i: nat, j: nat)
    requires KnownInterval(p.1) && ClockOk(cfg, c) && i < j < |Asked(p, cfg, c)|
    ensures Asked(p, cfg, c)[i] < Asked(p, cfg, c)[j]
  {
    var dur, r := Duration(p.1).value, c.clock(p);
    if p in c.latest && !IsStale(TsOf(c.latest[p], p.1), dur, cfg.futureCount, r.check) {
      FollowingRises(TsOf(c.latest[p], p.1), dur, cfg.futureCount, i, j);
    } else {
      FollowingRises(WindowStart(r.fallback, dur), dur, cfg.initialCount, i, j);
    }
  }

  lemma FollowingRises(from: int, dur: int, n: int, i: int, j: int)
    requires (dur == 300 || dur == 900) && Fits(from, dur, n) && 0 <= i < j < n
    ensures Following(from, dur, n)[i] < Following(from, dur, n)[j]
  {
    FollowingAt(from, dur, n, i);
    FollowingAt(from, dur, n, j);
  }

  predicate Distinct<T(==)>(s: seq<T>) {
    forall i, j | 0 <= i < j < |s| :: s[i] != s[j]
  }

  predicate DistinctSlugs(tasks: seq<Task>) {
    forall i, j | 0 <= i < j < |tasks| :: tasks[i].slug != tasks[j].slug
  }

  lemma {:induction false} PairsDistinct(coins: seq<string>, intervals: seq<string>)
    requires Distinct(coins) && Distinct(intervals)
    ensures Distinct(PairsOf(coins, intervals))
  {
    if coins != [] {
      var n := |coins| - 1;
      var before := PairsOf(coins[..n], intervals);
      PairsDistinct(coins[..n], intervals);
      forall i | 0 <= i < |before|
        ensures before[i].0 != coins[n]
      {
        PairIffListed(coins[..n], intervals, before[i]);
        assert before[i] in before;
      }
    }
  }

  lemma {:induction false} TasksFromDistinct(pairs: seq<Pair>, source: Pair -> seq<string>)
    requires Distinct(pairs) && forall p | p in pairs :: Distinct(source(p))
    requires forall p, q, slug | p in pairs && q in pairs && slug in source(p) && slug in source(q) :: p == q
    ensures DistinctSlugs(TasksFrom(pairs, source))
  {
    if pairs != [] {
      var n := |pairs| - 1;
      var p, before := pairs[n], TasksFrom(pairs[..n], source);
      assert forall q | q in pairs[..n] :: q in pairs && q != p;
      TasksFromDistinct(pairs[..n], source);
      forall i, k | 0 <= i < |before| && 0 <= k < |source(p)|
        ensures before[i].slug != source(p)[k]
      {
        TaskIffInSource(pairs[..n], source, before[i]);
        assert before[i] in before && source(p)[k] in source(p) && p in pairs;
      }
    }
  }
}
