/**
 A cycle of discovery that leaves a hole in the store: the store holds one market,
 the clock is well past the windows that would be asked for after it, and Gamma
 has the market of the next window.
 */
module LateFallback {
  import opened Wrappers
  import opened GoText
  import opened Slugs
  import opened MarketTable
  import opened Discovery
  import opened DiscoveryRuns

  function StartAt(symbol: string, interval: string, ts: int): int {
    ts
  }

  function BtcSlug(ts: int): string {
    PrintSlug("btc", "5m", ts)
  }

  function BtcMarket(ts: int): Market {
    Market(BtcSlug(ts), "btc", "5m", map[StartDate := Instant(ts)])
  }

  const Btc: Pair := ("btc", "5m")

  /** A look-ahead of two windows, and three when starting afresh. */
  const TwoAhead := Config(2, 3)

  /** A store that holds one market. */
  function OldTable(anchor: int): Table {
    map[BtcSlug(anchor) := Row("btc", "5m", map[StartDate := Instant(anchor)], 0)]
  }

  /** A cycle that finds the market of one later window. */
  function LateCycle(anchor: int, now: int, found: int): Cycle {
    Cycle(map[Btc := BtcSlug(anchor)], _ => Reading(now, now), [Write(BtcMarket(found), 1)])
  }

  /** A market at anchor, and a time at which even the windows that are asked for ahead of it are over. */
  predicate IsLate(anchor: int, now: int) {
    0 <= anchor && anchor % 300 == 0 && (anchor + 600) * SECOND < now < TWO_63
  }

  lemma OldTableIsOnGrid(anchor: int, now: int, found: int)
    requires IsLate(anchor, now)
    ensures OnGrid(OldTable(anchor), StartAt) && IsLatest(OldTable(anchor), LateCycle(anchor, now, found).latest)
    ensures TsOf(BtcSlug(anchor), "5m") == anchor && Stored(OldTable(anchor), Btc) == {anchor}
  {
    PrintedShape("btc", "5m", anchor, BtcSlug(anchor));
    var t := OldTable(anchor);
    assert InPair(t, BtcSlug(anchor), Btc.0, Btc.1);
    assert forall slug | slug in t :: slug == BtcSlug(anchor);
    assert anchor in Stored(t, Btc);
  }

  lemma LateTimesFit(anchor: int, now: int, dur: int)
    requires IsLate(anchor, now) && (dur == 300 || dur == 900)
    ensures Fits(anchor, dur, 2) && Fits(WindowStart(now, dur), dur, 3)
  {
  }

  lemma LateClockIsOk(anchor: int, now: int, found: int)
    requires IsLate(anchor, now)
    ensures ClockOk(TwoAhead, LateCycle(anchor, now, found))
  {
    OldTableIsOnGrid(anchor, now, found);
    LateTimesFit(anchor, now, 300);
    LateTimesFit(anchor, now, 900);
  }

  /** The window after the open one. */
  function NextWindow(now: int): int {
    WindowStart(now, 300) + 300
  }

  lemma LateWindow(anchor: int, now: int)
    requires IsLate(anchor, now)
    ensures IsStale(anchor, 300, 2, now) && anchor < WindowStart(now, 300) && 0 <= NextWindow(now)
    ensures IsInt64(NextWindow(now)) && NextWindow(now) % 300 == 0
    ensures NextWindow(now) in Following(WindowStart(now, 300), 300, 3)
  {
    LateTimesFit(anchor, now, 300);
    LiveAnchorReachesNow(anchor, 300, 2, now);
    StaleAnchorIsBehind(anchor, 300, 2, now, now);
    FollowingAt(WindowStart(now, 300), 300, 3, 0);
    assert Following(WindowStart(now, 300), 300, 3)[0] == NextWindow(now);
    assert (WindowStart(now, 300) + 300) % 300 == WindowStart(now, 300) % 300 == 0;
  }

  lemma LateCycleSkips(anchor: int, now: int)
    requires IsLate(anchor, now)
    ensures SkipsWindow(TwoAhead, LateCycle(anchor, now, NextWindow(now)), Btc)
    ensures NextWindow(now) in Asked(Btc, TwoAhead, LateCycle(anchor, now, NextWindow(now)))
  {
    OldTableIsOnGrid(anchor, now, NextWindow(now));
    LateWindow(anchor, now);
    assert Asked(Btc, TwoAhead, LateCycle(anchor, now, NextWindow(now))) == Following(WindowStart(now, 300), 300, 3);
  }

  lemma LateCycleIsOk(anchor: int, now: int)
    requires IsLate(anchor, now)
    ensures CycleOk(OldTable(anchor), TwoAhead, StartAt, LateCycle(anchor, now, NextWindow(now)))
  {
    var found := NextWindow(now);
    var t, c := OldTable(anchor), LateCycle(anchor, now, found);
    var w, task := Write(BtcMarket(found), 1), Task("btc", "5m", BtcSlug(found));
    OldTableIsOnGrid(anchor, now, found);
    LateClockIsOk(anchor, now, found);
    LateWindow(anchor, now);
    LateCycleSkips(anchor, now);
    TaskIffAsked(t, TwoAhead, StartAt, c, Btc, found);
    PrintedShape("btc", "5m", found, BtcSlug(found));
    assert Answers(w, task, StartAt);
    assert IsAnswer(w, TwoAhead, StartAt, c);
  }

  /**
   So cycles of the program do leave holes: of a market at 300 s and, at 90010 s,
   the next one at 90300 s, all windows in between are missing.
   */
  lemma LateFallbackLeavesHole(anchor: int, now: int)
    requires IsLate(anchor, now)
    ensures var found := NextWindow(now);
            var t, c := OldTable(anchor), LateCycle(anchor, now, found);
            && OnGrid(t, StartAt) && StartIncreasing(StartAt) && CycleOk(t, TwoAhead, StartAt, c)
            && GapFree(Stored(t, Btc), anchor, 300)
            && Stored(UpsertAll(t, c.writes), Btc) == {anchor, found} && anchor + 300 < found
            && !GapFree(Stored(UpsertAll(t, c.writes), Btc), anchor, 300)
  {
    var found := NextWindow(now);
    var t, c := OldTable(anchor), LateCycle(anchor, now, found);
    OldTableIsOnGrid(anchor, now, found);
    LateCycleIsOk(anchor, now);
    LateWindow(anchor, now);
    LateCycleSkips(anchor, now);
    OneIsGapFree(anchor);
    assert c.writes[0].market.slug == PrintSlug(Btc.0, Btc.1, found);
    assert Finds(c, Btc, found);
    StoredIffFound(t, TwoAhead, StartAt, c, Btc, found);
    SkippingOpensGap(t, TwoAhead, StartAt, c, Btc, anchor, found);
    forall ts | ts in Stored(UpsertAll(t, c.writes), Btc)
      ensures ts == anchor || ts == found
    {
      OneMarketMore(anchor, now, found, ts);
    }
    StoredGrows(t, c.writes, Btc, anchor);
  }

  /** And so there are runs. */
  lemma LateRunIsOk(anchor: int, now: int)
    requires IsLate(anchor, now)
    ensures RunOk(OldTable(anchor), TwoAhead, StartAt, [LateCycle(anchor, now, NextWindow(now))])
  {
    LateCycleIsOk(anchor, now);
  }

  lemma OneIsGapFree(anchor: int)
    ensures GapFree({anchor}, anchor, 300)
  {
  }

  lemma OneMarketMore(anchor: int, now: int, found: int, ts: int)
    requires IsLate(anchor, now) && found == NextWindow(now)
    requires ts in Stored(UpsertAll(OldTable(anchor), LateCycle(anchor, now, found).writes), Btc)
    ensures ts == anchor || ts == found
  {
    var t, c := OldTable(anchor), LateCycle(anchor, now, found);
    var after := UpsertAll(t, c.writes);
    var slug :| slug in after && InPair(after, slug, Btc.0, Btc.1) && TsOf(slug, Btc.1) == ts;
    RowsAndIdentities(t, c.writes, slug);
    LateWindow(anchor, now);
    PrintedShape("btc", "5m", anchor, BtcSlug(anchor));
    PrintedShape("btc", "5m", found, BtcSlug(found));
  }
}
