/**
 Which rows refresh picks (internal/db/postgres.go, GetMarketsNeedingRefresh):
 the oldest eligible ones, up to a limit. A cycle is the selection and all
 writes, of any worker, up to the next cycle.
 */
module RefreshSchedule {
  import opened Wrappers
  import opened Arithmetic
  import opened MarketTable
  import Discovery

  predicate Eligible(row: Row, cutoff: int) {
    && (Get(row.columns, Status) == Some(Text("upcoming")) || row.updatedAt < cutoff)
    && row.interval in Discovery.INTERVALS
  }

  /** ORDER BY updated_at ASC LIMIT limit, with ties broken in any way. */
  ghost predicate IsSelection(t: Table, cutoff: int, limit: nat, selected: seq<string>) {
    && (forall i, j | 0 <= i < j < |selected| :: selected[i] != selected[j])
    && (forall slug | slug in selected :: slug in t && Eligible(t[slug], cutoff))
    && |selected| <= limit
    && (forall slug | slug in t && Eligible(t[slug], cutoff) && slug !in selected ::
          |selected| == limit && forall s | s in selected :: t[s].updatedAt <= t[slug].updatedAt)
    && (forall i, j | 0 <= i < j < |selected| :: t[selected[i]].updatedAt <= t[selected[j]].updatedAt)
  }

  datatype Cycle = Cycle(cutoff: int, selected: seq<string>, writes: seq<Write>)

  predicate WritesTo(writes: seq<Write>, slug: string) {
    exists i | 0 <= i < |writes| :: writes[i].market.slug == slug
  }

  predicate Touches(c: Cycle, slug: string) {
    WritesTo(c.writes, slug)
  }

  /**
   Every selected row is written, unless Gamma fails to answer for it with its
   own slug; all writes, those of discovery included, are stamped after the
   given time.
   */
  ghost predicate CycleOk(t: Table, limit: nat, failing: set<string>, since: int, c: Cycle) {
    && IsSelection(t, c.cutoff, limit, c.selected)
    && (forall slug | slug in c.selected && slug !in failing :: Touches(c, slug))
    && (forall i | 0 <= i < |c.writes| :: c.writes[i].stamp > since)
  }

  ghost predicate RunOk(t: Table, limit: nat, failing: set<string>, since: int, cycles: seq<Cycle>)
    decreases |cycles|
  {
    cycles == [] ||
    (CycleOk(t, limit, failing, since, cycles[0]) &&
     RunOk(UpsertAll(t, cycles[0].writes), limit, failing, since, cycles[1..]))
  }

  /** The other rows that are not newer than a given time. */
  function NotNewer(t: Table, since: int, slug: string): set<string> {
    set s | s in t && t[s].updatedAt <= since && s != slug
  }

  lemma {:induction false} TouchedIsNewer(t: Table, writes: seq<Write>, since: int, slug: string)
    requires forall i | 0 <= i < |writes| :: writes[i].stamp > since
    ensures slug in UpsertAll(t, writes) && UpsertAll(t, writes)[slug].updatedAt <= since ==>
            slug in t && t[slug] == UpsertAll(t, writes)[slug] &&
            forall i | 0 <= i < |writes| :: writes[i].market.slug != slug
  {
    if writes != [] {
      var n := |writes| - 1;
      assert forall i | 0 <= i < n :: writes[..n][i] == writes[i];
      TouchedIsNewer(t, writes[..n], since, slug);
    }
  }

  lemma {:induction false} SetOfDistinct(s: seq<string>)
    requires forall i, j | 0 <= i < j < |s| :: s[i] != s[j]
    ensures |(set x | x in s)| == |s|
  {
    if s != [] {
      var n := |s| - 1;
      SetOfDistinct(s[..n]);
      assert (set x | x in s) == (set x | x in s[..n]) + {s[n]};
      assert s[n] !in s[..n];
    }
  }

  lemma SubsetSize(a: set<string>, b: set<string>)
    requires a <= b
    ensures |a| <= |b| && |b - a| == |b| - |a|
  {
    assert b == a + (b - a);
  }

  lemma CountLeft(before: set<string>, after: set<string>, selected: set<string>, failing: set<string>)
    requires selected <= before && after <= before && after * selected <= failing
    ensures |after - failing| <= |before - failing| - (|selected| - |before * failing|)
    ensures |after * failing| <= |before * failing|
  {
    SubsetSize(after * failing, before * failing);
    SubsetSize(selected * failing, before * failing);
    SubsetSize(selected * failing, selected);
    assert selected - selected * failing == selected - failing;
    SubsetSize(selected - failing, before - failing);
    SubsetSize(after - failing, (before - failing) - (selected - failing));
  }

  /** A cycle that passes over an eligible row works off limit rows that are not newer, save the failing ones. */
  lemma CycleWorksOff(t: Table, limit: nat, failing: set<string>, slug: string, c: Cycle)
    requires slug in t && Eligible(t[slug], c.cutoff) && slug !in failing && !Touches(c, slug)
    requires CycleOk(t, limit, failing, t[slug].updatedAt, c)
    ensures var since := t[slug].updatedAt;
            var before, after := NotNewer(t, since, slug), NotNewer(UpsertAll(t, c.writes), since, slug);
            && after <= before
            && |after - failing| <= |before - failing| - (limit - |before * failing|)
            && |after * failing| <= |before * failing|
  {
    var since := t[slug].updatedAt;
    var before, after := NotNewer(t, since, slug), NotNewer(UpsertAll(t, c.writes), since, slug);
    var selected := set s | s in c.selected;
    SetOfDistinct(c.selected);
    assert slug !in c.selected;
    forall s | s in after
      ensures s in before && (s in selected ==> s in failing)
    {
      TouchedIsNewer(t, c.writes, since, s);
    }
    CountLeft(before, after, selected, failing);
  }

  /** Every one of the cycles finds the row eligible and leaves it alone. */
  predicate PassedOver(row: Row, slug: string, cycles: seq<Cycle>) {
    forall i | 0 <= i < |cycles| :: Eligible(row, cycles[i].cutoff) && !Touches(cycles[i], slug)
  }

  /** If failing rows leave room for per others in each selection, the cycles work off per rows each. */
  lemma {:induction false} RunWorksOff(t: Table, limit: nat, failing: set<string>, since: int, slug: string,
                                       cycles: seq<Cycle>, per: nat)
    requires slug in t && t[slug].updatedAt == since && slug !in failing && RunOk(t, limit, failing, since, cycles)
    requires PassedOver(t[slug], slug, cycles)
    requires |NotNewer(t, since, slug) * failing| + per <= limit
    ensures |cycles| * per <= |NotNewer(t, since, slug) - failing|
    decreases |cycles|
  {
    if cycles != [] {
      var c, rest := cycles[0], cycles[1..];
      CycleWorksOff(t, limit, failing, slug, c);
      PassedOverStays(t, limit, failing, slug, cycles);
      var t' := UpsertAll(t, c.writes);
      RunWorksOff(t', limit, failing, since, slug, rest, per);
      OneMoreTimeFits(
        |rest|, |cycles|, per, |NotNewer(t, since, slug) - failing|, |NotNewer(t', since, slug) - failing|);
    }
  }

  lemma PassedOverStays(t: Table, limit: nat, failing: set<string>, slug: string, cycles: seq<Cycle>)
    requires cycles != [] && slug in t && PassedOver(t[slug], slug, cycles)
    ensures var t' := UpsertAll(t, cycles[0].writes);
            slug in t' && t'[slug] == t[slug] && PassedOver(t'[slug], slug, cycles[1..])
  {
    Untouched(t, cycles[0].writes, slug);
    assert forall i | 0 <= i < |cycles| - 1 :: cycles[1..][i] == cycles[i + 1];
  }

  /**
   No starvation: if fewer than limit of the other rows that are not newer are
   failing, an eligible row is refreshed (or written by discovery) within
   k / (limit - f) + 1 cycles, where f counts those failing rows and k the
   others, however ties are broken and whatever is inserted meanwhile.
   */
  lemma NoStarvation(t: Table, limit: nat, failing: set<string>, slug: string, cycles: seq<Cycle>)
    requires slug in t && slug !in failing && RunOk(t, limit, failing, t[slug].updatedAt, cycles)
    requires cycles != [] && Eligible(t[slug], cycles[0].cutoff)
    requires forall i | 0 <= i < |cycles| :: cycles[0].cutoff <= cycles[i].cutoff
    requires var ahead := NotNewer(t, t[slug].updatedAt, slug);
             |ahead * failing| < limit && |cycles| == |ahead - failing| / (limit - |ahead * failing|) + 1
    ensures exists i | 0 <= i < |cycles| :: Touches(cycles[i], slug)
  {
    if forall i | 0 <= i < |cycles| :: !Touches(cycles[i], slug) {
      var ahead := NotNewer(t, t[slug].updatedAt, slug);
      var per := limit - |ahead * failing|;
      RunWorksOff(t, limit, failing, t[slug].updatedAt, slug, cycles, per);
      QuotientExceeds(|ahead - failing|, per);
    }
  }

  /** The rows are older than the time, eligible in every cycle, and never written. */
  ghost predicate Stuck(t: Table, stuck: set<string>, since: int, cycles: seq<Cycle>) {
    && (forall s | s in stuck :: s in t && t[s].updatedAt < since)
    && (forall s, k | s in stuck && 0 <= k < |cycles| :: Eligible(t[s], cycles[k].cutoff) && !Touches(cycles[k], s))
  }

  lemma StuckStay(t: Table, stuck: set<string>, since: int, cycles: seq<Cycle>)
    requires cycles != [] && Stuck(t, stuck, since, cycles)
    ensures Stuck(UpsertAll(t, cycles[0].writes), stuck, since, cycles[1..])
  {
    var t' := UpsertAll(t, cycles[0].writes);
    forall s | s in stuck
      ensures s in t' && t'[s] == t[s]
    {
      Untouched(t, cycles[0].writes, s);
    }
    assert forall k | 0 <= k < |cycles[1..]| :: cycles[1..][k] == cycles[k + 1];
  }

  lemma StuckFillSelection(t: Table, limit: nat, stuck: set<string>, since: int, slug: string, cycles: seq<Cycle>)
    requires cycles != [] && Stuck(t, stuck, since, cycles) && |stuck| >= limit
    requires IsSelection(t, cycles[0].cutoff, limit, cycles[0].selected)
    requires slug in t && t[slug].updatedAt >= since
    ensures slug !in cycles[0].selected
  {
    var c := cycles[0];
    if slug in c.selected {
      var selected := set s | s in c.selected;
      SetOfDistinct(c.selected);
      assert stuck + {slug} <= selected;
      SubsetSize(stuck + {slug}, selected);
    }
  }

  /**
   And otherwise it starves: behind limit or more older eligible rows that
   nothing ever writes, a row is never selected, however long refresh runs.
   */
  lemma {:induction false} HeadOfLineBlocking(t: Table, limit: nat, failing: set<string>, stuck: set<string>,
                                              since: int, slug: string, cycles: seq<Cycle>, i: nat)
    requires RunOk(t, limit, failing, since, cycles) && i < |cycles|
    requires slug in t && t[slug].updatedAt >= since && |stuck| >= limit && Stuck(t, stuck, since, cycles)
    ensures slug !in cycles[i].selected
    decreases i
  {
    if i == 0 {
      StuckFillSelection(t, limit, stuck, since, slug, cycles);
    } else {
      StuckStay(t, stuck, since, cycles);
      StampsOnlyRise(t, cycles[0].writes, since, slug);
      HeadOfLineBlocking(UpsertAll(t, cycles[0].writes), limit, failing, stuck, since, slug, cycles[1..], i - 1);
    }
  }

  lemma {:induction false} StampsOnlyRise(t: Table, writes: seq<Write>, since: int, slug: string)
    requires slug in t && t[slug].updatedAt >= since
    requires forall i | 0 <= i < |writes| :: writes[i].stamp > since
    ensures slug in UpsertAll(t, writes) && UpsertAll(t, writes)[slug].updatedAt >= since
  {
    if writes != [] {
      StampsOnlyRise(t, writes[..|writes| - 1], since, slug);
    }
  }

  // ---- Exactly when a row can starve ----

  /** The given rows without the ones that refresh never selects, so that they cannot stand in its way. */
  function Active(t: Table, rows: set<string>): set<string> {
    set s | s in rows && (s in t ==> t[s].interval in Discovery.INTERVALS)
  }

  /** The failing rows that refresh can select and that are not newer than the given one. */
  function InTheWay(t: Table, failing: set<string>, slug: string): set<string>
    requires slug in t
  {
    NotNewer(t, t[slug].updatedAt, slug) * Active(t, failing)
  }

  /** A run of refresh that finds the row eligible. */
  ghost predicate Waiting(t: Table, limit: nat, failing: set<string>, slug: string, cycles: seq<Cycle>)
    requires slug in t
  {
    && RunOk(t, limit, failing, t[slug].updatedAt, cycles)
    && cycles != [] && Eligible(t[slug], cycles[0].cutoff)
    && (forall i | 0 <= i < |cycles| :: cycles[0].cutoff <= cycles[i].cutoff)
  }

  predicate Reached(cycles: seq<Cycle>, slug: string) {
    exists i | 0 <= i < |cycles| :: Touches(cycles[i], slug)
  }

  predicate Selected(cycles: seq<Cycle>, slug: string) {
    exists i | 0 <= i < |cycles| :: slug in cycles[i].selected
  }

  /** So many cycles are enough for the row, whatever happens in them. */
  ghost predicate WaitsAtMost(t: Table, limit: nat, failing: set<string>, slug: string, n: nat)
    requires slug in t
  {
    forall cycles | Waiting(t, limit, failing, slug, cycles) && |cycles| == n :: Reached(cycles, slug)
  }

  /** Rows of an interval that is not active are never selected, so it does not matter that they fail. */
  lemma {:induction false} OnlyActiveFail(
    t0: Table, t: Table, limit: nat, failing: set<string>, since: int, cycles: seq<Cycle>)
    requires RunOk(t, limit, failing, since, cycles)
    requires forall s | s in t0 :: s in t && t[s].interval == t0[s].interval
    ensures RunOk(t, limit, Active(t0, failing), since, cycles)
    decreases |cycles|
  {
    if cycles != [] {
      var c := cycles[0];
      forall s | s in t
        ensures s in UpsertAll(t, c.writes) && UpsertAll(t, c.writes)[s].interval == t[s].interval
      {
        RowsAndIdentities(t, c.writes, s);
      }
      OnlyActiveFail(t0, UpsertAll(t, c.writes), limit, failing, since, cycles[1..]);
    }
  }

  /** The first k of the candidates in the order of their ranks. */
  lemma {:induction false} Best(candidates: set<string>, rank: string -> int, k: nat) returns (best: seq<string>)
    ensures forall i, j | 0 <= i < j < |best| :: best[i] != best[j] && rank(best[i]) <= rank(best[j])
    ensures forall s | s in best :: s in candidates
    ensures |best| <= k
    ensures forall s | s in candidates && s !in best :: |best| == k && forall b | b in best :: rank(b) <= rank(s)
  {
    best := [];
    if k > 0 && candidates != {} {
      var first := Least(candidates, rank);
      var rest := Best(candidates - {first}, rank, k - 1);
      best := [first] + rest;
      assert forall s | s in candidates && s !in best :: s in candidates - {first} && s !in rest;
    }
  }

  lemma {:induction false} Least(candidates: set<string>, rank: string -> int) returns (least: string)
    requires candidates != {}
    ensures least in candidates && forall s | s in candidates :: rank(least) <= rank(s)
  {
    least :| least in candidates;
    var others := candidates - {least};
    if others != {} {
      var other := Least(others, rank);
      assert forall s | s in candidates :: s == least || s in others;
      if rank(other) < rank(least) {
        least := other;
      }
    } else {
      assert forall s | s in candidates :: s == least || s in others;
    }
  }

  /** A write that leaves a row as it is but for its stamp. */
  function Stamping(t: Table, slug: string, stamp: int): Write
    requires slug in t
  {
    Write(Market(slug, t[slug].symbol, t[slug].interval, map[]), stamp)
  }

  /** Such a write to each of the rows that do not fail. */
  function StampAll(t: Table, slugs: seq<string>, failing: set<string>, stamp: int): seq<Write>
    requires forall s | s in slugs :: s in t
  {
    if slugs == [] then []
    else
      var n := |slugs| - 1;
      StampAll(t, slugs[..n], failing, stamp) + if slugs[n] in failing then [] else [Stamping(t, slugs[n], stamp)]
  }

  lemma WritesToSnoc(writes: seq<Write>, w: Write, slug: string)
    ensures WritesTo(writes + [w], slug) <==> WritesTo(writes, slug) || w.market.slug == slug
  {
    var all := writes + [w];
    assert all[|writes|] == w;
    assert forall i | 0 <= i < |writes| :: all[i] == writes[i];
  }

  lemma {:induction false} StampAllTouches(t: Table, slugs: seq<string>, failing: set<string>, stamp: int, slug: string)
    requires forall s | s in slugs :: s in t
    ensures forall w | w in StampAll(t, slugs, failing, stamp) :: w.stamp == stamp
    ensures WritesTo(StampAll(t, slugs, failing, stamp), slug) <==> slug in slugs && slug !in failing
  {
    if slugs != [] {
      var n := |slugs| - 1;
      var before := StampAll(t, slugs[..n], failing, stamp);
      StampAllTouches(t, slugs[..n], failing, stamp, slug);
      WritesToSnoc(before, Stamping(t, slugs[n], stamp), slug);
      assert before + [] == before;
      assert slugs == slugs[..n] + [slugs[n]];
    }
  }

  function StampOf(t: Table, slug: string): int {
    if slug in t then t[slug].updatedAt else 0
  }

  lemma DistinctWithin(s: seq<string>, within: set<string>)
    requires forall i, j | 0 <= i < j < |s| :: s[i] != s[j]
    requires forall x | x in s :: x in within
    ensures |s| <= |within|
    ensures |s| == |within| ==> forall x | x in within :: x in s
  {
    SetOfDistinct(s);
    var xs := set x | x in s;
    SubsetSize(xs, within);
    if |s| == |within| {
      assert |within - xs| == 0;
      assert within - xs == {};
      forall x | x in within
        ensures x in s
      {
        assert x !in within - xs;
      }
    }
  }

  /** Where limit rows are in the way, the limit oldest of the others are not newer than the row. */
  lemma OldestAreNotNewer(
    t: Table, limit: nat, failing: set<string>, slug: string, candidates: set<string>, best: seq<string>)
    requires slug in t && |InTheWay(t, failing, slug)| >= limit && InTheWay(t, failing, slug) <= candidates
    requires forall i, j | 0 <= i < j < |best| :: best[i] != best[j]
    requires forall s | s in best :: s in candidates
    requires |best| <= limit
    requires forall s | s in candidates && s !in best :: forall b | b in best :: StampOf(t, b) <= StampOf(t, s)
    ensures forall b | b in best :: StampOf(t, b) <= t[slug].updatedAt
  {
    var ahead := InTheWay(t, failing, slug);
    forall b | b in best
      ensures StampOf(t, b) <= t[slug].updatedAt
    {
      if StampOf(t, b) > t[slug].updatedAt {
        var bs := set x | x in best;
        SetOfDistinct(best);
        assert b !in ahead;
        assert ahead + {b} <= bs;
        SubsetSize(ahead + {b}, bs);
      }
    }
  }

  /** A cycle that stamps the rows it selects if they do not fail, and does nothing else. */
  function Plain(t: Table, cutoff: int, selected: seq<string>, failing: set<string>, stamp: int): Cycle
    requires forall s | s in selected :: s in t
  {
    Cycle(cutoff, selected, StampAll(t, selected, failing, stamp))
  }

  lemma PlainIsOk(t: Table, limit: nat, failing: set<string>, since: int, cutoff: int, selected: seq<string>)
    requires IsSelection(t, cutoff, limit, selected)
    ensures CycleOk(t, limit, failing, since, Plain(t, cutoff, selected, failing, since + 1))
    ensures forall s :: Touches(Plain(t, cutoff, selected, failing, since + 1), s) <==> s in selected && s !in failing
  {
    var c := Plain(t, cutoff, selected, failing, since + 1);
    forall s
      ensures Touches(c, s) <==> s in selected && s !in failing
    {
      StampAllTouches(t, selected, failing, since + 1, s);
    }
    StampAllTouches(t, selected, failing, since + 1, "");
  }

  /** The cycle has the given cutoff and writes neither the row nor a failing one. */
  ghost predicate Passes(c: Cycle, cutoff: int, failing: set<string>, slug: string) {
    c.cutoff == cutoff && !Touches(c, slug) && forall s | s in failing :: !Touches(c, s)
  }

  /** With so many candidates, the best of them fill the selection. */
  lemma BestFills(ahead: set<string>, candidates: set<string>, best: seq<string>, limit: nat)
    requires |ahead| >= limit && ahead <= candidates && |best| <= limit
    requires forall s | s in candidates && s !in best :: |best| == limit
    ensures |best| == limit
  {
    if |best| < limit {
      var bs := set s | s in best;
      BestAsSet(best);
      SubsetSize(ahead, bs);
    }
  }

  lemma {:induction false} BestAsSet(best: seq<string>)
    ensures |(set s | s in best)| <= |best|
  {
    if best != [] {
      var n := |best| - 1;
      BestAsSet(best[..n]);
      assert (set s | s in best) == (set s | s in best[..n]) + {best[n]};
    }
  }

  /** With limit rows in the way, the selection can do without the row. */
  lemma SelectWithout(t: Table, limit: nat, failing: set<string>, slug: string) returns (best: seq<string>)
    requires slug in t && |InTheWay(t, failing, slug)| >= limit
    ensures IsSelection(t, t[slug].updatedAt + 1, limit, best) && slug !in best
  {
    var since := t[slug].updatedAt;
    var candidates := set s | s in t && s != slug && Eligible(t[s], since + 1);
    assert InTheWay(t, failing, slug) <= candidates;
    best := Best(candidates, s => StampOf(t, s), limit);
    OldestAreNotNewer(t, limit, failing, slug, candidates, best);
    BestFills(InTheWay(t, failing, slug), candidates, best, limit);
    assert forall s | s in t && Eligible(t[s], since + 1) && s != slug :: s in candidates;
  }

  /** With limit rows in the way, a cycle can pass the row over and leave them where they are. */
  lemma StarvingCycle(t: Table, limit: nat, failing: set<string>, slug: string) returns (c: Cycle)
    requires slug in t && slug !in failing && |InTheWay(t, failing, slug)| >= limit
    ensures CycleOk(t, limit, failing, t[slug].updatedAt, c) && Passes(c, t[slug].updatedAt + 1, failing, slug)
  {
    var since := t[slug].updatedAt;
    var best := SelectWithout(t, limit, failing, slug);
    PlainIsOk(t, limit, failing, since, since + 1, best);
    c := Plain(t, since + 1, best, failing, since + 1);
  }

  lemma StaysInTheWay(t: Table, failing: set<string>, slug: string, c: Cycle, cutoff: int)
    requires slug in t && Passes(c, cutoff, failing, slug)
    ensures var t' := UpsertAll(t, c.writes);
            && slug in t' && t'[slug] == t[slug]
            && |InTheWay(t, failing, slug)| <= |InTheWay(t', failing, slug)|
  {
    Untouched(t, c.writes, slug);
    forall s | s in InTheWay(t, failing, slug)
      ensures s in InTheWay(UpsertAll(t, c.writes), failing, slug)
    {
      Untouched(t, c.writes, s);
    }
    SubsetSize(InTheWay(t, failing, slug), InTheWay(UpsertAll(t, c.writes), failing, slug));
  }

  /** So it can starve for any number of cycles, in which the failing rows are never written. */
  lemma {:induction false} StarvingRun(t: Table, limit: nat, failing: set<string>, slug: string, n: nat)
    returns (cycles: seq<Cycle>)
    requires slug in t && slug !in failing && |InTheWay(t, failing, slug)| >= limit
    ensures |cycles| == n && RunOk(t, limit, failing, t[slug].updatedAt, cycles)
    ensures forall i | 0 <= i < n :: Passes(cycles[i], t[slug].updatedAt + 1, failing, slug)
    decreases n
  {
    cycles := [];
    if n > 0 {
      var c := StarvingCycle(t, limit, failing, slug);
      StaysInTheWay(t, failing, slug, c, t[slug].updatedAt + 1);
      var rest := StarvingRun(UpsertAll(t, c.writes), limit, failing, slug, n - 1);
      cycles := [c] + rest;
      assert cycles[1..] == rest;
    }
  }

  /** With fewer rows in the way, the bound of NoStarvation is one. */
  lemma WaitIsBounded(t: Table, limit: nat, failing: set<string>, slug: string) returns (n: nat)
    requires slug in t && slug !in failing && |InTheWay(t, failing, slug)| < limit
    ensures n > 0 && WaitsAtMost(t, limit, failing, slug, n)
  {
    var ahead, active := NotNewer(t, t[slug].updatedAt, slug), Active(t, failing);
    assert ahead * active == InTheWay(t, failing, slug);
    n := |ahead - active| / (limit - |ahead * active|) + 1;
    forall cycles | Waiting(t, limit, failing, slug, cycles) && |cycles| == n
      ensures Reached(cycles, slug)
    {
      OnlyActiveFail(t, t, limit, failing, t[slug].updatedAt, cycles);
      NoStarvation(t, limit, active, slug, cycles);
    }
  }

  /**
   The wait of a row is bounded, whatever happens meanwhile, exactly if fewer
   than limit failing rows of active intervals are as old as it or older.
   */
  lemma WaitIsBoundedIff(t: Table, limit: nat, failing: set<string>, slug: string)
    requires slug in t && slug !in failing && t[slug].interval in Discovery.INTERVALS
    ensures (exists n: nat :: n > 0 && WaitsAtMost(t, limit, failing, slug, n)) <==>
            |InTheWay(t, failing, slug)| < limit
  {
    if |InTheWay(t, failing, slug)| < limit {
      var n := WaitIsBounded(t, limit, failing, slug);
    } else if n: nat :| n > 0 && WaitsAtMost(t, limit, failing, slug, n) {
      var cycles := StarvingRun(t, limit, failing, slug, n);
    }
  }

  /** A cycle that selects one row and gets no answer for it. */
  function Unanswered(cutoff: int, slug: string): Cycle {
    Cycle(cutoff, [slug], [])
  }

  /**
   Two rows stamped by one upsert, one of them failing, and a limit of 1: the
   failing row can be selected for ever and the other one never.
   */
  lemma TiedRowStarves(stuck: Row, waiting: Row, n: nat)
    requires stuck.updatedAt == waiting.updatedAt && n > 0
    requires stuck.interval in Discovery.INTERVALS && waiting.interval in Discovery.INTERVALS
    ensures var t := map["stuck" := stuck, "waiting" := waiting];
            var cycles := seq(n, _ => Unanswered(waiting.updatedAt + 1, "stuck"));
            Waiting(t, 1, {"stuck"}, "waiting", cycles) && !Selected(cycles, "waiting") && !Reached(cycles, "waiting")
  {
    TiedRun(stuck, waiting, n);
  }

  lemma {:induction false} TiedRun(stuck: Row, waiting: Row, n: nat)
    requires stuck.updatedAt == waiting.updatedAt && stuck.interval in Discovery.INTERVALS
    ensures var t := map["stuck" := stuck, "waiting" := waiting];
            RunOk(t, 1, {"stuck"}, waiting.updatedAt, seq(n, _ => Unanswered(waiting.updatedAt + 1, "stuck")))
  {
    if n > 0 {
      TiedRun(stuck, waiting, n - 1);
      var t := map["stuck" := stuck, "waiting" := waiting];
      var c := Unanswered(waiting.updatedAt + 1, "stuck");
      assert UpsertAll(t, c.writes) == t;
      assert CycleOk(t, 1, {"stuck"}, waiting.updatedAt, c);
      assert seq(n, _ => c)[1..] == seq(n - 1, _ => c);
    }
  }

  // ---- Exactly when a row must starve ----

  /** The failing rows that refresh can select and that are older than the given one. */
  function OlderFailing(t: Table, failing: set<string>, slug: string): set<string>
    requires slug in t
  {
    set s | s in Active(t, failing) && s in t && t[s].updatedAt < t[slug].updatedAt
  }

  /** A run in which the row is old enough to be eligible and nothing writes the failing rows. */
  ghost predicate Unattended(t: Table, limit: nat, failing: set<string>, slug: string, cycles: seq<Cycle>)
    requires slug in t
  {
    && RunOk(t, limit, failing, t[slug].updatedAt, cycles)
    && (forall i | 0 <= i < |cycles| ::
          cycles[i].cutoff > t[slug].updatedAt && forall s | s in failing :: !Touches(cycles[i], s))
  }

  /** A selection in the order of ranks that agree with the stamps. */
  lemma SelectByRank(t: Table, cutoff: int, limit: nat, rank: string -> int) returns (selected: seq<string>)
    requires forall a, b | a in t && b in t && rank(a) <= rank(b) :: t[a].updatedAt <= t[b].updatedAt
    ensures IsSelection(t, cutoff, limit, selected)
    ensures forall s | s in t && Eligible(t[s], cutoff) && s !in selected ::
              forall b | b in selected :: rank(b) <= rank(s)
  {
    var candidates := set s | s in t && Eligible(t[s], cutoff);
    selected := Best(candidates, rank, limit);
    forall s | s in t && Eligible(t[s], cutoff) && s !in selected
      ensures |selected| == limit && forall b | b in selected :: rank(b) <= rank(s)
    {
      assert s in candidates;
    }
  }

  /** All rows but one, in any order. */
  lemma AllBut(t: Table, slug: string) returns (others: seq<string>)
    ensures forall s :: s in others <==> s in t && s != slug
  {
    others := Best(t.Keys - {slug}, s => 0, |t.Keys - {slug}|);
    DistinctWithin(others, t.Keys - {slug});
  }

  /** The place of a row when ties go the way of the given one. */
  function RankFirst(t: Table, slug: string): string -> int {
    (s: string) => if s == slug then 2 * StampOf(t, s) - 1 else 2 * StampOf(t, s)
  }

  /** If every row that does not fail has been written since, ties can go the row's way. */
  lemma SelectFirst(t: Table, limit: nat, failing: set<string>, slug: string) returns (selected: seq<string>)
    requires slug in t && t[slug].interval in Discovery.INTERVALS && |OlderFailing(t, failing, slug)| < limit
    requires forall s | s in t && s !in failing && s != slug :: t[s].updatedAt > t[slug].updatedAt
    ensures IsSelection(t, t[slug].updatedAt + 1, limit, selected) && slug in selected
  {
    selected := SelectByRank(t, t[slug].updatedAt + 1, limit, RankFirst(t, slug));
    if slug !in selected {
      forall s | s in selected
        ensures s in OlderFailing(t, failing, slug)
      {
        assert RankFirst(t, slug)(s) <= RankFirst(t, slug)(slug);
      }
      DistinctWithin(selected, OlderFailing(t, failing, slug));
    }
  }

  lemma SelectingCycle(t: Table, limit: nat, failing: set<string>, slug: string) returns (c: Cycle)
    requires slug in t && slug !in failing && t[slug].interval in Discovery.INTERVALS
    requires |OlderFailing(t, failing, slug)| < limit
    requires forall s | s in t && s !in failing && s != slug :: t[s].updatedAt > t[slug].updatedAt
    ensures Unattended(t, limit, failing, slug, [c]) && slug in c.selected
  {
    var since := t[slug].updatedAt;
    var selected := SelectFirst(t, limit, failing, slug);
    PlainIsOk(t, limit, failing, since, since + 1, selected);
    c := Plain(t, since + 1, selected, failing, since + 1);
  }

  /** A first cycle in which everything else that does not fail is written, by whatever worker. */
  lemma ClearingCycle(t: Table, limit: nat, failing: set<string>, slug: string) returns (c: Cycle)
    requires slug in t && slug !in failing
    ensures Unattended(t, limit, failing, slug, [c])
    ensures slug in c.selected || forall s :: Touches(c, s) <==> s in t && s != slug && s !in failing
  {
    var since := t[slug].updatedAt;
    var selected := SelectByRank(t, since + 1, limit, s => StampOf(t, s));
    if slug in selected {
      PlainIsOk(t, limit, failing, since, since + 1, selected);
      c := Plain(t, since + 1, selected, failing, since + 1);
    } else {
      c := Clearing(t, limit, failing, slug, selected);
    }
  }

  lemma Clearing(t: Table, limit: nat, failing: set<string>, slug: string, selected: seq<string>) returns (c: Cycle)
    requires slug in t && slug !in failing && slug !in selected
    requires IsSelection(t, t[slug].updatedAt + 1, limit, selected)
    ensures Unattended(t, limit, failing, slug, [c])
    ensures forall s :: Touches(c, s) <==> s in t && s != slug && s !in failing
  {
    var since := t[slug].updatedAt;
    var others := AllBut(t, slug);
    c := Cycle(since + 1, selected, StampAll(t, others, failing, since + 1));
    forall s
      ensures Touches(c, s) <==> s in t && s != slug && s !in failing
    {
      StampAllTouches(t, others, failing, since + 1, s);
    }
    StampAllTouches(t, others, failing, since + 1, "");
  }

  lemma AfterClearing(t: Table, limit: nat, failing: set<string>, slug: string, c: Cycle)
    requires slug in t && slug !in failing && Unattended(t, limit, failing, slug, [c])
    requires forall s :: Touches(c, s) <==> s in t && s != slug && s !in failing
    ensures var t' := UpsertAll(t, c.writes);
            && slug in t' && t'[slug] == t[slug]
            && (forall s | s in t' && s !in failing && s != slug :: t'[s].updatedAt > t[slug].updatedAt)
            && |OlderFailing(t', failing, slug)| <= |OlderFailing(t, failing, slug)|
  {
    var t' := UpsertAll(t, c.writes);
    Untouched(t, c.writes, slug);
    forall s | s in t'
      ensures s in t && (s in failing ==> t'[s] == t[s])
      ensures s !in failing && s != slug ==> t'[s].updatedAt > t[slug].updatedAt
    {
      RowsAndIdentities(t, c.writes, s);
      if s in failing {
        Untouched(t, c.writes, s);
      } else {
        TouchedIsNewer(t, c.writes, t[slug].updatedAt, s);
      }
    }
    SubsetSize(OlderFailing(t', failing, slug), OlderFailing(t, failing, slug));
  }

  lemma UnattendedTwo(t: Table, limit: nat, failing: set<string>, slug: string, c: Cycle, d: Cycle)
    requires slug in t && Unattended(t, limit, failing, slug, [c])
    requires var t' := UpsertAll(t, c.writes);
             slug in t' && t'[slug] == t[slug] && Unattended(t', limit, failing, slug, [d])
    ensures Unattended(t, limit, failing, slug, [c, d])
  {
    assert [c, d][1..] == [d] && [c, d][0] == c && [c][0] == c && [d][0] == d;
  }

  /**
   If nothing writes the failing rows, a row is never selected, in any run, exactly
   if limit or more failing rows of active intervals are older than it; being as old
   is not enough, as ties may go either way.
   */
  lemma MustStarveIff(t: Table, limit: nat, failing: set<string>, slug: string)
    requires slug in t && slug !in failing && t[slug].interval in Discovery.INTERVALS
    ensures (forall cycles | Unattended(t, limit, failing, slug, cycles) :: !Selected(cycles, slug)) <==>
            |OlderFailing(t, failing, slug)| >= limit
  {
    if |OlderFailing(t, failing, slug)| >= limit {
      forall cycles: seq<Cycle> | Unattended(t, limit, failing, slug, cycles)
        ensures !Selected(cycles, slug)
      {
        forall i | 0 <= i < |cycles|
          ensures slug !in cycles[i].selected
        {
          HeadOfLineBlocking(
            t, limit, failing, OlderFailing(t, failing, slug), t[slug].updatedAt, slug, cycles, i);
        }
      }
    } else {
      var c := ClearingCycle(t, limit, failing, slug);
      if slug in c.selected {
        assert Selected([c], slug);
      } else {
        AfterClearing(t, limit, failing, slug, c);
        var d := SelectingCycle(UpsertAll(t, c.writes), limit, failing, slug);
        UnattendedTwo(t, limit, failing, slug, c, d);
        assert [c, d][1] == d && Selected([c, d], slug);
      }
    }
  }
}
