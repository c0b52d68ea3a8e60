/**
 The rate limiter (internal/api/ratelimit.go): concurrent callers share a
 one-slot semaphore and the time of the last request.
 */
module RateLimiter {
  import opened Wrappers
  import opened GoText
  import opened Arithmetic

  /** How long a caller must still sleep at the given reading, if at all. */
  function SleepFor(lastSent: Option<int>, minDelay: int, now: int): Option<int> {
    if lastSent.Some? && now - lastSent.value < minDelay then Some(minDelay - (now - lastSent.value)) else None
  }

  /** A sleep ends exactly minDelay after the last request; there is none if that is over. */
  lemma SleepEndsOnTime(last: int, minDelay: int, now: int)
    ensures SleepFor(None, minDelay, now) == None
    ensures SleepFor(Some(last), minDelay, now).None? <==> last + minDelay <= now
    ensures forall d | SleepFor(Some(last), minDelay, now) == Some(d) :: d > 0 && now + d == last + minDelay
  {
  }

  // ---- The callers as a step machine ----

  type Caller = nat

  /** Where a caller of Wait stands; from Checking to Leaving it holds the semaphore. */
  datatype Phase = Waiting | Checking | Sleeping(until: int) | Ready | Leaving

  datatype State = State(
    now: int,
    lastSent: Option<int>,
    slotsTaken: nat,
    phases: map<Caller, Phase>,
    grants: seq<int>)

  datatype Event =
    | Tick(d: nat)
    | Arrive(c: Caller)
    | Acquire(c: Caller)
    | Check(c: Caller)
    | Wake(c: Caller)
    | Cancel(c: Caller)
    | Grant(c: Caller)
    | Release(c: Caller)

  function Init(now: int): State {
    State(now, None, 0, map[], [])
  }

  predicate At(s: State, c: Caller, p: Phase) {
    c in s.phases && s.phases[c] == p
  }

  /** One atomic step; an event that is not possible changes nothing. */
  function Step(s: State, minDelay: int, e: Event): State {
    match e
    case Tick(d) => s.(now := s.now + d)
    case Arrive(c) => if c in s.phases then s else s.(phases := s.phases[c := Waiting])
    case Acquire(c) =>
      if At(s, c, Waiting) && s.slotsTaken < 1
      then s.(slotsTaken := s.slotsTaken + 1, phases := s.phases[c := Checking]) else s
    case Check(c) =>
      if !At(s, c, Checking) then s
      else
        var sleep := SleepFor(s.lastSent, minDelay, s.now);
        s.(phases := s.phases[c := if sleep.Some? then Sleeping(s.now + sleep.value) else Ready])
    case Wake(c) =>
      if c in s.phases && s.phases[c].Sleeping? && s.now >= s.phases[c].until
      then s.(phases := s.phases[c := Ready]) else s
    case Cancel(c) =>
      if c in s.phases && s.phases[c].Sleeping? then s.(phases := s.phases[c := Leaving]) else s
    case Grant(c) =>
      if At(s, c, Ready)
      then s.(lastSent := Some(s.now), grants := s.grants + [s.now], phases := s.phases[c := Leaving]) else s
    case Release(c) =>
      if At(s, c, Leaving) && s.slotsTaken > 0
      then s.(slotsTaken := s.slotsTaken - 1, phases := s.phases - {c}) else s
  }

  function Run(s: State, minDelay: int, events: seq<Event>): State
    decreases |events|
  {
    if events == [] then s else Run(Step(s, minDelay, events[0]), minDelay, events[1..])
  }

  predicate InCritical(s: State, c: Caller) {
    c in s.phases && !s.phases[c].Waiting?
  }

  /** Grants never go back in time, and any two are at least minDelay apart. */
  predicate Spaced(grants: seq<int>, minDelay: int) {
    forall i, j | 0 <= i < j < |grants| :: grants[i] <= grants[j] && grants[i] + minDelay <= grants[j]
  }

  /** At most one caller is inside; the semaphore knows it. */
  ghost predicate Exclusive(s: State) {
    && s.slotsTaken <= 1
    && (forall a, b | InCritical(s, a) && InCritical(s, b) :: a == b)
    && (s.slotsTaken == 1 <==> exists c :: InCritical(s, c))
  }

  ghost predicate Timed(s: State, minDelay: int) {
    && s.lastSent == (if s.grants == [] then None else Some(s.grants[|s.grants| - 1]))
    && (s.lastSent.Some? ==> s.lastSent.value <= s.now)
    && Spaced(s.grants, minDelay)
    && (forall c | c in s.phases && s.phases[c].Sleeping? && s.lastSent.Some? ::
          s.phases[c].until >= s.lastSent.value + minDelay)
    && (forall c | c in s.phases && s.phases[c].Ready? && s.lastSent.Some? :: s.now >= s.lastSent.value + minDelay)
  }

  ghost predicate Inv(s: State, minDelay: int) {
    Exclusive(s) && Timed(s, minDelay)
  }

  lemma StepKeepsExclusive(s: State, minDelay: int, e: Event)
    requires Exclusive(s)
    ensures Exclusive(Step(s, minDelay, e))
  {
    var s' := Step(s, minDelay, e);
    if e.Arrive? || e.Tick? {
      assert forall c :: InCritical(s', c) <==> InCritical(s, c);
    } else if e.Acquire? && s' != s {
      assert InCritical(s', e.c);
      assert forall c :: !InCritical(s, c);
      assert forall c :: InCritical(s', c) ==> c == e.c || InCritical(s, c);
    } else if e.Release? && s' != s {
      assert InCritical(s, e.c);
      assert forall c :: InCritical(s', c) ==> InCritical(s, c);
    } else if s' != s {
      assert InCritical(s, e.c) && InCritical(s', e.c);
      assert forall c :: InCritical(s', c) <==> InCritical(s, c);
    }
  }

  lemma StepKeepsTimed(s: State, minDelay: int, e: Event)
    requires Inv(s, minDelay)
    ensures Timed(Step(s, minDelay, e), minDelay)
  {
    if e.Grant? && At(s, e.c, Ready) {
      var s' := Step(s, minDelay, e);
      assert InCritical(s, e.c);
      forall c | c in s'.phases && (s'.phases[c].Sleeping? || s'.phases[c].Ready?)
        ensures false
      {
        assert InCritical(s, c);
      }
    }
  }

  lemma {:induction false} RunKeepsInv(s: State, minDelay: int, events: seq<Event>)
    requires Inv(s, minDelay)
    ensures Inv(Run(s, minDelay, events), minDelay)
    decreases |events|
  {
    if events != [] {
      StepKeepsExclusive(s, minDelay, events[0]);
      StepKeepsTimed(s, minDelay, events[0]);
      RunKeepsInv(Step(s, minDelay, events[0]), minDelay, events[1..]);
    }
  }

  /** The number of grants from a to b inclusive. */
  function CountIn(grants: seq<int>, a: int, b: int): nat {
    if grants == [] then 0
    else
      var n := |grants| - 1;
      CountIn(grants[..n], a, b) + if a <= grants[n] <= b then 1 else 0
  }

  /** It counts the grants at which the reading lies in between. */
  lemma {:induction false} CountsGrants(grants: seq<int>, a: int, b: int)
    ensures CountIn(grants, a, b) == |set i | 0 <= i < |grants| && a <= grants[i] <= b|
  {
    if grants != [] {
      var n := |grants| - 1;
      CountsGrants(grants[..n], a, b);
      var before, all := set i | 0 <= i < n && a <= grants[..n][i] <= b, set i | 0 <= i <= n && a <= grants[i] <= b;
      assert all == before + if a <= grants[n] <= b then {n} else {};
      assert all == set i | 0 <= i < |grants| && a <= grants[i] <= b;
    }
  }

  /** The last grant counted is late enough for all those before it. */
  lemma {:induction false} LastCounted(grants: seq<int>, minDelay: int, a: int, b: int) returns (i: nat)
    requires Spaced(grants, minDelay) && CountIn(grants, a, b) > 0
    ensures i < |grants| && a + (CountIn(grants, a, b) - 1) * minDelay <= grants[i] <= b
  {
    var n := |grants| - 1;
    if a <= grants[n] <= b {
      i := n;
      var before := CountIn(grants[..n], a, b);
      if before > 0 {
        var k := LastCounted(grants[..n], minDelay, a, b);
        assert grants[k] + minDelay <= grants[n];
        OneMoreTime(before, minDelay);
      }
    } else {
      i := LastCounted(grants[..n], minDelay, a, b);
    }
  }

  lemma WindowHoldsFew(grants: seq<int>, minDelay: int, a: int, length: nat)
    requires Spaced(grants, minDelay) && minDelay > 0
    ensures CountIn(grants, a, a + length) <= length / minDelay + 1
  {
    var count := CountIn(grants, a, a + length);
    if count > 0 {
      var i := LastCounted(grants, minDelay, a, a + length);
      DivideBy(count - 1, minDelay, length);
    }
  }

  /**
   For any number of callers, any schedule and any cancellations: one caller at a
   time, consecutive grants at least minDelay apart, and at most T / minDelay + 1
   grants in any window of length T.
   */
  lemma RateIsLimited(start: int, minDelay: int, events: seq<Event>, a: int, length: nat)
    ensures var s := Run(Init(start), minDelay, events);
            && (forall c, d | InCritical(s, c) && InCritical(s, d) :: c == d)
            && (forall i | 0 < i < |s.grants| :: s.grants[i] - s.grants[i - 1] >= minDelay)
            && (minDelay > 0 ==>
                  |set i | 0 <= i < |s.grants| && a <= s.grants[i] <= a + length| <= length / minDelay + 1)
  {
    assert Inv(Init(start), minDelay);
    RunKeepsInv(Init(start), minDelay, events);
    CountsGrants(Run(Init(start), minDelay, events).grants, a, a + length);
    if minDelay > 0 {
      WindowHoldsFew(Run(Init(start), minDelay, events).grants, minDelay, a, length);
    }
  }

  // ---- Nobody waits for longer than that ----

  /** The time at which the next request may go out. */
  function NextAt(s: State, minDelay: int): int {
    if s.lastSent.Some? && s.lastSent.value + minDelay > s.now then s.lastSent.value + minDelay else s.now
  }

  function Steps(s: State, minDelay: int, a: Event, b: Event, c: Event): State {
    Step(Step(Step(s, minDelay, a), minDelay, b), minDelay, c)
  }

  /** A caller that comes to a free limiter is granted its request as soon as the spacing allows, and not later. */
  lemma ServedOnTime(s: State, minDelay: int, c: Caller)
    requires c !in s.phases && s.slotsTaken == 0
    ensures var at := NextAt(s, minDelay);
            var checked := Steps(s, minDelay, Arrive(c), Acquire(c), Check(c));
            var granted := Steps(checked, minDelay, Tick(at - s.now), Wake(c), Grant(c));
            Step(granted, minDelay, Release(c)) ==
            s.(now := at, lastSent := Some(at), grants := s.grants + [at])
  {
    var at := NextAt(s, minDelay);
    var checked := Steps(s, minDelay, Arrive(c), Acquire(c), Check(c));
    assert s.phases[c := Leaving] - {c} == s.phases;
    assert checked.phases == s.phases[c := checked.phases[c]];
    var granted := Steps(checked, minDelay, Tick(at - s.now), Wake(c), Grant(c));
    assert granted.phases == s.phases[c := Leaving];
  }

  /** A caller whose context ends while it sleeps leaves without a trace. */
  lemma CancelledLeavesNoTrace(s: State, minDelay: int, c: Caller)
    requires c !in s.phases && s.slotsTaken == 0 && NextAt(s, minDelay) > s.now
    ensures var checked := Steps(s, minDelay, Arrive(c), Acquire(c), Check(c));
            Step(Step(checked, minDelay, Cancel(c)), minDelay, Release(c)) == s
  {
    var checked := Steps(s, minDelay, Arrive(c), Acquire(c), Check(c));
    assert checked.phases == s.phases[c := checked.phases[c]];
    assert s.phases[c := Leaving] - {c} == s.phases;
  }

  /** While a caller is inside no other gets in, and the one inside can always leave. */
  lemma SlotIsFreedAgain(s: State, minDelay: int, inside: Caller, other: Caller) returns (d: nat)
    requires Inv(s, minDelay) && InCritical(s, inside)
    ensures Step(s, minDelay, Acquire(other)) == s
    ensures var checked := Step(Step(s, minDelay, Check(inside)), minDelay, Tick(d));
            Steps(checked, minDelay, Wake(inside), Grant(inside), Release(inside)).slotsTaken == 0
  {
    assert s.slotsTaken == 1;
    var checked := Step(s, minDelay, Check(inside));
    d := if checked.phases[inside].Sleeping? && checked.phases[inside].until > s.now
         then checked.phases[inside].until - s.now else 0;
  }

  // ---- Retrying ----

  const MAX_ATTEMPTS := 5

  datatype Error = Canceled | DeadlineExceeded | NotFound | Other(text: string)

  /** What one call of the retried function returns. */
  type Outcome = Option<Error>

  /** How a retry loop ends: fn succeeded, the context ended during a pause, a terminal error, or too many failures. */
  datatype Ending = Succeeded | Interrupted | Terminal(error: Error) | Exhausted(last: Error)

  /** Only the two context errors end the loop; a market that is not found does not. */
  predicate IsTerminal(e: Error) {
    e == Canceled || e == DeadlineExceeded
  }

  function Shift(attempt: nat): (r: nat)
    ensures r >= 1
  {
    if attempt == 0 then 1 else 2 * Shift(attempt - 1)
  }

  function Base(attempt: nat, maxBackoff: int): int {
    if Shift(attempt) * SECOND > maxBackoff then maxBackoff else Shift(attempt) * SECOND
  }

  /**
   The pause before an attempt. The random number is drawn from [0, base / 2),
   which needs a cap of at least 2 ns.
   */
  function BackoffDelay(attempt: nat, maxBackoff: int, random: int): (delay: int)
    requires maxBackoff >= 2 && 0 <= random < Base(attempt, maxBackoff) / 2
    ensures var base := Base(attempt, maxBackoff);
            base - base / 4 <= delay <= base + base / 4
  {
    var base := Base(attempt, maxBackoff);
    base + (random - base / 4)
  }

  /** The caps: 2, 4, 8 and 16 seconds before the second to the fifth call, or the maximum if that is less. */
  lemma BaseIsCapped(maxBackoff: int)
    ensures Base(1, maxBackoff) == if maxBackoff < 2_000_000_000 then maxBackoff else 2_000_000_000
    ensures Base(2, maxBackoff) == if maxBackoff < 4_000_000_000 then maxBackoff else 4_000_000_000
    ensures Base(3, maxBackoff) == if maxBackoff < 8_000_000_000 then maxBackoff else 8_000_000_000
    ensures Base(4, maxBackoff) == if maxBackoff < 16_000_000_000 then maxBackoff else 16_000_000_000
  {
    assert Shift(1) == 2 * Shift(0) && Shift(2) == 2 * Shift(1);
    assert Shift(3) == 2 * Shift(2) && Shift(4) == 2 * Shift(3);
  }

  /** The pauses run from a quarter less than the cap upwards, one for each number that can be drawn. */
  lemma BackoffStartsLow(attempt: nat, maxBackoff: int, random: int)
    requires maxBackoff >= 2 && 0 <= random < Base(attempt, maxBackoff) / 2
    ensures 4 * (BackoffDelay(attempt, maxBackoff, 0) - Base(attempt, maxBackoff)) <= -Base(attempt, maxBackoff) + 3
    ensures BackoffDelay(attempt, maxBackoff, random) == BackoffDelay(attempt, maxBackoff, 0) + random
  {
  }

  function Sum(xs: seq<int>): int {
    if xs == [] then 0 else Sum(xs[..|xs| - 1]) + xs[|xs| - 1]
  }

  lemma SumsFour(a: int, b: int, c: int, d: int)
    ensures Sum([a, b, c, d]) == a + b + c + d
  {
    assert [a, b, c, d][..3] == [a, b, c] && [a, b, c][..2] == [a, b] && [a, b][..1] == [a] && [a][..0] == [];
    assert Sum([a]) == a && Sum([a, b]) == a + b && Sum([a, b, c]) == a + b + c;
  }

  /** The caps of the pauses before attempts 1 to n. */
  function Bases(n: nat, maxBackoff: int): (bases: seq<int>)
    ensures |bases| == n
  {
    seq(n, k requires 0 <= k < n => Base(k + 1, maxBackoff))
  }

  ghost predicate Drawable(maxBackoff: int, random: nat -> int) {
    maxBackoff >= 2 && forall k :: 0 <= random(k) < Base(k, maxBackoff) / 2
  }

  /** The pauses before attempts 1 to n. */
  ghost function Pauses(n: nat, maxBackoff: int, random: nat -> int): (pauses: seq<int>)
    requires Drawable(maxBackoff, random)
    ensures |pauses| == n
  {
    if n == 0 then [] else Pauses(n - 1, maxBackoff, random) + [BackoffDelay(n, maxBackoff, random(n))]
  }

  /** All pauses together last at most 5/4 of their caps, and these at most 30 seconds in the 4 pauses there can be. */
  lemma {:induction false} TotalPause(n: nat, maxBackoff: int, random: nat -> int)
    requires Drawable(maxBackoff, random)
    ensures 4 * Sum(Pauses(n, maxBackoff, random)) <= 5 * Sum(Bases(n, maxBackoff))
    ensures Sum(Bases(n, maxBackoff)) <= (Shift(n + 1) - 2) * SECOND
  {
    if n > 0 {
      TotalPause(n - 1, maxBackoff, random);
      var pauses := Pauses(n, maxBackoff, random);
      assert pauses[..n - 1] == Pauses(n - 1, maxBackoff, random);
      assert Bases(n, maxBackoff)[..n - 1] == Bases(n - 1, maxBackoff);
    }
  }

  /** A failure that is retried: any but the end of a context, a missing market included. */
  predicate Retried(o: Outcome) {
    o.Some? && o.value != Canceled && o.value != DeadlineExceeded
  }

  class RateLimiter {
    const minDelay: int
    const maxBackoff: int
    var lastSent: Option<int>

    constructor (minDelay: int, maxBackoff: int)
      ensures this.minDelay == minDelay && this.maxBackoff == maxBackoff && lastSent == None
    {
      this.minDelay, this.maxBackoff := minDelay, maxBackoff;
      lastSent := None;
    }

    /**
     Wait without contention: check and sent are the two clock readings, and the
     context ends or not while the caller sleeps. A sleep that runs out has
     lasted as long as was asked for.
     */
    method Wait(check: int, cancelled: bool, sent: int) returns (ok: bool)
      requires lastSent.Some? ==> lastSent.value <= check
      requires check <= sent
      requires SleepFor(lastSent, minDelay, check).Some? && !cancelled ==>
               sent - check >= SleepFor(lastSent, minDelay, check).value
      modifies this
      ensures ok <==> !cancelled || old(SleepFor(lastSent, minDelay, check)).None?
      ensures lastSent == if ok then Some(sent) else old(lastSent)
      ensures ok && old(lastSent).Some? ==> sent - old(lastSent).value >= minDelay
    {
      if lastSent.Some? {
        var elapsed := check - lastSent.value;
        if elapsed < minDelay {
          if cancelled {
            return false;
          }
        }
      }
      lastSent := Some(sent);
      return true;
    }

    /**
     fn(k) is what the k-th call returns, random(k) the random number drawn for
     the pause before it, and interrupted(k) whether the context ends in that pause.
     */
    method RetryWithBackoff(fn: nat -> Outcome, random: nat -> int, interrupted: nat -> bool)
      returns (ending: Ending, calls: nat, delays: seq<int>)
      requires Drawable(maxBackoff, random)
      ensures 1 <= calls <= 5
      ensures forall k | 0 <= k < calls - 1 :: Retried(fn(k))
      ensures forall k | 0 < k < calls :: !interrupted(k)
      ensures match ending
              case Succeeded => fn(calls - 1).None?
              case Terminal(e) => fn(calls - 1) == Some(e) && (e == Canceled || e == DeadlineExceeded)
              case Exhausted(e) => calls == 5 && fn(calls - 1) == Some(e) && Retried(Some(e))
              case Interrupted => calls < 5 && Retried(fn(calls - 1)) && interrupted(calls)
      ensures delays == Pauses(if ending.Interrupted? then calls else calls - 1, maxBackoff, random)
    {
      calls, delays := 0, [];
      ending := Interrupted;
      while calls < MAX_ATTEMPTS
        invariant 0 <= calls <= MAX_ATTEMPTS
        invariant forall k | 0 <= k < calls :: Retried(fn(k))
        invariant forall k | 0 < k < calls :: !interrupted(k)
        invariant delays == Pauses(if calls == 0 then 0 else calls - 1, maxBackoff, random)
        invariant calls > 0 ==> ending == Exhausted(fn(calls - 1).value)
      {
        if calls > 0 {
          delays := delays + [BackoffDelay(calls, maxBackoff, random(calls))];
          if interrupted(calls) {
            return Interrupted, calls, delays;
          }
        }
        var outcome := fn(calls);
        calls := calls + 1;
        if outcome.None? {
          return Succeeded, calls, delays;
        }
        ending := Exhausted(outcome.value);
        if IsTerminal(outcome.value) {
          return Terminal(outcome.value), calls, delays;
        }
      }
    }
  }
}
