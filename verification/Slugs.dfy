/**
 Market slugs, symbol-updown-interval-timestamp: printing, parsing by a
 backwards search, and generating the slugs of coming market windows
 (internal/scanner/sluggen.go). A string is a sequence of bytes and a clock
 reading a number of nanoseconds since the Unix epoch.
 */
module Slugs {
  import opened Wrappers
  import opened GoText
  import opened Arithmetic

  /** Seconds from year 1, where Go's time.Time counts from, to the Unix epoch. */
  const UNIX_TO_INTERNAL := 62_135_596_800

  datatype SlugError = UnknownInterval | TooShort | NoTimestamp | BadTimestamp(cause: ParseError) | Stale

  function Duration(interval: string): (d: Option<int>)
    ensures d.Some? <==> interval == "5m" || interval == "15m"
  {
    if interval == "5m" then Some(300)
    else if interval == "15m" then Some(900)
    else None
  }

  predicate KnownInterval(interval: string) {
    Duration(interval).Some?
  }

  function Infix(interval: string): string {
    "-updown-" + interval + "-"
  }

  function PrintSlug(symbol: string, interval: string, ts: int): string {
    symbol + Infix(interval) + IntText(ts)
  }

  // ---- Parsing ----

  predicate OccursAt(slug: string, infix: string, i: int) {
    0 <= i <= |slug| - |infix| && slug[i..i + |infix|] == infix
  }

  /** The last place before bound at which infix occurs. */
  function LastOccurrence(slug: string, infix: string, bound: int): (r: Option<nat>)
    requires bound <= |slug| - |infix|
    ensures r.Some? ==> r.value < bound && OccursAt(slug, infix, r.value)
    decreases bound
  {
    if bound <= 0 then None
    else if OccursAt(slug, infix, bound - 1) then Some(bound - 1)
    else LastOccurrence(slug, infix, bound - 1)
  }

  /** It is the last one. */
  lemma {:induction false} LastOccurrenceIs(slug: string, infix: string, bound: int, at: int)
    requires 0 <= at < bound <= |slug| - |infix| && OccursAt(slug, infix, at)
    requires forall j | at < j < bound :: !OccursAt(slug, infix, j)
    ensures LastOccurrence(slug, infix, bound) == Some(at)
    decreases bound
  {
    if at < bound - 1 {
      LastOccurrenceIs(slug, infix, bound - 1, at);
    }
  }

  function TimestampFrom(text: string): Result<int, SlugError> {
    match ParseInt64(text)
    case Success(ts) => Success(ts)
    case Failure(e) => Failure(BadTimestamp(e))
  }

  /** What stands behind the last infix that has at least one character behind it. */
  function TextBehind(slug: string, infix: string): Result<string, SlugError> {
    if |slug| < |infix| + 1 then Failure(TooShort)
    else
      match LastOccurrence(slug, infix, |slug| - |infix|)
      case None => Failure(NoTimestamp)
      case Some(i) => Success(slug[i + |infix|..])
  }

  function ParseSlug(slug: string, interval: string): Result<int, SlugError> {
    match TextBehind(slug, Infix(interval))
    case Success(text) => TimestampFrom(text)
    case Failure(e) => Failure(e)
  }

  /** The search loop of parseTimestampSlug. */
  method SearchBackwards(slug: string, prefix: string) returns (r: Result<string, SlugError>)
    ensures r == TextBehind(slug, prefix)
  {
    if |slug| < |prefix| + 1 {
      return Failure(TooShort);
    }
    var i := |slug| - |prefix| - 1;
    while i >= 0
      invariant -1 <= i < |slug| - |prefix|
      invariant LastOccurrence(slug, prefix, |slug| - |prefix|) == LastOccurrence(slug, prefix, i + 1)
    {
      if slug[i..i + |prefix|] == prefix {
        return Success(slug[i + |prefix|..]);
      }
      i := i - 1;
    }
    return Failure(NoTimestamp);
  }

  method ParseTimestampSlug(slug: string, interval: string) returns (r: Result<int, SlugError>)
    ensures r == ParseSlug(slug, interval)
  {
    var text := SearchBackwards(slug, Infix(interval));
    match text
    case Success(tsStr) => return TimestampFrom(tsStr);
    case Failure(e) => return Failure(e);
  }

  /** The last four characters of the two infixes. */
  lemma InfixEnd(interval: string)
    requires KnownInterval(interval)
    ensures var f := Infix(interval);
            && |f| >= 4 && f[|f| - 1] == '-' && f[|f| - 2] == 'm'
            && f[|f| - 4] == (if interval == "5m" then '-' else '1')
  {
    if interval == "5m" {
      assert Infix(interval) == "-updown-5m-";
    } else {
      assert Infix(interval) == "-updown-15m-";
    }
  }

  /**
   Where an infix can lie in front of a printed number: at the very end, or
   ending at least two characters earlier.
   */
  lemma InfixPlaces(front: string, interval: string, ts: int, other: string, j: int)
    requires KnownInterval(interval) && KnownInterval(other)
    requires OccursAt(front + Infix(interval) + IntText(ts), Infix(other), j)
    ensures var start := |front| + |Infix(interval)|;
            var end := j + |Infix(other)|;
            (end == start && other == interval) || end <= start - 2
  {
    var mine, theirs, text := Infix(interval), Infix(other), IntText(ts);
    var slug := front + mine + text;
    var start := |front| + |mine|;
    var end := j + |theirs|;
    assert slug[|front|..start] == mine;
    InfixLeavesEnd(slug, other, j);
    InfixLeavesEnd(slug, interval, |front|);
    assert forall k | start < k < |slug| :: slug[k] == text[k - start] && IsDigit(slug[k]);
  }

  /** What an infix leaves at the end of the place where it occurs. */
  lemma InfixLeavesEnd(slug: string, interval: string, j: int)
    requires KnownInterval(interval) && OccursAt(slug, Infix(interval), j)
    ensures var end := j + |Infix(interval)|;
            && 4 <= end <= |slug| && slug[end - 1] == '-' && slug[end - 2] == 'm'
            && slug[end - 4] == (if interval == "5m" then '-' else '1')
  {
    var f := Infix(interval);
    InfixEnd(interval);
    assert forall k | 0 <= k < |f| :: slug[j + k] == slug[j..j + |f|][k] == f[k];
    assert slug[j + (|f| - 1)] == f[|f| - 1] && slug[j + (|f| - 2)] == f[|f| - 2] && slug[j + (|f| - 4)] == f[|f| - 4];
  }

  /** Parsing undoes printing, whatever the symbol contains, for every timestamp of 64 bits. */
  lemma SlugRoundTrip(symbol: string, interval: string, ts: int)
    requires KnownInterval(interval) && IsInt64(ts)
    ensures ParseSlug(PrintSlug(symbol, interval, ts), interval) == Success(ts)
  {
    IntTextRoundTrip(ts);
    OwnInfixIsLast(symbol, interval, ts);
  }

  /** The infix lies behind the symbol, with the number behind it. */
  lemma OwnInfixOccurs(symbol: string, infix: string, text: string)
    ensures OccursAt(symbol + infix + text, infix, |symbol|)
    ensures (symbol + infix + text)[|symbol| + |infix|..] == text
  {
    var slug := symbol + infix + text;
    assert slug[|symbol|..|symbol| + |infix|] == infix;
    assert slug[|symbol| + |infix|..] == text;
  }

  /** Nothing but its own infix lies at or behind the place of the infix. */
  lemma OnlyOwnInfixBehind(symbol: string, interval: string, ts: int, j: int)
    requires KnownInterval(interval) && OccursAt(symbol + Infix(interval) + IntText(ts), Infix(interval), j)
    ensures j <= |symbol|
  {
    InfixPlaces(symbol, interval, ts, interval, j);
  }

  lemma LastInfixIsOwn(symbol: string, interval: string, ts: int)
    requires KnownInterval(interval)
    ensures var infix, slug := Infix(interval), PrintSlug(symbol, interval, ts);
            |infix| < |slug| && LastOccurrence(slug, infix, |slug| - |infix|) == Some(|symbol|)
  {
    var infix, slug := Infix(interval), PrintSlug(symbol, interval, ts);
    OwnInfixOccurs(symbol, infix, IntText(ts));
    forall j | |symbol| < j < |slug| - |infix|
      ensures !OccursAt(slug, infix, j)
    {
      if OccursAt(slug, infix, j) {
        OnlyOwnInfixBehind(symbol, interval, ts, j);
      }
    }
    LastOccurrenceIs(slug, infix, |slug| - |infix|, |symbol|);
  }

  lemma OwnInfixIsLast(symbol: string, interval: string, ts: int)
    requires KnownInterval(interval)
    ensures TextBehind(PrintSlug(symbol, interval, ts), Infix(interval)) == Success(IntText(ts))
  {
    LastInfixIsOwn(symbol, interval, ts);
    OwnInfixOccurs(symbol, Infix(interval), IntText(ts));
  }

  /** What follows an infix of the other interval is no number. */
  lemma OtherTailFails(front: string, interval: string, ts: int, other: string, j: int)
    requires KnownInterval(interval) && KnownInterval(other) && other != interval
    requires OccursAt(front + Infix(interval) + IntText(ts), Infix(other), j)
    ensures ParseInt64((front + Infix(interval) + IntText(ts))[j + |Infix(other)|..]).Failure?
  {
    var mine := Infix(interval);
    var slug := front + mine + IntText(ts);
    var end := j + |Infix(other)|;
    InfixPlaces(front, interval, ts, other, j);
    InfixEnd(interval);
    var dash := |front| + (|mine| - 1);
    assert slug[dash] == mine[|mine| - 1];
    StrayCharacterFails(slug[end..], dash - end);
  }

  lemma NoNumberNoTimestamp(slug: string, interval: string)
    requires forall i :: OccursAt(slug, Infix(interval), i) ==> ParseInt64(slug[i + |Infix(interval)|..]).Failure?
    ensures ParseSlug(slug, interval).Failure?
  {
  }

  /** Parsing under the other interval always fails, even if the symbol contains that infix. */
  lemma OtherIntervalFails(symbol: string, interval: string, ts: int, other: string)
    requires KnownInterval(interval) && KnownInterval(other) && other != interval
    ensures ParseSlug(PrintSlug(symbol, interval, ts), other).Failure?
  {
    var slug := PrintSlug(symbol, interval, ts);
    forall i | OccursAt(slug, Infix(other), i)
      ensures ParseInt64(slug[i + |Infix(other)|..]).Failure?
    {
      OtherTailFails(symbol, interval, ts, other, i);
    }
    NoNumberNoTimestamp(slug, other);
  }

  lemma CancelTail(a: string, b: string, tail: string)
    requires a + tail == b + tail
    ensures a == b
  {
    assert |a| == |b|;
    assert forall i | 0 <= i < |a| :: a[i] == (a + tail)[i] == (b + tail)[i] == b[i];
  }

  /** No two markets share a slug. */
  lemma PrintSlugInjective(symbol1: string, interval1: string, ts1: int, symbol2: string, interval2: string, ts2: int)
    requires KnownInterval(interval1) && KnownInterval(interval2) && IsInt64(ts1) && IsInt64(ts2)
    requires PrintSlug(symbol1, interval1, ts1) == PrintSlug(symbol2, interval2, ts2)
    ensures symbol1 == symbol2 && interval1 == interval2 && ts1 == ts2
  {
    SlugRoundTrip(symbol1, interval1, ts1);
    SlugRoundTrip(symbol2, interval2, ts2);
    if interval1 != interval2 {
      OtherIntervalFails(symbol1, interval1, ts1, interval2);
    }
    CancelTail(symbol1 + Infix(interval1), symbol2 + Infix(interval2), IntText(ts1));
    CancelTail(symbol1, symbol2, Infix(interval1));
  }

  // ---- Generation ----

  function UnixSeconds(now: int): int {
    now / SECOND
  }

  /** The start of the market window that is open at the given reading. */
  function WindowStart(now: int, dur: int): int
    requires dur > 0
  {
    TruncDiv(UnixSeconds(now), dur) * dur
  }

  /** The n timestamps that follow start at distance dur, in int64 arithmetic. */
  function Following(start: int, dur: int, n: int): seq<int> {
    seq(if n > 0 then n else 0, k => Wrap64(start + (k + 1) * dur))
  }

  function PrintAll(symbol: string, interval: string, timestamps: seq<int>): (slugs: seq<string>)
    ensures |slugs| == |timestamps|
    ensures forall k | 0 <= k < |slugs| :: slugs[k] == PrintSlug(symbol, interval, timestamps[k])
  {
    seq(|timestamps|, k requires 0 <= k < |timestamps| => PrintSlug(symbol, interval, timestamps[k]))
  }

  function TimeUnix(ts: int): int {
    (Wrap64(ts + UNIX_TO_INTERNAL) - UNIX_TO_INTERNAL) * SECOND
  }

  /** Is the anchor so old that even its n-th successor lies in the past? */
  predicate IsStale(ts: int, dur: int, n: int, now: int) {
    TimeUnix(ts) < now + Wrap64(-n * dur * SECOND)
  }

  function CurrentSlug(symbol: string, interval: string, now: int): string {
    match Duration(interval)
    case None => ""
    case Some(dur) => PrintSlug(symbol, interval, WindowStart(now, dur))
  }

  function InitialSlugs(symbol: string, interval: string, n: int, now: int): Result<seq<string>, SlugError> {
    match Duration(interval)
    case None => Failure(UnknownInterval)
    case Some(dur) => Success(PrintAll(symbol, interval, Following(WindowStart(now, dur), dur, n)))
  }

  function NextSlugs(symbol: string, interval: string, current: string, n: int, now: int)
    : Result<seq<string>, SlugError>
  {
    match Duration(interval)
    case None => Failure(UnknownInterval)
    case Some(dur) =>
      match ParseSlug(current, interval)
      case Failure(e) => Failure(e)
      case Success(ts) =>
        if IsStale(ts, dur, n, now) then Failure(Stale)
        else Success(PrintAll(symbol, interval, Following(ts, dur, n)))
  }

  lemma FollowingHas(start: int, dur: int, n: int, i: int)
    requires 1 <= i <= n
    ensures Following(start, dur, n)[i - 1] == Wrap64(start + i * dur)
  {
  }

  method AppendFollowing(symbol: string, interval: string, start: int, dur: int, n: int)
    returns (slugs: seq<string>)
    ensures slugs == PrintAll(symbol, interval, Following(start, dur, n))
  {
    ghost var expected := PrintAll(symbol, interval, Following(start, dur, n));
    slugs := [];
    var i := 1;
    while i <= n
      invariant 1 <= i <= |expected| + 1 && slugs == expected[..i - 1]
    {
      var nextTs := Wrap64(start + i * dur);
      FollowingHas(start, dur, n, i);
      slugs := slugs + [PrintSlug(symbol, interval, nextTs)];
      i := i + 1;
    }
  }

  method GenerateInitialSlugs(symbol: string, interval: string, n: int, now: int)
    returns (r: Result<seq<string>, SlugError>)
    ensures r == InitialSlugs(symbol, interval, n, now)
  {
    var dur := Duration(interval);
    if dur.None? {
      return Failure(UnknownInterval);
    }
    var rounded := TruncDiv(UnixSeconds(now), dur.value) * dur.value;
    var slugs := AppendFollowing(symbol, interval, rounded, dur.value, n);
    return Success(slugs);
  }

  method GenerateNextSlugs(symbol: string, interval: string, current: string, n: int, now: int)
    returns (r: Result<seq<string>, SlugError>)
    ensures r == NextSlugs(symbol, interval, current, n, now)
  {
    var dur := Duration(interval);
    if dur.None? {
      return Failure(UnknownInterval);
    }
    var ts := ParseTimestampSlug(current, interval);
    if ts.Failure? {
      return Failure(ts.error);
    }
    if IsStale(ts.value, dur.value, n, now) {
      return Failure(Stale);
    }
    var slugs := AppendFollowing(symbol, interval, ts.value, dur.value, n);
    return Success(slugs);
  }

  /** Neither the timestamps after start nor the span of n windows overflow. */
  predicate Fits(start: int, dur: int, n: int) {
    && 0 <= start <= start + (if n > 0 then n else 0) * dur < TWO_63 - UNIX_TO_INTERNAL
    && IsInt64(-n * dur * SECOND)
  }

  /** t is one of the n grid points after start. */
  predicate AmongNext(t: int, start: int, dur: int, n: int)
    requires dur > 0
  {
    start < t <= start + n * dur && t % dur == start % dur
  }

  /** Without overflow, the k-th candidate is k + 1 windows after start. */
  lemma FollowingAt(start: int, dur: int, n: int, k: int)
    requires (dur == 300 || dur == 900) && Fits(start, dur, n) && 0 <= k < n
    ensures Following(start, dur, n)[k] == start + (k + 1) * dur
  {
    assert 0 <= (k + 1) * dur <= n * dur;
  }

  lemma GridDistance300(d: int, e: int)
    ensures (d + e) % 300 == e % 300 <==> d == d / 300 * 300
  {
  }

  lemma GridDistance900(d: int, e: int)
    ensures (d + e) % 900 == e % 900 <==> d == d / 900 * 900
  {
  }

  /** Two points lie on one grid exactly when their distance is a number of windows. */
  lemma GridDistance(d: int, e: int, dur: int)
    requires dur == 300 || dur == 900
    ensures (d + e) % dur == e % dur <==> d == d / dur * dur
  {
    if dur == 300 {
      GridDistance300(d, e);
    } else {
      GridDistance900(d, e);
    }
  }

  /** Being among the next n grid points is being k + 1 windows after start for some k < n. */
  lemma GridIndex(t: int, start: int, dur: int, n: int, k: int)
    requires dur == 300 || dur == 900
    requires k == (t - start) / dur - 1
    ensures AmongNext(t, start, dur, n) <==> 0 <= k < n && t == start + (k + 1) * dur
  {
    GridDistance(t - start, start, dur);
  }

  /** The candidates are exactly the next n grid points. */
  lemma FollowingIsNextGridPoints(start: int, dur: int, n: int, t: int)
    requires (dur == 300 || dur == 900) && Fits(start, dur, n)
    ensures t in Following(start, dur, n) <==> AmongNext(t, start, dur, n)
  {
    var f := Following(start, dur, n);
    var index := (t - start) / dur - 1;
    GridIndex(t, start, dur, n, index);
    if t in f {
      var k :| 0 <= k < |f| && f[k] == t;
      FollowingAt(start, dur, n, k);
      assert k == index;
    } else if 0 <= index < n {
      FollowingAt(start, dur, n, index);
      assert f[index] in f;
    }
  }

  /** An anchor that is not stale has its n-th successor at or after now. */
  lemma LiveAnchorReachesNow(ts: int, dur: int, n: int, now: int)
    requires Fits(ts, dur, n)
    ensures IsStale(ts, dur, n, now) <==> (ts + n * dur) * SECOND < now
  {
  }

  /**
   A live anchor loses no window: the one open now is at or before the anchor
   or among the candidates, and the last candidate is not yet over.
   */
  lemma AnchoredCoversCurrentWindow(ts: int, dur: int, n: int, now: int)
    requires (dur == 300 || dur == 900) && Fits(ts, dur, n) && 0 <= now && ts % dur == 0
    requires !IsStale(ts, dur, n, now)
    ensures WindowStart(now, dur) <= ts || WindowStart(now, dur) in Following(ts, dur, n)
    ensures n >= 1 ==> now <= Following(ts, dur, n)[n - 1] * SECOND
  {
    LiveAnchorReachesNow(ts, dur, n, now);
    FollowingIsNextGridPoints(ts, dur, n, WindowStart(now, dur));
    WindowHoldsNow(now, dur);
    assert WindowStart(now, dur) <= ts + n * dur;
    if n >= 1 {
      FollowingAt(ts, dur, n, n - 1);
    }
  }

  /** The current slug names the window that is open now; only an unknown interval has none. */
  lemma CurrentSlugNamesOpenWindow(symbol: string, interval: string, now: int)
    requires 0 <= now < TWO_63 * SECOND
    ensures CurrentSlug(symbol, interval, now) == "" <==> !KnownInterval(interval)
    ensures KnownInterval(interval) ==>
              var dur, ts := Duration(interval).value, ParseSlug(CurrentSlug(symbol, interval, now), interval);
              ts.Success? && ts.value % dur == 0 && ts.value * SECOND <= now < (ts.value + dur) * SECOND
  {
    if KnownInterval(interval) {
      var ts := WindowStart(now, Duration(interval).value);
      OpenWindow(now, Duration(interval).value);
      SlugRoundTrip(symbol, interval, ts);
      assert |CurrentSlug(symbol, interval, now)| >= |Infix(interval)| > 0;
    }
  }

  lemma OpenWindow(now: int, dur: int)
    requires (dur == 300 || dur == 900) && 0 <= now < TWO_63 * SECOND
    ensures var ts := WindowStart(now, dur);
            ts % dur == 0 && ts * SECOND <= now < (ts + dur) * SECOND && IsInt64(ts)
  {
  }

  /** The fallback asks for exactly the n windows after the open one, none of them opened yet. */
  lemma FallbackIsNextWindows(dur: int, n: int, now: int, t: int)
    requires (dur == 300 || dur == 900) && 0 <= now && Fits(WindowStart(now, dur), dur, n)
    ensures t in Following(WindowStart(now, dur), dur, n)
       <==> t % dur == 0 && WindowStart(now, dur) < t <= WindowStart(now, dur) + n * dur
    ensures t in Following(WindowStart(now, dur), dur, n) ==> now < t * SECOND
  {
    var open := WindowStart(now, dur);
    FollowingIsNextGridPoints(open, dur, n, t);
    WindowHoldsNow(now, dur);
    if t in Following(open, dur, n) {
      var k :| 0 <= k < |Following(open, dur, n)| && Following(open, dur, n)[k] == t;
      FollowingAt(open, dur, n, k);
      assert dur <= (k + 1) * dur;
    }
  }

  lemma WindowHoldsNow(now: int, dur: int)
    requires (dur == 300 || dur == 900) && 0 <= now
    ensures WindowStart(now, dur) % dur == 0
    ensures WindowStart(now, dur) * SECOND <= now < (WindowStart(now, dur) + dur) * SECOND
  {
  }

  // ---- Errors and overflow ----

  /** The infix occurs with something behind it. */
  predicate OccursInside(slug: string, infix: string) {
    exists i | 0 <= i < |slug| - |infix| :: OccursAt(slug, infix, i)
  }

  lemma TextBehindErrors(slug: string, infix: string)
    ensures TextBehind(slug, infix) == Failure(TooShort) <==> |slug| <= |infix|
    ensures TextBehind(slug, infix) == Failure(NoTimestamp) <==> |slug| > |infix| && !OccursInside(slug, infix)
    ensures forall text :: TextBehind(slug, infix) == Success(text) ==>
              exists i | 0 <= i < |slug| - |infix| :: OccursAt(slug, infix, i) && text == slug[i + |infix|..]
  {
    if |slug| > |infix| && OccursInside(slug, infix) {
      var i :| 0 <= i < |slug| - |infix| && OccursAt(slug, infix, i);
      SomeOccurrence(slug, infix, |slug| - |infix|, i);
    }
  }

  /** How parsing fails: too short, without the infix, or with something behind it that is no number. */
  lemma ParseErrors(slug: string, interval: string)
    ensures ParseSlug(slug, interval) == Failure(TooShort) <==> |slug| <= |Infix(interval)|
    ensures ParseSlug(slug, interval) == Failure(NoTimestamp) <==>
            |slug| > |Infix(interval)| && !OccursInside(slug, Infix(interval))
    ensures forall text, e | TextBehind(slug, Infix(interval)) == Success(text) && ParseInt64(text) == Failure(e) ::
              ParseSlug(slug, interval) == Failure(BadTimestamp(e))
  {
    TextBehindErrors(slug, Infix(interval));
  }

  lemma {:induction false} SomeOccurrence(slug: string, infix: string, bound: int, i: int)
    requires 0 <= i < bound <= |slug| - |infix| && OccursAt(slug, infix, i)
    ensures LastOccurrence(slug, infix, bound).Some?
    decreases bound
  {
    if i < bound - 1 {
      SomeOccurrence(slug, infix, bound - 1, i);
    }
  }

  /**
   time.Unix counts in 64 bits from year 1, so timestamps too far in the future
   wrap around: a slug of such a timestamp is a stale anchor.
   */
  lemma FarFutureIsStale(ts: int, dur: int, n: int, now: int)
    requires IsInt64(ts) && 0 <= n && 0 < dur && IsInt64(-n * dur * SECOND) && 0 <= now
    ensures ts < TWO_63 - 62_135_596_800 ==> TimeUnix(ts) == ts * SECOND
    ensures ts >= TWO_63 - 62_135_596_800 ==> IsStale(ts, dur, n, now)
  {
  }

  // ---- In terms of minutes ----

  /** The name of an interval of so many minutes. */
  function MinutesName(n: int): string {
    IntText(n) + "m"
  }

  lemma MinutesDuration(n: int)
    requires n == 5 || n == 15
    ensures Duration(MinutesName(n)) == Some(60 * n) && (60 * n == 300 || 60 * n == 900)
  {
    assert NatText(15) == NatText(1) + [DigitText(5)];
    assert MinutesName(n) == if n == 5 then "5m" else "15m";
  }

  /** The slug as it is written: symbol-updown-5m-timestamp, or with 15m. */
  function SlugText(symbol: string, n: int, ts: int): string {
    symbol + "-updown-" + IntText(n) + "m-" + IntText(ts)
  }

  lemma PrintsAsText(symbol: string, n: int, ts: int)
    ensures PrintSlug(symbol, MinutesName(n), ts) == SlugText(symbol, n, ts)
  {
  }

  lemma FitsAfterOpen(now: int, dur: int, count: int)
    requires (dur == 300 || dur == 900) && 0 <= now && 0 < count
    requires now / SECOND + count * dur < TWO_63 - UNIX_TO_INTERNAL && count * dur * SECOND < TWO_63
    ensures Fits(WindowStart(now, dur), dur, count) && WindowStart(now, dur) == now / SECOND / dur * dur
  {
    assert WindowStart(now, dur) <= now / SECOND;
    Times(0, count, dur);
  }

  /** What an initial slug is: the i-th window of n minutes after the one that is open now. */
  lemma InitialSlugsAreNextWindows(symbol: string, n: int, dur: int, count: int, now: int, i: int, ts: int)
    requires (n == 5 || n == 15) && dur == 60 * n && 0 <= now && 0 <= i < count
    requires now / SECOND + count * dur < TWO_63 - UNIX_TO_INTERNAL && count * dur * SECOND < TWO_63
    requires ts == now / SECOND / dur * dur + (i + 1) * dur
    ensures var slugs := InitialSlugs(symbol, MinutesName(n), count, now);
            && slugs.Success? && |slugs.value| == count && slugs.value[i] == SlugText(symbol, n, ts)
            && ParseSlug(slugs.value[i], MinutesName(n)) == Success(ts)
  {
    var open := WindowStart(now, dur);
    MinutesDuration(n);
    FitsAfterOpen(now, dur, count);
    Times(i + 1, count, dur);
    FollowingAt(open, dur, count, i);
    assert Following(open, dur, count)[i] == ts;
    PrintsAsText(symbol, n, ts);
    SlugRoundTrip(symbol, MinutesName(n), ts);
  }

  /**
   What the slugs after an anchor are: the next windows of n minutes, unless the
   last of them began before now.
   */
  lemma NextSlugsAreNextWindows(
    symbol: string, n: int, dur: int, current: string, ts: int, count: int, now: int, i: int)
    requires (n == 5 || n == 15) && dur == 60 * n && 0 <= ts && 0 <= i < count
    requires ParseSlug(current, MinutesName(n)) == Success(ts)
    requires ts + count * dur < TWO_63 - UNIX_TO_INTERNAL && count * dur * SECOND < TWO_63
    ensures var slugs := NextSlugs(symbol, MinutesName(n), current, count, now);
            if (ts + count * dur) * SECOND < now then slugs == Failure(Stale)
            else && slugs.Success? && |slugs.value| == count
                 && slugs.value[i] == SlugText(symbol, n, ts + (i + 1) * dur)
                 && ParseSlug(slugs.value[i], MinutesName(n)) == Success(ts + (i + 1) * dur)
  {
    MinutesDuration(n);
    Times(i + 1, count, dur);
    LiveAnchorReachesNow(ts, dur, count, now);
    FollowingAt(ts, dur, count, i);
    PrintsAsText(symbol, n, ts + (i + 1) * dur);
    SlugRoundTrip(symbol, MinutesName(n), ts + (i + 1) * dur);
  }

  /** The current slug: that of the window of n minutes in which now lies. */
  lemma CurrentSlugIsOpenWindow(symbol: string, n: int, dur: int, now: int, ts: int)
    requires (n == 5 || n == 15) && dur == 60 * n && 0 <= now < TWO_63 * SECOND
    requires ts % dur == 0 && ts * SECOND <= now < (ts + dur) * SECOND
    ensures CurrentSlug(symbol, MinutesName(n), now) == SlugText(symbol, n, ts)
    ensures ParseSlug(CurrentSlug(symbol, MinutesName(n), now), MinutesName(n)) == Success(ts)
  {
    MinutesDuration(n);
    OpenWindow(now, dur);
    OneWindowHoldsNow(WindowStart(now, dur), ts, dur, now);
    PrintsAsText(symbol, n, ts);
    SlugRoundTrip(symbol, MinutesName(n), ts);
  }

  lemma OneWindowHoldsNow(a: int, b: int, dur: int, now: int)
    requires (dur == 300 || dur == 900) && a % dur == 0 && b % dur == 0
    requires a * SECOND <= now < (a + dur) * SECOND && b * SECOND <= now < (b + dur) * SECOND
    ensures a == b
  {
    assert -dur < a - b < dur;
    GridDistance(a - b, b, dur);
  }
}
