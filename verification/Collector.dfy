/**
 The order-book collector (internal/collector/collector.go). Each method is one
 atomic section of the two workers or a whole sequential pass over them; its
 effect is given as events of the step machine in module Pipeline, whose
 theorems cover the interleavings.
 */
module Collector {
  import opened Wrappers
  import opened Models
  import opened Batching
  import opened Dedup
  import opened SnapshotTable
  import opened Pipeline
  import GoText

  /** The CLOB API takes at most this many tokens per request. */
  const MAX_BATCH := 50

  function BatchSize(configured: int): (size: nat)
    ensures 1 <= size <= MAX_BATCH
    ensures size == if 1 <= configured <= 50 then configured else 50
  {
    if configured <= 0 || configured > MAX_BATCH then MAX_BATCH else configured
  }

  function ParseRawTimestamp(s: string): Option<int> {
    match GoText.ParseInt64(s)
    case Success(ms) => Some(ms)
    case Failure(_) => None
  }

  function BuildSnapshot(tok: ActiveToken, book: Book): Snapshot {
    Snapshot(tok.tokenId, tok.side, tok.symbol, tok.interval,
             if book.lastTradePrice != "" then Some(FromText(book.lastTradePrice)) else None,
             if book.hash != "" then Some(book.hash) else None,
             ParseRawTimestamp(book.timestamp),
             book.bids, book.asks)
  }

  /** One snapshot per token that has a book, in token order. */
  function SnapshotsOf(batch: seq<ActiveToken>, books: Books): seq<Snapshot> {
    if batch == [] then []
    else
      var n := |batch| - 1;
      SnapshotsOf(batch[..n], books) +
      if batch[n].tokenId in books then [BuildSnapshot(batch[n], books[batch[n].tokenId])] else []
  }

  /** The groups of snapshots that a pass over the batches from k on gets into a buffer with room for so many rows. */
  function FetchedGroups(batches: seq<seq<ActiveToken>>, answers: nat -> Answer, k: nat, room: int)
    : seq<seq<Snapshot>>
    decreases |batches| - k
  {
    if k >= |batches| || answers(k).None? then []
    else
      var snaps := SnapshotsOf(batches[k], answers(k).value);
      if |snaps| > room then [] else [snaps] + FetchedGroups(batches, answers, k + 1, room - |snaps|)
  }

  function AppendEvents(groups: seq<seq<Snapshot>>): seq<Event> {
    seq(|groups|, i requires 0 <= i < |groups| => Fetched(groups[i]))
  }

  /** The effect of a whole pass: the groups that get in are appended, one event each. */
  ghost predicate FetchPass(start: State, s: State, max: int, batches: seq<seq<ActiveToken>>, answers: nat -> Answer) {
    var groups := FetchedGroups(batches, answers, 0, max - |start.buffer|);
    s == Run(start, max, AppendEvents(groups)) && s.buffer == start.buffer + Concat(groups)
  }

  lemma {:induction false} FetchedGroupAt(
    batches: seq<seq<ActiveToken>>, answers: nat -> Answer, k: nat, room: int, j: nat)
    requires k <= j < k + |FetchedGroups(batches, answers, k, room)|
    ensures j < |batches| && IsGroup(FetchedGroups(batches, answers, k, room)[j - k], batches[j], answers(j))
    decreases j - k
  {
    if j > k {
      FetchedGroupAt(batches, answers, k + 1, room - |SnapshotsOf(batches[k], answers(k).value)|, j);
    }
  }

  lemma {:induction false} FetchStops(batches: seq<seq<ActiveToken>>, answers: nat -> Answer, k: nat, room: int)
    requires k <= |batches| && room >= 0
    ensures var groups := FetchedGroups(batches, answers, k, room);
            var stop := k + |groups|;
            && stop <= |batches| && |Concat(groups)| <= room
            && (stop == |batches| || answers(stop).None? ||
                |Concat(groups)| + |SnapshotsOf(batches[stop], answers(stop).value)| > room)
    decreases |batches| - k
  {
    if k < |batches| && answers(k).Some? {
      var snaps := SnapshotsOf(batches[k], answers(k).value);
      if |snaps| <= room {
        FetchStops(batches, answers, k + 1, room - |snaps|);
        assert FetchedGroups(batches, answers, k, room)[1..] == FetchedGroups(batches, answers, k + 1, room - |snaps|);
      }
    }
  }

  /**
   A pass takes over whole batches in order, never more than there is room for,
   and stops early only at a failed request or at a batch that does not fit.
   */
  lemma FetchIsAllOrNothing(batches: seq<seq<ActiveToken>>, answers: nat -> Answer, room: nat)
    ensures var groups := FetchedGroups(batches, answers, 0, room);
            && |groups| <= |batches| && |Concat(groups)| <= room
            && (forall j | 0 <= j < |groups| :: IsGroup(groups[j], batches[j], answers(j)))
            && (|groups| == |batches| || answers(|groups|).None? ||
                |Concat(groups)| + |SnapshotsOf(batches[|groups|], answers(|groups|).value)| > room)
  {
    FetchStops(batches, answers, 0, room);
    var groups := FetchedGroups(batches, answers, 0, room);
    forall j | 0 <= j < |groups|
      ensures IsGroup(groups[j], batches[j], answers(j))
    {
      FetchedGroupAt(batches, answers, 0, room, j);
    }
  }

  /** The group is the snapshots of an answered batch. */
  predicate IsGroup(group: seq<Snapshot>, batch: seq<ActiveToken>, answer: Answer) {
    answer.Some? && group == SnapshotsOf(batch, answer.value)
  }

  /** The places of the tokens that have a book. */
  function WithBook(batch: seq<ActiveToken>, books: Books): (at: seq<nat>)
    ensures forall i | 0 <= i < |at| :: at[i] < |batch|
  {
    if batch == [] then []
    else
      var n := |batch| - 1;
      WithBook(batch[..n], books) + if batch[n].tokenId in books then [n] else []
  }

  lemma {:induction false} WithBookIsExact(batch: seq<ActiveToken>, books: Books)
    ensures var at := WithBook(batch, books);
            && (forall i, j | 0 <= i < j < |at| :: at[i] < at[j])
            && (forall k | 0 <= k < |batch| :: k in at <==> batch[k].tokenId in books)
  {
    if batch != [] {
      var n := |batch| - 1;
      WithBookIsExact(batch[..n], books);
      var before, at := WithBook(batch[..n], books), WithBook(batch, books);
      assert forall k | 0 <= k < n :: batch[..n][k] == batch[k];
      assert forall k | 0 <= k < n :: k in at <==> k in before;
      assert n !in before;
    }
  }

  lemma {:induction false} OneSnapshotPerBook(batch: seq<ActiveToken>, books: Books)
    ensures |SnapshotsOf(batch, books)| == |WithBook(batch, books)|
  {
    if batch != [] {
      OneSnapshotPerBook(batch[..|batch| - 1], books);
    }
  }

  lemma {:induction false} SnapshotAt(batch: seq<ActiveToken>, books: Books, i: nat)
    requires i < |SnapshotsOf(batch, books)| == |WithBook(batch, books)|
    ensures var k := WithBook(batch, books)[i];
            && batch[k].tokenId in books
            && SnapshotsOf(batch, books)[i] == BuildSnapshot(batch[k], books[batch[k].tokenId])
  {
    var before := batch[..|batch| - 1];
    OneSnapshotPerBook(before, books);
    if i < |SnapshotsOf(before, books)| {
      SnapshotAt(before, books, i);
    }
  }

  /** There are snapshots of exactly the tokens that have a book, in token order. */
  lemma SnapshotsFollowTokens(batch: seq<ActiveToken>, books: Books, i: nat)
    requires i < |SnapshotsOf(batch, books)|
    ensures var at := WithBook(batch, books);
            && |at| == |SnapshotsOf(batch, books)|
            && batch[at[i]].tokenId in books
            && SnapshotsOf(batch, books)[i] == BuildSnapshot(batch[at[i]], books[batch[at[i]].tokenId])
            && (forall j, k | 0 <= j < k < |at| :: at[j] < at[k])
            && (forall k | 0 <= k < |batch| :: k in at <==> batch[k].tokenId in books)
  {
    WithBookIsExact(batch, books);
    OneSnapshotPerBook(batch, books);
    SnapshotAt(batch, books, i);
  }

  /** No number: empty, or a character that is neither a digit nor a sign in front. */
  predicate NoNumber(s: string) {
    s == "" || exists k | 0 <= k < |s| :: !('0' <= s[k] <= '9') && (k > 0 || (s[k] != '+' && s[k] != '-'))
  }

  /**
   What a snapshot holds: the token's names, the levels of its book side by side
   as they are, hash and last trade if the book has them, and the timestamp if it
   is a number of milliseconds.
   */
  lemma SnapshotHoldsBook(batch: seq<ActiveToken>, books: Books, i: nat)
    requires i < |SnapshotsOf(batch, books)|
    ensures |WithBook(batch, books)| == |SnapshotsOf(batch, books)|
    ensures var tok, snap := batch[WithBook(batch, books)[i]], SnapshotsOf(batch, books)[i];
            tok.tokenId in books &&
            var b := books[tok.tokenId];
            && snap.tokenId == tok.tokenId && snap.side == tok.side
            && snap.symbol == tok.symbol && snap.interval == tok.interval
            && snap.rawBids == b.bids && snap.rawAsks == b.asks
            && snap.bookHash == (if b.hash == "" then None else Some(b.hash))
            && snap.lastTrade == (if b.lastTradePrice == "" then None else Some(FromText(b.lastTradePrice)))
            && (forall ms | b.timestamp == GoText.IntText(ms) ::
                  snap.timestampApi == if GoText.IsInt64(ms) then Some(ms) else None)
            && (NoNumber(b.timestamp) ==> snap.timestampApi == None)
  {
    OneSnapshotPerBook(batch, books);
    SnapshotAt(batch, books, i);
    var timestamp := books[batch[WithBook(batch, books)[i]].tokenId].timestamp;
    forall ms | timestamp == GoText.IntText(ms)
      ensures ParseRawTimestamp(timestamp) == if GoText.IsInt64(ms) then Some(ms) else None
    {
      GoText.IntTextRoundTrip(ms);
    }
    if NoNumber(timestamp) {
      NoNumberIsNone(timestamp);
    }
  }

  lemma NoNumberIsNone(s: string)
    requires NoNumber(s)
    ensures ParseRawTimestamp(s) == None
  {
    if s != "" {
      var k :| 0 <= k < |s| && !('0' <= s[k] <= '9') && (k > 0 || (s[k] != '+' && s[k] != '-'));
      if k > 0 {
        GoText.StrayCharacterFails(s, k);
      }
    }
  }

  class Collector {
    const store: SnapshotStore
    const clobBatchSize: int
    const bufferMaxRows: int

    var cachedTokens: seq<ActiveToken>
    var buffer: seq<Snapshot>
    var lastBookHash: map<string, string>

    ghost var base: seq<Snapshot>
    ghost var flight: Flight
    ghost var accepted: seq<Snapshot>
    ghost var drained: seq<Drained>

    ghost function View(): State
      reads this, store
    {
      State(buffer, lastBookHash, flight, store.rows, base, accepted, drained)
    }

    /** What the methods rely on; that every reachable View satisfies Inv is a theorem of Pipeline. */
    predicate Valid()
      reads this
    {
      |buffer| <= bufferMaxRows
    }

    constructor (store: SnapshotStore, clobBatchSize: int, bufferMaxRows: nat)
      ensures this.store == store && this.bufferMaxRows == bufferMaxRows && this.clobBatchSize == clobBatchSize
      ensures Valid() && View() == Init(store.rows) && cachedTokens == []
    {
      this.store := store;
      this.clobBatchSize := clobBatchSize;
      this.bufferMaxRows := bufferMaxRows;
      cachedTokens, buffer, lastBookHash := [], [], map[];
      base, flight, accepted, drained := store.rows, Idle, [], [];
    }

    /** The append under bufferMu: all snapshots or none. */
    method AppendToBuffer(snaps: seq<Snapshot>) returns (ok: bool)
      requires Valid() && snaps != []
      modifies this
      ensures Valid() && cachedTokens == old(cachedTokens)
      ensures View() == Step(old(View()), bufferMaxRows, Fetched(snaps))
      ensures ok <==> |old(buffer)| + |snaps| <= bufferMaxRows
    {
      if |buffer| + |snaps| > bufferMaxRows {
        return false;
      }
      buffer := buffer + snaps;
      accepted := accepted + snaps;
      return true;
    }

    method BuildSnapshots(batch: seq<ActiveToken>, books: Books) returns (snaps: seq<Snapshot>)
      ensures snaps == SnapshotsOf(batch, books)
    {
      snaps := [];
      var j := 0;
      while j < |batch|
        invariant 0 <= j <= |batch|
        invariant snaps == SnapshotsOf(batch[..j], books)
      {
        assert batch[..j + 1][..j] == batch[..j];
        if batch[j].tokenId in books {
          snaps := snaps + [BuildSnapshot(batch[j], books[batch[j].tokenId])];
        }
        j := j + 1;
      }
      assert batch[..j] == batch;
    }

    /** The body of the batch loop; go says whether the pass goes on to the next batch. */
    method FetchBatch(batch: seq<ActiveToken>, answer: Answer) returns (go: bool)
      requires Valid()
      modifies this
      ensures Valid() && cachedTokens == old(cachedTokens)
      ensures BatchEffect(old(View()), View(), bufferMaxRows, batch, answer, go)
    {
      if answer.None? {
        return false;
      }
      var snaps := BuildSnapshots(batch, answer.value);
      if |snaps| == 0 {
        return true;
      }
      go := AppendToBuffer(snaps);
    }

    /** One pass over the cached tokens; answers(k) is what the k-th batch request returns. */
    method FetchAndBuffer(answers: nat -> Answer)
      requires Valid()
      modifies this
      ensures Valid() && cachedTokens == old(cachedTokens)
      ensures FetchPass(old(View()), View(), bufferMaxRows, Chunk(cachedTokens, BatchSize(clobBatchSize)), answers)
    {
      var tokens := cachedTokens;
      var size := BatchSize(clobBatchSize);
      ghost var batches, start := Chunk(tokens, size), View();
      FirstBatch(tokens, size);
      StartOfPass(start, bufferMaxRows, batches, answers);
      var i: nat, k: nat, go := 0, 0, true;
      while i < |tokens| && go
        invariant AtBatch(tokens, size, i, k)
        invariant Valid() && cachedTokens == tokens
        invariant Passing(start, View(), bufferMaxRows, batches, answers, k, go)
        decreases |tokens| - i
      {
        var end := if i + size > |tokens| then |tokens| else i + size;
        NextBatch(tokens, size, i, k, end);
        ghost var before := View();
        go := FetchBatch(tokens[i..end], answers(k));
        AfterBatch(start, before, View(), bufferMaxRows, batches, answers, k, go);
        i, k := i + size, k + 1;
      }
      NoMoreBatches(tokens, size, i, k);
      EndOfPass(start, View(), bufferMaxRows, batches, answers, k, go);
    }

    /** The swap under bufferMu. */
    method SwapBuffer() returns (toFlush: seq<Snapshot>)
      requires Valid() && flight.Idle?
      modifies this
      ensures Valid() && cachedTokens == old(cachedTokens)
      ensures toFlush == old(buffer) && View() == Step(old(View()), bufferMaxRows, Swap)
    {
      if |buffer| == 0 {
        return [];
      }
      toFlush := buffer;
      buffer := [];
      flight := Swapped(toFlush);
    }

    /** The loop under lastHashMu. */
    method DropDuplicates(toFlush: seq<Snapshot>) returns (filtered: seq<Snapshot>)
      modifies this`lastBookHash
      ensures filtered == Kept(old(lastBookHash), toFlush)
      ensures lastBookHash == LastHashes(old(lastBookHash), toFlush)
    {
      ghost var before := lastBookHash;
      filtered := [];
      var i := 0;
      while i < |toFlush|
        invariant 0 <= i <= |toFlush|
        invariant lastBookHash == LastHashes(before, toFlush[..i])
        invariant filtered == Kept(before, toFlush[..i])
      {
        var snap := toFlush[i];
        assert toFlush[..i + 1][..i] == toFlush[..i];
        KeptSnoc(before, toFlush[..i + 1]);
        i := i + 1;
        if snap.bookHash.Some? {
          if snap.tokenId in lastBookHash && lastBookHash[snap.tokenId] == snap.bookHash.value {
            assert lastBookHash == lastBookHash[snap.tokenId := snap.bookHash.value];
            continue;
          }
          lastBookHash := lastBookHash[snap.tokenId := snap.bookHash.value];
        }
        filtered := filtered + [snap];
      }
      assert toFlush[..i] == toFlush;
    }

    /** The filter step; a batch of nothing but duplicates is done with. */
    method FilterDuplicates(toFlush: seq<Snapshot>) returns (filtered: seq<Snapshot>)
      requires Valid() && flight == Swapped(toFlush)
      modifies this
      ensures Valid() && cachedTokens == old(cachedTokens)
      ensures filtered == Kept(old(lastBookHash), toFlush) && View() == Step(old(View()), bufferMaxRows, Filter)
    {
      ghost var before := lastBookHash;
      filtered := DropDuplicates(toFlush);
      if filtered == [] {
        drained := drained + Settle(toFlush, before, Sent);
        flight := Idle;
      } else {
        flight := Filtered(toFlush, before);
      }
    }

    /** The insert: a failing batch is dropped. */
    method InsertFiltered(filtered: seq<Snapshot>, fails: bool)
      requires Valid() && flight.Filtered? && filtered == Kept(flight.before, flight.rows)
      modifies this, store
      ensures Valid() && cachedTokens == old(cachedTokens)
      ensures View() == Step(old(View()), bufferMaxRows, Insert(fails))
    {
      var ok := store.InsertBookSnapshotsBatch(filtered, fails);
      drained := drained + Settle(flight.rows, flight.before, if fails then Lost else Sent);
      flight := Idle;
    }

    /** One flush, also the final one at shutdown, with nothing happening in between. */
    method FlushBuffer(fails: bool)
      requires Valid() && flight.Idle?
      modifies this, store
      ensures Valid() && flight.Idle? && buffer == [] && cachedTokens == old(cachedTokens)
      ensures View() == Flush(old(View()), bufferMaxRows, fails)
    {
      RunThree(View(), bufferMaxRows, Swap, Filter, Insert(fails));
      var toFlush := SwapBuffer();
      if |toFlush| == 0 {
        return;
      }
      var filtered := FilterDuplicates(toFlush);
      if |filtered| == 0 {
        return;
      }
      InsertFiltered(filtered, fails);
    }
  }

  /** The pass from start has dealt with the first k batches and reached s. */
  ghost predicate Progress(
    start: State, s: State, max: int, batches: seq<seq<ActiveToken>>, answers: nat -> Answer, k: nat)
  {
    var groups := FetchedGroups(batches, answers, 0, max - |start.buffer|);
    && k <= |groups|
    && groups[k..] == FetchedGroups(batches, answers, k, max - |s.buffer|)
    && s == Run(start, max, AppendEvents(groups[..k]))
  }

  /** What one batch does: it is appended if it was answered and fits, and otherwise ends the pass. */
  ghost predicate BatchEffect(s: State, s': State, max: int, batch: seq<ActiveToken>, answer: Answer, go: bool) {
    && (go <==> answer.Some? && |SnapshotsOf(batch, answer.value)| <= max - |s.buffer|)
    && s' == if go then Step(s, max, Fetched(SnapshotsOf(batch, answer.value))) else s
  }

  /** The pass is under way, or it has ended early with the effect that its specification names. */
  ghost predicate Passing(
    start: State, s: State, max: int, batches: seq<seq<ActiveToken>>, answers: nat -> Answer, k: nat, go: bool)
  {
    if go then Progress(start, s, max, batches, answers, k) else FetchPass(start, s, max, batches, answers)
  }

  lemma StartOfPass(start: State, max: int, batches: seq<seq<ActiveToken>>, answers: nat -> Answer)
    ensures Passing(start, start, max, batches, answers, 0, true)
  {
  }

  lemma AfterBatch(
    start: State, s: State, s': State, max: int, batches: seq<seq<ActiveToken>>, answers: nat -> Answer,
    k: nat, go: bool)
    requires Passing(start, s, max, batches, answers, k, true)
    requires k < |batches| && |start.buffer| <= max && |s.buffer| <= max
    requires BatchEffect(s, s', max, batches[k], answers(k), go)
    ensures Passing(start, s', max, batches, answers, k + 1, go)
  {
    if go {
      ProgressStep(start, s, max, batches, answers, k);
    } else {
      PassDone(start, s, max, batches, answers, k);
    }
  }

  lemma EndOfPass(
    start: State, s: State, max: int, batches: seq<seq<ActiveToken>>, answers: nat -> Answer, k: nat, go: bool)
    requires Passing(start, s, max, batches, answers, k, go) && |start.buffer| <= max
    requires go ==> k >= |batches|
    ensures FetchPass(start, s, max, batches, answers)
  {
    if go {
      PassDone(start, s, max, batches, answers, k);
    }
  }

  lemma ProgressStep(start: State, s: State, max: int, batches: seq<seq<ActiveToken>>, answers: nat -> Answer, k: nat)
    requires Progress(start, s, max, batches, answers, k) && k < |batches| && answers(k).Some?
    requires |s.buffer| <= max && |SnapshotsOf(batches[k], answers(k).value)| <= max - |s.buffer|
    ensures var fetched := Fetched(SnapshotsOf(batches[k], answers(k).value));
            Progress(start, Step(s, max, fetched), max, batches, answers, k + 1)
  {
    var groups := FetchedGroups(batches, answers, 0, max - |start.buffer|);
    var snaps := SnapshotsOf(batches[k], answers(k).value);
    assert groups[k] == groups[k..][0] == snaps && groups[k + 1..] == groups[k..][1..];
    assert groups[..k + 1] == groups[..k] + [snaps];
    RunOneMore(start, max, groups[..k], snaps);
  }

  /** When the pass stops, it has appended exactly the groups that its specification names. */
  lemma PassDone(start: State, s: State, max: int, batches: seq<seq<ActiveToken>>, answers: nat -> Answer, k: nat)
    requires Progress(start, s, max, batches, answers, k) && |start.buffer| <= max
    requires k >= |batches| || answers(k).None? || |SnapshotsOf(batches[k], answers(k).value)| > max - |s.buffer|
    ensures FetchPass(start, s, max, batches, answers)
  {
    var groups := FetchedGroups(batches, answers, 0, max - |start.buffer|);
    assert groups[k..] == [];
    assert groups[..k] == groups;
    FetchStops(batches, answers, 0, max - |start.buffer|);
    AppendsFill(start, max, groups);
  }

  /** Groups that fit are appended in full. */
  lemma {:induction false} AppendsFill(s: State, max: int, groups: seq<seq<Snapshot>>)
    requires |s.buffer| + |Concat(groups)| <= max
    ensures Run(s, max, AppendEvents(groups)).buffer == s.buffer + Concat(groups)
    decreases |groups|
  {
    if groups != [] {
      var s1 := Step(s, max, Fetched(groups[0]));
      assert AppendEvents(groups)[1..] == AppendEvents(groups[1..]);
      assert s1.buffer == s.buffer + groups[0];
      AppendsFill(s1, max, groups[1..]);
    }
  }

  lemma {:induction false} RunAppend(s: State, max: int, a: seq<Event>, b: seq<Event>)
    ensures Run(s, max, a + b) == Run(Run(s, max, a), max, b)
    decreases |a|
  {
    if a == [] {
      assert a + b == b;
    } else {
      assert (a + b)[1..] == a[1..] + b;
      RunAppend(Step(s, max, a[0]), max, a[1..], b);
    }
  }

  lemma RunOneMore(s: State, max: int, groups: seq<seq<Snapshot>>, group: seq<Snapshot>)
    ensures Run(s, max, AppendEvents(groups + [group])) == Step(Run(s, max, AppendEvents(groups)), max, Fetched(group))
  {
    assert AppendEvents(groups + [group]) == AppendEvents(groups) + [Fetched(group)];
    RunAppend(s, max, AppendEvents(groups), [Fetched(group)]);
    var s' := Run(s, max, AppendEvents(groups));
    assert [Fetched(group)][1..] == [];
    assert Run(s', max, [Fetched(group)]) == Run(Step(s', max, Fetched(group)), max, []);
  }
}
