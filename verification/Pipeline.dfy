/**
 The collector as a step machine: one fetch worker appends snapshots to a
 bounded buffer while one flush worker swaps the buffer out, filters it and
 inserts the rest (internal/collector/collector.go). A run is any sequence of
 events, so the theorems hold for every interleaving of the two workers.
 */
module Pipeline {
  import opened Wrappers
  import opened Models
  import opened Dedup
  import opened SnapshotTable

  /** What became of a row that left the buffer. */
  datatype Fate = Skipped | Sent | Lost

  datatype Drained = Drained(row: Snapshot, fate: Fate)

  /** Where the flush worker stands; Filtered remembers the hash map the filter started from. */
  datatype Flight =
    | Idle
    | Swapped(rows: seq<Snapshot>)
    | Filtered(rows: seq<Snapshot>, before: HashMap)

  /** The collector's fields and its table, and the history: the table at start, the accepted and the drained rows. */
  datatype State = State(
    buffer: seq<Snapshot>,
    lastHash: HashMap,
    flight: Flight,
    table: seq<Snapshot>,
    base: seq<Snapshot>,
    accepted: seq<Snapshot>,
    drained: seq<Drained>)

  datatype Event = Fetched(snaps: seq<Snapshot>) | Swap | Filter | Insert(fails: bool)

  /** A fresh collector over a table that may hold rows of earlier runs. */
  function Init(base: seq<Snapshot>): State {
    State([], map[], Idle, base, base, [], [])
  }

  function Settle(rows: seq<Snapshot>, before: HashMap, fate: Fate): seq<Drained> {
    seq(|rows|, i requires 0 <= i < |rows| => Drained(rows[i], if Marks(before, rows)[i] then fate else Skipped))
  }

  /** One atomic step; an event that the worker's position does not allow changes nothing. */
  function Step(s: State, max: int, e: Event): State {
    match e
    case Fetched(snaps) =>
      if snaps == [] || |s.buffer| + |snaps| > max then s
      else s.(buffer := s.buffer + snaps, accepted := s.accepted + snaps)
    case Swap =>
      if s.flight.Idle? && s.buffer != [] then s.(flight := Swapped(s.buffer), buffer := []) else s
    case Filter =>
      if !s.flight.Swapped? then s
      else
        var rows := s.flight.rows;
        var filtered := s.(lastHash := LastHashes(s.lastHash, rows));
        if Kept(s.lastHash, rows) == []
        then filtered.(flight := Idle, drained := s.drained + Settle(rows, s.lastHash, Sent))
        else filtered.(flight := Filtered(rows, s.lastHash))
    case Insert(fails) =>
      if !s.flight.Filtered? then s
      else
        var Filtered(rows, before) := s.flight;
        s.(flight := Idle,
           table := if fails then s.table else InsertAll(s.table, Kept(before, rows)),
           drained := s.drained + Settle(rows, before, if fails then Lost else Sent))
  }

  function Run(s: State, max: int, events: seq<Event>): State
    decreases |events|
  {
    if events == [] then s else Run(Step(s, max, events[0]), max, events[1..])
  }

  // ---- Reading the history ----

  function Rows(drained: seq<Drained>): (rows: seq<Snapshot>)
    ensures |rows| == |drained|
  {
    seq(|drained|, i requires 0 <= i < |drained| => drained[i].row)
  }

  function Offered(drained: seq<Drained>): (marks: seq<bool>)
    ensures |marks| == |drained|
  {
    seq(|drained|, i requires 0 <= i < |drained| => drained[i].fate != Skipped)
  }

  function Delivered(drained: seq<Drained>): (marks: seq<bool>)
    ensures |marks| == |drained|
  {
    seq(|drained|, i requires 0 <= i < |drained| => drained[i].fate == Sent)
  }

  function InFlight(s: State): seq<Snapshot> {
    if s.flight.Idle? then [] else s.flight.rows
  }

  /** The rows the filter has seen. */
  function Seen(s: State): seq<Snapshot> {
    Rows(s.drained) + if s.flight.Filtered? then s.flight.rows else []
  }

  /** The rows handed to the store, in order, whether or not the insert went through. */
  function OfferedRows(s: State): seq<Snapshot> {
    Masked(Rows(s.drained), Offered(s.drained)) +
    if s.flight.Filtered? then Kept(s.flight.before, s.flight.rows) else []
  }

  function DeliveredOf(drained: seq<Drained>): seq<Snapshot> {
    Masked(Rows(drained), Delivered(drained))
  }

  /** The rows of successful inserts, in order. */
  function DeliveredRows(s: State): seq<Snapshot> {
    DeliveredOf(s.drained)
  }

  ghost predicate Inv(s: State, max: int) {
    && |s.buffer| <= max
    && Rows(s.drained) + InFlight(s) + s.buffer == s.accepted
    && s.lastHash == LastHashes(map[], Seen(s))
    && (s.flight.Swapped? ==> s.flight.rows != [])
    && (s.flight.Filtered? ==>
          s.flight.before == LastHashes(map[], Rows(s.drained)) && Kept(s.flight.before, s.flight.rows) != [])
    && Offered(s.drained) == Marks(map[], Rows(s.drained))
    && s.table == InsertAll(s.base, DeliveredRows(s))
  }

  // ---- Every step keeps the invariant ----

  lemma {:induction false} MaskedAppend(a: seq<Snapshot>, ma: seq<bool>, b: seq<Snapshot>, mb: seq<bool>)
    requires |a| == |ma| && |b| == |mb|
    ensures Masked(a + b, ma + mb) == Masked(a, ma) + Masked(b, mb)
  {
    if b == [] {
      assert a + b == a && ma + mb == ma;
    } else {
      var n := |b| - 1;
      assert (a + b)[..|a + b| - 1] == a + b[..n] && (ma + mb)[..|a + b| - 1] == ma + mb[..n];
      MaskedAppend(a, ma, b[..n], mb[..n]);
    }
  }

  lemma {:induction false} MaskedNone(rows: seq<Snapshot>, mask: seq<bool>)
    requires |mask| == |rows|
    ensures Masked(rows, mask) == [] <==> forall i | 0 <= i < |mask| :: !mask[i]
  {
    if rows != [] {
      MaskedNone(rows[..|rows| - 1], mask[..|rows| - 1]);
    }
  }

  /** Settling a filtered batch extends the history by its rows, with the marks of the filter. */
  lemma SettleExtends(drained: seq<Drained>, rows: seq<Snapshot>, before: HashMap, fate: Fate)
    requires fate != Skipped
    requires before == LastHashes(map[], Rows(drained)) && Offered(drained) == Marks(map[], Rows(drained))
    ensures var after := drained + Settle(rows, before, fate);
            Rows(after) == Rows(drained) + rows && Offered(after) == Marks(map[], Rows(after))
  {
    var after := drained + Settle(rows, before, fate);
    assert Rows(after) == Rows(drained) + rows;
    assert Offered(after) == Offered(drained) + Marks(before, rows);
    MarksAppend(map[], Rows(drained), rows);
  }

  /** A batch sent is delivered as filtered, a batch lost not at all. */
  lemma SettleDelivers(drained: seq<Drained>, rows: seq<Snapshot>, before: HashMap, fate: Fate)
    requires fate != Skipped
    ensures var after := drained + Settle(rows, before, fate);
            Masked(Rows(after), Delivered(after)) ==
            Masked(Rows(drained), Delivered(drained)) + if fate == Sent then Kept(before, rows) else []
  {
    var settled := Settle(rows, before, fate);
    var after := drained + settled;
    assert Rows(after) == Rows(drained) + rows;
    assert Delivered(after) == Delivered(drained) + Delivered(settled);
    MaskedAppend(Rows(drained), Delivered(drained), rows, Delivered(settled));
    if fate == Sent {
      assert Delivered(settled) == Marks(before, rows);
    } else {
      MaskedNone(rows, Delivered(settled));
    }
  }

  lemma FilterKeepsInv(s: State, max: int)
    requires Inv(s, max) && s.flight.Swapped?
    ensures Inv(Step(s, max, Filter), max)
  {
    if Kept(s.lastHash, s.flight.rows) == [] {
      AllDroppedKeepsInv(s, max);
    } else {
      SomeKeptKeepsInv(s, max);
    }
  }

  lemma SomeKeptKeepsInv(s: State, max: int)
    requires Inv(s, max) && s.flight.Swapped? && Kept(s.lastHash, s.flight.rows) != []
    ensures Inv(Step(s, max, Filter), max)
  {
    LastHashesAppend(map[], Rows(s.drained), s.flight.rows);
    assert Rows(s.drained) + [] == Rows(s.drained);
    assert Step(s, max, Filter).flight == Filtered(s.flight.rows, s.lastHash);
  }

  lemma AllDroppedKeepsInv(s: State, max: int)
    requires Inv(s, max) && s.flight.Swapped? && Kept(s.lastHash, s.flight.rows) == []
    ensures Inv(Step(s, max, Filter), max)
  {
    var rows := s.flight.rows;
    var s' := Step(s, max, Filter);
    assert Rows(s.drained) + [] == Rows(s.drained);
    LastHashesAppend(map[], Rows(s.drained), rows);
    SettleExtends(s.drained, rows, s.lastHash, Sent);
    SettleDelivers(s.drained, rows, s.lastHash, Sent);
    assert Rows(s'.drained) + [] == Rows(s'.drained);
    assert DeliveredRows(s') == DeliveredRows(s);
  }

  lemma InsertKeepsInv(s: State, max: int, fails: bool)
    requires Inv(s, max) && s.flight.Filtered?
    ensures Inv(Step(s, max, Insert(fails)), max)
  {
    var Filtered(rows, before) := s.flight;
    var s' := Step(s, max, Insert(fails));
    SettleExtends(s.drained, rows, before, if fails then Lost else Sent);
    SettleDelivers(s.drained, rows, before, if fails then Lost else Sent);
    assert Rows(s'.drained) + [] == Rows(s'.drained);
    if fails {
      assert DeliveredRows(s') == DeliveredRows(s);
    } else {
      InsertAllAppend(s.base, DeliveredRows(s), Kept(before, rows));
    }
  }

  lemma FetchedKeepsInv(s: State, max: int, snaps: seq<Snapshot>)
    requires Inv(s, max)
    ensures Inv(Step(s, max, Fetched(snaps)), max)
  {
    assert Rows(s.drained) + InFlight(s) + (s.buffer + snaps) == s.accepted + snaps;
  }

  lemma SwapKeepsInv(s: State, max: int)
    requires Inv(s, max)
    ensures Inv(Step(s, max, Swap), max)
  {
    assert Rows(s.drained) + [] + s.buffer == Rows(s.drained) + s.buffer + [];
  }

  lemma StepKeepsInv(s: State, max: int, e: Event)
    requires Inv(s, max)
    ensures Inv(Step(s, max, e), max)
  {
    match e
    case Fetched(snaps) =>
      FetchedKeepsInv(s, max, snaps);
    case Swap =>
      SwapKeepsInv(s, max);
    case Filter =>
      if s.flight.Swapped? {
        FilterKeepsInv(s, max);
      }
    case Insert(fails) =>
      if s.flight.Filtered? {
        InsertKeepsInv(s, max, fails);
      }
  }

  lemma {:induction false} RunKeepsInv(s: State, max: int, events: seq<Event>)
    requires Inv(s, max)
    ensures Inv(Run(s, max, events), max)
    decreases |events|
  {
    if events != [] {
      StepKeepsInv(s, max, events[0]);
      RunKeepsInv(Step(s, max, events[0]), max, events[1..]);
    }
  }

  // ---- Theorems about all runs ----

  /**
   No accepted row vanishes, is duplicated or overtakes another: the drained
   rows, those in flight and the buffer are the accepted stream. Each drained
   row is skipped exactly if the one-pass filter drops it, and otherwise sent
   or lost; the buffer respects its bound.
   */
  lemma Conservation(base: seq<Snapshot>, max: int, events: seq<Event>)
    requires max >= 0
    ensures var s := Run(Init(base), max, events);
            && Rows(s.drained) + InFlight(s) + s.buffer == s.accepted
            && |s.buffer| <= max
            && (forall i | 0 <= i < |s.drained| :: s.drained[i].fate == Skipped <==> !Marks(map[], s.accepted)[i])
            && s.table == InsertAll(s.base, DeliveredRows(s))
  {
    RunKeepsInv(Init(base), max, events);
    var s := Run(Init(base), max, events);
    var rest := InFlight(s) + s.buffer;
    assert s.accepted == Rows(s.drained) + rest;
    MarksAppend(map[], Rows(s.drained), rest);
    assert forall i | 0 <= i < |s.drained| :: Marks(map[], s.accepted)[i] == Offered(s.drained)[i];
  }

  /**
   At every moment the hash map holds, per token, the last hash offered to the
   store, and the offered hashes are the stutter-free form of those seen.
   */
  lemma LastHashIsLastOffered(base: seq<Snapshot>, max: int, events: seq<Event>, token: string)
    requires max >= 0
    ensures var s := Run(Init(base), max, events);
            && OfferedRows(s) == Kept(map[], Seen(s))
            && Lookup(s.lastHash, token) == Current(OfferedRows(s), token)
            && Hashes(OfferedRows(s), token) == Destutter(Hashes(Seen(s), token))
            && Unhashed(OfferedRows(s)) == Unhashed(Seen(s))
  {
    RunKeepsInv(Init(base), max, events);
    var s := Run(Init(base), max, events);
    if s.flight.Filtered? {
      KeptAppend(map[], Rows(s.drained), s.flight.rows);
    } else {
      assert Seen(s) == Rows(s.drained);
    }
    FilterIdempotent(map[], Seen(s));
    LastHashesIsCurrent(OfferedRows(s), token);
    KeptIsDestuttered(Seen(s), token);
    KeptKeepsUnhashed(map[], Seen(s));
  }

  lemma {:induction false} MaskedLength(rows: seq<Snapshot>, few: seq<bool>, many: seq<bool>)
    requires |few| == |many| == |rows|
    requires forall i | 0 <= i < |rows| :: few[i] ==> many[i]
    ensures |Masked(rows, few)| <= |Masked(rows, many)|
    ensures |Masked(rows, few)| == |Masked(rows, many)| ==> few == many
  {
    if rows != [] {
      var n := |rows| - 1;
      MaskedLength(rows[..n], few[..n], many[..n]);
      if |Masked(rows, few)| == |Masked(rows, many)| {
        assert few == few[..n] + [few[n]] && many == many[..n] + [many[n]];
      }
    }
  }

  /**
   Between flushes the table is what it was at start plus the filtered stream of
   everything drained exactly if no insert failed and no row met a key already
   stored; then the hash map holds the last stored hash of each token it knows.
   */
  lemma TableIsFilteredStream(base: seq<Snapshot>, max: int, events: seq<Event>, token: string)
    requires max >= 0 && Run(Init(base), max, events).flight.Idle?
    ensures var s := Run(Init(base), max, events);
            var complete := (forall d | d in s.drained :: d.fate != Lost) && FreshRows(base, DeliveredRows(s));
            && (s.table == base + Kept(map[], Rows(s.drained)) <==> complete)
            && (complete ==> Hashes(s.table, token) == Hashes(base, token) + Destutter(Hashes(Rows(s.drained), token)))
            && (complete && token in s.lastHash ==> Some(s.lastHash[token]) == Current(s.table, token))
  {
    RunKeepsInv(Init(base), max, events);
    LastHashIsLastOffered(base, max, events, token);
    var s := Run(Init(base), max, events);
    RunKeepsBase(Init(base), max, events);
    assert Seen(s) == Rows(s.drained);
    assert OfferedRows(s) == Kept(map[], Rows(s.drained));
    TableIsOfferedIffNoneLost(base, s.drained);
    HashesAppend(base, OfferedRows(s), token);
    CurrentAppend(base, OfferedRows(s), token);
  }

  lemma {:induction false} RunKeepsBase(s: State, max: int, events: seq<Event>)
    ensures Run(s, max, events).base == s.base
    decreases |events|
  {
    if events != [] {
      RunKeepsBase(Step(s, max, events[0]), max, events[1..]);
    }
  }

  lemma {:induction false} HashesAppend(a: seq<Snapshot>, b: seq<Snapshot>, token: string)
    ensures Hashes(a + b, token) == Hashes(a, token) + Hashes(b, token)
  {
    if b == [] {
      assert a + b == a;
    } else {
      assert (a + b)[..|a + b| - 1] == a + b[..|b| - 1];
      HashesAppend(a, b[..|b| - 1], token);
    }
  }

  lemma TableIsOfferedIffNoneLost(base: seq<Snapshot>, drained: seq<Drained>)
    ensures var delivered := Masked(Rows(drained), Delivered(drained));
            InsertAll(base, delivered) == base + Masked(Rows(drained), Offered(drained)) <==>
            (forall d | d in drained :: d.fate != Lost) && FreshRows(base, delivered)
  {
    var delivered := Masked(Rows(drained), Delivered(drained));
    MaskedLength(Rows(drained), Delivered(drained), Offered(drained));
    InsertAllLength(base, delivered);
    StoredInFullIffFresh(base, delivered);
    NoneLost(drained);
  }

  lemma NoneLost(drained: seq<Drained>)
    ensures Delivered(drained) == Offered(drained) <==> forall d | d in drained :: d.fate != Lost
  {
    if Delivered(drained) == Offered(drained) {
      forall d | d in drained
        ensures d.fate != Lost
      {
        var i :| 0 <= i < |drained| && drained[i] == d;
        assert Delivered(drained)[i] == Offered(drained)[i];
      }
    }
  }

  // ---- What the map says and what is stored ----

  /** The hash map speaks of what is stored: for each token it knows, the last stored hash. */
  ghost predicate Speaks(s: State) {
    forall t | t in s.lastHash :: Current(s.table, t) == Some(s.lastHash[t])
  }

  function Flush(s: State, max: int, fails: bool): State {
    Run(s, max, [Swap, Filter, Insert(fails)])
  }

  lemma RunThree(s: State, max: int, a: Event, b: Event, c: Event)
    ensures Run(s, max, [a, b, c]) == Step(Step(Step(s, max, a), max, b), max, c)
  {
    assert [a, b, c][1..] == [b, c] && [b, c][1..] == [c] && [c][1..] == [];
    assert Run(Step(Step(s, max, a), max, b), max, [c]) == Step(Step(Step(s, max, a), max, b), max, c);
  }

  predicate HashedRow(row: Snapshot, token: string) {
    row.tokenId == token && row.bookHash.Some?
  }

  /** Row i is the last of the token that has a hash. */
  predicate LastHashed(rows: seq<Snapshot>, token: string, i: int) {
    && 0 <= i < |rows| && HashedRow(rows[i], token)
    && (forall j | i < j < |rows| :: !HashedRow(rows[j], token))
  }

  lemma {:induction false} LastHashedIsCurrent(rows: seq<Snapshot>, token: string) returns (i: int)
    ensures Current(rows, token).None? ==> forall j | 0 <= j < |rows| :: !HashedRow(rows[j], token)
    ensures Current(rows, token).Some? ==> LastHashed(rows, token, i) && Current(rows, token) == rows[i].bookHash
  {
    var n := |rows| - 1;
    if rows == [] {
      i := 0;
    } else if HashedRow(rows[n], token) {
      i := n;
    } else {
      i := LastHashedIsCurrent(rows[..n], token);
    }
  }

  /** The row's key is new, or what is stored without the row has its hash already. */
  predicate EndsStored(table: seq<Snapshot>, rows: seq<Snapshot>, i: int)
    requires 0 <= i < |rows|
  {
    !Conflicts(table + rows[..i], rows[i]) ||
    Current(table + NewRows(table, rows[..i]), rows[i].tokenId) == rows[i].bookHash
  }

  /** A token's hash in the table after an insert is decided at its last row with a hash. */
  lemma {:induction false} CurrentAfterInsert(table: seq<Snapshot>, rows: seq<Snapshot>, token: string, i: int)
    requires LastHashed(rows, token, i)
    ensures Current(table + NewRows(table, rows), token) == rows[i].bookHash <==> EndsStored(table, rows, i)
  {
    var n := |rows| - 1;
    assert NewRows(table, rows[..n]) + [] == NewRows(table, rows[..n]);
    CurrentAppend(table, NewRows(table, rows), token);
    CurrentAppend(table, NewRows(table, rows[..n]), token);
    CurrentSnoc(NewRows(table, rows[..n]), rows[n], token);
    if i < n {
      CurrentAfterInsert(table, rows[..n], token, i);
      assert rows[..n][..i] == rows[..i];
    }
  }

  lemma {:induction false} NoHashNoChange(table: seq<Snapshot>, rows: seq<Snapshot>, token: string)
    requires forall j | 0 <= j < |rows| :: !HashedRow(rows[j], token)
    ensures Current(table + NewRows(table, rows), token) == Current(table, token)
  {
    if rows == [] {
      assert table + [] == table;
    } else {
      var n := |rows| - 1;
      NoHashNoChange(table, rows[..n], token);
      assert NewRows(table, rows[..n]) + [] == NewRows(table, rows[..n]);
      CurrentAppend(table, NewRows(table, rows), token);
      CurrentAppend(table, NewRows(table, rows[..n]), token);
      CurrentSnoc(NewRows(table, rows[..n]), rows[n], token);
    }
  }

  lemma FlushInOneStep(s: State, max: int, fails: bool)
    requires s.flight.Idle?
    ensures var s' := Flush(s, max, fails);
            && s'.lastHash == LastHashes(s.lastHash, s.buffer) == LastHashes(s.lastHash, Kept(s.lastHash, s.buffer))
            && s'.table == s.table + if fails then [] else NewRows(s.table, Kept(s.lastHash, s.buffer))
  {
    RunThree(s, max, Swap, Filter, Insert(fails));
    FilterIdempotent(s.lastHash, s.buffer);
    InsertAllStoresNewRows(s.table, Kept(s.lastHash, s.buffer));
    assert s.table + [] == s.table;
  }

  /** Of the tokens that the rows have no hash of, the map speaks already. */
  ghost predicate SpeaksBeyond(s: State, rows: seq<Snapshot>) {
    forall t | t in s.lastHash && Current(rows, t).None? :: Current(s.table, t) == Some(s.lastHash[t])
  }

  /**
   The map is updated before the insert. After a failed insert it speaks of what
   is stored exactly if it did of the tokens that the batch has no hash of, and
   the others are stored with the latest hash that the batch has.
   */
  lemma AgreementAfterFailedFlush(s: State, max: int)
    requires s.flight.Idle?
    ensures Speaks(Flush(s, max, true)) <==>
            SpeaksBeyond(s, s.buffer) &&
            forall t | Current(s.buffer, t).Some? :: Current(s.table, t) == Current(s.buffer, t)
  {
    var s' := Flush(s, max, true);
    FlushInOneStep(s, max, true);
    assert s'.table == s.table;
    SpeaksByLookup(s');
    forall t
      ensures Lookup(s'.lastHash, t) ==
              if Current(s.buffer, t).Some? then Current(s.buffer, t) else Lookup(s.lastHash, t)
    {
      LookupLastHashes(s.lastHash, s.buffer, t);
    }
    if Speaks(s') {
      assert forall t | t in s.lastHash && Current(s.buffer, t).None? :: Lookup(s'.lastHash, t).Some?;
    }
  }

  lemma SpeaksByLookup(s: State)
    ensures Speaks(s) <==> forall t | Lookup(s.lastHash, t).Some? :: Current(s.table, t) == Lookup(s.lastHash, t)
  {
    if forall t | Lookup(s.lastHash, t).Some? :: Current(s.table, t) == Lookup(s.lastHash, t) {
      assert forall t | t in s.lastHash :: Some(s.lastHash[t]) == Lookup(s.lastHash, t);
    }
  }

  /**
   After a successful insert it does exactly if for every token the last row to
   be inserted that has a hash meets no key that is taken, by the table or by an
   earlier row, or what is stored without it has that hash already; and of the
   tokens without such a row the map spoke already.
   */
  lemma AgreementAfterFlush(s: State, max: int)
    requires s.flight.Idle?
    ensures var kept := Kept(s.lastHash, s.buffer);
            Speaks(Flush(s, max, false)) <==>
            SpeaksBeyond(s, kept) && forall t, i | LastHashed(kept, t, i) :: EndsStored(s.table, kept, i)
  {
    var kept, s' := Kept(s.lastHash, s.buffer), Flush(s, max, false);
    FlushInOneStep(s, max, false);
    forall t
      ensures Current(kept, t).None? ==>
                Lookup(s'.lastHash, t) == Lookup(s.lastHash, t) && Current(s'.table, t) == Current(s.table, t)
    {
      var i := LastHashedIsCurrent(kept, t);
      LookupLastHashes(s.lastHash, kept, t);
      if Current(kept, t).None? {
        NoHashNoChange(s.table, kept, t);
      }
    }
    forall t, i | LastHashed(kept, t, i)
      ensures Lookup(s'.lastHash, t) == Current(kept, t) && Current(kept, t).Some?
      ensures Current(s'.table, t) == Lookup(s'.lastHash, t) <==> EndsStored(s.table, kept, i)
    {
      var k := LastHashedIsCurrent(kept, t);
      assert k == i;
      LookupLastHashes(s.lastHash, kept, t);
      CurrentAfterInsert(s.table, kept, t, i);
    }
    SpeaksByLookup(s');
    if SpeaksBeyond(s, kept) && forall t, i | LastHashed(kept, t, i) :: EndsStored(s.table, kept, i) {
      forall t | Lookup(s'.lastHash, t).Some?
        ensures Current(s'.table, t) == Lookup(s'.lastHash, t)
      {
        var i := LastHashedIsCurrent(kept, t);
      }
    }
    if Speaks(s') {
      forall t | t in s.lastHash && Current(kept, t).None?
        ensures Current(s.table, t) == Some(s.lastHash[t])
      {
        assert Lookup(s.lastHash, t) == Some(s.lastHash[t]);
      }
    }
  }

  // ---- The same over a whole run ----

  /** The token's last row with a hash that was handed to the store. */
  predicate LastOffered(drained: seq<Drained>, token: string, i: int) {
    && 0 <= i < |drained| && drained[i].fate != Skipped && HashedRow(drained[i].row, token)
    && (forall j | i < j < |drained| :: drained[j].fate == Skipped || !HashedRow(drained[j].row, token))
  }

  /** The row was sent under a key that was new, or what was stored before it ends on its hash. */
  predicate EndsDelivered(base: seq<Snapshot>, drained: seq<Drained>, i: int)
    requires 0 <= i < |drained|
  {
    var row, earlier := drained[i].row, DeliveredOf(drained[..i]);
    (drained[i].fate == Sent && !Conflicts(base + earlier, row)) ||
    StoredHash(base, drained[..i], row.tokenId) == row.bookHash
  }

  function OfferedOf(drained: seq<Drained>): seq<Snapshot> {
    Masked(Rows(drained), Offered(drained))
  }

  /** One more drained row in what was offered and what was delivered. */
  lemma DrainedSnoc(drained: seq<Drained>, n: nat)
    requires |drained| == n + 1
    ensures OfferedOf(drained) ==
            if drained[n].fate != Skipped then OfferedOf(drained[..n]) + [drained[n].row] else OfferedOf(drained[..n])
    ensures DeliveredOf(drained) ==
            if drained[n].fate == Sent then DeliveredOf(drained[..n]) + [drained[n].row] else DeliveredOf(drained[..n])
  {
    assert Rows(drained)[..n] == Rows(drained[..n]);
    assert Offered(drained)[..n] == Offered(drained[..n]) && Delivered(drained)[..n] == Delivered(drained[..n]);
  }

  lemma OfferedStep(drained: seq<Drained>, n: nat, token: string)
    requires |drained| == n + 1
    ensures Current(OfferedOf(drained), token) ==
            if drained[n].fate != Skipped && HashedRow(drained[n].row, token) then drained[n].row.bookHash
            else Current(OfferedOf(drained[..n]), token)
  {
    DrainedSnoc(drained, n);
    CurrentSnoc(OfferedOf(drained[..n]), drained[n].row, token);
  }

  lemma {:induction false} LastOfferedIsCurrent(drained: seq<Drained>, token: string) returns (i: int)
    ensures Current(OfferedOf(drained), token).None? ==>
              forall j | 0 <= j < |drained| :: drained[j].fate == Skipped || !HashedRow(drained[j].row, token)
    ensures Current(OfferedOf(drained), token).Some? ==>
              LastOffered(drained, token, i) && Current(OfferedOf(drained), token) == drained[i].row.bookHash
  {
    var n := |drained| - 1;
    if drained == [] {
      i := 0;
    } else {
      OfferedStep(drained, n, token);
      if drained[n].fate != Skipped && HashedRow(drained[n].row, token) {
        i := n;
      } else {
        i := LastOfferedIsCurrent(drained[..n], token);
      }
    }
  }

  lemma NewRowsSnoc(base: seq<Snapshot>, rows: seq<Snapshot>, row: Snapshot, token: string)
    ensures Current(base + NewRows(base, rows + [row]), token) ==
            if HashedRow(row, token) && !Conflicts(base + rows, row) then row.bookHash
            else Current(base + NewRows(base, rows), token)
  {
    assert (rows + [row])[..|rows|] == rows;
    assert NewRows(base, rows) + [] == NewRows(base, rows);
    CurrentAppend(base, NewRows(base, rows + [row]), token);
    CurrentAppend(base, NewRows(base, rows), token);
    CurrentSnoc(NewRows(base, rows), row, token);
  }

  /** The token's hash in the table once a run has delivered so much. */
  function StoredHash(base: seq<Snapshot>, drained: seq<Drained>, token: string): Option<string> {
    Current(base + NewRows(base, DeliveredOf(drained)), token)
  }

  lemma DeliveredStep(base: seq<Snapshot>, drained: seq<Drained>, n: nat, token: string)
    requires |drained| == n + 1
    ensures var row := drained[n].row;
            StoredHash(base, drained, token) ==
            if drained[n].fate == Sent && HashedRow(row, token) && !Conflicts(base + DeliveredOf(drained[..n]), row)
            then row.bookHash else StoredHash(base, drained[..n], token)
  {
    DrainedSnoc(drained, n);
    NewRowsSnoc(base, DeliveredOf(drained[..n]), drained[n].row, token);
  }

  /** A token's hash in the table is decided at its last offered row. */
  lemma {:induction false} CurrentAfterDelivery(base: seq<Snapshot>, drained: seq<Drained>, token: string, i: int)
    requires LastOffered(drained, token, i)
    ensures StoredHash(base, drained, token) == drained[i].row.bookHash <==> EndsDelivered(base, drained, i)
  {
    var n := |drained| - 1;
    DeliveredStep(base, drained, n, token);
    if i < n {
      CurrentAfterDelivery(base, drained[..n], token, i);
      assert drained[..n][..i] == drained[..i];
    }
  }

  /**
   Over a whole run, with failed inserts and taken keys of any kind, the map speaks
   of what is stored exactly if for each token the last row offered was sent under
   a new key, or what was delivered before it ends on its hash.
   */
  lemma AgreementInRun(base: seq<Snapshot>, max: int, events: seq<Event>)
    requires max >= 0 && Run(Init(base), max, events).flight.Idle?
    ensures var s := Run(Init(base), max, events);
            Speaks(s) <==> forall t, i | LastOffered(s.drained, t, i) :: EndsDelivered(base, s.drained, i)
  {
    var s := Run(Init(base), max, events);
    RunKeepsInv(Init(base), max, events);
    RunKeepsBase(Init(base), max, events);
    InsertAllStoresNewRows(base, DeliveredRows(s));
    assert OfferedRows(s) == OfferedOf(s.drained);
    forall t
      ensures Lookup(s.lastHash, t) == Current(OfferedOf(s.drained), t)
    {
      LastHashIsLastOffered(base, max, events, t);
    }
    forall t, i | LastOffered(s.drained, t, i)
      ensures Lookup(s.lastHash, t) == s.drained[i].row.bookHash
      ensures Current(s.table, t) == Lookup(s.lastHash, t) <==> EndsDelivered(base, s.drained, i)
    {
      var k := LastOfferedIsCurrent(s.drained, t);
      assert k == i;
      CurrentAfterDelivery(base, s.drained, t, i);
    }
    SpeaksByLookup(s);
    if forall t, i | LastOffered(s.drained, t, i) :: EndsDelivered(base, s.drained, i) {
      forall t | Lookup(s.lastHash, t).Some?
        ensures Current(s.table, t) == Lookup(s.lastHash, t)
      {
        var i := LastOfferedIsCurrent(s.drained, t);
      }
    }
  }

  /** Every row of the token carries this one hash. */
  predicate OnlyHash(rows: seq<Snapshot>, token: string, hash: string) {
    forall i | 0 <= i < |rows| :: rows[i].tokenId == token ==> rows[i].bookHash == Some(hash)
  }

  lemma {:induction false} KnownHashIsDropped(last: HashMap, rows: seq<Snapshot>, token: string, hash: string)
    requires Lookup(last, token) == Some(hash) && OnlyHash(rows, token, hash)
    ensures Lookup(LastHashes(last, rows), token) == Some(hash)
    ensures Hashes(Kept(last, rows), token) == []
  {
    if rows != [] {
      var n := |rows| - 1;
      KnownHashIsDropped(last, rows[..n], token, hash);
      KeptSnoc(last, rows);
      HashesSnoc(Kept(last, rows[..n]), rows[n], token);
    }
  }

  lemma {:induction false} HashesAfterInsert(table: seq<Snapshot>, rows: seq<Snapshot>, token: string)
    requires Hashes(rows, token) == []
    ensures Hashes(InsertAll(table, rows), token) == Hashes(table, token)
  {
    if rows != [] {
      var n := |rows| - 1;
      HashesAfterInsert(table, rows[..n], token);
      HashesSnoc(InsertAll(table, rows[..n]), rows[n], token);
    }
  }

  ghost predicate Unchanging(s: State, token: string, hash: string, stored: seq<string>) {
    && Lookup(s.lastHash, token) == Some(hash)
    && OnlyHash(s.buffer, token, hash)
    && (s.flight.Swapped? ==> OnlyHash(s.flight.rows, token, hash))
    && (s.flight.Filtered? ==> Hashes(Kept(s.flight.before, s.flight.rows), token) == [])
    && Hashes(s.table, token) == stored
  }

  lemma KnownHashStep(s: State, max: int, e: Event, token: string, hash: string, stored: seq<string>)
    requires Unchanging(s, token, hash, stored)
    requires e.Fetched? ==> OnlyHash(e.snaps, token, hash)
    ensures Unchanging(Step(s, max, e), token, hash, stored)
  {
    match e
    case Fetched(snaps) =>
    case Swap =>
    case Filter =>
      if s.flight.Swapped? {
        KnownHashIsDropped(s.lastHash, s.flight.rows, token, hash);
      }
    case Insert(fails) =>
      if s.flight.Filtered? {
        HashesAfterInsert(s.table, Kept(s.flight.before, s.flight.rows), token);
      }
  }

  /**
   A hash that the map holds is not offered again: however the workers go on,
   as long as the token's book keeps that hash, nothing of the token is stored.
   After a failed insert this means that the lost state is never made up for.
   */
  lemma {:induction false} KnownHashIsNeverStored(s: State, max: int, events: seq<Event>, token: string, hash: string)
    requires Unchanging(s, token, hash, Hashes(s.table, token))
    requires forall i | 0 <= i < |events| :: events[i].Fetched? ==> OnlyHash(events[i].snaps, token, hash)
    ensures Unchanging(Run(s, max, events), token, hash, Hashes(s.table, token))
    decreases |events|
  {
    if events != [] {
      KnownHashStep(s, max, events[0], token, hash, Hashes(s.table, token));
      KnownHashIsNeverStored(Step(s, max, events[0]), max, events[1..], token, hash);
    }
  }

  /** So a failed insert can hide a book for good: accepted twice, stored never. */
  lemma LostHashIsNotRetried(base: seq<Snapshot>, first: Snapshot, again: Snapshot, max: int)
    requires max >= 1 && first.bookHash.Some?
    requires again.tokenId == first.tokenId && again.bookHash == first.bookHash
    ensures var lost := Run(Init(base), max, [Fetched([first]), Swap, Filter] + [Insert(true)]);
            var s := Run(lost, max, [Fetched([again]), Swap, Filter] + [Insert(false)]);
            && s.table == base && s.buffer == [] && s.flight.Idle?
            && s.drained == [Drained(first, Lost), Drained(again, Skipped)]
            && (Current(base, first.tokenId) != first.bookHash ==> !Speaks(lost) && !Speaks(s))
  {
    OneRowFlush(Init(base), max, first, true);
    var lost := Run(Init(base), max, [Fetched([first]), Swap, Filter] + [Insert(true)]);
    OneRowFlush(lost, max, again, false);
  }

  lemma OneRow(last: HashMap, row: Snapshot)
    ensures LastHashes(last, [row]) == Remember(last, row) && Marks(last, [row]) == [Keeps(last, row)]
    ensures Kept(last, [row]) == if Keeps(last, row) then [row] else []
  {
    assert [row][..0] == [];
    KeptSnoc(last, [row]);
  }

  lemma SettleOneRow(last: HashMap, row: Snapshot, fate: Fate)
    ensures Settle([row], last, fate) == [Drained(row, if Keeps(last, row) then fate else Skipped)]
  {
    OneRow(last, row);
  }

  /** The collector s' is s, idle and empty, after taking in one row, with the given fate if the filter keeps it. */
  ghost predicate TookIn(s: State, s': State, row: Snapshot, fate: Fate) {
    && s'.buffer == [] && s'.flight.Idle? && s'.lastHash == Remember(s.lastHash, row)
    && s'.table == (if Keeps(s.lastHash, row) && fate == Sent then InsertAll(s.table, [row]) else s.table)
    && s'.drained == s.drained + [Drained(row, if Keeps(s.lastHash, row) then fate else Skipped)]
  }

  lemma FlushDroppedRow(s: State, max: int, row: Snapshot, fails: bool)
    requires s.flight == Swapped([row]) && s.buffer == [] && !Keeps(s.lastHash, row)
    ensures TookIn(s, Step(Step(s, max, Filter), max, Insert(fails)), row, if fails then Lost else Sent)
  {
    OneRow(s.lastHash, row);
    SettleOneRow(s.lastHash, row, Sent);
    assert Step(s, max, Filter).flight.Idle?;
  }

  lemma FlushKeptRow(s: State, max: int, row: Snapshot, fails: bool)
    requires s.flight == Swapped([row]) && s.buffer == [] && Keeps(s.lastHash, row)
    ensures TookIn(s, Step(Step(s, max, Filter), max, Insert(fails)), row, if fails then Lost else Sent)
  {
    OneRow(s.lastHash, row);
    SettleOneRow(s.lastHash, row, if fails then Lost else Sent);
    assert Step(s, max, Filter).flight == Filtered([row], s.lastHash);
  }

  /** Fetching and flushing one row from an idle, empty collector. */
  lemma OneRowFlush(s: State, max: int, row: Snapshot, fails: bool)
    requires max >= 1 && s.flight.Idle? && s.buffer == []
    ensures TookIn(s, Run(s, max, [Fetched([row]), Swap, Filter] + [Insert(fails)]), row, if fails then Lost else Sent)
  {
    RunFour(s, max, Fetched([row]), Swap, Filter, Insert(fails));
    var s1 := Step(s, max, Fetched([row]));
    assert s1.buffer == [row];
    if Keeps(s.lastHash, row) {
      FlushKeptRow(Step(s1, max, Swap), max, row, fails);
    } else {
      FlushDroppedRow(Step(s1, max, Swap), max, row, fails);
    }
  }

  /**
   Nor does the map speak of what is stored when a row meets a key that is taken:
   of two rows of a token with one timestamp the table keeps the first, the map
   the second, though no insert failed.
   */
  lemma TakenKeyHidesHash(base: seq<Snapshot>, first: Snapshot, again: Snapshot, max: int)
    requires max >= 1 && first.bookHash.Some? && again.bookHash.Some? && first.bookHash != again.bookHash
    requires SameKey(first, again) && !Conflicts(base, first)
    ensures var once := Run(Init(base), max, [Fetched([first]), Swap, Filter] + [Insert(false)]);
            var s := Run(once, max, [Fetched([again]), Swap, Filter] + [Insert(false)]);
            && s.drained == [Drained(first, Sent), Drained(again, Sent)] && s.table == base + [first]
            && Lookup(s.lastHash, first.tokenId) == again.bookHash
            && Current(s.table, first.tokenId) == first.bookHash && !Speaks(s)
  {
    OneRowFlush(Init(base), max, first, false);
    var once := Run(Init(base), max, [Fetched([first]), Swap, Filter] + [Insert(false)]);
    InsertOne(base, first);
    OneRowFlush(once, max, again, false);
    assert (base + [first])[|base|] == first;
    InsertOne(once.table, again);
    CurrentSnoc(base, first, first.tokenId);
  }

  lemma InsertOne(table: seq<Snapshot>, row: Snapshot)
    ensures InsertAll(table, [row]) == if Conflicts(table, row) then table else table + [row]
  {
    assert [row][..0] == [];
    assert InsertAll(table, []) == table;
  }

  lemma RunFour(s: State, max: int, a: Event, b: Event, c: Event, d: Event)
    ensures Run(s, max, [a, b, c] + [d]) == Step(Step(Step(Step(s, max, a), max, b), max, c), max, d)
  {
    assert ([a, b, c] + [d])[1..] == [b, c, d];
    RunThree(Step(s, max, a), max, b, c, d);
  }

  // ---- Shutdown ----

  /** What the fetch worker appended between two states, if nothing was swapped out. */
  ghost predicate OnlyAppended(s: State, s': State, more: seq<Snapshot>) {
    s'.accepted == s.accepted + more && s'.buffer == s.buffer + more
  }

  lemma {:induction false} AfterLastSwap(s: State, max: int, events: seq<Event>) returns (more: seq<Snapshot>)
    requires forall i | 0 <= i < |events| :: events[i] != Swap
    ensures OnlyAppended(s, Run(s, max, events), more)
    decreases |events|
  {
    if events == [] {
      more := [];
    } else {
      var s1 := Step(s, max, events[0]);
      var now := if s1.accepted == s.accepted then [] else events[0].snaps;
      assert OnlyAppended(s, s1, now);
      var later := AfterLastSwap(s1, max, events[1..]);
      more := now + later;
    }
  }

  /** The event brings nothing into an empty buffer. */
  predicate BringsNothing(e: Event, max: int) {
    e.Fetched? ==> e.snaps == [] || |e.snaps| > max
  }

  lemma {:induction false} EmptyBufferStaysIff(s: State, max: int, events: seq<Event>)
    requires s.buffer == [] && forall i | 0 <= i < |events| :: events[i] != Swap
    ensures Run(s, max, events).buffer == [] <==> forall i | 0 <= i < |events| :: BringsNothing(events[i], max)
    decreases |events|
  {
    if events != [] {
      var rest := events[1..];
      assert forall i | 0 <= i < |rest| :: rest[i] == events[i + 1];
      if BringsNothing(events[0], max) {
        EmptyBufferStaysIff(Step(s, max, events[0]), max, rest);
        assert forall i | 0 < i < |events| :: events[i] == rest[i - 1];
      } else {
        var more := AfterLastSwap(Step(s, max, events[0]), max, rest);
      }
    }
  }

  /**
   The flush at shutdown takes the whole buffer. Afterwards the buffer is empty
   exactly if every fetch that follows brings nothing or more than fits.
   */
  lemma ShutdownDrainsIffNothingFollows(s: State, max: int, events: seq<Event>)
    requires s.flight.Idle?
    requires forall i | 0 <= i < |events| :: events[i] != Swap
    ensures Run(s, max, [Swap] + events).buffer == [] <==>
            forall i | 0 <= i < |events| :: BringsNothing(events[i], max)
  {
    assert ([Swap] + events)[1..] == events;
    EmptyBufferStaysIff(Step(s, max, Swap), max, events);
  }

  /** So one batch that arrives after the last swap is never stored. */
  lemma LateBatchIsLeft(s: State, max: int, row: Snapshot)
    requires s.flight.Idle? && max >= 1
    ensures Run(s, max, [Swap, Fetched([row])]).buffer == [row]
  {
    var s1 := Step(s, max, Swap);
    assert [Swap, Fetched([row])][1..] == [Fetched([row])] && [Fetched([row])][1..] == [];
    assert Run(s1, max, [Fetched([row])]) == Step(s1, max, Fetched([row]));
    assert s1.buffer + [row] == [row];
  }
}
