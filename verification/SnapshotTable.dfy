/**
 The book_snapshots table: an append-only sequence of rows with a unique index
 on (token_id, timestamp_api) where timestamp_api is not null, filled by
 INSERT ... ON CONFLICT DO NOTHING.
 */
module SnapshotTable {
  import opened Wrappers
  import opened Models

  predicate SameKey(a: Snapshot, b: Snapshot) {
    a.tokenId == b.tokenId && a.timestampApi.Some? && a.timestampApi == b.timestampApi
  }

  predicate Conflicts(table: seq<Snapshot>, row: Snapshot) {
    exists i | 0 <= i < |table| :: SameKey(table[i], row)
  }

  predicate UniqueKeys(table: seq<Snapshot>) {
    forall i, j | 0 <= i < j < |table| :: !SameKey(table[i], table[j])
  }

  /** No row of the batch shares a key with the table or with another row of the batch. */
  predicate FreshRows(table: seq<Snapshot>, rows: seq<Snapshot>) {
    UniqueKeys(rows) && forall i | 0 <= i < |rows| :: !Conflicts(table, rows[i])
  }

  function InsertAll(table: seq<Snapshot>, rows: seq<Snapshot>): seq<Snapshot> {
    if rows == [] then table
    else
      var before := InsertAll(table, rows[..|rows| - 1]);
      if Conflicts(before, rows[|rows| - 1]) then before else before + [rows[|rows| - 1]]
  }

  /** Stored rows stay first, keys stay unique, and every offered row is stored or yields to one with its key. */
  lemma {:induction false} InsertAllKeepsTable(table: seq<Snapshot>, rows: seq<Snapshot>)
    requires UniqueKeys(table)
    ensures table <= InsertAll(table, rows) && UniqueKeys(InsertAll(table, rows))
    ensures var after := InsertAll(table, rows);
            forall i | 0 <= i < |rows| :: rows[i] in after || Conflicts(after, rows[i])
  {
    if rows != [] {
      var n := |rows| - 1;
      var before, after := InsertAll(table, rows[..n]), InsertAll(table, rows);
      InsertAllKeepsTable(table, rows[..n]);
      assert forall i | 0 <= i < n :: rows[..n][i] == rows[i];
      assert before == after[..|before|];
      forall row | Conflicts(before, row)
        ensures Conflicts(after, row)
      {
        var i :| 0 <= i < |before| && SameKey(before[i], row);
        assert SameKey(after[i], row);
      }
    }
  }

  lemma {:induction false} InsertAllLength(table: seq<Snapshot>, rows: seq<Snapshot>)
    ensures |InsertAll(table, rows)| <= |table| + |rows|
    ensures |InsertAll(table, rows)| == |table| + |rows| ==> InsertAll(table, rows) == table + rows
  {
    if rows == [] {
      assert table + rows == table;
    } else {
      InsertAllLength(table, rows[..|rows| - 1]);
      assert table + rows == table + rows[..|rows| - 1] + [rows[|rows| - 1]];
    }
  }

  /** A batch is stored in full exactly if its keys are new and distinct. */
  lemma {:induction false} StoredInFullIffFresh(table: seq<Snapshot>, rows: seq<Snapshot>)
    ensures InsertAll(table, rows) == table + rows <==> FreshRows(table, rows)
  {
    if rows == [] {
      assert table + rows == table;
    } else {
      var n := |rows| - 1;
      StoredInFullIffFresh(table, rows[..n]);
      InsertAllLength(table, rows[..n]);
      assert table + rows == (table + rows[..n]) + [rows[n]];
      FreshRowsSnoc(table, rows);
    }
  }

  lemma FreshRowsSnoc(table: seq<Snapshot>, rows: seq<Snapshot>)
    requires rows != []
    ensures var n := |rows| - 1;
            FreshRows(table, rows) <==> FreshRows(table, rows[..n]) && !Conflicts(table + rows[..n], rows[n])
  {
    var n := |rows| - 1;
    var all := table + rows[..n];
    assert Conflicts(all, rows[n]) <==> Conflicts(table, rows[n]) || Conflicts(rows[..n], rows[n]) by {
      assert forall i | 0 <= i < |table| :: all[i] == table[i];
      assert forall i | 0 <= i < n :: all[|table| + i] == rows[..n][i];
    }
    assert forall i | 0 <= i < n :: rows[..n][i] == rows[i];
    if Conflicts(rows[..n], rows[n]) {
      var i :| 0 <= i < n && SameKey(rows[..n][i], rows[n]);
      assert SameKey(rows[i], rows[n]);
    }
  }

  lemma {:induction false} InsertAllAppend(table: seq<Snapshot>, a: seq<Snapshot>, b: seq<Snapshot>)
    ensures InsertAll(table, a + b) == InsertAll(InsertAll(table, a), b)
  {
    if b == [] {
      assert a + b == a;
    } else {
      InsertAllAppend(table, a, b[..|b| - 1]);
      assert (a + b)[..|a + b| - 1] == a + b[..|b| - 1];
    }
  }

  lemma ConflictsAppend(a: seq<Snapshot>, b: seq<Snapshot>, row: Snapshot)
    ensures Conflicts(a + b, row) <==> Conflicts(a, row) || Conflicts(b, row)
  {
    assert forall i | 0 <= i < |a| :: (a + b)[i] == a[i];
    assert forall i | 0 <= i < |b| :: (a + b)[|a| + i] == b[i];
  }

  /** Every key that was offered is in the table, whichever row it came with. */
  lemma {:induction false} OfferedKeysAreTaken(table: seq<Snapshot>, rows: seq<Snapshot>, row: Snapshot)
    ensures Conflicts(InsertAll(table, rows), row) <==> Conflicts(table + rows, row)
  {
    if rows == [] {
      assert table + rows == table;
    } else {
      var n := |rows| - 1;
      var before := InsertAll(table, rows[..n]);
      OfferedKeysAreTaken(table, rows[..n], row);
      OfferedKeysAreTaken(table, rows[..n], rows[n]);
      assert table + rows == (table + rows[..n]) + [rows[n]];
      ConflictsAppend(table + rows[..n], [rows[n]], row);
      ConflictsAppend(before, [rows[n]], row);
      if Conflicts([rows[n]], row) && Conflicts(before, rows[n]) {
        var i :| 0 <= i < |before| && SameKey(before[i], rows[n]);
        assert SameKey(before[i], row);
      }
    }
  }

  /** The rows whose key neither the table nor an earlier row of the batch has. */
  function NewRows(table: seq<Snapshot>, rows: seq<Snapshot>): seq<Snapshot> {
    if rows == [] then []
    else
      var n := |rows| - 1;
      NewRows(table, rows[..n]) + if Conflicts(table + rows[..n], rows[n]) then [] else [rows[n]]
  }

  /** What a batch leaves behind depends only on the keys offered so far. */
  lemma {:induction false} InsertAllStoresNewRows(table: seq<Snapshot>, rows: seq<Snapshot>)
    ensures InsertAll(table, rows) == table + NewRows(table, rows)
  {
    if rows == [] {
      assert table + [] == table;
    } else {
      InsertAllStoresNewRows(table, rows[..|rows| - 1]);
      OfferedKeysAreTaken(table, rows[..|rows| - 1], rows[|rows| - 1]);
    }
  }

  // ---- In terms of tokens and timestamps ----

  /**
   A row is turned away exactly if it has an API timestamp and a row of its token
   with that timestamp was stored or offered before it.
   */
  lemma RowIsStoredIff(table: seq<Snapshot>, rows: seq<Snapshot>, i: nat)
    requires i < |rows|
    ensures var taken := exists prior | prior in table + rows[..i] ::
                           prior.tokenId == rows[i].tokenId && prior.timestampApi == rows[i].timestampApi;
            InsertAll(table, rows[..i + 1]) ==
            InsertAll(table, rows[..i]) + if rows[i].timestampApi.Some? && taken then [] else [rows[i]]
  {
    var earlier := table + rows[..i];
    assert rows[..i + 1][..i] == rows[..i];
    OfferedKeysAreTaken(table, rows[..i], rows[i]);
    if Conflicts(earlier, rows[i]) {
      var k :| 0 <= k < |earlier| && SameKey(earlier[k], rows[i]);
      assert earlier[k] in earlier;
    } else {
      forall prior | prior in earlier
        ensures !SameKey(prior, rows[i])
      {
        var k :| 0 <= k < |earlier| && earlier[k] == prior;
      }
    }
    assert InsertAll(table, rows[..i]) + [] == InsertAll(table, rows[..i]);
  }

  /** The first k rows are stored in full if each has no API timestamp, or one that no row of its token had before. */
  lemma {:induction false} NewTimestampsAreStored(table: seq<Snapshot>, rows: seq<Snapshot>, k: nat)
    requires k <= |rows|
    requires forall i, prior | 0 <= i < k && prior in table + rows[..i] ::
               rows[i].timestampApi.None? ||
               prior.tokenId != rows[i].tokenId || prior.timestampApi != rows[i].timestampApi
    ensures InsertAll(table, rows[..k]) == table + rows[..k]
  {
    if k == 0 {
      assert table + [] == table;
    } else {
      NewTimestampsAreStored(table, rows, k - 1);
      RowIsStoredIff(table, rows, k - 1);
      assert table + rows[..k] == table + rows[..k - 1] + [rows[k - 1]];
    }
  }

  class SnapshotStore {
    var rows: seq<Snapshot>

    constructor ()
      ensures rows == []
    {
      rows := [];
    }

    /** One batch; when it fails, nothing of it is stored. */
    method InsertBookSnapshotsBatch(snaps: seq<Snapshot>, fails: bool) returns (ok: bool)
      modifies this
      ensures ok <==> snaps == [] || !fails
      ensures rows == if ok then InsertAll(old(rows), snaps) else old(rows)
    {
      if |snaps| == 0 {
        return true;
      }
      if fails {
        return false;
      }
      var i := 0;
      while i < |snaps|
        invariant 0 <= i <= |snaps|
        invariant rows == InsertAll(old(rows), snaps[..i])
      {
        assert snaps[..i + 1][..i] == snaps[..i];
        if !Conflicts(rows, snaps[i]) {
          rows := rows + [snaps[i]];
        }
        i := i + 1;
      }
      assert snaps[..i] == snaps;
      return true;
    }
  }
}
