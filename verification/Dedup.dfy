/**
 Dropping consecutive duplicate book hashes per token
 (internal/collector/collector.go, flushBuffer), as functions on row streams.
 */
module Dedup {
  import opened Wrappers
  import opened Models
  import opened Batching

  type HashMap = map<string, string>

  /** A row is dropped when its hash is the last one seen for its token; a row without a hash never is. */
  predicate Keeps(last: HashMap, row: Snapshot) {
    !(row.bookHash.Some? && row.tokenId in last && last[row.tokenId] == row.bookHash.value)
  }

  function Remember(last: HashMap, row: Snapshot): HashMap {
    if row.bookHash.Some? then last[row.tokenId := row.bookHash.value] else last
  }

  function LastHashes(last: HashMap, rows: seq<Snapshot>): HashMap {
    if rows == [] then last
    else Remember(LastHashes(last, rows[..|rows| - 1]), rows[|rows| - 1])
  }

  /** For each row of the stream, is it kept? */
  function Marks(last: HashMap, rows: seq<Snapshot>): (marks: seq<bool>)
    ensures |marks| == |rows|
  {
    if rows == [] then []
    else
      var before := rows[..|rows| - 1];
      Marks(last, before) + [Keeps(LastHashes(last, before), rows[|rows| - 1])]
  }

  /** The rows that a mask selects. */
  function Masked(rows: seq<Snapshot>, mask: seq<bool>): seq<Snapshot>
    requires |mask| == |rows|
  {
    if rows == [] then []
    else
      var n := |rows| - 1;
      Masked(rows[..n], mask[..n]) + (if mask[n] then [rows[n]] else [])
  }

  function Kept(last: HashMap, rows: seq<Snapshot>): seq<Snapshot> {
    Masked(rows, Marks(last, rows))
  }

  // ---- What the stream says, without reference to the filter ----

  /** The book hash of a token at the end of a stream. */
  function Current(rows: seq<Snapshot>, token: string): Option<string> {
    if rows == [] then None
    else
      var n := |rows| - 1;
      if rows[n].tokenId == token && rows[n].bookHash.Some? then rows[n].bookHash
      else Current(rows[..n], token)
  }

  /** All hashes of a token, in order. */
  function Hashes(rows: seq<Snapshot>, token: string): seq<string> {
    if rows == [] then []
    else
      var n := |rows| - 1;
      Hashes(rows[..n], token) +
      (if rows[n].tokenId == token && rows[n].bookHash.Some? then [rows[n].bookHash.value] else [])
  }

  function Unhashed(rows: seq<Snapshot>): seq<Snapshot> {
    if rows == [] then []
    else
      var n := |rows| - 1;
      Unhashed(rows[..n]) + (if rows[n].bookHash.None? then [rows[n]] else [])
  }

  /** A sequence without its immediate repetitions. */
  function Destutter(s: seq<string>): (r: seq<string>)
    ensures forall i | 0 < i < |r| :: r[i - 1] != r[i]
    ensures s != [] ==> r != [] && r[|r| - 1] == s[|s| - 1]
  {
    if |s| <= 1 then s
    else
      var n := |s| - 1;
      Destutter(s[..n]) + (if s[n] == s[n - 1] then [] else [s[n]])
  }

  /** The mask loses nothing: at every point, each token's current hash can be read off the selected rows. */
  ghost predicate Lossless(rows: seq<Snapshot>, mask: seq<bool>)
    requires |mask| == |rows|
  {
    forall i, t | 0 <= i <= |rows| :: Current(Masked(rows[..i], mask[..i]), t) == Current(rows[..i], t)
  }

  // ---- Theorems ----

  function Lookup(last: HashMap, token: string): Option<string> {
    if token in last then Some(last[token]) else None
  }

  /** The map holds each token's latest hash, falling back on what it held before the stream. */
  lemma {:induction false} LookupLastHashes(last: HashMap, rows: seq<Snapshot>, token: string)
    ensures Lookup(LastHashes(last, rows), token) ==
            if Current(rows, token).Some? then Current(rows, token) else Lookup(last, token)
  {
    if rows != [] {
      LookupLastHashes(last, rows[..|rows| - 1], token);
    }
  }

  lemma LastHashesIsCurrent(rows: seq<Snapshot>, token: string)
    ensures Lookup(LastHashes(map[], rows), token) == Current(rows, token)
  {
    LookupLastHashes(map[], rows, token);
  }

  lemma {:induction false} CurrentAppend(a: seq<Snapshot>, b: seq<Snapshot>, token: string)
    ensures Current(a + b, token) == if Current(b, token).Some? then Current(b, token) else Current(a, token)
  {
    if b == [] {
      assert a + b == a;
    } else {
      assert (a + b)[..|a + b| - 1] == a + b[..|b| - 1];
      CurrentAppend(a, b[..|b| - 1], token);
    }
  }

  lemma {:induction false} MarksPrefix(last: HashMap, rows: seq<Snapshot>, i: nat)
    requires i < |rows|
    ensures Marks(last, rows)[..i] == Marks(last, rows[..i])
    ensures Marks(last, rows)[i] == Keeps(LastHashes(last, rows[..i]), rows[i])
  {
    var n := |rows| - 1;
    if i < n {
      MarksPrefix(last, rows[..n], i);
      assert rows[..n][..i] == rows[..i];
      assert Marks(last, rows)[..i] == Marks(last, rows[..n])[..i];
    } else {
      assert Marks(last, rows)[..n] == Marks(last, rows[..n]);
    }
  }

  lemma {:induction false} HashesEndInCurrent(rows: seq<Snapshot>, token: string)
    ensures Current(rows, token) ==
            if Hashes(rows, token) == [] then None
            else Some(Hashes(rows, token)[|Hashes(rows, token)| - 1])
  {
    if rows != [] {
      HashesEndInCurrent(rows[..|rows| - 1], token);
    }
  }

  lemma KeptSnoc(last: HashMap, rows: seq<Snapshot>)
    requires rows != []
    ensures var n := |rows| - 1;
            Kept(last, rows) == if Keeps(LastHashes(last, rows[..n]), rows[n])
                                then Kept(last, rows[..n]) + [rows[n]]
                                else Kept(last, rows[..n])
  {
    var n := |rows| - 1;
    assert Marks(last, rows)[..n] == Marks(last, rows[..n]);
    assert Kept(last, rows[..n]) + [] == Kept(last, rows[..n]);
  }

  lemma HashesSnoc(rows: seq<Snapshot>, row: Snapshot, token: string)
    ensures Hashes(rows + [row], token) ==
            if row.tokenId == token && row.bookHash.Some? then Hashes(rows, token) + [row.bookHash.value]
            else Hashes(rows, token)
    ensures Unhashed(rows + [row]) == if row.bookHash.None? then Unhashed(rows) + [row] else Unhashed(rows)
  {
    assert (rows + [row])[..|rows|] == rows;
  }

  lemma DestutterSnoc(s: seq<string>, x: string)
    ensures Destutter(s + [x]) == if s != [] && s[|s| - 1] == x then Destutter(s) else Destutter(s) + [x]
  {
    assert (s + [x])[..|s|] == s;
  }

  /** One more row adds its hash to the kept ones exactly if it differs from the last accepted one. */
  lemma {:induction false} KeptHashesSnoc(before: seq<Snapshot>, row: Snapshot, token: string)
    ensures var h := Hashes(before, token);
            var k := Hashes(Kept(map[], before), token);
            Hashes(Kept(map[], before + [row]), token) ==
            if row.tokenId == token && row.bookHash.Some? && (h == [] || h[|h| - 1] != row.bookHash.value)
            then k + [row.bookHash.value] else k
  {
    assert (before + [row])[..|before|] == before;
    KeptSnoc(map[], before + [row]);
    HashesSnoc(Kept(map[], before), row, token);
    if row.tokenId == token {
      LastHashesIsCurrent(before, token);
      HashesEndInCurrent(before, token);
    }
  }

  /**
   Per token, the kept hashes are the accepted ones with immediate repetitions
   removed (a return to an earlier hash stays).
   */
  lemma {:induction false} KeptIsDestuttered(rows: seq<Snapshot>, token: string)
    ensures Hashes(Kept(map[], rows), token) == Destutter(Hashes(rows, token))
  {
    if rows != [] {
      var before, row := rows[..|rows| - 1], rows[|rows| - 1];
      KeptIsDestuttered(before, token);
      assert before + [row] == rows;
      KeptHashesSnoc(before, row, token);
      HashesSnoc(before, row, token);
      if row.tokenId == token && row.bookHash.Some? {
        DestutterSnoc(Hashes(before, token), row.bookHash.value);
      }
    }
  }

  /** Every row without a hash is kept, in order. */
  lemma {:induction false} KeptKeepsUnhashed(last: HashMap, rows: seq<Snapshot>)
    ensures Unhashed(Kept(last, rows)) == Unhashed(rows)
  {
    if rows != [] {
      var n := |rows| - 1;
      KeptKeepsUnhashed(last, rows[..n]);
      KeptSnoc(last, rows);
      HashesSnoc(Kept(last, rows[..n]), rows[n], "");
    }
  }

  lemma MaskedPrefix(rows: seq<Snapshot>, mask: seq<bool>, i: nat)
    requires |mask| == |rows| && i < |rows|
    ensures Masked(rows[..i + 1], mask[..i + 1]) ==
            if mask[i] then Masked(rows[..i], mask[..i]) + [rows[i]] else Masked(rows[..i], mask[..i])
  {
    assert rows[..i + 1][..i] == rows[..i] && mask[..i + 1][..i] == mask[..i];
  }

  lemma CurrentSnoc(rows: seq<Snapshot>, row: Snapshot, token: string)
    ensures Current(rows + [row], token) ==
            if row.tokenId == token && row.bookHash.Some? then row.bookHash else Current(rows, token)
  {
    assert (rows + [row])[..|rows|] == rows;
  }

  /** One row further: what was read off so far still can be, exactly if a changed hash was selected. */
  lemma LosslessStep(rows: seq<Snapshot>, mask: seq<bool>, i: nat, token: string)
    requires |mask| == |rows| && i < |rows|
    requires Current(Masked(rows[..i], mask[..i]), token) == Current(rows[..i], token)
    ensures Current(Masked(rows[..i + 1], mask[..i + 1]), token) == Current(rows[..i + 1], token) <==>
            rows[i].tokenId == token && rows[i].bookHash.Some? && Marks(map[], rows)[i] ==> mask[i]
  {
    MaskedPrefix(rows, mask, i);
    assert rows[..i + 1] == rows[..i] + [rows[i]];
    CurrentSnoc(rows[..i], rows[i], token);
    CurrentSnoc(Masked(rows[..i], mask[..i]), rows[i], token);
    MarksPrefix(map[], rows, i);
    LastHashesIsCurrent(rows[..i], rows[i].tokenId);
  }

  lemma {:induction false} LosslessUpTo(rows: seq<Snapshot>, mask: seq<bool>, i: nat, token: string)
    requires |mask| == |rows| && i <= |rows|
    requires forall k | 0 <= k < i :: Marks(map[], rows)[k] && rows[k].bookHash.Some? ==> mask[k]
    ensures Current(Masked(rows[..i], mask[..i]), token) == Current(rows[..i], token)
  {
    if i > 0 {
      LosslessUpTo(rows, mask, i - 1, token);
      LosslessStep(rows, mask, i - 1, token);
    }
  }

  /**
   The filter is lossless and minimal: a selection of rows is lossless exactly
   if it contains every hashed row that the filter keeps.
   */
  lemma FilterIsLeastLossless(rows: seq<Snapshot>, mask: seq<bool>)
    requires |mask| == |rows|
    ensures Lossless(rows, mask) <==>
            forall i | 0 <= i < |rows| :: Marks(map[], rows)[i] && rows[i].bookHash.Some? ==> mask[i]
  {
    if Lossless(rows, mask) {
      forall i | 0 <= i < |rows|
        ensures Marks(map[], rows)[i] && rows[i].bookHash.Some? ==> mask[i]
      {
        assert Current(Masked(rows[..i], mask[..i]), rows[i].tokenId) == Current(rows[..i], rows[i].tokenId);
        var token := rows[i].tokenId;
        assert Current(Masked(rows[..i + 1], mask[..i + 1]), token) == Current(rows[..i + 1], token);
        LosslessStep(rows, mask, i, rows[i].tokenId);
      }
    }
    if forall i | 0 <= i < |rows| :: Marks(map[], rows)[i] && rows[i].bookHash.Some? ==> mask[i] {
      forall i, t | 0 <= i <= |rows|
        ensures Current(Masked(rows[..i], mask[..i]), t) == Current(rows[..i], t)
      {
        LosslessUpTo(rows, mask, i, t);
      }
    }
  }

  lemma {:induction false} LastHashesAppend(last: HashMap, a: seq<Snapshot>, b: seq<Snapshot>)
    ensures LastHashes(last, a + b) == LastHashes(LastHashes(last, a), b)
  {
    if b == [] {
      assert a + b == a;
    } else {
      LastHashesAppend(last, a, b[..|b| - 1]);
      assert (a + b)[..|a + b| - 1] == a + b[..|b| - 1];
    }
  }

  /** Filtering a stream in two flushes is filtering it in one. */
  lemma {:induction false} KeptAppend(last: HashMap, a: seq<Snapshot>, b: seq<Snapshot>)
    ensures Kept(last, a + b) == Kept(last, a) + Kept(LastHashes(last, a), b)
  {
    if b == [] {
      assert a + b == a;
    } else {
      var n := |b| - 1;
      assert (a + b)[..|a + b| - 1] == a + b[..n];
      LastHashesAppend(last, a, b[..n]);
      KeptAppend(last, a, b[..n]);
      KeptSnoc(last, a + b);
      KeptSnoc(LastHashes(last, a), b);
    }
  }

  lemma {:induction false} MarksAppend(last: HashMap, a: seq<Snapshot>, b: seq<Snapshot>)
    ensures Marks(last, a + b) == Marks(last, a) + Marks(LastHashes(last, a), b)
  {
    if b == [] {
      assert a + b == a;
    } else {
      var n := |b| - 1;
      assert (a + b)[..|a + b| - 1] == a + b[..n];
      LastHashesAppend(last, a, b[..n]);
      MarksAppend(last, a, b[..n]);
    }
  }

  /** The hash map that a series of flushes leaves behind. */
  function HashesAcross(last: HashMap, flushes: seq<seq<Snapshot>>): HashMap
    decreases |flushes|
  {
    if flushes == [] then last else HashesAcross(LastHashes(last, flushes[0]), flushes[1..])
  }

  /** What a series of flushes keeps, each starting from the hash map of the one before. */
  function KeptAcross(last: HashMap, flushes: seq<seq<Snapshot>>): seq<Snapshot>
    decreases |flushes|
  {
    if flushes == [] then []
    else Kept(last, flushes[0]) + KeptAcross(LastHashes(last, flushes[0]), flushes[1..])
  }

  lemma {:induction false} FlushesAreOneFilter(last: HashMap, flushes: seq<seq<Snapshot>>)
    ensures KeptAcross(last, flushes) == Kept(last, Concat(flushes))
    ensures HashesAcross(last, flushes) == LastHashes(last, Concat(flushes))
    decreases |flushes|
  {
    if flushes != [] {
      FlushesAreOneFilter(LastHashes(last, flushes[0]), flushes[1..]);
      KeptAppend(last, flushes[0], Concat(flushes[1..]));
      LastHashesAppend(last, flushes[0], Concat(flushes[1..]));
    }
  }

  /** Where the stream is cut into flushes does not matter. */
  lemma FlushBoundariesDoNotMatter(last: HashMap, flushes1: seq<seq<Snapshot>>, flushes2: seq<seq<Snapshot>>)
    requires Concat(flushes1) == Concat(flushes2)
    ensures KeptAcross(last, flushes1) == KeptAcross(last, flushes2)
    ensures HashesAcross(last, flushes1) == HashesAcross(last, flushes2)
  {
    FlushesAreOneFilter(last, flushes1);
    FlushesAreOneFilter(last, flushes2);
  }

  /** Filtering a filtered stream changes nothing. */
  lemma {:induction false} FilterIdempotent(last: HashMap, rows: seq<Snapshot>)
    ensures Kept(last, Kept(last, rows)) == Kept(last, rows)
    ensures LastHashes(last, Kept(last, rows)) == LastHashes(last, rows)
  {
    if rows != [] {
      var n := |rows| - 1;
      FilterIdempotent(last, rows[..n]);
      KeptSnoc(last, rows);
      if Keeps(LastHashes(last, rows[..n]), rows[n]) {
        assert Kept(last, rows)[..|Kept(last, rows)| - 1] == Kept(last, rows[..n]);
        KeptSnoc(last, Kept(last, rows));
      } else {
        assert Kept(last, rows) == Kept(last, rows[..n]);
        assert LastHashes(last, rows) == LastHashes(last, rows[..n]);
      }
    }
  }
}
