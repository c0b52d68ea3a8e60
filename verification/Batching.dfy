/** Cutting a token list into consecutive batches. */
module Batching {

  /** The batches that stepping through s by size visits. */
  function Chunk<T>(s: seq<T>, size: nat): seq<seq<T>>
    requires size > 0
  {
    if s == [] then []
    else if |s| <= size then [s]
    else [s[..size]] + Chunk(s[size..], size)
  }

  function Concat<T>(parts: seq<seq<T>>): seq<T> {
    if parts == [] then [] else parts[0] + Concat(parts[1..])
  }

  lemma {:induction false} ConcatAppend<T>(parts: seq<seq<T>>, part: seq<T>)
    ensures Concat(parts + [part]) == Concat(parts) + part
  {
    if parts == [] {
      assert [] + [part] == [part];
      assert Concat([part][1..]) == [];
    } else {
      assert (parts + [part])[1..] == parts[1..] + [part];
      ConcatAppend(parts[1..], part);
    }
  }

  lemma {:induction false} ChunkConcat<T>(s: seq<T>, size: nat)
    requires size > 0
    ensures Concat(Chunk(s, size)) == s
  {
    if |s| > size {
      ChunkConcat(s[size..], size);
      assert Chunk(s, size)[1..] == Chunk(s[size..], size);
      assert s == s[..size] + s[size..];
    } else if s != [] {
      assert Concat([s]) == s + Concat([]);
    }
  }

  lemma {:induction false} ChunkSizes<T>(s: seq<T>, size: nat)
    requires size > 0
    ensures forall k | 0 <= k < |Chunk(s, size)| :: 0 < |Chunk(s, size)[k]| <= size
  {
    if |s| > size {
      ChunkSizes(s[size..], size);
    }
  }

  /** count is |s| / size rounded up. */
  predicate RoundsUp(count: int, length: int, size: int) {
    (count - 1) * size < length <= count * size
  }

  lemma OneMoreBatch(count: int, length: int, size: int)
    ensures RoundsUp(count, length, size) <==> RoundsUp(count + 1, length + size, size)
  {
  }

  lemma {:induction false} ChunkCount<T>(s: seq<T>, size: nat)
    requires size > 0
    ensures RoundsUp(|Chunk(s, size)|, |s|, size)
  {
    if |s| > size {
      ChunkCount(s[size..], size);
      OneMoreBatch(|Chunk(s[size..], size)|, |s[size..]|, size);
    }
  }

  /**
   The batches are the list, cut in order; none is empty or longer than size,
   and their number is |s| / size rounded up.
   */
  lemma {:induction false} ChunkPartitions<T>(s: seq<T>, size: nat)
    requires size > 0
    ensures Concat(Chunk(s, size)) == s
    ensures forall k | 0 <= k < |Chunk(s, size)| :: 0 < |Chunk(s, size)[k]| <= size
    ensures RoundsUp(|Chunk(s, size)|, |s|, size)
  {
    ChunkConcat(s, size);
    ChunkSizes(s, size);
    ChunkCount(s, size);
  }

  /** A loop over s in steps of size stands at index i, before the k-th batch. */
  ghost predicate AtBatch<T>(s: seq<T>, size: nat, i: nat, k: nat)
    requires size > 0
  {
    k <= |Chunk(s, size)| && Chunk(s, size)[k..] == Chunk(if i < |s| then s[i..] else [], size)
  }

  lemma FirstBatch<T>(s: seq<T>, size: nat)
    requires size > 0
    ensures AtBatch(s, size, 0, 0)
  {
    assert s[0..] == s;
  }

  /** At the end of the loop there are no batches left. */
  lemma NoMoreBatches<T>(s: seq<T>, size: nat, i: nat, k: nat)
    requires size > 0 && AtBatch(s, size, i, k)
    ensures i >= |s| <==> k == |Chunk(s, size)|
  {
    assert i < |s| ==> Chunk(s[i..], size) != [];
  }

  /** The slice that the loop takes is the k-th batch, and one step on it stands before the next. */
  lemma NextBatch<T>(s: seq<T>, size: nat, i: nat, k: nat, end: nat)
    requires size > 0 && i < |s| && AtBatch(s, size, i, k)
    requires end == if i + size > |s| then |s| else i + size
    ensures k < |Chunk(s, size)| && Chunk(s, size)[k] == s[i..end]
    ensures AtBatch(s, size, i + size, k + 1)
  {
    var batches := Chunk(s, size);
    assert batches[k] == batches[k..][0] && batches[k + 1..] == batches[k..][1..];
    if i + size < |s| {
      assert s[i..][size..] == s[end..] && s[i..][..size] == s[i..end];
    } else {
      assert s[i..end] == s[i..];
    }
  }
}
