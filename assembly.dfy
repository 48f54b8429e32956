/**
 * Reading an upload session back at merge time (index.js:1101-1150): the
 * session's ledger rows ordered by chunk index, each pending blob read and
 * decrypted in turn, written to the result stream, its length added to
 * `fileSize` and its path pushed onto `fileList`. The first unreadable or
 * undecryptable chunk ends the loop.
 *
 * Beside it, the completeness check the merge applies to those rows
 * (index.js:1112-1116), and a corrected check that looks at the indices.
 */
module Assembly {
  import opened Wrappers
  import opened Bytes
  import opened Ledger
  import Framing

  /** `SELECT filename FROM uploaded_chunks WHERE uuid = ? ORDER BY chunk_id`. */
  function SessionRows(chunks: seq<ChunkRow>, uuid: string): (rows: seq<ChunkRow>)
    ensures multiset(rows) == multiset(RowsOf(chunks, uuid))
    ensures SortedByChunkId(rows)
    ensures forall r :: r in rows <==> r in chunks && r.uuid == uuid
  {
    var rows := OrderByChunkId(RowsOf(chunks, uuid));
    assert forall r :: r in rows <==> r in multiset(RowsOf(chunks, uuid));
    rows
  }

  /** The result stream's content, `fileList`, and whether every chunk was read. */
  datatype Assembled = Assembled(written: Bytes, names: seq<string>, complete: bool)

  /** `readFile` of the chunk's pending blob, then `decryptChunk`; `None` is either of them throwing. */
  function ChunkData(row: ChunkRow, pending: map<string, Bytes>, open: (Bytes, Bytes, Bytes) -> Option<Bytes>): Option<Bytes>
  {
    if row.filename in pending then Framing.DecryptChunk(pending[row.filename], open) else None
  }

  /** The state of the merge loop after its first n iterations; once a chunk fails nothing more is read. */
  function AssembleUpTo(rows: seq<ChunkRow>, pending: map<string, Bytes>, open: (Bytes, Bytes, Bytes) -> Option<Bytes>, n: nat)
    : (a: Assembled)
    requires n <= |rows|
    ensures |a.names| <= n
    ensures a.complete ==> |a.names| == n && forall k :: 0 <= k < n ==> a.names[k] == rows[k].filename
  {
    if n == 0 then Assembled([], [], true)
    else
      var a := AssembleUpTo(rows, pending, open, n - 1);
      if !a.complete then a
      else match ChunkData(rows[n - 1], pending, open)
        case None => a.(complete := false)
        case Some(data) => Assembled(a.written + data, a.names + [rows[n - 1].filename], true)
  }

  function Assemble(rows: seq<ChunkRow>, pending: map<string, Bytes>, open: (Bytes, Bytes, Bytes) -> Option<Bytes>): (a: Assembled)
    ensures |a.names| <= |rows|
    ensures a.complete ==> |a.names| == |rows| && forall k :: 0 <= k < |rows| ==> a.names[k] == rows[k].filename
  {
    AssembleUpTo(rows, pending, open, |rows|)
  }

  /** After a failed chunk the loop has returned: later rows change nothing. */
  lemma {:induction false} FailureIsFinal(rows: seq<ChunkRow>, pending: map<string, Bytes>, open: (Bytes, Bytes, Bytes) -> Option<Bytes>, i: nat, j: nat)
    requires i <= j <= |rows| && !AssembleUpTo(rows, pending, open, i).complete
    ensures AssembleUpTo(rows, pending, open, j) == AssembleUpTo(rows, pending, open, i)
    decreases j
  {
    if j > i {
      FailureIsFinal(rows, pending, open, i, j - 1);
    }
  }

  /** The loop of the merge route; `fileSize` is kept beside the stream as the source does. */
  method ReadChunks(rows: seq<ChunkRow>, pending: map<string, Bytes>, open: (Bytes, Bytes, Bytes) -> Option<Bytes>)
    returns (written: Bytes, fileSize: nat, fileList: seq<string>, ok: bool)
    ensures Assembled(written, fileList, ok) == Assemble(rows, pending, open)
    ensures fileSize == |written|
  {
    written, fileSize, fileList := [], 0, [];
    var i := 0;
    while i < |rows|
      invariant 0 <= i <= |rows|
      invariant AssembleUpTo(rows, pending, open, i) == Assembled(written, fileList, true)
      invariant fileSize == |written|
    {
      var chunkData := ChunkData(rows[i], pending, open);
      if chunkData.None? {
        FailureIsFinal(rows, pending, open, i + 1, |rows|);
        return written, fileSize, fileList, false;
      }
      written := written + chunkData.value;
      fileSize := fileSize + |chunkData.value|;
      fileList := fileList + [rows[i].filename];
      i := i + 1;
    }
    ok := true;
  }

  /** The chunks one after another. */
  function Flatten(parts: seq<Bytes>): Bytes
  {
    if parts == [] then [] else Flatten(parts[..|parts| - 1]) + parts[|parts| - 1]
  }

  function SumLengths(parts: seq<Bytes>): nat
  {
    if parts == [] then 0 else SumLengths(parts[..|parts| - 1]) + |parts[|parts| - 1]|
  }

  lemma {:induction false} FlattenLength(parts: seq<Bytes>)
    ensures |Flatten(parts)| == SumLengths(parts)
  {
    if parts != [] {
      FlattenLength(parts[..|parts| - 1]);
    }
  }

  /** Every chunk is read exactly when each row's blob is present and decrypts. */
  lemma {:induction false} AssembleCompleteIff(rows: seq<ChunkRow>, pending: map<string, Bytes>, open: (Bytes, Bytes, Bytes) -> Option<Bytes>, n: nat)
    requires n <= |rows|
    ensures AssembleUpTo(rows, pending, open, n).complete <==> forall k :: 0 <= k < n ==> ChunkData(rows[k], pending, open).Some?
  {
    if n > 0 {
      AssembleCompleteIff(rows, pending, open, n - 1);
    }
  }

  /**
   * When the k-th row decrypts to `parts[k]`, the merged artifact is the parts
   * concatenated in row order, and `fileSize` is the sum of their lengths.
   */
  lemma {:induction false} AssembleConcatenates(rows: seq<ChunkRow>, pending: map<string, Bytes>, open: (Bytes, Bytes, Bytes) -> Option<Bytes>,
                                                parts: seq<Bytes>, n: nat)
    requires n <= |rows| && |parts| == |rows|
    requires forall k :: 0 <= k < |rows| ==> ChunkData(rows[k], pending, open) == Some(parts[k])
    ensures var a := AssembleUpTo(rows, pending, open, n);
      a.complete && a.written == Flatten(parts[..n]) && |a.written| == SumLengths(parts[..n])
  {
    if n > 0 {
      AssembleConcatenates(rows, pending, open, parts, n - 1);
      assert parts[..n][..n - 1] == parts[..n - 1];
    }
    FlattenLength(parts[..n]);
  }

  // ---- Completeness of a session ----

  /** The check as written: with a positive expected count, the number of rows must equal it. */
  predicate CountCheckPasses(rows: seq<ChunkRow>, expectedCount: nat)
  {
    !(expectedCount > 0 && |rows| != expectedCount)
  }

  /** The chunk indices a session's rows carry. */
  function IndexSet(rows: seq<ChunkRow>): set<nat>
  {
    set r | r in rows :: r.chunkId
  }

  /** The indices 0 .. n-1. */
  function Indices(n: nat): (s: set<nat>)
    ensures forall k: nat :: k in s <==> k < n
  {
    if n == 0 then {} else Indices(n - 1) + {n - 1}
  }

  lemma {:induction false} RowsOfOneSession(chunks: seq<ChunkRow>, u: string)
    requires forall r :: r in chunks ==> r.uuid == u
    ensures RowsOf(chunks, u) == chunks
  {
    if chunks != [] {
      RowsOfOneSession(chunks[1..], u);
      assert chunks == [chunks[0]] + chunks[1..];
    }
  }

  lemma {:induction false} OrderOfSortedRows(rows: seq<ChunkRow>)
    requires SortedByChunkId(rows)
    ensures OrderByChunkId(rows) == rows
  {
    if rows != [] {
      OrderOfSortedRows(rows[1..]);
      assert rows == [rows[0]] + rows[1..];
    }
  }

  /** A ledger holding one session, already in index order, is read back as it is. */
  lemma SessionRowsOfSortedSession(chunks: seq<ChunkRow>, u: string)
    requires SortedByChunkId(chunks) && forall r :: r in chunks ==> r.uuid == u
    ensures SessionRows(chunks, u) == chunks
  {
    RowsOfOneSession(chunks, u);
    OrderOfSortedRows(chunks);
  }

  /**
   * The count check ignores which indices arrived: a session holding indices 0
   * and 5 passes for a count of 2, and is then assembled with chunk 1 missing.
   */
  lemma CountCheckAcceptsGap(u: string)
    ensures var gap := [ChunkRow(u, "a_0", 0, 0), ChunkRow(u, "b_5", 5, 0)];
      var rows := SessionRows(gap, u);
      CountCheckPasses(rows, 2) && IndexSet(rows) != Indices(2)
  {
    var gap := [ChunkRow(u, "a_0", 0, 0), ChunkRow(u, "b_5", 5, 0)];
    SessionRowsOfSortedSession(gap, u);
    assert 1 !in IndexSet(gap);
  }

  /**
   * A session in which chunk 0 was stored twice (the client retried after a lost
   * reply) holds every index of a 2-chunk file, yet the count check rejects it
   * as incomplete.
   */
  lemma CountCheckRejectsRetry(a: ChunkRow, b: ChunkRow, c: ChunkRow, u: string)
    requires a.uuid == u && b.uuid == u && c.uuid == u
    requires a.chunkId == 0 && b.chunkId == 0 && c.chunkId == 1
    ensures var rows := SessionRows([a, b, c], u);
      !CountCheckPasses(rows, 2) && IndexSet(rows) == Indices(2)
  {
    RetriedSessionSorted(a, b, c, u);
    RetriedSessionIndices(a, b, c);
    IndicesOfTwo();
  }

  lemma IndicesOfTwo()
    ensures Indices(2) == {0, 1}
  {
    assert Indices(1) == {0};
  }

  lemma RetriedSessionSorted(a: ChunkRow, b: ChunkRow, c: ChunkRow, u: string)
    requires a.uuid == u && b.uuid == u && c.uuid == u
    requires a.chunkId == 0 && b.chunkId == 0 && c.chunkId == 1
    ensures SessionRows([a, b, c], u) == [a, b, c]
  {
    SessionRowsOfSortedSession([a, b, c], u);
  }

  lemma RetriedSessionIndices(a: ChunkRow, b: ChunkRow, c: ChunkRow)
    requires a.chunkId == 0 && b.chunkId == 0 && c.chunkId == 1
    ensures IndexSet([a, b, c]) == {0, 1}
  {
    var rows := [a, b, c];
    assert rows[0] in rows && rows[2] in rows;
  }

  /** Of each run of rows with the same index, the last one (for a retry: the same blob name). */
  function DistinctIndices(rows: seq<ChunkRow>): (r: seq<ChunkRow>)
    ensures forall x :: x in r ==> x in rows
    ensures rows != [] ==> r != [] && r[0].chunkId == rows[0].chunkId
  {
    if |rows| <= 1 then rows
    else if rows[0].chunkId == rows[1].chunkId then DistinctIndices(rows[1..])
    else [rows[0]] + DistinctIndices(rows[1..])
  }

  ghost predicate StrictlyIncreasing(rows: seq<ChunkRow>)
  {
    forall i, j :: 0 <= i < j < |rows| ==> rows[i].chunkId < rows[j].chunkId
  }

  lemma {:induction false} DistinctIndicesKeepsIndexSet(rows: seq<ChunkRow>)
    ensures IndexSet(DistinctIndices(rows)) == IndexSet(rows)
  {
    if |rows| > 1 {
      DistinctIndicesKeepsIndexSet(rows[1..]);
      assert rows == [rows[0]] + rows[1..];
      assert IndexSet(rows) == {rows[0].chunkId} + IndexSet(rows[1..]);
      if rows[0].chunkId != rows[1].chunkId {
        var t := DistinctIndices(rows[1..]);
        assert IndexSet([rows[0]] + t) == {rows[0].chunkId} + IndexSet(t);
      } else {
        assert rows[1] in rows[1..];
      }
    }
  }

  lemma {:induction false} DistinctIndicesIncrease(rows: seq<ChunkRow>)
    requires SortedByChunkId(rows)
    ensures StrictlyIncreasing(DistinctIndices(rows))
  {
    if |rows| > 1 {
      DistinctIndicesIncrease(rows[1..]);
      if rows[0].chunkId != rows[1].chunkId {
        var t := DistinctIndices(rows[1..]);
        var s := [rows[0]] + t;
        forall i, j | 0 <= i < j < |s| ensures s[i].chunkId < s[j].chunkId {
          if i == 0 {
            assert t[0].chunkId == rows[1].chunkId;
            if j > 1 {
              assert t[0].chunkId < t[j - 1].chunkId;
            }
          } else {
            assert s[i] == t[i - 1] && s[j] == t[j - 1];
          }
        }
      }
    }
  }

  /** The corrected reading of the check: after collapsing repeats, row k carries index k for each k < n. */
  predicate IndicesExact(rows: seq<ChunkRow>, n: nat)
  {
    |rows| == n && forall k :: 0 <= k < n ==> rows[k].chunkId == k
  }

  predicate CorrectedCheckPasses(rows: seq<ChunkRow>, n: nat)
  {
    IndicesExact(DistinctIndices(rows), n)
  }

  lemma {:induction false} IncreasingLowerBound(s: seq<ChunkRow>, i: nat)
    requires StrictlyIncreasing(s) && i < |s|
    ensures s[i].chunkId >= i
  {
    if i > 0 {
      IncreasingLowerBound(s, i - 1);
      assert s[i - 1].chunkId < s[i].chunkId;
    }
  }

  lemma {:induction false} IncreasingCoversPrefix(s: seq<ChunkRow>, n: nat, k: nat)
    requires StrictlyIncreasing(s) && IndexSet(s) == Indices(n) && k < n
    ensures k < |s| && s[k].chunkId == k
    decreases k
  {
    assert k in IndexSet(s);
    var r :| r in s && r.chunkId == k;
    var j :| 0 <= j < |s| && s[j] == r;
    IncreasingLowerBound(s, j);
    if k > 0 {
      IncreasingCoversPrefix(s, n, k - 1);
      assert j >= k;
      IncreasingLowerBound(s, k);
    } else {
      assert j == 0;
    }
  }

  lemma IncreasingExact(s: seq<ChunkRow>, n: nat)
    requires StrictlyIncreasing(s)
    ensures IndicesExact(s, n) <==> IndexSet(s) == Indices(n)
  {
    if IndicesExact(s, n) {
      forall x | x in IndexSet(s) ensures x in Indices(n) {
        var r :| r in s && r.chunkId == x;
        var j :| 0 <= j < |s| && s[j] == r;
      }
      forall x | x in Indices(n) ensures x in IndexSet(s) {
        assert s[x] in s;
      }
    }
    if IndexSet(s) == Indices(n) {
      forall k | 0 <= k < n ensures k < |s| && s[k].chunkId == k {
        IncreasingCoversPrefix(s, n, k);
      }
      forall i | 0 <= i < |s| ensures s[i].chunkId < n {
        assert s[i] in s;
        assert s[i].chunkId in IndexSet(s);
      }
      if |s| > n {
        IncreasingLowerBound(s, n);
      }
    }
  }

  /** The corrected check passes exactly when the session holds every index 0 .. n-1 and no other. */
  lemma CorrectedCheckMeaning(rows: seq<ChunkRow>, n: nat)
    requires SortedByChunkId(rows)
    ensures CorrectedCheckPasses(rows, n) <==> IndexSet(rows) == Indices(n)
  {
    DistinctIndicesIncrease(rows);
    DistinctIndicesKeepsIndexSet(rows);
    IncreasingExact(DistinctIndices(rows), n);
  }

  /**
   * With the corrected check, the merged artifact is chunk 0, chunk 1, … in that
   * order, whenever every row of index k holds chunk k.
   */
  lemma CorrectedMergeIsInOrder(rows: seq<ChunkRow>, pending: map<string, Bytes>, open: (Bytes, Bytes, Bytes) -> Option<Bytes>, parts: seq<Bytes>)
    requires CorrectedCheckPasses(rows, |parts|)
    requires forall r :: r in rows && r.chunkId < |parts| ==> ChunkData(r, pending, open) == Some(parts[r.chunkId])
    ensures var a := Assemble(DistinctIndices(rows), pending, open);
      a.complete && a.written == Flatten(parts) && |a.written| == SumLengths(parts)
  {
    var s := DistinctIndices(rows);
    forall k | 0 <= k < |s| ensures ChunkData(s[k], pending, open) == Some(parts[k]) {
      assert s[k] in s;
    }
    AssembleConcatenates(s, pending, open, parts, |s|);
    assert parts[..|s|] == parts;
  }
}
