/**
 * The three tables of the server's SQLite database (index.js:351, 370, 386) as
 * in-memory sequences of rows, and the queries the upload pipeline runs on them:
 * the per-session chunk lookup ordered by chunk index, and the age filter of the
 * retention sweeps.
 */
module Ledger {
  import opened Wrappers

  /** A row of `uploaded_chunks`: upload session, blob name under pending/, chunk index, insertion time (seconds). */
  datatype ChunkRow = ChunkRow(uuid: string, filename: string, chunkId: nat, timestamp: int)

  /** A row of `uploaded_files`. A table is a sequence in `fid` (insertion) order. */
  datatype FileRow = FileRow(
    fileName: string,
    sha: string,
    timestamp: int,
    collectionId: Option<string>,
    fileSize: nat,
    remoteIp: string)

  /** A row of `audit_log`; `details` is a short description of the JSON column. */
  datatype AuditRow = AuditRow(timestamp: int, eventType: string, remoteIp: string, details: string, status: string)

  /** The public identifiers (`sha` column) present in the artifact table. */
  function Shas(files: seq<FileRow>): set<string>
  {
    set r | r in files :: r.sha
  }

  /** The `UNIQUE` constraint on `uploaded_files.sha`. */
  ghost predicate UniqueShas(files: seq<FileRow>)
  {
    forall i, j :: 0 <= i < j < |files| ==> files[i].sha != files[j].sha
  }

  /** `WHERE uuid = ?` on `uploaded_chunks`, keeping insertion order. */
  function RowsOf(chunks: seq<ChunkRow>, uuid: string): (r: seq<ChunkRow>)
    ensures forall x :: x in r <==> x in chunks && x.uuid == uuid
    ensures forall x :: multiset(r)[x] == if x.uuid == uuid then multiset(chunks)[x] else 0
    ensures IsSubsequence(r, chunks)
    ensures |r| <= |chunks|
  {
    if chunks == [] then []
    else
      var rest := RowsOf(chunks[1..], uuid);
      MultisetOfCons(chunks[0], chunks[1..]);
      assert chunks == [chunks[0]] + chunks[1..];
      if chunks[0].uuid == uuid then
        MultisetOfCons(chunks[0], rest);
        SubsequenceKeep(chunks[0], rest, chunks[1..]);
        [chunks[0]] + rest
      else
        SubsequenceDrop(chunks[0], rest, chunks[1..]);
        rest
  }

  /** The rows of `chunks` that do NOT belong to `uuid`: `DELETE FROM uploaded_chunks WHERE uuid = ?`. */
  function RowsNotOf(chunks: seq<ChunkRow>, uuid: string): (r: seq<ChunkRow>)
    ensures forall x :: x in r <==> x in chunks && x.uuid != uuid
    ensures forall x :: multiset(r)[x] == if x.uuid != uuid then multiset(chunks)[x] else 0
    ensures IsSubsequence(r, chunks)
    ensures |r| <= |chunks|
  {
    if chunks == [] then []
    else
      var rest := RowsNotOf(chunks[1..], uuid);
      MultisetOfCons(chunks[0], chunks[1..]);
      assert chunks == [chunks[0]] + chunks[1..];
      if chunks[0].uuid != uuid then
        MultisetOfCons(chunks[0], rest);
        SubsequenceKeep(chunks[0], rest, chunks[1..]);
        [chunks[0]] + rest
      else
        SubsequenceDrop(chunks[0], rest, chunks[1..]);
        rest
  }

  /** The blob names a sequence of chunk rows refers to. */
  function BlobNames(rows: seq<ChunkRow>): set<string>
  {
    set r | r in rows :: r.filename
  }

  ghost predicate SortedByChunkId(rows: seq<ChunkRow>)
  {
    forall i, j :: 0 <= i < j < |rows| ==> rows[i].chunkId <= rows[j].chunkId
  }

  /** Inserts `r` before the first row whose chunk index is not smaller than its own. */
  function InsertByChunkId(r: ChunkRow, sorted: seq<ChunkRow>): (s: seq<ChunkRow>)
    ensures |s| == |sorted| + 1
  {
    if sorted == [] then [r]
    else if r.chunkId <= sorted[0].chunkId then [r] + sorted
    else [sorted[0]] + InsertByChunkId(r, sorted[1..])
  }

  lemma {:induction false} InsertByChunkIdPermutes(r: ChunkRow, sorted: seq<ChunkRow>)
    ensures multiset(InsertByChunkId(r, sorted)) == multiset(sorted) + multiset{r}
  {
    if sorted != [] && r.chunkId > sorted[0].chunkId {
      InsertByChunkIdPermutes(r, sorted[1..]);
      assert sorted == [sorted[0]] + sorted[1..];
    }
  }

  /** Every row of `rows` has a chunk index of at least `k`. */
  predicate AtLeast(rows: seq<ChunkRow>, k: nat)
  {
    forall i :: 0 <= i < |rows| ==> k <= rows[i].chunkId
  }

  /** Inserting a row that respects a lower bound keeps it. */
  lemma {:induction false} InsertKeepsLowerBound(r: ChunkRow, sorted: seq<ChunkRow>, k: nat)
    requires AtLeast(sorted, k) && k <= r.chunkId
    ensures AtLeast(InsertByChunkId(r, sorted), k)
  {
    if sorted != [] && r.chunkId > sorted[0].chunkId {
      InsertKeepsLowerBound(r, sorted[1..], k);
    }
  }

  /** A row in front of a sorted sequence whose indices are not below its own leaves it sorted. */
  lemma ConsSorted(x: ChunkRow, tail: seq<ChunkRow>)
    requires SortedByChunkId(tail) && AtLeast(tail, x.chunkId)
    ensures SortedByChunkId([x] + tail)
  {
    var s := [x] + tail;
    forall i, j | 0 <= i < j < |s| ensures s[i].chunkId <= s[j].chunkId {
      assert s[j] == tail[j - 1];
      if i > 0 {
        assert s[i] == tail[i - 1];
      }
    }
  }

  lemma {:induction false} InsertByChunkIdSorted(r: ChunkRow, sorted: seq<ChunkRow>)
    requires SortedByChunkId(sorted)
    ensures SortedByChunkId(InsertByChunkId(r, sorted))
  {
    if sorted == [] {
    } else if r.chunkId <= sorted[0].chunkId {
      ConsSorted(r, sorted);
    } else {
      var rest := sorted[1..];
      InsertByChunkIdSorted(r, rest);
      assert AtLeast(rest, sorted[0].chunkId) by {
        forall i | 0 <= i < |rest| ensures sorted[0].chunkId <= rest[i].chunkId {
          assert rest[i] == sorted[i + 1];
        }
      }
      InsertKeepsLowerBound(r, rest, sorted[0].chunkId);
      ConsSorted(sorted[0], InsertByChunkId(r, rest));
    }
  }

  /**
   * `ORDER BY chunk_id`: a stable insertion sort. SQLite leaves the order of equal
   * keys open; the model fixes it to insertion order.
   */
  function OrderByChunkId(rows: seq<ChunkRow>): (s: seq<ChunkRow>)
    ensures multiset(s) == multiset(rows)
    ensures |s| == |rows|
    ensures SortedByChunkId(s)
  {
    if rows == [] then []
    else
      var tail := OrderByChunkId(rows[1..]);
      InsertByChunkIdPermutes(rows[0], tail);
      InsertByChunkIdSorted(rows[0], tail);
      assert rows == [rows[0]] + rows[1..];
      InsertByChunkId(rows[0], tail)
  }

  /**
   * Rows that survive a retention sweep: everything NOT matched by
   * `WHERE timestamp < cutoff`, in the original order.
   */
  function KeepSince<T(!new)>(rows: seq<T>, stamp: T -> int, cutoff: int): (r: seq<T>)
    ensures forall x :: x in r <==> x in rows && stamp(x) >= cutoff
    ensures |r| <= |rows|
  {
    if rows == [] then []
    else if stamp(rows[0]) >= cutoff then [rows[0]] + KeepSince(rows[1..], stamp, cutoff)
    else KeepSince(rows[1..], stamp, cutoff)
  }

  /** The rows a retention sweep selects for deletion (`SELECT … WHERE timestamp < cutoff`). */
  function ExpiredBefore<T(!new)>(rows: seq<T>, stamp: T -> int, cutoff: int): (r: seq<T>)
    ensures forall x :: x in r <==> x in rows && stamp(x) < cutoff
  {
    if rows == [] then []
    else if stamp(rows[0]) < cutoff then [rows[0]] + ExpiredBefore(rows[1..], stamp, cutoff)
    else ExpiredBefore(rows[1..], stamp, cutoff)
  }

  /** A sweep is idempotent: sweeping again at the same cutoff removes nothing more. */
  lemma {:induction false} KeepSinceIdempotent<T(!new)>(rows: seq<T>, stamp: T -> int, cutoff: int)
    ensures KeepSince(KeepSince(rows, stamp, cutoff), stamp, cutoff) == KeepSince(rows, stamp, cutoff)
  {
    if rows != [] {
      KeepSinceIdempotent(rows[1..], stamp, cutoff);
    }
  }

  /** A sweep splits the table: every row is either kept or selected for deletion, never both. */
  lemma {:induction false} SweepPartitions<T(!new)>(rows: seq<T>, stamp: T -> int, cutoff: int)
    ensures multiset(KeepSince(rows, stamp, cutoff)) + multiset(ExpiredBefore(rows, stamp, cutoff)) == multiset(rows)
  {
    if rows != [] {
      var rest := rows[1..];
      SweepPartitions(rest, stamp, cutoff);
      var kept, expired := KeepSince(rest, stamp, cutoff), ExpiredBefore(rest, stamp, cutoff);
      assert rows == [rows[0]] + rest;
      assert multiset(rows) == multiset{rows[0]} + multiset(kept) + multiset(expired);
      if stamp(rows[0]) >= cutoff {
        assert multiset(KeepSince(rows, stamp, cutoff)) == multiset{rows[0]} + multiset(kept);
        assert multiset(ExpiredBefore(rows, stamp, cutoff)) == multiset(expired);
      } else {
        assert multiset(KeepSince(rows, stamp, cutoff)) == multiset(kept);
        assert multiset(ExpiredBefore(rows, stamp, cutoff)) == multiset{rows[0]} + multiset(expired);
      }
    }
  }
}
