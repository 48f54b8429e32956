/**
 * The server's upload pipeline (index.js) as a state machine over its stores:
 * the chunk ledger `uploaded_chunks`, the pending chunk blobs under
 * `upload_dir/pending/`, the artifact table `uploaded_files`, the merged
 * artifacts under `upload_dir/`, and `audit_log`.
 *
 * Everything the routes get from outside is a parameter: the request fields, the
 * clock (seconds), the uploader address, SHA-256, the cipher, the identifier the
 * merge was given, the MIME lookups, and flags for each database or file-system
 * step that can fail.
 */
module Pipeline {
  import opened Wrappers
  import opened Bytes
  import opened Ledger
  import opened Quota
  import opened Assembly
  import Secrets
  import Framing
  import Filenames
  import Utf16
  import Headers
  import opened Numerals

  const ORPHAN_MAX_AGE_SECONDS: int := 24 * 60 * 60
  /** `quotaError.retryAfter || 3600`: a database failure carries no Retry-After of its own. */
  const DEFAULT_RETRY_AFTER: int := 3600
  // The error messages the server answers with.
  const DATABASE_ERROR: string := "Database error"
  const FILE_NOT_FOUND: string := "File not found"
  const COLLECTION_EXPIRED: string := "Collection has expired"
  const NO_CHUNKS: string := "No chunks found"
  const INTERNAL_ERROR: string := "Internal server error"
  const MISSING_CHUNKS: string := "Incomplete upload - missing chunks"
  const WRITE_ERROR: string := "File write error"
  const INTEGRITY_MISMATCH: string := "File integrity check failed - upload corrupted"
  const NO_FILENAME: string := "Failed to create filename"
  const ID_ERROR: string := "Error generating filename"
  const INTEGRITY_UNREADABLE: string := "Error verifying file integrity"
  const CHUNK_READ_ERROR: string := "Error reading chunk file"
  const INSERT_ERROR: string := "Error inserting file record"
  const EMPTY_BUFFER: string := "Empty file buffer"
  const DUPLICATE_ID: string := "Duplicate file ID - please retry upload"
  const QUERY_ERROR: string := "Database query error"
  const COLLECTION_NOT_FOUND: string := "Collection not found"
  const OCTET_STREAM: string := "application/octet-stream"

  datatype ServerConfig = ServerConfig(
    secret: string,
    quota: QuotaConfig,
    maxFileSizeBytes: Option<int>,
    blockedMimeTypes: seq<string>,
    fileRetentionDays: Option<int>,
    auditLogRetentionDays: Option<int>,
    collectionExpirationDays: Option<int>)

  /** One entry of a collection listing. */
  datatype Listed = Listed(fileName: string, sha: string, fileSize: nat, timestamp: int)

  /** What a route answers: the status code and the JSON fields of the body. */
  datatype Reply =
    | ChunkStored(fileName: string, chunk: nat)
    | Merged(fileName: string)
    | Listing(entries: seq<Listed>)
    | Served(sha: string, downloadName: Utf16.JsString, mimeType: string, inline: bool)
    | Failure(code: int, error: string)
    | RetryLater(code: int, error: string, retryAfter: int)
    | TooLarge(maxSize: int, actualSize: nat)
    | TypeNotAllowed(mimeType: string)
      /** An exception nothing catches: the process ends and the request gets no response. */
    | Crashed(error: string)

  /** The status code of a reply; 0 stands for no response at all. */
  function StatusOf(r: Reply): int
  {
    match r
    case ChunkStored(_, _) => 200
    case Merged(_) => 200
    case Listing(_) => 200
    case Served(_, _, _, _) => 200
    case Failure(code, _) => code
    case RetryLater(code, _, _) => code
    case TooLarge(_, _) => 413
    case TypeNotAllowed(_) => 403
    case Crashed(_) => 0
  }

  /**
   * What `safeRandomId()` or `hashId(...)` gave the merge: it threw, it resolved
   * to a falsy value, or it produced a name (the empty name is falsy as well).
   */
  datatype Allocation = AllocatorThrew | NoId | Id(name: string)

  /** Where the publishing transaction of the merge breaks, if anywhere. */
  datatype TxFault = NoFault | BeginFails | InsertFails | DeleteFails | CommitFails

  /**
   * The merge's collaborators: the chunk cipher, SHA-256 of the artifact, the
   * content sniffer (`None`: nothing detected, or detection threw), whether
   * reading the artifact back for the checksum throws, and the transaction fault.
   */
  datatype MergeOracles = MergeOracles(
    open: (Bytes, Bytes, Bytes) -> Option<Bytes>,
    digest: Bytes -> string,
    sniff: Bytes -> Option<string>,
    checksumReadFails: bool,
    fault: TxFault)

  /** A missing `request.ip` is concatenated as the text 'undefined'. */
  function AddressText(remote: Option<string>): string
  {
    if remote.Some? then remote.value else "undefined"
  }

  /** The pending blob name of a chunk: hex digest of index, secret, address and session, then '_' and the index. */
  function ChunkName(cfg: ServerConfig, uuid: string, chunkIndex: nat, remote: Option<string>, sha256: string -> string): string
  {
    sha256(Decimal(chunkIndex) + cfg.secret + AddressText(remote) + uuid) + "_" + Decimal(chunkIndex)
  }

  /** The name ends in '_' and the chunk index, so the names of one session's chunks differ from chunk to chunk. */
  lemma ChunkNamesDiffer(cfg: ServerConfig, uuid: string, i: nat, j: nat, remote: Option<string>, sha256: string -> string)
    requires i != j
    requires |sha256(Decimal(i) + cfg.secret + AddressText(remote) + uuid)| == 64
    requires |sha256(Decimal(j) + cfg.secret + AddressText(remote) + uuid)| == 64
    ensures ChunkName(cfg, uuid, i, remote, sha256) != ChunkName(cfg, uuid, j, remote, sha256)
  {
    DecimalInjective(i, j);
    var a, b := ChunkName(cfg, uuid, i, remote, sha256), ChunkName(cfg, uuid, j, remote, sha256);
    if |Decimal(i)| == |Decimal(j)| {
      assert a[65..] == Decimal(i) && b[65..] == Decimal(j);
    }
  }

  /** The uploader fingerprint stored with rows and audit entries. */
  function Fingerprint(cfg: ServerConfig, remote: Option<string>, sha256: string -> string): string
  {
    Secrets.HashIp(remote, cfg.secret, sha256)
  }

  /** `parseInt(chunkID) === 0`: only the first chunk of an upload is checked against the quotas. */
  function QuotaGate(cfg: ServerConfig, files: seq<FileRow>, chunkIndex: nat, fingerprint: string, now: int, queryFailed: bool)
    : (d: QuotaDecision)
    ensures chunkIndex != 0 ==> d == Admitted
    ensures chunkIndex == 0 ==> d == CheckUploadQuotas(cfg.quota, UsageOf(cfg.quota, files, fingerprint, now), queryFailed)
  {
    if chunkIndex == 0 then CheckUploadQuotas(cfg.quota, UsageOf(cfg.quota, files, fingerprint, now), queryFailed)
    else Admitted
  }

  /** The reply to a rejected quota check: its code and message, and Retry-After defaulting to an hour. */
  function QuotaReply(d: QuotaDecision): (r: Reply)
    requires d != Admitted
    ensures r.RetryLater? && r.code == d.code && r.error == d.message
    ensures r.retryAfter == (if d.Exceeded? && d.retryAfter != 0 then d.retryAfter else DEFAULT_RETRY_AFTER)
  {
    match d
    case Exceeded(_, code, message, retryAfter) =>
      RetryLater(code, message, if retryAfter != 0 then retryAfter else DEFAULT_RETRY_AFTER)
    case DatabaseFailure(code, message) => RetryLater(code, message, DEFAULT_RETRY_AFTER)
  }

  /** `config.max_file_size_bytes && config.max_file_size_bytes > 0` and the artifact is larger. */
  predicate Oversize(cfg: ServerConfig, fileSize: nat)
  {
    Enabled(cfg.maxFileSizeBytes) && fileSize > cfg.maxFileSizeBytes.value
  }

  /** A client checksum was sent, and reading the artifact back to digest it throws. */
  predicate ChecksumUnreadable(checksum: Option<string>, o: MergeOracles)
  {
    checksum.Some? && checksum.value != [] && o.checksumReadFails
  }

  /** A client checksum was sent and the artifact's digest differs from it. */
  predicate ChecksumMismatch(checksum: Option<string>, digest: Bytes -> string, written: Bytes)
  {
    checksum.Some? && checksum.value != [] && digest(written) != checksum.value
  }

  /** The sniffed type of the artifact, when one was detected and is on the block list. */
  predicate Blocked(cfg: ServerConfig, sniffed: Option<string>)
  {
    sniffed.Some? && sniffed.value in cfg.blockedMimeTypes
  }

  /** Adding an artifact whose identifier is not yet used keeps identifiers unique. */
  lemma AppendKeepsShasUnique(files: seq<FileRow>, row: FileRow)
    requires UniqueShas(files) && row.sha !in Shas(files)
    ensures UniqueShas(files + [row])
  {
    var t := files + [row];
    forall i, j | 0 <= i < j < |t| ensures t[i].sha != t[j].sha {
      if j == |files| {
        assert t[i] in files;
      }
    }
  }

  /** A retention sweep keeps identifiers unique: it keeps a subsequence of the table. */
  lemma {:induction false} KeepSinceKeepsShasUnique(files: seq<FileRow>, cutoff: int)
    requires UniqueShas(files)
    ensures UniqueShas(KeepSince(files, (r: FileRow) => r.timestamp, cutoff))
  {
    if files != [] {
      var stamp := (r: FileRow) => r.timestamp;
      var tail := KeepSince(files[1..], stamp, cutoff);
      assert UniqueShas(files[1..]) by {
        forall i, j | 0 <= i < j < |files[1..]| ensures files[1..][i].sha != files[1..][j].sha {
          assert files[1..][i] == files[i + 1] && files[1..][j] == files[j + 1];
        }
      }
      KeepSinceKeepsShasUnique(files[1..], cutoff);
      if stamp(files[0]) >= cutoff {
        assert files[0].sha !in Shas(tail) by {
          forall x | x in tail ensures x.sha != files[0].sha {
            var j :| 0 <= j < |files[1..]| && files[1..][j] == x;
            assert files[j + 1] == x;
          }
        }
        var t := [files[0]] + tail;
        forall i, j | 0 <= i < j < |t| ensures t[i].sha != t[j].sha {
          if i == 0 {
            assert t[j] in tail;
          } else {
            assert t[i] == tail[i - 1] && t[j] == tail[j - 1];
          }
        }
      }
    }
  }

  /** The files of a collection, in `fid` order. */
  function CollectionRows(files: seq<FileRow>, collectionId: string): (r: seq<FileRow>)
    ensures forall x :: x in r <==> x in files && x.collectionId == Some(collectionId)
    ensures forall x :: multiset(r)[x] == if x.collectionId == Some(collectionId) then multiset(files)[x] else 0
    ensures IsSubsequence(r, files)
  {
    if files == [] then []
    else
      var rest := CollectionRows(files[1..], collectionId);
      MultisetOfCons(files[0], files[1..]);
      assert files == [files[0]] + files[1..];
      if files[0].collectionId == Some(collectionId) then
        MultisetOfCons(files[0], rest);
        SubsequenceKeep(files[0], rest, files[1..]);
        [files[0]] + rest
      else
        SubsequenceDrop(files[0], rest, files[1..]);
        rest
  }

  /** `Math.min` of the timestamps. */
  function OldestTimestamp(rows: seq<FileRow>): (t: int)
    requires rows != []
    ensures exists r :: r in rows && r.timestamp == t
    ensures forall r :: r in rows ==> t <= r.timestamp
  {
    if |rows| == 1 then rows[0].timestamp
    else
      var rest := OldestTimestamp(rows[1..]);
      assert forall r :: r in rows[1..] ==> r in rows;
      if rows[0].timestamp <= rest then rows[0].timestamp else rest
  }

  function ListedOf(rows: seq<FileRow>): (l: seq<Listed>)
    ensures |l| == |rows|
    ensures forall i :: 0 <= i < |rows| ==> l[i] == Listed(rows[i].fileName, rows[i].sha, rows[i].fileSize, rows[i].timestamp)
  {
    if rows == [] then [] else [Listed(rows[0].fileName, rows[0].sha, rows[0].fileSize, rows[0].timestamp)] + ListedOf(rows[1..])
  }

  /**
   * `GET /c/:collectionID` (index.js:1357-1394): 500 on a query error, 404 for
   * no files, 410 once the oldest file is more than the configured number of
   * days old, otherwise the listing.
   */
  function CollectionLookup(cfg: ServerConfig, files: seq<FileRow>, collectionId: string, now: int, queryFails: bool): (r: Reply)
    ensures queryFails ==> r == Failure(500, DATABASE_ERROR)
    ensures !queryFails && CollectionRows(files, collectionId) == [] ==> r == Failure(404, COLLECTION_NOT_FOUND)
    ensures !queryFails && CollectionRows(files, collectionId) != [] ==>
      (r == Failure(410, COLLECTION_EXPIRED) <==>
        Enabled(cfg.collectionExpirationDays)
        && (exists x :: x in files && x.collectionId == Some(collectionId)
             && now - x.timestamp > cfg.collectionExpirationDays.value * DAY_SECONDS))
    ensures !queryFails && CollectionRows(files, collectionId) != [] && r != Failure(410, COLLECTION_EXPIRED) ==>
      r == Listing(ListedOf(CollectionRows(files, collectionId)))
    ensures r.Listing? ==> (|r.entries| == |CollectionRows(files, collectionId)|
      && forall i :: 0 <= i < |r.entries| ==> r.entries[i].sha == CollectionRows(files, collectionId)[i].sha)
  {
    if queryFails then Failure(500, DATABASE_ERROR)
    else
      var rows := CollectionRows(files, collectionId);
      if rows == [] then Failure(404, COLLECTION_NOT_FOUND)
      else if Enabled(cfg.collectionExpirationDays)
        && now - OldestTimestamp(rows) > cfg.collectionExpirationDays.value * DAY_SECONDS
      then Failure(410, COLLECTION_EXPIRED)
      else Listing(ListedOf(rows))
  }

  /** The first row with this identifier (there is at most one). */
  function FindSha(files: seq<FileRow>, sha: string): (r: Option<FileRow>)
    ensures r.None? <==> sha !in Shas(files)
    ensures r.Some? ==> r.value in files && r.value.sha == sha
  {
    if files == [] then None
    else if files[0].sha == sha then Some(files[0])
    else
      var r := FindSha(files[1..], sha);
      assert Shas(files) == {files[0].sha} + Shas(files[1..]) by {
        assert files == [files[0]] + files[1..];
      }
      r
  }

  const URI_MALFORMED: string := "URIError: URI malformed"
  const INVALID_HEADER_CHAR: string := "TypeError [ERR_INVALID_CHAR]: Invalid character in header content [\"Content-Disposition\"]"

  /** The name a download carries: the stored original name, sanitised as at upload. */
  function DownloadName(fileName: string): Utf16.JsString
  {
    Filenames.SanitizedName(Some(Utf16.Units(fileName)))
  }

  /**
   * The download of artifact row `r` under `key`: the sanitised stored name is
   * served, inline for images, and audited. When the sanitised name holds a lone
   * surrogate, `encodeURIComponent` throws and the process crashes before
   * anything is sent or audited. An image is sent with the sanitised name
   * quoted, as it is, in its Content-Disposition value, whose other parts are
   * ASCII; when Node refuses that value the process crashes after the audit
   * entry was queued, so the entry may or may not be stored.
   */
  ghost predicate DownloadsRow(r: FileRow, key: string, now: int, cfg: ServerConfig, remote: Option<string>,
                               sha256: string -> string, mimeOf: string -> Option<string>,
                               before: seq<AuditRow>, after: seq<AuditRow>, reply: Reply)
  {
    var safe := DownloadName(r.fileName);
    var mimeType := GetOr(mimeOf(r.fileName), OCTET_STREAM);
    var entry := AuditRow(now, "DOWNLOAD", Fingerprint(cfg, remote, sha256), key, "SUCCESS");
    if !Utf16.WellFormed(safe) then
      reply == Crashed(URI_MALFORMED) && after == before
    else if MainType(mimeType) == "image" && !Headers.HeaderSafe(safe) then
      reply == Crashed(INVALID_HEADER_CHAR) && (after == before || after == before + [entry])
    else
      reply.Served? && reply.sha == key && reply.downloadName == safe
      && reply.mimeType == mimeType
      && (reply.inline <==> MainType(reply.mimeType) == "image")
      && after == before + [entry]
  }

  /** The reply and log of a download whose sanitised name `encodeURIComponent` refuses. */
  lemma UriCrashDownloadsRow(r: FileRow, key: string, now: int, cfg: ServerConfig, remote: Option<string>,
                             sha256: string -> string, mimeOf: string -> Option<string>, before: seq<AuditRow>)
    requires !Utf16.WellFormed(DownloadName(r.fileName))
    ensures DownloadsRow(r, key, now, cfg, remote, sha256, mimeOf, before, before, Crashed(URI_MALFORMED))
  {
  }

  /** The reply and log entry of a download that neither encoding nor the header check stops. */
  lemma ServedDownloadsRow(r: FileRow, key: string, now: int, cfg: ServerConfig, remote: Option<string>,
                           sha256: string -> string, mimeOf: string -> Option<string>,
                           before: seq<AuditRow>, entry: AuditRow, inline: bool)
    requires Utf16.WellFormed(DownloadName(r.fileName))
    requires entry == AuditRow(now, "DOWNLOAD", Fingerprint(cfg, remote, sha256), key, "SUCCESS")
    requires inline <==> MainType(GetOr(mimeOf(r.fileName), OCTET_STREAM)) == "image"
    requires inline ==> Headers.HeaderSafe(DownloadName(r.fileName))
    ensures DownloadsRow(r, key, now, cfg, remote, sha256, mimeOf, before, before + [entry],
                         Served(key, DownloadName(r.fileName),
                                GetOr(mimeOf(r.fileName), OCTET_STREAM), inline))
  {
  }

  /**
   * An image whose sanitised name encodes is refused exactly when some code unit
   * of that name is above 0xFF: every name outside Latin-1 crashes the server.
   */
  lemma ImageDownloadCrashesBeyondLatin1(r: FileRow, key: string, now: int, cfg: ServerConfig, remote: Option<string>,
                                         sha256: string -> string, mimeOf: string -> Option<string>,
                                         before: seq<AuditRow>, after: seq<AuditRow>, reply: Reply)
    requires DownloadsRow(r, key, now, cfg, remote, sha256, mimeOf, before, after, reply)
    requires Utf16.WellFormed(DownloadName(r.fileName))
    requires MainType(GetOr(mimeOf(r.fileName), OCTET_STREAM)) == "image"
    ensures var safe := DownloadName(r.fileName);
      reply == Crashed(INVALID_HEADER_CHAR) <==> exists i :: 0 <= i < |safe| && safe[i] > 0xFF
  {
    Headers.SanitizedHeaderSafeIff(Some(Utf16.Units(r.fileName)));
  }

  /** A stored image named with the single character U+4E2D crashes the download. */
  lemma HanImageNameCrashesDownload(r: FileRow, key: string, now: int, cfg: ServerConfig, remote: Option<string>,
                                    sha256: string -> string, mimeOf: string -> Option<string>,
                                    before: seq<AuditRow>, after: seq<AuditRow>, reply: Reply)
    requires r.fileName == HAN_NAME && mimeOf(r.fileName) == Some("image/png")
    requires DownloadsRow(r, key, now, cfg, remote, sha256, mimeOf, before, after, reply)
    ensures reply == Crashed(INVALID_HEADER_CHAR)
  {
    HanNameSanitized();
    PngIsImage();
  }

  const HAN_NAME: string := "\U{4E2D}"

  lemma HanNameSanitized()
    ensures var safe := Filenames.SanitizedName(Some(Utf16.Units(HAN_NAME)));
      safe == [0x4E2D] && Utf16.WellFormed(safe) && !Headers.HeaderSafe(safe)
  {
    var name := Utf16.Units(HAN_NAME);
    assert name == [0x4E2D] by {
      assert HAN_NAME[1..] == [];
    }
    assert Filenames.IsSafeChar(name[0]) && name[0] != Filenames.DOT;
    Filenames.CleanedKeepsPlainNames(name);
    Filenames.SanitizedNameShortUnchanged(name);
    Utf16.NoSurrogatesWellFormed(name);
    assert !Headers.HeaderUnit(name[0]);
  }

  lemma PngIsImage()
    ensures MainType("image/png") == "image"
  {
    var m := "image/png";
    assert m[0] == 'i' && m[1..] == "mage/png";
    assert MainType(m[1..]) == "mage" by {
      var n := m[1..];
      assert n[1..] == "age/png" && n[1..][1..] == "ge/png" && n[1..][1..][1..] == "e/png" && n[1..][1..][1..][1..] == "/png";
      assert MainType("/png") == [];
    }
  }

  /** The reply and log of an image download that Node's header check refuses. */
  lemma HeaderCrashDownloadsRow(r: FileRow, key: string, now: int, cfg: ServerConfig, remote: Option<string>,
                                sha256: string -> string, mimeOf: string -> Option<string>,
                                before: seq<AuditRow>, entry: AuditRow)
    requires Utf16.WellFormed(DownloadName(r.fileName))
    requires entry == AuditRow(now, "DOWNLOAD", Fingerprint(cfg, remote, sha256), key, "SUCCESS")
    requires MainType(GetOr(mimeOf(r.fileName), OCTET_STREAM)) == "image"
    requires !Headers.HeaderSafe(DownloadName(r.fileName))
    ensures DownloadsRow(r, key, now, cfg, remote, sha256, mimeOf, before, before + [entry], Crashed(INVALID_HEADER_CHAR))
  {
  }

  /** `mimeType.split('/')[0]`: the text before the first '/'. */
  function MainType(mimeType: string): (t: string)
    ensures |t| <= |mimeType| && t == mimeType[..|t|] && '/' !in t
    ensures |t| < |mimeType| ==> mimeType[|t|] == '/'
  {
    if mimeType == [] || mimeType[0] == '/' then [] else [mimeType[0]] + MainType(mimeType[1..])
  }

  /** A snapshot of the five stores. */
  datatype Stores = Stores(
    chunks: seq<ChunkRow>,
    pending: map<string, Bytes>,
    files: seq<FileRow>,
    blobs: map<string, Bytes>,
    audit: seq<AuditRow>)

  /** A rejected merge's clean-up: the artifact, the chunk blobs read and the session's ledger rows are deleted. */
  function Discarded(st: Stores, uuid: string, name: string, gone: set<string>): (after: Stores)
    ensures forall r :: r in after.chunks <==> r in st.chunks && r.uuid != uuid
    ensures name !in after.blobs && forall n :: n in gone ==> n !in after.pending
    ensures after.files == st.files && after.audit == st.audit
  {
    st.(chunks := RowsNotOf(st.chunks, uuid), pending := st.pending - gone, blobs := st.blobs - {name})
  }

  /**
   * The merge from the written artifact on (index.js:1153-1349): the size limit,
   * the checksum, the content type, then the transaction that inserts the
   * artifact row and deletes the session's rows; the chunk blobs go only after
   * the commit. `before` already holds the artifact under `name`.
   */
  predicate Concludes(cfg: ServerConfig, uuid: string, originalName: string, collectionId: Option<string>,
                      checksum: Option<string>, fingerprint: string, now: int, name: string,
                      written: Bytes, gone: set<string>, o: MergeOracles, before: Stores, after: Stores, reply: Reply)
  {
    if PolicyRejects(cfg, checksum, o, written) then RejectsAtGate(cfg, uuid, checksum, fingerprint, now, name, written, gone, o, before, after, reply)
    else Publishes(uuid, originalName, collectionId, fingerprint, now, name, written, gone, o, before, after, reply)
  }

  /** One of the three policy gates stops the merge, or reading the artifact back for its checksum fails. */
  predicate PolicyRejects(cfg: ServerConfig, checksum: Option<string>, o: MergeOracles, written: Bytes)
  {
    Oversize(cfg, |written|) || ChecksumUnreadable(checksum, o) || ChecksumMismatch(checksum, o.digest, written)
    || Blocked(cfg, o.sniff(written))
  }

  /** The gates in the order the route applies them (index.js:1153-1279). */
  predicate RejectsAtGate(cfg: ServerConfig, uuid: string, checksum: Option<string>, fingerprint: string, now: int, name: string,
                          written: Bytes, gone: set<string>, o: MergeOracles, before: Stores, after: Stores, reply: Reply)
  {
    if Oversize(cfg, |written|) then
      reply == TooLarge(cfg.maxFileSizeBytes.value, |written|) && after == Discarded(before, uuid, name, gone)
    else if ChecksumUnreadable(checksum, o) then
      reply == Failure(500, INTEGRITY_UNREADABLE) && after == before
    else if ChecksumMismatch(checksum, o.digest, written) then
      reply == Failure(422, INTEGRITY_MISMATCH) && after == Discarded(before, uuid, name, gone)
    else
      Blocked(cfg, o.sniff(written)) && reply == TypeNotAllowed(o.sniff(written).value)
      && after == Discarded(before, uuid, name, gone).(audit := before.audit + [AuditRow(now, "UPLOAD_BLOCKED", fingerprint, uuid, "BLOCKED")])
  }

  /**
   * The transaction (index.js:1282-1348): SQLITE_CONSTRAINT on the unique
   * identifier is 409; every failure rolls back and keeps the session; only a
   * commit deletes the chunk blobs.
   */
  predicate Publishes(uuid: string, originalName: string, collectionId: Option<string>, fingerprint: string, now: int, name: string,
                      written: Bytes, gone: set<string>, o: MergeOracles, before: Stores, after: Stores, reply: Reply)
  {
    if o.fault == BeginFails then
      reply == Failure(500, DATABASE_ERROR) && after == before
    else if name in Shas(before.files) then
      reply == Failure(409, DUPLICATE_ID) && after == before
    else if o.fault == InsertFails then
      reply == Failure(500, INSERT_ERROR) && after == before
    else if o.fault != NoFault then
      reply == Failure(500, DATABASE_ERROR) && after == before
    else
      reply == Merged(name)
      && after == Stores(
        RowsNotOf(before.chunks, uuid),
        before.pending - gone,
        before.files + [FileRow(originalName, name, now, collectionId, |written|, fingerprint)],
        before.blobs,
        before.audit + [AuditRow(now, "UPLOAD_SUCCESS", fingerprint, name, "SUCCESS")])
  }

  /**
   * The merge from the chunk loop on (index.js:1118-1349): the artifact holds
   * what was read, up to the first unreadable chunk, which ends the merge with
   * 500; a complete artifact goes through `Concludes`.
   */
  predicate MergesSession(cfg: ServerConfig, uuid: string, originalName: string, collectionId: Option<string>,
                          checksum: Option<string>, fingerprint: string, now: int, name: string,
                          rows: seq<ChunkRow>, o: MergeOracles, before: Stores, after: Stores, reply: Reply)
  {
    var a := Assemble(rows, before.pending, o.open);
    var written := before.(blobs := before.blobs[name := a.written]);
    if !a.complete then reply == Failure(500, CHUNK_READ_ERROR) && after == written
    else Concludes(cfg, uuid, originalName, collectionId, checksum, fingerprint, now, name, a.written,
                   (set n | n in a.names), o, written, after, reply)
  }

  /** A merge that publishes adds exactly one artifact row, under an identifier that was free. */
  lemma PublishAddsOneFreshArtifact(cfg: ServerConfig, uuid: string, originalName: string, collectionId: Option<string>,
                                    checksum: Option<string>, fingerprint: string, now: int, name: string,
                                    written: Bytes, gone: set<string>, o: MergeOracles, before: Stores, after: Stores, reply: Reply)
    requires Concludes(cfg, uuid, originalName, collectionId, checksum, fingerprint, now, name, written, gone, o, before, after, reply)
    ensures reply.Merged? ==> (name !in Shas(before.files) && |after.files| == |before.files| + 1
      && after.files[|before.files|].sha == name && after.files[|before.files|].fileSize == |written|
      && forall r :: r in after.chunks ==> r.uuid != uuid)
    ensures !reply.Merged? ==> after.files == before.files
    ensures StatusOf(reply) == 200 <==> reply.Merged?
  {
    if PolicyRejects(cfg, checksum, o, written) {
      GateOutcome(cfg, uuid, checksum, fingerprint, now, name, written, gone, o, before, after, reply);
    } else {
      PublishOutcome(uuid, originalName, collectionId, fingerprint, now, name, written, gone, o, before, after, reply);
    }
  }

  /** Every policy rejection (413, 422, 403) leaves neither the artifact nor a row of the session. */
  lemma PolicyRejectionCleansUp(cfg: ServerConfig, uuid: string, originalName: string, collectionId: Option<string>,
                                checksum: Option<string>, fingerprint: string, now: int, name: string,
                                written: Bytes, gone: set<string>, o: MergeOracles, before: Stores, after: Stores, reply: Reply)
    requires Concludes(cfg, uuid, originalName, collectionId, checksum, fingerprint, now, name, written, gone, o, before, after, reply)
    ensures StatusOf(reply) in {413, 422, 403} ==>
      name !in after.blobs && (forall r :: r in after.chunks ==> r.uuid != uuid) && after.files == before.files
    ensures StatusOf(reply) == 409 ==> after == before
  {
    if PolicyRejects(cfg, checksum, o, written) {
      GateOutcome(cfg, uuid, checksum, fingerprint, now, name, written, gone, o, before, after, reply);
    } else {
      PublishOutcome(uuid, originalName, collectionId, fingerprint, now, name, written, gone, o, before, after, reply);
    }
  }

  /** A gate answers 413, 422 or 403 after discarding the artifact and the session, or 500 changing nothing. */
  lemma GateOutcome(cfg: ServerConfig, uuid: string, checksum: Option<string>, fingerprint: string, now: int, name: string,
                    written: Bytes, gone: set<string>, o: MergeOracles, before: Stores, after: Stores, reply: Reply)
    requires RejectsAtGate(cfg, uuid, checksum, fingerprint, now, name, written, gone, o, before, after, reply)
    ensures StatusOf(reply) in {500, 413, 422, 403} && !reply.Merged? && after.files == before.files
    ensures StatusOf(reply) == 500 ==> after == before
    ensures StatusOf(reply) != 500 ==> name !in after.blobs && forall r :: r in after.chunks ==> r.uuid != uuid
  {
    var d := Discarded(before, uuid, name, gone);
    if Oversize(cfg, |written|) {
      assert after == d && StatusOf(reply) == 413;
    } else if ChecksumUnreadable(checksum, o) {
      assert after == before && StatusOf(reply) == 500;
    } else if ChecksumMismatch(checksum, o.digest, written) {
      assert after == d && StatusOf(reply) == 422;
    } else {
      assert after.chunks == d.chunks && after.blobs == d.blobs && after.files == d.files;
      assert StatusOf(reply) == 403;
    }
  }

  /** The transaction answers 200 with one new artifact row and the session gone, or 409 or 500 changing nothing. */
  lemma PublishOutcome(uuid: string, originalName: string, collectionId: Option<string>, fingerprint: string, now: int, name: string,
                       written: Bytes, gone: set<string>, o: MergeOracles, before: Stores, after: Stores, reply: Reply)
    requires Publishes(uuid, originalName, collectionId, fingerprint, now, name, written, gone, o, before, after, reply)
    ensures StatusOf(reply) in {500, 409, 200}
    ensures StatusOf(reply) == 200 <==> reply.Merged?
    ensures !reply.Merged? ==> after == before
    ensures reply.Merged? ==>
      (name !in Shas(before.files) &&
       after.files == before.files + [FileRow(originalName, name, now, collectionId, |written|, fingerprint)] &&
       forall r :: r in after.chunks ==> r.uuid != uuid)
  {
  }

  /** The artifact and ledger stores of the server. */
  class Server {
    var chunks: seq<ChunkRow>
    var pending: map<string, Bytes>
    var files: seq<FileRow>
    var blobs: map<string, Bytes>
    var audit: seq<AuditRow>

    ghost predicate Valid()
      reads this`files
    {
      UniqueShas(files)
    }

    constructor()
      ensures Valid()
      ensures chunks == [] && pending == map[] && files == [] && blobs == map[] && audit == []
    {
      chunks, pending, files, blobs, audit := [], map[], [], map[], [];
    }

    /**
     * `POST /upload/` (index.js:915-990). An empty body is refused; chunk 0 alone
     * runs the quota check; then the ledger row is inserted, and after it the
     * encrypted blob is written.
     */
    method UploadChunk(cfg: ServerConfig, uuid: string, chunkIndex: nat, body: Bytes, remote: Option<string>, now: int,
                       sha256: string -> string, iv: Bytes, seal: (Bytes, Bytes) -> Framing.Sealed,
                       quotaQueryFails: bool, insertFails: bool, writeFails: bool)
      returns (reply: Reply)
      requires Valid()
      modifies this
      ensures Valid()
      ensures files == old(files) && blobs == old(blobs)
      ensures body == [] ==>
        reply == Failure(400, EMPTY_BUFFER)
        && chunks == old(chunks) && pending == old(pending) && audit == old(audit)
      ensures body != [] ==>
        var fp := Fingerprint(cfg, remote, sha256);
        var d := QuotaGate(cfg, old(files), chunkIndex, fp, now, quotaQueryFails);
        var name := ChunkName(cfg, uuid, chunkIndex, remote, sha256);
        (d != Admitted ==>
          reply == QuotaReply(d) && chunks == old(chunks) && pending == old(pending)
          && audit == old(audit) + [AuditRow(now, "UPLOAD_QUOTA_EXCEEDED", fp, uuid, "FAILURE")])
        && (d == Admitted && insertFails ==>
          reply == Failure(500, DATABASE_ERROR) && chunks == old(chunks) && pending == old(pending) && audit == old(audit))
        && (d == Admitted && !insertFails ==>
          chunks == old(chunks) + [ChunkRow(uuid, name, chunkIndex, now)] && audit == old(audit)
          && (writeFails ==> reply == Failure(500, WRITE_ERROR) && pending == old(pending))
          && (!writeFails ==>
                reply == ChunkStored(name, chunkIndex) && pending == old(pending)[name := Framing.EncryptChunk(body, iv, seal)]))
    {
      if |body| <= 0 {
        return Failure(400, EMPTY_BUFFER);
      }
      var fp := Fingerprint(cfg, remote, sha256);
      if chunkIndex == 0 {
        var d := CheckUploadQuotas(cfg.quota, UsageOf(cfg.quota, files, fp, now), quotaQueryFails);
        if d != Admitted {
          audit := audit + [AuditRow(now, "UPLOAD_QUOTA_EXCEEDED", fp, uuid, "FAILURE")];
          return QuotaReply(d);
        }
      }
      var fileName := ChunkName(cfg, uuid, chunkIndex, remote, sha256);
      if insertFails {
        return Failure(500, DATABASE_ERROR);
      }
      chunks := chunks + [ChunkRow(uuid, fileName, chunkIndex, now)];
      var encryptedChunk := Framing.EncryptChunk(body, iv, seal);
      if writeFails {
        return Failure(500, WRITE_ERROR);
      }
      pending := pending[fileName := encryptedChunk];
      reply := ChunkStored(fileName, chunkIndex);
    }

    function State(): Stores
      reads this
    {
      Stores(chunks, pending, files, blobs, audit)
    }

    /**
     * `POST /merge/` (index.js:1065-1150, then `Concludes`). `id` is what the
     * allocator did: threw, returned a falsy value (`NoId`, or the empty
     * string), or produced a name. The output file is created before the chunk
     * query, so the lookup failures leave it behind, empty, and a chunk that
     * cannot be read leaves what had been written to it.
     */
    method Merge(cfg: ServerConfig, uuid: string, expectedCount: nat, originalName: string, collectionId: Option<string>,
                 checksum: Option<string>, remote: Option<string>, now: int, sha256: string -> string,
                 id: Allocation, queryFails: bool, o: MergeOracles)
      returns (reply: Reply)
      requires Valid()
      modifies this
      ensures Valid()
      ensures id.AllocatorThrew? ==> reply == Failure(500, ID_ERROR) && State() == old(State())
      ensures id.NoId? || (id.Id? && id.name == []) ==> reply == Failure(500, NO_FILENAME) && State() == old(State())
      ensures id.Id? && id.name != [] ==>
        var name := id.name;
        var rows := SessionRows(old(chunks), uuid);
        var created := old(State()).(blobs := old(blobs)[name := []]);
        (queryFails ==> reply == Failure(500, QUERY_ERROR) && State() == created)
        && (!queryFails && rows == [] ==> reply == Failure(404, NO_CHUNKS) && State() == created)
        && (!queryFails && rows != [] && !CountCheckPasses(rows, expectedCount) ==>
              reply == Failure(400, MISSING_CHUNKS) && State() == created)
      ensures id.Id? && id.name != [] && !queryFails ==>
        var rows := SessionRows(old(chunks), uuid);
        rows != [] && CountCheckPasses(rows, expectedCount) ==>
          MergesSession(cfg, uuid, originalName, collectionId, checksum, Fingerprint(cfg, remote, sha256), now, id.name,
                        rows, o, old(State()), State(), reply)
    {
      if id.AllocatorThrew? {
        return Failure(500, ID_ERROR);
      }
      if id.NoId? || id.name == [] {
        return Failure(500, NO_FILENAME);
      }
      var fileName := id.name;
      blobs := blobs[fileName := []];
      if queryFails {
        return Failure(500, QUERY_ERROR);
      }
      var rows := SessionRows(chunks, uuid);
      if |rows| == 0 {
        return Failure(404, NO_CHUNKS);
      }
      if expectedCount > 0 && |rows| != expectedCount {
        return Failure(400, MISSING_CHUNKS);
      }
      reply := AssembleAndConclude(cfg, uuid, originalName, collectionId, checksum, Fingerprint(cfg, remote, sha256), now,
                                   fileName, rows, o, old(State()));
    }

    /** The merge loop over the session's rows, then the gates and the transaction. */
    method AssembleAndConclude(cfg: ServerConfig, uuid: string, originalName: string, collectionId: Option<string>,
                               checksum: Option<string>, fingerprint: string, now: int, fileName: string,
                               rows: seq<ChunkRow>, o: MergeOracles, ghost entry: Stores)
      returns (reply: Reply)
      requires Valid()
      requires State() == entry.(blobs := entry.blobs[fileName := []])
      modifies this
      ensures Valid()
      ensures MergesSession(cfg, uuid, originalName, collectionId, checksum, fingerprint, now, fileName, rows, o,
                            entry, State(), reply)
    {
      var written, fileSize, fileList, ok := ReadChunks(rows, pending, o.open);
      blobs := blobs[fileName := written];
      assert blobs == entry.blobs[fileName := written];
      if !ok {
        return Failure(500, CHUNK_READ_ERROR);
      }
      reply := Conclude(cfg, uuid, originalName, collectionId, checksum, fingerprint, now, fileName,
                        written, fileSize, fileList, o);
    }

    /** The policy gates and the publishing transaction of the merge. */
    method Conclude(cfg: ServerConfig, uuid: string, originalName: string, collectionId: Option<string>,
                    checksum: Option<string>, fingerprint: string, now: int, fileName: string,
                    written: Bytes, fileSize: nat, fileList: seq<string>, o: MergeOracles)
      returns (reply: Reply)
      requires Valid() && fileSize == |written|
      modifies this
      ensures Valid()
      ensures Concludes(cfg, uuid, originalName, collectionId, checksum, fingerprint, now, fileName,
                        written, (set n | n in fileList), o, old(State()), State(), reply)
    {
      var gone := set n | n in fileList;
      var rejected := ApplyGates(cfg, uuid, checksum, fingerprint, now, fileName, written, fileSize, gone, o);
      if rejected.Some? {
        return rejected.value;
      }
      reply := Publish(uuid, originalName, collectionId, fingerprint, now, fileName, written, fileSize, gone, o);
    }

    /** The size, checksum and content-type gates; `None` lets the merge go on, unchanged. */
    method ApplyGates(cfg: ServerConfig, uuid: string, checksum: Option<string>, fingerprint: string, now: int, fileName: string,
                      written: Bytes, fileSize: nat, gone: set<string>, o: MergeOracles)
      returns (rejected: Option<Reply>)
      requires Valid() && fileSize == |written|
      modifies this
      ensures Valid()
      ensures rejected.Some? <==> PolicyRejects(cfg, checksum, o, written)
      ensures rejected.Some? ==> RejectsAtGate(cfg, uuid, checksum, fingerprint, now, fileName, written, gone, o, old(State()), State(), rejected.value)
      ensures rejected.None? ==> State() == old(State())
    {
      if Enabled(cfg.maxFileSizeBytes) && fileSize > cfg.maxFileSizeBytes.value {
        blobs := blobs - {fileName};
        pending := pending - gone;
        chunks := RowsNotOf(chunks, uuid);
        return Some(TooLarge(cfg.maxFileSizeBytes.value, fileSize));
      }
      if checksum.Some? && checksum.value != [] {
        if o.checksumReadFails {
          return Some(Failure(500, INTEGRITY_UNREADABLE));
        }
        var serverChecksum := o.digest(written);
        if serverChecksum != checksum.value {
          blobs := blobs - {fileName};
          pending := pending - gone;
          chunks := RowsNotOf(chunks, uuid);
          return Some(Failure(422, INTEGRITY_MISMATCH));
        }
      }
      var detectedType := o.sniff(written);
      if detectedType.Some? && detectedType.value in cfg.blockedMimeTypes {
        audit := audit + [AuditRow(now, "UPLOAD_BLOCKED", fingerprint, uuid, "BLOCKED")];
        blobs := blobs - {fileName};
        pending := pending - gone;
        chunks := RowsNotOf(chunks, uuid);
        return Some(TypeNotAllowed(detectedType.value));
      }
      rejected := None;
    }

    /** The transaction that inserts the artifact row and deletes the session's rows. */
    method Publish(uuid: string, originalName: string, collectionId: Option<string>, fingerprint: string, now: int, fileName: string,
                   written: Bytes, fileSize: nat, gone: set<string>, o: MergeOracles)
      returns (reply: Reply)
      requires Valid() && fileSize == |written|
      modifies this
      ensures Valid()
      ensures Publishes(uuid, originalName, collectionId, fingerprint, now, fileName, written, gone, o, old(State()), State(), reply)
    {
      if o.fault == BeginFails {
        return Failure(500, DATABASE_ERROR);
      }
      if fileName in Shas(files) {
        return Failure(409, DUPLICATE_ID);
      }
      if o.fault == InsertFails {
        return Failure(500, INSERT_ERROR);
      }
      if o.fault == DeleteFails || o.fault == CommitFails {
        return Failure(500, DATABASE_ERROR);
      }
      var row := FileRow(originalName, fileName, now, collectionId, fileSize, fingerprint);
      AppendKeepsShasUnique(files, row);
      ghost var before := State();
      files := files + [row];
      chunks := RowsNotOf(chunks, uuid);
      pending := pending - gone;
      audit := audit + [AuditRow(now, "UPLOAD_SUCCESS", fingerprint, fileName, "SUCCESS")];
      reply := Merged(fileName);
      assert State() == Stores(RowsNotOf(before.chunks, uuid), before.pending - gone, before.files + [row],
                               before.blobs, before.audit + [AuditRow(now, "UPLOAD_SUCCESS", fingerprint, fileName, "SUCCESS")]);
    }

    /**
     * `cleanupOrphanedChunks` (index.js:409-458): the blobs of chunk rows older
     * than 24 hours are unlinked, then those rows are deleted. The unlinks do not
     * wait on the DELETE, so a failed DELETE still loses the blobs.
     */
    method SweepOrphanChunks(now: int, selectFails: bool, deleteFails: bool)
      requires Valid()
      modifies this
      ensures Valid()
      ensures files == old(files) && blobs == old(blobs) && audit == old(audit)
      ensures var cutoff := now - ORPHAN_MAX_AGE_SECONDS;
        var expired := ExpiredBefore(old(chunks), (r: ChunkRow) => r.timestamp, cutoff);
        if selectFails || expired == [] then chunks == old(chunks) && pending == old(pending)
        else (pending == old(pending) - BlobNames(expired)
          && chunks == (if deleteFails then old(chunks) else KeepSince(old(chunks), (r: ChunkRow) => r.timestamp, cutoff)))
    {
      if selectFails {
        return;
      }
      var cutoff := now - ORPHAN_MAX_AGE_SECONDS;
      var expired := ExpiredBefore(chunks, (r: ChunkRow) => r.timestamp, cutoff);
      if expired == [] {
        return;
      }
      pending := pending - BlobNames(expired);
      if !deleteFails {
        chunks := KeepSince(chunks, (r: ChunkRow) => r.timestamp, cutoff);
      }
    }

    /**
     * `cleanupOldFiles` (index.js:462-514): with `file_retention_days` > 0, the
     * artifacts older than that many days are unlinked and their rows deleted.
     */
    method SweepOldFiles(cfg: ServerConfig, now: int, selectFails: bool, deleteFails: bool)
      requires Valid()
      modifies this
      ensures Valid()
      ensures chunks == old(chunks) && pending == old(pending) && audit == old(audit)
      ensures !Enabled(cfg.fileRetentionDays) || selectFails ==> files == old(files) && blobs == old(blobs)
      ensures Enabled(cfg.fileRetentionDays) && !selectFails ==>
        var cutoff := now - cfg.fileRetentionDays.value * DAY_SECONDS;
        var expired := ExpiredBefore(old(files), (r: FileRow) => r.timestamp, cutoff);
        blobs == old(blobs) - Shas(expired)
        && files == (if deleteFails || expired == [] then old(files) else KeepSince(old(files), (r: FileRow) => r.timestamp, cutoff))
    {
      if !Enabled(cfg.fileRetentionDays) || selectFails {
        return;
      }
      var cutoff := now - cfg.fileRetentionDays.value * DAY_SECONDS;
      var expired := ExpiredBefore(files, (r: FileRow) => r.timestamp, cutoff);
      if expired == [] {
        return;
      }
      blobs := blobs - Shas(expired);
      if !deleteFails {
        KeepSinceKeepsShasUnique(files, cutoff);
        files := KeepSince(files, (r: FileRow) => r.timestamp, cutoff);
      }
    }

    /** `cleanupOldAuditLogs` (index.js:522-543): with `audit_log_retention_days` > 0, older audit rows are deleted. */
    method SweepAuditLog(cfg: ServerConfig, now: int, deleteFails: bool)
      requires Valid()
      modifies this
      ensures Valid()
      ensures chunks == old(chunks) && pending == old(pending) && files == old(files) && blobs == old(blobs)
      ensures audit == if !Enabled(cfg.auditLogRetentionDays) || deleteFails then old(audit)
        else KeepSince(old(audit), (r: AuditRow) => r.timestamp, now - cfg.auditLogRetentionDays.value * DAY_SECONDS)
    {
      if !Enabled(cfg.auditLogRetentionDays) || deleteFails {
        return;
      }
      audit := KeepSince(audit, (r: AuditRow) => r.timestamp, now - cfg.auditLogRetentionDays.value * DAY_SECONDS);
    }

    /**
     * `GET /d/:fileName/` (index.js:992-1063): the key is the parameter without a
     * trailing three-character extension; the stored name is sanitised for the
     * download, and image types are served inline. `mimeOf` is `mime.getType`.
     * The sanitised name goes through `encodeURIComponent`, which throws on a lone
     * surrogate; the throw happens inside the database callback, where nothing
     * catches it.
     */
    method Download(param: string, remote: Option<string>, now: int, cfg: ServerConfig, sha256: string -> string,
                    mimeOf: string -> Option<string>, queryFails: bool)
      returns (reply: Reply)
      requires Valid()
      modifies this
      ensures Valid()
      ensures chunks == old(chunks) && pending == old(pending) && files == old(files) && blobs == old(blobs)
      ensures var key := Filenames.StripDownloadExtension(param);
        (queryFails ==> reply == Failure(500, INTERNAL_ERROR) && audit == old(audit))
        && (!queryFails && (key !in Shas(files) || key !in blobs) ==>
              reply == Failure(404, FILE_NOT_FOUND) && audit == old(audit))
        && (!queryFails && key in Shas(files) && key in blobs ==>
              exists r :: r in files && r.sha == key && DownloadsRow(r, key, now, cfg, remote, sha256, mimeOf, old(audit), audit, reply))
    {
      var sha := Filenames.StripDownloadExtension(param);
      if queryFails {
        return Failure(500, INTERNAL_ERROR);
      }
      var row := FindSha(files, sha);
      if row.None? {
        return Failure(404, FILE_NOT_FOUND);
      }
      if sha !in blobs {
        return Failure(404, FILE_NOT_FOUND);
      }
      assert row.value in files && row.value.sha == sha;
      reply := ServeRow(row.value, sha, remote, now, cfg, sha256, mimeOf);
    }

    /** The found-artifact branch of the download route's database callback (index.js:1020-1062); only the audit log changes. */
    method ServeRow(row: FileRow, sha: string, remote: Option<string>, now: int, cfg: ServerConfig,
                    sha256: string -> string, mimeOf: string -> Option<string>)
      returns (reply: Reply)
      modifies this`audit
      ensures DownloadsRow(row, sha, now, cfg, remote, sha256, mimeOf, old(audit), audit, reply)
    {
      var realFileName := row.fileName;
      var safeFileName := DownloadName(realFileName);
      if !Utf16.WellFormed(safeFileName) {
        UriCrashDownloadsRow(row, sha, now, cfg, remote, sha256, mimeOf, audit);
        return Crashed(URI_MALFORMED);
      }
      var mimeType := GetOr(mimeOf(realFileName), OCTET_STREAM);
      var inline := MainType(mimeType) == "image";
      var entry := AuditRow(now, "DOWNLOAD", Fingerprint(cfg, remote, sha256), sha, "SUCCESS");
      if inline && !Headers.HeaderSafe(safeFileName) {
        HeaderCrashDownloadsRow(row, sha, now, cfg, remote, sha256, mimeOf, audit, entry);
        audit := audit + [entry];
        return Crashed(INVALID_HEADER_CHAR);
      }
      ServedDownloadsRow(row, sha, now, cfg, remote, sha256, mimeOf, audit, entry, inline);
      audit := audit + [entry];
      reply := Served(sha, safeFileName, mimeType, inline);
    }
  }
}
