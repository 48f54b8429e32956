/**
 * The command-line client library tools/lib/sfs_client.py: validation of the
 * server address, the saved session's expiry, the per-chunk retry policy, the
 * chunk loop of one upload with its merge request, and the aggregation over
 * several files. The network, the clock (seconds), the files on disk, uuid4
 * and SHA-256 are parameters; each request's answer is a value supplied by the
 * caller.
 */
module Client {
  import opened Wrappers
  import opened Bytes
  import opened Numerals

  const CHUNK_SIZE: nat := 2 * 1024 * 1024
  const MAX_RETRIES: nat := 10
  const RETRY_DELAYS: seq<nat> := [1, 2, 4, 8, 16, 30, 30, 30, 30, 30]
  const DEFAULT_EXPIRES_IN: int := 31536000

  /** Statuses after which a chunk is not retried. */
  const NON_TRANSIENT: set<int> := {403, 413, 422, 429, 507}

  function Min(a: nat, b: nat): nat
  {
    if a <= b then a else b
  }

  // ---- The server address ----

  predicate IsAsciiLetter(c: char)
  {
    'a' <= c <= 'z' || 'A' <= c <= 'Z'
  }

  /** `scheme_chars`: letters, digits, `+`, `-` and `.`. */
  predicate IsSchemeChar(c: char)
  {
    IsAsciiLetter(c) || '0' <= c <= '9' || c == '+' || c == '-' || c == '.'
  }

  /** The index of the first occurrence of `c`. */
  function Find(s: string, c: char): (r: Option<nat>)
    ensures r.Some? ==> (r.value < |s| && s[r.value] == c && forall k :: 0 <= k < r.value ==> s[k] != c)
    ensures r.None? ==> c !in s
  {
    if s == [] then None
    else if s[0] == c then Some(0)
    else match Find(s[1..], c)
      case None => None
      case Some(k) => Some(k + 1)
  }

  /** The length of the leading run without `/`, `?` or `#`: where `urlsplit` ends the network location. */
  function NetlocEnd(s: string): (n: nat)
    ensures n <= |s|
    ensures forall k :: 0 <= k < n ==> s[k] != '/' && s[k] != '?' && s[k] != '#'
  {
    if s == [] || s[0] == '/' || s[0] == '?' || s[0] == '#' then 0 else 1 + NetlocEnd(s[1..])
  }

  /** The position of the `:` that ends a scheme, when `urlsplit` finds one. */
  function SchemeColon(url: string): (r: Option<nat>)
    ensures r.Some? ==> 0 < r.value < |url| && url[r.value] == ':' && IsAsciiLetter(url[0])
  {
    match Find(url, ':')
      case None => None
      case Some(i) =>
        if i > 0 && IsAsciiLetter(url[0]) && forall k :: 0 <= k < i ==> IsSchemeChar(url[k]) then Some(i) else None
  }

  /** `urlparse(url).scheme` (before lower-casing). */
  function Scheme(url: string): string
  {
    match SchemeColon(url)
      case None => ""
      case Some(i) => url[..i]
  }

  /** `urlparse(url).netloc`: after the scheme, a `//` and then up to the first `/`, `?` or `#`. */
  function Netloc(url: string): string
  {
    var rest := match SchemeColon(url) case None => url case Some(i) => url[i + 1..];
    if |rest| >= 2 && rest[..2] == "//" then rest[2..][..NetlocEnd(rest[2..])] else ""
  }

  /** `rstrip('/')`. */
  function RStripSlash(s: string): (r: string)
    ensures |r| <= |s| && r == s[..|r|]
    ensures r == [] || r[|r| - 1] != '/'
    ensures forall k :: |r| <= k < |s| ==> s[k] == '/'
  {
    if s != [] && s[|s| - 1] == '/' then RStripSlash(s[..|s| - 1]) else s
  }

  /** `server_url.rstrip('/') + '/'`. */
  function NormalizeServerUrl(url: string): (r: string)
    ensures r != [] && r[|r| - 1] == '/'
  {
    RStripSlash(url) + "/"
  }

  /** Normalising twice is normalising once. */
  lemma NormalizeIdempotent(url: string)
    ensures NormalizeServerUrl(NormalizeServerUrl(url)) == NormalizeServerUrl(url)
  {
    var r := NormalizeServerUrl(url);
    var base := RStripSlash(url);
    assert r[..|r| - 1] == base;
    assert RStripSlash(r) == RStripSlash(base);
  }

  /** The outcome of `__init__`'s checks: a `ValueError` message, or the stored `server_url`. */
  datatype Init = InvalidUrl(message: string) | Ready(serverUrl: string)

  function ValidateServerUrl(url: string): (init: Init)
    ensures url == "" ==> init == InvalidUrl("server_url cannot be empty")
    ensures init.Ready? <==> url != "" && Scheme(url) != "" && Netloc(url) != ""
    ensures init.Ready? ==> init.serverUrl != [] && init.serverUrl[|init.serverUrl| - 1] == '/'
  {
    if url == "" then InvalidUrl("server_url cannot be empty")
    else if Scheme(url) == "" || Netloc(url) == "" then InvalidUrl("Invalid server URL: " + url)
    else Ready(NormalizeServerUrl(url))
  }

  /**
   * An address is accepted exactly when it is non-empty and has a scheme and a
   * network location; the stored form ends in exactly one `/` and differs from
   * the given one only by trailing slashes.
   */
  lemma ValidateServerUrlMeaning(url: string)
    ensures ValidateServerUrl(url).Ready? <==> url != "" && Scheme(url) != "" && Netloc(url) != ""
    ensures ValidateServerUrl(url).Ready? ==>
      var r := ValidateServerUrl(url).serverUrl;
      |r| >= 2 && r[|r| - 1] == '/' && r[|r| - 2] != '/' &&
      r[..|r| - 1] == url[..|r| - 1] && forall k :: |r| - 1 <= k < |url| ==> url[k] == '/'
  {
    if ValidateServerUrl(url).Ready? {
      var base := RStripSlash(url);
      assert url[0] != '/';
      assert |base| > 0;
    }
  }

  // ---- The saved session ----

  /** The JSON object in `session.json`: its `token` and `expires_at`, either possibly absent. */
  datatype SessionData = SessionData(token: Option<string>, expiresAt: Option<int>)

  /**
   * `_load_session`: the token set as the `sid` cookie, if any. `file` is `None`
   * when there is no file and `Some(None)` when its text is not JSON; a missing
   * `token` is the `KeyError` the method swallows.
   */
  function LoadSession(file: Option<Option<SessionData>>, now: int): (token: Option<string>)
    ensures token.Some? ==> file.Some? && file.value.Some? && token == file.value.value.token
    ensures token.Some? && now >= 0 ==> file.value.value.expiresAt.Some? && file.value.value.expiresAt.value > now
  {
    if file.None? || file.value.None? then None
    else
      var data := file.value.value;
      if GetOr(data.expiresAt, 0) > now then data.token else None
  }

  /** `_save_session`: what it writes, the token with an absolute expiry. */
  function SaveSession(token: string, now: int, expiresIn: int): (data: SessionData)
    ensures expiresIn > 0 ==> LoadSession(Some(Some(data)), now) == Some(token)
    ensures LoadSession(Some(Some(data)), now + expiresIn).None?
  {
    SessionData(Some(token), Some(now + expiresIn))
  }

  /** A saved session is loaded, with its token, exactly until its expiry has passed. */
  lemma SavedSessionLoadsUntilExpiry(token: string, savedAt: int, expiresIn: int, now: int)
    ensures LoadSession(Some(Some(SaveSession(token, savedAt, expiresIn))), now) ==
      if now < savedAt + expiresIn then Some(token) else None
    ensures LoadSession(Some(Some(SaveSession(token, savedAt, DEFAULT_EXPIRES_IN))), now).Some? <==>
      now < savedAt + 365 * 24 * 60 * 60
  {
  }

  /** No file, an unreadable file, or a file without `expires_at` never restore a session. */
  lemma NoExpiryNoSession(file: Option<Option<SessionData>>, now: int)
    requires now >= 0
    requires file.Some? && file.value.Some? ==> file.value.value.expiresAt.None?
    ensures LoadSession(file, now).None?
  {
  }

  // ---- Retrying one chunk ----

  /** One attempt's result: an HTTP status, or an exception from the request. */
  datatype Attempt = Response(status: int) | Raised

  /** An attempt that ends the retry loop: success or a refusal that is not retried. */
  predicate Decisive(a: Attempt)
  {
    a.Response? && (a.status == 200 || a.status in NON_TRANSIENT)
  }

  function FirstDecisive(attempt: nat -> Attempt, k: nat): (r: Option<nat>)
    ensures r.Some? ==> (k <= r.value < MAX_RETRIES && Decisive(attempt(r.value)) &&
      forall j :: k <= j < r.value ==> !Decisive(attempt(j)))
    ensures r.None? ==> forall j :: k <= j < MAX_RETRIES ==> !Decisive(attempt(j))
    decreases MAX_RETRIES - k
  {
    if k >= MAX_RETRIES then None
    else if Decisive(attempt(k)) then Some(k)
    else FirstDecisive(attempt, k + 1)
  }

  /** `_upload_chunk_with_retry` returns True. */
  predicate ChunkAccepted(attempt: nat -> Attempt)
  {
    var d := FirstDecisive(attempt, 0);
    d.Some? && attempt(d.value) == Response(200)
  }

  /** True exactly when some attempt among the ten gets a 200 and none before it is decisive. */
  lemma ChunkAcceptedMeaning(attempt: nat -> Attempt)
    ensures ChunkAccepted(attempt) <==>
      exists k :: 0 <= k < MAX_RETRIES && attempt(k) == Response(200) && forall j :: 0 <= j < k ==> !Decisive(attempt(j))
  {
    var d := FirstDecisive(attempt, 0);
    if exists k :: 0 <= k < MAX_RETRIES && attempt(k) == Response(200) && forall j :: 0 <= j < k ==> !Decisive(attempt(j)) {
      var k :| 0 <= k < MAX_RETRIES && attempt(k) == Response(200) && forall j :: 0 <= j < k ==> !Decisive(attempt(j));
      assert Decisive(attempt(k));
      assert d.Some? && d.value <= k;
    }
  }

  function Sum(s: seq<nat>): nat
  {
    if s == [] then 0 else Sum(s[..|s| - 1]) + s[|s| - 1]
  }

  /**
   * `_upload_chunk_with_retry` for one chunk, `attempt(k)` being the answer to
   * the `k`-th post. Returns the verdict, the number of posts and the sleeps.
   */
  method UploadChunkWithRetry(attempt: nat -> Attempt) returns (ok: bool, posts: nat, sleeps: seq<nat>)
    ensures ok == ChunkAccepted(attempt)
    ensures var d := FirstDecisive(attempt, 0);
      posts == (if d.Some? then d.value + 1 else MAX_RETRIES) &&
      sleeps == RETRY_DELAYS[..if d.Some? then d.value else MAX_RETRIES - 1]
    ensures 1 <= posts <= MAX_RETRIES && |sleeps| == posts - 1
  {
    sleeps := [];
    for k := 0 to MAX_RETRIES
      invariant forall j :: 0 <= j < k ==> !Decisive(attempt(j))
      invariant sleeps == RETRY_DELAYS[..Min(k, MAX_RETRIES - 1)]
      invariant FirstDecisive(attempt, 0) == FirstDecisive(attempt, k)
    {
      var answer := attempt(k);
      if answer.Response? && answer.status == 200 {
        return true, k + 1, sleeps;
      } else if answer.Response? && answer.status in NON_TRANSIENT {
        return false, k + 1, sleeps;
      }
      if k < MAX_RETRIES - 1 {
        sleeps := sleeps + [RETRY_DELAYS[k]];
      }
    }
    return false, MAX_RETRIES, sleeps;
  }

  /** At most nine sleeps, 151 seconds in all, go into one chunk before the client gives up. */
  lemma RetrySleepBound(attempt: nat -> Attempt)
    ensures var d := FirstDecisive(attempt, 0);
      Sum(RETRY_DELAYS[..if d.Some? then d.value else MAX_RETRIES - 1]) <= 151
  {
    var d := FirstDecisive(attempt, 0);
    var n := if d.Some? then d.value else MAX_RETRIES - 1;
    SumPrefixMonotone(RETRY_DELAYS[..MAX_RETRIES - 1], n);
    assert RETRY_DELAYS[..MAX_RETRIES - 1][..n] == RETRY_DELAYS[..n];
    NineDelaysSum();
  }

  /** The nine delays before the tenth post add up to 151 seconds. */
  lemma NineDelaysSum()
    ensures Sum(RETRY_DELAYS[..MAX_RETRIES - 1]) == 151
  {
    var delays := RETRY_DELAYS;
    assert Sum(delays[..0]) == 0;
    assert delays[..1][..0] == delays[..0];
    assert Sum(delays[..1]) == 1;
    assert delays[..2][..1] == delays[..1];
    assert Sum(delays[..2]) == 3;
    assert delays[..3][..2] == delays[..2];
    assert Sum(delays[..3]) == 7;
    assert delays[..4][..3] == delays[..3];
    assert Sum(delays[..4]) == 15;
    assert delays[..5][..4] == delays[..4];
    assert Sum(delays[..5]) == 31;
    assert delays[..6][..5] == delays[..5];
    assert Sum(delays[..6]) == 61;
    assert delays[..7][..6] == delays[..6];
    assert Sum(delays[..7]) == 91;
    assert delays[..8][..7] == delays[..7];
    assert Sum(delays[..8]) == 121;
    assert delays[..9][..8] == delays[..8];
    assert Sum(delays[..9]) == 151;
  }

  lemma {:induction false} SumPrefixMonotone(s: seq<nat>, n: nat)
    requires n <= |s|
    ensures Sum(s[..n]) <= Sum(s)
    decreases |s|
  {
    if n < |s| {
      assert s[..|s| - 1][..n] == s[..n];
      SumPrefixMonotone(s[..|s| - 1], n);
    } else {
      assert s[..n] == s;
    }
  }

  // ---- One file ----

  /** `(file_size + CHUNK_SIZE - 1) // CHUNK_SIZE`: the fewest 2 MiB chunks that cover the file. */
  function ChunkCount(size: nat): (n: nat)
    ensures n * CHUNK_SIZE >= size
    ensures n > 0 ==> (n - 1) * CHUNK_SIZE < size
    ensures n == 0 <==> size == 0
  {
    (size + CHUNK_SIZE - 1) / CHUNK_SIZE
  }

  function Flatten(parts: seq<Bytes>): Bytes
  {
    if parts == [] then [] else Flatten(parts[..|parts| - 1]) + parts[|parts| - 1]
  }

  /** What the server's merge request answered. */
  datatype Body = Parsed(error: Option<string>, fileName: Option<string>) | Unparsable(reason: string)
  datatype MergeAnswer = MergeReply(status: int, body: Body) | MergeRaised(reason: string)

  /** The query of the merge request. */
  datatype MergeParams = MergeParams(name: string, chunkCount: nat, uuid: string, checksum: string, collectionId: Option<string>)

  /** What `upload_file` and `upload_multiple` return. */
  datatype Outcome =
    | Uploaded(url: string, fileName: string)
    | CollectionUploaded(collectionUrl: string, collectionId: string, uploaded: nat, total: nat)
    | Failed(error: string)

  /** The per-file inputs: the file (absent or its bytes), its name, the session uuid, and the server's answers. */
  datatype FileInput = FileInput(file: Option<Bytes>, name: string, fileUuid: string, chunkNet: (nat, nat) -> Attempt, merge: MergeAnswer)

  /** The answers to chunk `k`'s posts. */
  function AttemptsOf(chunkNet: (nat, nat) -> Attempt, k: nat): nat -> Attempt
  {
    (a: nat) => chunkNet(k, a)
  }

  /** The lowest chunk index at or after `k`, below `n`, whose retries all fail. */
  function FirstRejected(chunkNet: (nat, nat) -> Attempt, n: nat, k: nat): (r: Option<nat>)
    ensures r.Some? ==> (k <= r.value < n && !ChunkAccepted(AttemptsOf(chunkNet, r.value)) &&
      forall j :: k <= j < r.value ==> ChunkAccepted(AttemptsOf(chunkNet, j)))
    ensures r.None? ==> forall j :: k <= j < n ==> ChunkAccepted(AttemptsOf(chunkNet, j))
    decreases n - k
  {
    if k >= n then None
    else if !ChunkAccepted(AttemptsOf(chunkNet, k)) then Some(k)
    else FirstRejected(chunkNet, n, k + 1)
  }

  lemma ChunkOffsets(k: nat, size: nat)
    requires k < ChunkCount(size)
    ensures Min(k * CHUNK_SIZE, size) == k * CHUNK_SIZE
    ensures Min(k * CHUNK_SIZE + CHUNK_SIZE, size) == Min((k + 1) * CHUNK_SIZE, size)
    ensures k * CHUNK_SIZE < Min(k * CHUNK_SIZE + CHUNK_SIZE, size)
  {
  }

  /** The first `k` chunks of `file`, each non-empty and at most 2 MiB, read one after another. */
  predicate ChunksRead(parts: seq<Bytes>, file: Bytes, k: nat)
  {
    |parts| == k && Min(k * CHUNK_SIZE, |file|) <= |file| &&
    Flatten(parts) == file[..Min(k * CHUNK_SIZE, |file|)] &&
    forall j :: 0 <= j < k ==> 0 < |parts[j]| <= CHUNK_SIZE
  }

  /** Reading chunk `k` extends what was read by the next slice of the file. */
  lemma ChunkStep(parts: seq<Bytes>, file: Bytes, k: nat)
    requires k < ChunkCount(|file|) && ChunksRead(parts, file, k)
    ensures var offset := k * CHUNK_SIZE;
      var data := file[offset..Min(offset + CHUNK_SIZE, |file|)];
      ChunksRead(parts + [data], file, k + 1) && offset + |data| == Min((k + 1) * CHUNK_SIZE, |file|)
  {
    ChunkOffsets(k, |file|);
    var offset := k * CHUNK_SIZE;
    var data := file[offset..Min(offset + CHUNK_SIZE, |file|)];
    FlattenPush(parts, file, offset, data);
    var next := parts + [data];
    forall j | 0 <= j < k + 1 ensures 0 < |next[j]| <= CHUNK_SIZE {
      if j < k {
        assert next[j] == parts[j];
      }
    }
  }

  lemma FlattenPush(parts: seq<Bytes>, file: Bytes, offset: nat, data: Bytes)
    requires offset + |data| <= |file|
    requires Flatten(parts) == file[..offset] && data == file[offset..offset + |data|]
    ensures Flatten(parts + [data]) == file[..offset + |data|]
  {
    assert (parts + [data])[..|parts|] == parts;
    assert file[..offset] + file[offset..offset + |data|] == file[..offset + |data|];
  }

  /** The reply to the merge request, as `upload_file` turns it into a result. */
  function MergeOutcome(serverUrl: string, answer: MergeAnswer): (o: Outcome)
    ensures o.Uploaded? <==> answer.MergeReply? && answer.status == 200 && answer.body.Parsed? && answer.body.fileName.Some?
    ensures o.Uploaded? ==> o.url == serverUrl + "d/" + o.fileName && o.fileName == answer.body.fileName.value
  {
    match answer
      case MergeRaised(reason) => Failed("Merge error: " + reason)
      case MergeReply(status, body) =>
        if status == 200 then
          match body
            case Unparsable(reason) => Failed("Merge error: " + reason)
            case Parsed(_, fileName) =>
              if fileName.Some? then Uploaded(serverUrl + "d/" + fileName.value, fileName.value)
              else Failed("Merge error: 'fileName'")
        else if body.Parsed? && body.error.Some? then Failed(body.error.value)
        else Failed("Merge failed: HTTP " + StatusText(status))
  }

  /** `str()` of a status code. */
  function StatusText(status: int): string
  {
    if status < 0 then "-" + Decimal(-status) else Decimal(status)
  }

  /** The query of the merge request: the collection is passed only when it is a non-empty string. */
  function MergeRequest(input: FileInput, collectionId: Option<string>, digest: Bytes -> string): (p: MergeParams)
    requires input.file.Some?
    ensures p.chunkCount * CHUNK_SIZE >= |input.file.value| && (p.chunkCount == 0 <==> input.file.value == [])
    ensures p.collectionId.Some? <==> collectionId.Some? && collectionId.value != ""
    ensures p.collectionId.Some? ==> p.collectionId == collectionId
  {
    MergeParams(input.name, ChunkCount(|input.file.value|), input.fileUuid, digest(input.file.value),
      if collectionId.Some? && collectionId.value != "" then collectionId else None)
  }

  /** `upload_file`'s result. */
  function FileOutcome(serverUrl: string, input: FileInput, collectionId: Option<string>, digest: Bytes -> string): (o: Outcome)
    ensures input.file.None? ==> o == Failed("File not found")
    ensures o.Uploaded? ==> input.file.Some? && o == MergeOutcome(serverUrl, input.merge)
    ensures !o.CollectionUploaded?
  {
    if input.file.None? then Failed("File not found")
    else match FirstRejected(input.chunkNet, ChunkCount(|input.file.value|), 0)
      case Some(i) => Failed("Failed to upload chunk " + Decimal(i))
      case None => MergeOutcome(serverUrl, input.merge)
  }

  /**
   * An upload succeeds only when the file exists, every chunk is accepted and
   * the merge answers 200 with a file name; the first rejected chunk is the one
   * named in the error.
   */
  lemma FileOutcomeMeaning(serverUrl: string, input: FileInput, collectionId: Option<string>, digest: Bytes -> string)
    ensures FileOutcome(serverUrl, input, collectionId, digest).Uploaded? <==>
      input.file.Some? &&
      (forall j :: 0 <= j < ChunkCount(|input.file.value|) ==> ChunkAccepted(AttemptsOf(input.chunkNet, j))) &&
      MergeOutcome(serverUrl, input.merge).Uploaded?
    ensures input.file.Some? && FirstRejected(input.chunkNet, ChunkCount(|input.file.value|), 0).Some? ==>
      var i := FirstRejected(input.chunkNet, ChunkCount(|input.file.value|), 0).value;
      FileOutcome(serverUrl, input, collectionId, digest) == Failed("Failed to upload chunk " + Decimal(i)) &&
      (forall j :: 0 <= j < i ==> ChunkAccepted(AttemptsOf(input.chunkNet, j))) &&
      !ChunkAccepted(AttemptsOf(input.chunkNet, i))
  {
    if input.file.Some? {
      var n := ChunkCount(|input.file.value|);
      var r := FirstRejected(input.chunkNet, n, 0);
      if r.Some? {
        assert !ChunkAccepted(AttemptsOf(input.chunkNet, r.value));
      }
    }
  }

  /** A client whose address passed validation, with the `sid` cookie of its HTTP session. */
  class SFSClient {
    var serverUrl: string
    var sid: Option<string>

    /** `__init__` once the address has been accepted: store it and try the saved session. */
    constructor(url: string, sessionFile: Option<Option<SessionData>>, now: int)
      requires ValidateServerUrl(url).Ready?
      ensures serverUrl == ValidateServerUrl(url).serverUrl
      ensures sid == LoadSession(sessionFile, now)
    {
      serverUrl := NormalizeServerUrl(url);
      sid := LoadSession(sessionFile, now);
    }

    /**
     * The chunk loop of `upload_file`: the chunks are posted in index order, each
     * read as the next 2 MiB of the file, and the first chunk whose retries fail
     * ends the loop.
     */
    method SendChunks(file: Bytes, chunkNet: (nat, nat) -> Attempt) returns (posted: seq<Bytes>, failedAt: Option<nat>)
      ensures failedAt == FirstRejected(chunkNet, ChunkCount(|file|), 0)
      ensures Flatten(posted) == file[..Min(|posted| * CHUNK_SIZE, |file|)]
      ensures forall j :: 0 <= j < |posted| ==> 0 < |posted[j]| <= CHUNK_SIZE
      ensures failedAt.Some? ==> |posted| == failedAt.value + 1
      ensures failedAt.None? ==> |posted| == ChunkCount(|file|) && Flatten(posted) == file
    {
      var count := ChunkCount(|file|);
      posted := [];
      var offset := 0;
      for k := 0 to count
        invariant ChunksRead(posted, file, k) && offset == Min(k * CHUNK_SIZE, |file|)
        invariant FirstRejected(chunkNet, count, 0) == FirstRejected(chunkNet, count, k)
      {
        ChunkOffsets(k, |file|);
        var data := file[offset..Min(offset + CHUNK_SIZE, |file|)];
        ChunkStep(posted, file, k);
        posted := posted + [data];
        offset := offset + |data|;
        var ok, posts, sleeps := UploadChunkWithRetry(AttemptsOf(chunkNet, k));
        if !ok {
          return posted, Some(k);
        }
      }
      assert file[..offset] == file;
      failedAt := None;
    }

    /** `upload_file`: the checksum, the chunk loop, and the merge request only when every chunk went through. */
    method UploadFile(input: FileInput, collectionId: Option<string>, digest: Bytes -> string)
      returns (outcome: Outcome, posted: seq<Bytes>, merge: Option<MergeParams>)
      ensures outcome == FileOutcome(serverUrl, input, collectionId, digest)
      ensures input.file.None? ==> posted == [] && merge.None?
      ensures input.file.Some? ==>
        var file := input.file.value;
        var rejected := FirstRejected(input.chunkNet, ChunkCount(|file|), 0);
        Flatten(posted) == file[..Min(|posted| * CHUNK_SIZE, |file|)] &&
        (rejected.Some? ==> |posted| == rejected.value + 1 && merge.None?) &&
        (rejected.None? ==> (Flatten(posted) == file && merge == Some(MergeRequest(input, collectionId, digest))))
    {
      if input.file.None? {
        return Failed("File not found"), [], None;
      }
      var file := input.file.value;
      var count := ChunkCount(|file|);
      var checksum := digest(file);
      var failedAt;
      posted, failedAt := SendChunks(file, input.chunkNet);
      if failedAt.Some? {
        return Failed("Failed to upload chunk " + Decimal(failedAt.value)), posted, None;
      }
      merge := Some(MergeParams(input.name, count, input.fileUuid, checksum,
        if collectionId.Some? && collectionId.value != "" then collectionId else None));
      outcome := MergeOutcome(serverUrl, input.merge);
    }

    /**
     * `upload_multiple`: one path is a plain upload; several are uploaded in order
     * into the collection `collectionId` (uuid4), and the result reports how many
     * succeeded.
     */
    method UploadMultiple(inputs: seq<FileInput>, collectionId: string, digest: Bytes -> string) returns (outcome: Outcome)
      ensures |inputs| == 1 ==> outcome == FileOutcome(serverUrl, inputs[0], None, digest)
      ensures |inputs| != 1 ==>
        outcome == Aggregate(serverUrl, collectionId, |inputs|, Results(serverUrl, inputs, collectionId, digest))
    {
      if |inputs| == 1 {
        var posted, merge;
        outcome, posted, merge := UploadFile(inputs[0], None, digest);
        return;
      }
      var results: seq<Outcome> := [];
      for k := 0 to |inputs|
        invariant results == Results(serverUrl, inputs[..k], collectionId, digest)
      {
        assert inputs[..k + 1][..k] == inputs[..k];
        var result, posted, merge := UploadFile(inputs[k], Some(collectionId), digest);
        results := results + [result];
      }
      assert inputs[..|inputs|] == inputs;
      var successCount := SuccessCount(results);
      if successCount > 0 {
        outcome := CollectionUploaded(serverUrl + "c/" + collectionId, collectionId, successCount, |inputs|);
      } else {
        outcome := Failed("All uploads failed");
      }
    }
  }

  /** The results of uploading each file in turn into the collection. */
  function Results(serverUrl: string, inputs: seq<FileInput>, collectionId: string, digest: Bytes -> string): (r: seq<Outcome>)
    ensures |r| == |inputs|
  {
    if inputs == [] then []
    else Results(serverUrl, inputs[..|inputs| - 1], collectionId, digest) + [FileOutcome(serverUrl, inputs[|inputs| - 1], Some(collectionId), digest)]
  }

  /** `sum(1 for r in results if r.get('success'))`. */
  function SuccessCount(results: seq<Outcome>): (n: nat)
    ensures n <= |results|
  {
    if results == [] then 0
    else SuccessCount(results[..|results| - 1]) + (if results[|results| - 1].Uploaded? then 1 else 0)
  }

  /** The result over several files. */
  function Aggregate(serverUrl: string, collectionId: string, total: nat, results: seq<Outcome>): (o: Outcome)
    ensures o.CollectionUploaded? <==> SuccessCount(results) > 0
    ensures o.CollectionUploaded? ==> o.collectionId == collectionId && 0 < o.uploaded <= |results|
    ensures !o.CollectionUploaded? ==> o == Failed("All uploads failed")
  {
    var n := SuccessCount(results);
    if n > 0 then CollectionUploaded(serverUrl + "c/" + collectionId, collectionId, n, total)
    else Failed("All uploads failed")
  }

  lemma {:induction false} SuccessCountPositive(results: seq<Outcome>)
    ensures SuccessCount(results) > 0 <==> exists k :: 0 <= k < |results| && results[k].Uploaded?
  {
    if results != [] {
      var init := results[..|results| - 1];
      SuccessCountPositive(init);
      if exists k :: 0 <= k < |init| && init[k].Uploaded? {
        var k :| 0 <= k < |init| && init[k].Uploaded?;
        assert results[k] == init[k];
      }
      if exists k :: 0 <= k < |results| && results[k].Uploaded? {
        var k :| 0 <= k < |results| && results[k].Uploaded?;
        if k < |init| {
          assert init[k] == results[k];
        }
      }
    }
  }

  /**
   * The collection is reported as uploaded exactly when at least one file was,
   * with that count and the number of files given; otherwise all failed.
   */
  lemma AggregateMeaning(serverUrl: string, collectionId: string, total: nat, results: seq<Outcome>)
    ensures Aggregate(serverUrl, collectionId, total, results).CollectionUploaded? <==>
      exists k :: 0 <= k < |results| && results[k].Uploaded?
    ensures Aggregate(serverUrl, collectionId, total, results).CollectionUploaded? ==>
      var o := Aggregate(serverUrl, collectionId, total, results);
      o.uploaded == SuccessCount(results) && o.uploaded <= |results| && o.total == total &&
      o.collectionUrl == serverUrl + "c/" + collectionId
    ensures !Aggregate(serverUrl, collectionId, total, results).CollectionUploaded? ==>
      Aggregate(serverUrl, collectionId, total, results) == Failed("All uploads failed")
  {
    SuccessCountPositive(results);
  }

  /**
   * `SFSClient(server_url)`: a `ValueError` message for a rejected address,
   * otherwise a new client.
   */
  method NewClient(url: string, sessionFile: Option<Option<SessionData>>, now: int) returns (error: Option<string>, client: SFSClient?)
    ensures ValidateServerUrl(url).InvalidUrl? ==> error == Some(ValidateServerUrl(url).message) && client == null
    ensures ValidateServerUrl(url).Ready? ==>
      error.None? && client != null && fresh(client) &&
      client.serverUrl == ValidateServerUrl(url).serverUrl && client.sid == LoadSession(sessionFile, now)
  {
    var init := ValidateServerUrl(url);
    if init.InvalidUrl? {
      return Some(init.message), null;
    }
    client := new SFSClient(url, sessionFile, now);
    error := None;
  }
}
