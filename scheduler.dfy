/**
 * The browser-side upload scheduler of static/js/upload.webworker.js. The worker
 * keeps, per chunk, a status code (0 pending, 2 in flight, 3 done), a retry
 * counter and a flag for the request object it holds, plus the number of
 * chunks confirmed so far. Network events (a reply, a transport error, a
 * timeout) are method calls; what the worker does next is returned as a
 * `Reaction`: a step of the scheduler, a retry after a delay (the timer then
 * calls `UploadNextChunk` again), or a FAIL message posted to the page.
 */
module Scheduler {
  import opened Wrappers

  const BYTES_PER_CHUNK: nat := 1024 * 1024
  const MAX_RETRIES: nat := 10
  const MAX_RETRY_DELAY_MS: nat := 30000

  const PENDING: int := 0
  const IN_FLIGHT: int := 2
  const DONE: int := 3

  const GIVE_UP_MESSAGE: string := "Upload failed after multiple attempts. Please check your connection and try again."
  const QUOTA_MESSAGE: string := "Upload limit reached."
  const TRY_LATER: string := " Please try again later."

  function Min(a: nat, b: nat): nat
  {
    if a <= b then a else b
  }

  // ---- Chunk geometry ----

  /** `Math.ceil(blob.size / BYTES_PER_CHUNK)`: the fewest 1 MiB chunks that cover the blob. */
  function ChunkCount(size: nat): (n: nat)
    ensures n * BYTES_PER_CHUNK >= size
    ensures n > 0 ==> (n - 1) * BYTES_PER_CHUNK < size
    ensures n == 0 <==> size == 0
  {
    (size + BYTES_PER_CHUNK - 1) / BYTES_PER_CHUNK
  }

  function ChunkStart(i: nat): nat
  {
    i * BYTES_PER_CHUNK
  }

  /** `Math.min(start + BYTES_PER_CHUNK, blob.size)`. */
  function ChunkEnd(i: nat, size: nat): nat
  {
    Min(ChunkStart(i) + BYTES_PER_CHUNK, size)
  }

  /** `blob.slice(start, end)` for chunk `i`; every chunk is non-empty and at most 1 MiB. */
  function Chunk<T>(blob: seq<T>, i: nat): (c: seq<T>)
    requires i < ChunkCount(|blob|)
    ensures 0 < |c| <= BYTES_PER_CHUNK
  {
    blob[ChunkStart(i)..ChunkEnd(i, |blob|)]
  }

  /** The first `n` chunks, in index order. */
  function Chunks<T>(blob: seq<T>, n: nat): seq<seq<T>>
    requires n <= ChunkCount(|blob|)
  {
    if n == 0 then [] else Chunks(blob, n - 1) + [Chunk(blob, n - 1)]
  }

  function Flatten<T>(parts: seq<seq<T>>): seq<T>
  {
    if parts == [] then [] else Flatten(parts[..|parts| - 1]) + parts[|parts| - 1]
  }

  /** Chunk `n - 1` of a blob with at least `n` chunks starts inside it, one chunk before `n` chunks end. */
  lemma ChunkBounds(n: nat, size: nat)
    requires 0 < n <= ChunkCount(size)
    ensures ChunkStart(n - 1) < size
    ensures Min((n - 1) * BYTES_PER_CHUNK, size) == ChunkStart(n - 1)
    ensures ChunkEnd(n - 1, size) == Min(n * BYTES_PER_CHUNK, size)
  {
    var m := ChunkCount(size);
    assert (n - 1) * BYTES_PER_CHUNK <= (m - 1) * BYTES_PER_CHUNK;
  }

  lemma {:induction false} ChunksCoverPrefix<T>(blob: seq<T>, n: nat)
    requires n <= ChunkCount(|blob|)
    ensures Flatten(Chunks(blob, n)) == blob[..Min(n * BYTES_PER_CHUNK, |blob|)]
  {
    if n > 0 {
      ChunksCoverPrefix(blob, n - 1);
      ChunkBounds(n, |blob|);
      var parts := Chunks(blob, n);
      assert parts[..|parts| - 1] == Chunks(blob, n - 1);
      var lo, hi := ChunkStart(n - 1), ChunkEnd(n - 1, |blob|);
      assert blob[..lo] + blob[lo..hi] == blob[..hi];
    }
  }

  /** The chunks partition the blob: concatenated in index order they give it back exactly. */
  lemma ChunksPartitionBlob<T>(blob: seq<T>)
    ensures Flatten(Chunks(blob, ChunkCount(|blob|))) == blob
  {
    ChunksCoverPrefix(blob, ChunkCount(|blob|));
  }

  // ---- Backoff ----

  function Pow2(k: nat): (p: nat)
    ensures p >= 1
  {
    if k == 0 then 1 else 2 * Pow2(k - 1)
  }

  /** `Math.min(1000 * Math.pow(2, retries - 1), 30000)` milliseconds. */
  function RetryDelay(retries: nat): (d: nat)
    requires retries >= 1
    ensures 1000 <= d <= MAX_RETRY_DELAY_MS
  {
    Min(1000 * Pow2(retries - 1), MAX_RETRY_DELAY_MS)
  }

  /** The delay starts at one second and doubles on each retry until it reaches the 30-second cap. */
  lemma RetryDelayDoubles(retries: nat)
    requires retries >= 1
    ensures RetryDelay(1) == 1000
    ensures RetryDelay(retries + 1) == Min(2 * RetryDelay(retries), MAX_RETRY_DELAY_MS)
    ensures 1000 <= RetryDelay(retries) <= MAX_RETRY_DELAY_MS
  {
    assert Pow2(retries) == 2 * Pow2(retries - 1);
  }

  /** From the sixth retry on, the delay is the cap. */
  lemma {:induction false} RetryDelayCapped(retries: nat)
    requires retries >= 6
    ensures RetryDelay(retries) == MAX_RETRY_DELAY_MS
  {
    if retries == 6 {
      assert Pow2(5) == 32;
    } else {
      RetryDelayCapped(retries - 1);
      RetryDelayDoubles(retries - 1);
    }
  }

  // ---- State and steps ----

  /** The worker's per-chunk arrays and `chunksSent`, as values. */
  datatype Progress = Progress(status: seq<int>, retries: seq<nat>, active: seq<bool>, sent: nat)

  /** What `uploadNextChunk` does: ask for the merge, send one chunk (bytes `[start, end)`), or wait. */
  datatype Step = StartMerge | Send(index: nat, start: nat, end: nat) | Wait

  /** What the worker does after a network event. */
  datatype Reaction = Next(step: Step) | Retry(delayMs: nat) | PostFail(error: string)

  datatype Transition = Transition(reaction: Reaction, after: Progress)

  predicate WellShaped(p: Progress)
  {
    |p.retries| == |p.status| && |p.active| == |p.status|
  }

  predicate AllDone(status: seq<int>)
  {
    forall j :: 0 <= j < |status| ==> status[j] == DONE
  }

  /** The lowest index whose status is 0, if any. */
  function FirstPending(status: seq<int>): (r: Option<nat>)
    ensures r.Some? ==> (r.value < |status| && status[r.value] == PENDING &&
      forall j :: 0 <= j < r.value ==> status[j] != PENDING)
    ensures r.None? ==> forall j :: 0 <= j < |status| ==> status[j] != PENDING
  {
    if status == [] then None
    else if status[0] == PENDING then Some(0)
    else match FirstPending(status[1..])
      case None => None
      case Some(k) => Some(k + 1)
  }

  /** `uploadNextChunk`'s decision over the status array. */
  function NextStep(status: seq<int>, size: nat): (step: Step)
    ensures step.StartMerge? <==> AllDone(status)
    ensures step.Send? ==> step.index < |status| && status[step.index] == PENDING
    ensures step.Wait? ==> forall j :: 0 <= j < |status| ==> status[j] != PENDING
  {
    if AllDone(status) then StartMerge
    else match FirstPending(status)
      case Some(i) => Send(i, ChunkStart(i), ChunkEnd(i, size))
      case None => Wait
  }

  /**
   * The merge is requested exactly when every chunk is done; otherwise the lowest
   * pending chunk is sent, and when no chunk is pending nothing happens.
   */
  lemma NextStepMeaning(status: seq<int>, size: nat)
    ensures NextStep(status, size).StartMerge? <==> AllDone(status)
    ensures NextStep(status, size).Send? <==>
      !AllDone(status) && exists j :: 0 <= j < |status| && status[j] == PENDING
    ensures NextStep(status, size).Send? ==>
      var i := NextStep(status, size).index;
      i < |status| && status[i] == PENDING && (forall j :: 0 <= j < i ==> status[j] != PENDING)
    ensures NextStep(status, size).Wait? <==>
      !AllDone(status) && forall j :: 0 <= j < |status| ==> status[j] != PENDING
  {
  }

  /** The state after a step: sending marks the chunk in flight and holds its request. */
  function ApplyStep(p: Progress, step: Step): Progress
    requires WellShaped(p)
    requires step.Send? ==> step.index < |p.status|
  {
    if step.Send? then p.(status := p.status[step.index := IN_FLIGHT], active := p.active[step.index := true])
    else p
  }

  /** `handleFailure`: one more retry; past the limit FAIL and nothing rescheduled, else pending again after the backoff. */
  function Failure(p: Progress, i: nat): (t: Transition)
    requires WellShaped(p) && i < |p.status|
    ensures WellShaped(t.after)
  {
    var r := p.retries[i] + 1;
    var q := p.(retries := p.retries[i := r], active := p.active[i := false]);
    if r >= MAX_RETRIES then Transition(PostFail(GIVE_UP_MESSAGE), q)
    else Transition(Retry(RetryDelay(r)), q.(status := q.status[i := PENDING]))
  }

  /** The success path: count the chunk unless it was already done, mark it done, reset its retries. */
  function Succeeded(p: Progress, i: nat): (q: Progress)
    requires WellShaped(p) && i < |p.status|
    ensures WellShaped(q)
  {
    Progress(p.status[i := DONE], p.retries[i := 0], p.active[i := false], if p.status[i] != DONE then p.sent + 1 else p.sent)
  }

  /** The message after a 429 or 507: the server's `error` text when it gave one. */
  function QuotaFailure(errorField: Option<string>): string
  {
    (if errorField.Some? && errorField.value != "" then errorField.value else QUOTA_MESSAGE) + TRY_LATER
  }

  /**
   * `onreadystatechange` at readyState 4. `replyIndex` is the parsed `chunk` of a
   * 200 reply (`None` when the body does not parse or names no number).
   */
  function OnReplySpec(p: Progress, i: nat, size: nat, httpStatus: int, replyIndex: Option<int>, errorField: Option<string>): (t: Transition)
    requires WellShaped(p) && i < |p.status|
    ensures WellShaped(t.after)
  {
    if httpStatus != 200 then
      if httpStatus == 429 || httpStatus == 507 then Transition(PostFail(QuotaFailure(errorField)), p)
      else Failure(p, i)
    else if replyIndex != Some(i) then Failure(p, i)
    else
      var q := Succeeded(p, i);
      var step := NextStep(q.status, size);
      Transition(Next(step), ApplyStep(q, step))
  }

  /** A 429 or 507 aborts at once and leaves status, retries and the counter as they were. */
  lemma QuotaRejectionIsFinal(p: Progress, i: nat, size: nat, httpStatus: int, replyIndex: Option<int>, errorField: Option<string>)
    requires WellShaped(p) && i < |p.status|
    requires httpStatus == 429 || httpStatus == 507
    ensures OnReplySpec(p, i, size, httpStatus, replyIndex, errorField) == Transition(PostFail(QuotaFailure(errorField)), p)
  {
  }

  /** A 200 reply naming another chunk is treated exactly like a failed request. */
  lemma WrongIndexIsFailure(p: Progress, i: nat, size: nat, replyIndex: Option<int>, errorField: Option<string>)
    requires WellShaped(p) && i < |p.status| && replyIndex != Some(i)
    ensures OnReplySpec(p, i, size, 200, replyIndex, errorField) == Failure(p, i)
  {
  }

  /** After the tenth failure of a chunk the upload is abandoned; before it, the chunk is retried. */
  lemma FailureGivesUpAtLimit(p: Progress, i: nat)
    requires WellShaped(p) && i < |p.status|
    ensures Failure(p, i).reaction.PostFail? <==> p.retries[i] + 1 >= MAX_RETRIES
    ensures Failure(p, i).reaction.Retry? ==>
      Failure(p, i).after.status[i] == PENDING && Failure(p, i).reaction.delayMs == RetryDelay(p.retries[i] + 1)
    ensures Failure(p, i).after.sent == p.sent && Failure(p, i).after.retries[i] == p.retries[i] + 1
  {
  }

  /**
   * A network error or a timeout first completes the request with status 0,
   * which `onreadystatechange` treats as a failure, and then fires `error` or
   * `timeout`, which fails it again: each such error counts two retries.
   */
  lemma NetworkErrorCountsTwice(p: Progress, i: nat, size: nat, errorField: Option<string>)
    requires WellShaped(p) && i < |p.status|
    ensures var first := OnReplySpec(p, i, size, 0, None, errorField);
      var second := Failure(first.after, i);
      first == Failure(p, i)
      && second.after.retries[i] == p.retries[i] + 2
      && (second.reaction.PostFail? <==> p.retries[i] + 2 >= MAX_RETRIES)
  {
    FailureGivesUpAtLimit(p, i);
    FailureGivesUpAtLimit(Failure(p, i).after, i);
  }

  // ---- The sequential discipline ----

  /** The freshly initialised state: every status, retry count and request slot cleared. */
  function Initial(n: nat): (p: Progress)
    ensures WellShaped(p) && |p.status| == n
  {
    Progress(seq(n, _ => PENDING), seq(n, _ => 0), seq(n, _ => false), 0)
  }

  /**
   * The shape the scheduler keeps when events only answer the request in flight:
   * the first `sent` chunks are done, the chunk at `sent` is pending or in
   * flight, every later chunk is pending, and only the chunk at `sent` has
   * retries or a request.
   */
  predicate Sequential(p: Progress)
  {
    WellShaped(p) && p.sent <= |p.status| &&
    (forall j :: 0 <= j < p.sent ==> p.status[j] == DONE) &&
    (forall j :: p.sent < j < |p.status| ==> p.status[j] == PENDING) &&
    (p.sent < |p.status| ==> p.status[p.sent] == PENDING || p.status[p.sent] == IN_FLIGHT) &&
    (forall j :: 0 <= j < |p.status| && j != p.sent ==> p.retries[j] == 0 && !p.active[j])
  }

  function CountDone(status: seq<int>): nat
  {
    if status == [] then 0 else CountDone(status[..|status| - 1]) + (if status[|status| - 1] == DONE then 1 else 0)
  }

  lemma {:induction false} CountDonePrefix(status: seq<int>, k: nat)
    requires k <= |status|
    requires forall j :: 0 <= j < k ==> status[j] == DONE
    requires forall j :: k <= j < |status| ==> status[j] != DONE
    ensures CountDone(status) == k
  {
    if |status| > 0 {
      var init := status[..|status| - 1];
      if k == |status| {
        CountDonePrefix(init, k - 1);
      } else {
        CountDonePrefix(init, k);
      }
    }
  }

  /** `chunksSent` is exactly the number of chunks whose status is 3, hence at most `chunkCount`. */
  lemma SentCountsDoneChunks(p: Progress)
    requires Sequential(p)
    ensures p.sent == CountDone(p.status) && p.sent <= |p.status|
  {
    CountDonePrefix(p.status, p.sent);
  }

  lemma InitialIsSequential(n: nat)
    ensures Sequential(Initial(n))
  {
  }

  /**
   * Under the discipline, when no request is in flight (the moments at which the
   * worker runs `uploadNextChunk`), the next step is the merge once all chunks are
   * sent and otherwise chunk `sent`, and it keeps the discipline.
   */
  lemma SequentialStep(p: Progress, size: nat)
    requires Sequential(p)
    requires p.sent < |p.status| ==> p.status[p.sent] == PENDING
    ensures NextStep(p.status, size) ==
      if p.sent == |p.status| then StartMerge
      else Send(p.sent, ChunkStart(p.sent), ChunkEnd(p.sent, size))
    ensures Sequential(ApplyStep(p, NextStep(p.status, size)))
  {
    if p.sent < |p.status| {
      assert !AllDone(p.status) by {
        assert p.status[p.sent] != DONE;
      }
      FirstPendingIs(p.status, p.sent);
    }
  }

  lemma FirstPendingIs(status: seq<int>, k: nat)
    requires k < |status| && status[k] == PENDING
    requires forall j :: 0 <= j < k ==> status[j] != PENDING
    ensures FirstPending(status) == Some(k)
  {
    var r := FirstPending(status);
    assert r.Some? && r.value <= k;
  }

  /**
   * A reply, error or timeout for the chunk in flight keeps the discipline: that
   * chunk is the one at `sent`, and a confirmed chunk advances `sent` by one.
   */
  lemma SequentialReply(p: Progress, i: nat, size: nat, httpStatus: int, replyIndex: Option<int>, errorField: Option<string>)
    requires Sequential(p) && i < |p.status| && p.status[i] == IN_FLIGHT
    ensures i == p.sent
    ensures Sequential(OnReplySpec(p, i, size, httpStatus, replyIndex, errorField).after)
    ensures Sequential(Failure(p, i).after)
    ensures httpStatus == 200 && replyIndex == Some(i) ==>
      OnReplySpec(p, i, size, httpStatus, replyIndex, errorField).after.sent == p.sent + 1
  {
    assert i == p.sent;
    SequentialFailure(p, i);
    if httpStatus == 200 && replyIndex == Some(i) {
      SequentialSuccess(p, i, size);
    }
  }

  /** A failure of the chunk in flight puts it back to pending or stops, and keeps the discipline. */
  lemma SequentialFailure(p: Progress, i: nat)
    requires Sequential(p) && i < |p.status| && p.status[i] == IN_FLIGHT
    ensures Sequential(Failure(p, i).after)
  {
    assert i == p.sent;
  }

  /** Confirming the chunk in flight marks it done, advances `sent` and sends the next one. */
  lemma SequentialSuccess(p: Progress, i: nat, size: nat)
    requires Sequential(p) && i < |p.status| && p.status[i] == IN_FLIGHT
    ensures var q := Succeeded(p, i);
      q.sent == p.sent + 1 && Sequential(ApplyStep(q, NextStep(q.status, size)))
  {
    assert i == p.sent;
    var q := Succeeded(p, i);
    assert Sequential(q);
    SequentialStep(q, size);
  }

  // ---- The worker ----

  class Worker {
    var chunkList: array<int>
    var chunkRetries: array<nat>
    var activeXHRs: array<bool>
    var chunksSent: nat
    var chunkCount: nat
    var blobSize: nat

    /** Arrays sized to the chunk count; a held request only ever belongs to a chunk in flight. */
    ghost predicate Valid()
      reads this, chunkList, activeXHRs
    {
      chunkList.Length == chunkCount && chunkRetries.Length == chunkCount && activeXHRs.Length == chunkCount &&
      forall j :: 0 <= j < chunkCount && activeXHRs[j] ==> chunkList[j] == IN_FLIGHT
    }

    function Snapshot(): Progress
      reads this, chunkList, chunkRetries, activeXHRs
    {
      Progress(chunkList[..], chunkRetries[..], activeXHRs[..], chunksSent)
    }

    constructor()
      ensures Valid() && chunkCount == 0 && blobSize == 0
    {
      chunkList := new int[0];
      chunkRetries := new nat[0];
      activeXHRs := new bool[0];
      chunksSent := 0;
      chunkCount := 0;
      blobSize := 0;
    }

    /** `onmessage`: size the arrays for a new blob, clear them, and start the first step. */
    method OnMessage(size: nat) returns (step: Step)
      modifies this
      ensures Valid() && blobSize == size && chunkCount == ChunkCount(size)
      ensures fresh(chunkList) && fresh(chunkRetries) && fresh(activeXHRs)
      ensures step == NextStep(Initial(chunkCount).status, size)
      ensures Snapshot() == ApplyStep(Initial(chunkCount), step)
    {
      blobSize := size;
      chunksSent := 0;
      chunkCount := ChunkCount(size);
      chunkList, chunkRetries, activeXHRs := ClearedArrays(chunkCount);
      assert Snapshot() == Initial(chunkCount);
      step := UploadNextChunk();
    }

    /** The three per-chunk arrays of `onmessage`, allocated and filled with 0, 0 and `false`. */
    static method ClearedArrays(n: nat) returns (status: array<int>, retries: array<nat>, active: array<bool>)
      ensures fresh(status) && fresh(retries) && fresh(active)
      ensures status[..] == Initial(n).status && retries[..] == Initial(n).retries && active[..] == Initial(n).active
    {
      status := new int[n];
      retries := new nat[n];
      active := new bool[n];
      var i := 0;
      while i < n
        invariant 0 <= i <= n
        invariant forall j :: 0 <= j < i ==> status[j] == PENDING && retries[j] == 0 && !active[j]
        modifies status, retries, active
      {
        status[i] := PENDING;
        retries[i] := 0;
        active[i] := false;
        i := i + 1;
      }
    }

    /** `uploadNextChunk`: a scan for "all done", then a scan for the lowest pending chunk. */
    method UploadNextChunk() returns (step: Step)
      requires Valid()
      modifies chunkList, activeXHRs
      ensures Valid()
      ensures step == NextStep(old(chunkList[..]), blobSize)
      ensures step.Send? ==> step.index < chunkCount
      ensures Snapshot() == ApplyStep(old(Snapshot()), step)
    {
      var allDone := true;
      var i := 0;
      while i < chunkList.Length
        invariant 0 <= i <= chunkList.Length
        invariant allDone <==> forall j :: 0 <= j < i ==> chunkList[j] == DONE
      {
        if chunkList[i] != DONE {
          allDone := false;
        }
        i := i + 1;
      }
      assert chunkList[..i] == chunkList[..];
      if allDone {
        return StartMerge;
      }
      i := 0;
      while i < chunkList.Length
        invariant 0 <= i <= chunkList.Length
        invariant forall j :: 0 <= j < i ==> chunkList[j] != PENDING
      {
        if chunkList[i] == PENDING {
          // The abort of a previous request for this chunk never happens.
          assert !activeXHRs[i];
          activeXHRs[i] := true;
          chunkList[i] := IN_FLIGHT;
          return Send(i, ChunkStart(i), ChunkEnd(i, blobSize));
        }
        i := i + 1;
      }
      return Wait;
    }

    /** `handleFailure` for chunk `chunkIndex`. */
    method HandleFailure(chunkIndex: nat) returns (reaction: Reaction)
      requires Valid() && chunkIndex < chunkCount
      modifies chunkList, chunkRetries, activeXHRs
      ensures Valid()
      ensures Transition(reaction, Snapshot()) == Failure(old(Snapshot()), chunkIndex)
    {
      activeXHRs[chunkIndex] := false;
      chunkRetries[chunkIndex] := chunkRetries[chunkIndex] + 1;
      if chunkRetries[chunkIndex] >= MAX_RETRIES {
        return PostFail(GIVE_UP_MESSAGE);
      }
      chunkList[chunkIndex] := PENDING;
      reaction := Retry(RetryDelay(chunkRetries[chunkIndex]));
    }

    /** `onreadystatechange` at readyState 4 for the request of chunk `chunkIndex`. */
    method OnReply(chunkIndex: nat, httpStatus: int, replyIndex: Option<int>, errorField: Option<string>) returns (reaction: Reaction)
      requires Valid() && chunkIndex < chunkCount
      modifies this, chunkList, chunkRetries, activeXHRs
      ensures Valid()
      ensures chunkList == old(chunkList) && chunkRetries == old(chunkRetries) && activeXHRs == old(activeXHRs)
      ensures chunkCount == old(chunkCount) && blobSize == old(blobSize)
      ensures Transition(reaction, Snapshot()) ==
        OnReplySpec(old(Snapshot()), chunkIndex, blobSize, httpStatus, replyIndex, errorField)
    {
      if httpStatus != 200 {
        if httpStatus == 429 || httpStatus == 507 {
          return PostFail(QuotaFailure(errorField));
        }
        reaction := HandleFailure(chunkIndex);
        return;
      }
      if replyIndex != Some(chunkIndex) {
        reaction := HandleFailure(chunkIndex);
        return;
      }
      activeXHRs[chunkIndex] := false;
      if chunkList[chunkIndex] != DONE {
        chunksSent := chunksSent + 1;
      }
      chunkList[chunkIndex] := DONE;
      chunkRetries[chunkIndex] := 0;
      ghost var confirmed := Snapshot();
      assert confirmed == Succeeded(old(Snapshot()), chunkIndex);
      var step := UploadNextChunk();
      reaction := Next(step);
    }

    /** `onerror` and `ontimeout`: both are a failure of the request. */
    method OnTransportError(chunkIndex: nat) returns (reaction: Reaction)
      requires Valid() && chunkIndex < chunkCount
      modifies chunkList, chunkRetries, activeXHRs
      ensures Valid()
      ensures Transition(reaction, Snapshot()) == Failure(old(Snapshot()), chunkIndex)
    {
      reaction := HandleFailure(chunkIndex);
    }
  }

  // ---- The merge reply ----

  /** What a reply body parsed to (`JSON.parse` failing is `None` in the caller). */
  datatype MergeBody = MergeBody(error: Option<string>, maxSize: int, fileName: Option<string>)

  /** What the worker posts to the page; `Success` carries `response.fileName`. */
  datatype Posted = Success(fileName: Option<string>) | Fail(error: string)

  const MERGE_FAILED: string := "Upload failed. Please try again."
  const NETWORK_ERROR: string := "Network error. Please check your connection and try again."
  const MERGE_TIMEOUT: string := "Upload took too long. Try a smaller file or check your connection."

  /**
   * The merge request's `onreadystatechange` at readyState 4 with the server's
   * status and the parsed body. `humanSize` stands for `humanFileSize(maxSize || 0, true)`.
   */
  function MergeReply(httpStatus: int, body: Option<MergeBody>, humanSize: int -> string): (m: Posted)
    ensures m.Success? <==> httpStatus == 200 && body.Some?
    ensures m.Success? ==> m.fileName == body.value.fileName
    ensures httpStatus == 200 && body.None? ==> m == Fail("Server error. Please try again.")
  {
    if httpStatus == 200 then
      if body.Some? then Success(body.value.fileName) else Fail("Server error. Please try again.")
    else if body.None? then
      Fail(if httpStatus == 403 then "This file type is not allowed."
           else if httpStatus == 413 then "File is too large."
           else if httpStatus == 429 then "Upload limit reached. Try again later."
           else if httpStatus == 507 then "Server storage is full."
           else MERGE_FAILED)
    else if body.value.error.None? || body.value.error.value == "" then Fail(MERGE_FAILED)
    else
      Fail(if httpStatus == 403 then "This file type is not allowed. Please upload a different file."
           else if httpStatus == 413 then "File is too large. Maximum size allowed is " + humanSize(body.value.maxSize) + "."
           else if httpStatus == 429 then "Upload limit reached. Please try again later."
           else if httpStatus == 507 then "Server storage is full. Please contact support."
           else if httpStatus == 400 then "Invalid file data. Please try again."
           else body.value.error.value)
  }

  /**
   * The messages a merge request that fails in transport posts: `readystatechange`
   * still fires with readyState 4 and status 0 and an empty body, and then
   * `onerror` (or `ontimeout`) posts a FAIL of its own.
   */
  function MergeTransportPosts(timedOut: bool, humanSize: int -> string): (posts: seq<Posted>)
    ensures |posts| == 2 && posts[0].Fail? && posts[1].Fail?
  {
    [MergeReply(0, None, humanSize), Fail(if timedOut then MERGE_TIMEOUT else NETWORK_ERROR)]
  }

  /**
   * A merge lost to the network or the timeout reports the file as failed twice,
   * first with the generic text and then with the transport's own.
   */
  lemma MergeTransportFailsTwice(timedOut: bool, humanSize: int -> string)
    ensures var posts := MergeTransportPosts(timedOut, humanSize);
      posts[0] == Fail(MERGE_FAILED)
      && posts[1] == Fail(if timedOut then MERGE_TIMEOUT else NETWORK_ERROR)
      && posts[0].error != posts[1].error
  {
    assert |MERGE_FAILED| < |NETWORK_ERROR| && |MERGE_FAILED| < |MERGE_TIMEOUT|;
  }

  /** A refusal with an explanation the worker has no fixed text for is passed through verbatim. */
  lemma MergeReplyPassesServerError(httpStatus: int, body: MergeBody, humanSize: int -> string)
    requires httpStatus !in {200, 400, 403, 413, 429, 507}
    requires body.error.Some? && body.error.value != ""
    ensures MergeReply(httpStatus, Some(body), humanSize) == Fail(body.error.value)
  {
  }
}
