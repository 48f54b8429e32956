# Simple File Sharer, modelled in Dafny

Simple File Sharer is a small self-hosted file-sharing service. This project
models five parts of it:

- **The server's upload pipeline** (`index.js`).
  - A browser sends a file as numbered chunks of 1 MiB each.
  - The server checks the storage quotas on the first chunk.
  - It encrypts each chunk into an `IV | tag | ciphertext` frame and records a row per chunk.
  - On merge it reads the session's chunks in `chunk_id` order, decrypts and concatenates them.
  - It then applies the size, checksum and MIME gates.
  - Finally it publishes the file under a fresh random or hash-derived id, in one transaction.
- **The server's supporting parts** (`index.js`):
  - download by id and collection listing;
  - the three periodic sweeps: orphan chunks, old files, old audit rows;
  - the login lockout and concurrent-session maps;
  - filename sanitising, constant-time comparison and IP fingerprinting.
- **The browser's upload web worker** (`static/js/upload.webworker.js`).
  - It splits the blob into chunks and sends them one at a time.
  - It backs off exponentially on failure and gives up on quota or policy rejections.
  - When every chunk is done it sends the merge request and interprets the answer.
  - It base64-encodes with its own `encode64`.
- **The Python command-line client** (`tools/lib/sfs_client.py`).
  - It validates and normalises the server URL, and keeps a session file with an expiry.
  - It uploads chunks with a fixed retry schedule, merges, and aggregates multi-file uploads.
- **The legacy dispatcher** (`router.js`, `handlers.js`).
  - It picks the first path segment, looks it up in a handler table and answers 404 if nothing handles the path.

The model has one module per component:

| file | module | models |
|---|---|---|
| `wrappers.dfy` | `Wrappers` | Option/Result |
| `bytes.dfy` | `Bytes` | a `byte` newtype |
| `numerals.dfy` | `Numerals` | decimal `toString` |
| `quota.dfy` | `Quota` | `checkUploadQuotas` |
| `utf16.dfy` | `Utf16` | JavaScript strings as UTF-16 code units, `Buffer.from(…, 'utf8')` |
| `filenames.dfy` | `Filenames` | `sanitizeFilename`, the download-key strip |
| `headers.dfy` | `Headers` | Node's check of header values, on code units and on characters |
| `secrets.dfy` | `Secrets` | `timingSafeEqual`, `hashIP` |
| `framing.dfy` | `Framing` | `encryptChunk`, `decryptChunk` |
| `idalloc.dfy` | `IdAlloc` | `safeRandomId`, `shortenHash`, `hashId` |
| `auth.dfy` | `Auth` | `failedLogins`, `activeSessions` as classes with `map` fields |
| `ledger.dfy` | `Ledger` | the tables as row sequences, `ORDER BY chunk_id`, the sweep filters |
| `assembly.dfy` | `Assembly` | the merge's read loop and count check |
| `pipeline.dfy` | `Pipeline` | the `Server` class: upload, merge, download, collection, sweeps |
| `scheduler.dfy` | `Scheduler` | the web worker as a class over arrays; merge reply |
| `base64.dfy` | `Base64` | `encode64` |
| `client.dfy` | `Client` | `SFSClient` |
| `split.dfy` | `Splitting` | JavaScript `split` and `pop` |
| `router.dfy` | `Router` | `get_dir`, `route` |
| `handlers.dfy` | `Handlers` | the handler table, `serveDownload`'s key filter, `serveUpload`'s comma strip |

The databases, the file system, the clock, randomness, hashing, the cipher and
the network enter as parameters:

- the database tables are sequences of rows;
- the stored blobs are maps from names to bytes;
- the database, file and network failures that change the outcome are booleans or oracle functions the caller supplies; the ones the source only logs are listed under "## Left out".

## Model

| member | source | states |
|---|---|---|
| Numerals.Decimal | index.js:952-956 | a chunk index prints as a non-empty run of digits, one digit exactly for values below 10 |
| Numerals.DecimalInjective | index.js:952-956 | different chunk indices print differently |
| Quota.CheckUploadQuotas | index.js:77-166 | admits exactly when no enabled limit is exceeded and no failed query matters; an exceeded global limit answers 507, a per-IP limit 429, both with a one-day retry; a query failure with any check enabled answers 500 |
| Quota.FirstViolation | index.js:116-156 | reports the kind of the first violated check in order, and none exactly when no check is violated |
| Quota.QuotaReportsFirstViolation | index.js:77-156 | unless a query failed with a check enabled, the quota decision names the first of storage, daily bytes and daily files that is exceeded, and admits when none is |
| Quota.UsageOf | index.js:77-112 | a disabled check issues no query; the global total is the sum of all sizes, NULL exactly on an empty table; the per-IP daily total is NULL exactly when that uploader has no row from the last day and is otherwise the sum of those rows' sizes; the per-IP count is the number of those rows |
| Quota.QuotaIgnoresDisabledChecks | index.js:77-166 | aggregates of disabled checks never influence the decision |
| Quota.QuotaMonotone | index.js:116-156 | usage below usage that is admitted is admitted too |
| Quota.DailyRows | index.js:86-112 | the per-IP daily query selects exactly the rows of that IP newer than the cutoff |
| Quota.DailyRowsKeepCounts | index.js:86-112 | each recent row of that IP is selected as often as it occurs in the table, and no other row |
| Quota.DailyRowsKeepOrder | index.js:86-112 | the selected rows keep their table order |
| Quota.SqlSum | index.js:86-112 | `SUM` is NULL exactly on no rows, and otherwise the total of the sizes |
| Quota.DailyUsageIgnoresOldAndForeignRows | index.js:86-112 | a row of another IP, or one older than a day, leaves the daily rows unchanged |
| Quota.SumSizesAppend | index.js:86-112 | the global total grows by exactly the appended row's size |
| Utf16.DecodeInvertsUtf8 | index.js:216-217 | the UTF-8 bytes `Buffer.from` makes of a well-formed string decode back to that string |
| Utf16.Utf8Injective | index.js:216-217 | two well-formed strings with the same UTF-8 bytes are the same string |
| Utf16.LoneSurrogatesCollide | index.js:216-217 | every lone surrogate encodes as the bytes of U+FFFD, and a lone surrogate is not well-formed |
| Utf16.UnitsWellFormed | index.js:183-206 | the code units of a stored name are well-formed UTF-16 |
| Utf16.RepeatedAstralUnits | index.js:199-202 | n copies of U+1F600 are 2n code units, alternating high and low surrogate |
| Filenames.RemoveControls | index.js:183-206 | keeps exactly the code units that are not control characters |
| Filenames.RemoveControlsKeepsOrder | index.js:183-206 | every other code unit is kept as often as it occurs, in its order, and no control unit remains |
| Filenames.ReplaceSeparators | index.js:183-206 | replaces each `/` and `\` by `_` and keeps every other code unit in place |
| Filenames.ReplaceDotDot | index.js:183-206 | rewrites each `..` pair, left to right, to `_` (`....` gives `__`, `...` gives `_.`), never lengthens, keeps a name non-empty, and introduces no code unit but `_` |
| Filenames.ReplaceDotDotKeepsPlain | index.js:183-206 | a name without `..` is unchanged |
| Filenames.ReplaceDotDotCounts | index.js:183-206 | every pair rewritten turns two dots into one `_`: the output has one more `_` and two fewer dots per code unit it is shorter, and every other code unit as often as the input |
| Filenames.ReplaceDotDotJoin | index.js:183-206 | the rewrite works piecewise across a boundary that does not follow a dot |
| Filenames.ReplaceDotDotRun | index.js:183-206 | a run of 2n dots becomes n underscores, and a run of 2n+1 dots n underscores followed by a dot |
| Filenames.ReplaceDotDotLeavesNoDotDot | index.js:183-206 | no `..` survives the rewrite |
| Filenames.StripLeadingDots | index.js:183-206 | removes exactly the leading dots, leaving a suffix that does not start with a dot |
| Filenames.LastDot | index.js:183-206 | finds the last dot, or reports that there is none |
| Filenames.Extension | index.js:183-206 | the extension is empty or a dot followed by at least one non-dot character, and it is a suffix of the name |
| Filenames.ExtensionIsLongestDotSuffix | index.js:183-206 | the extension starts at the last dot when one character or more follows it |
| Filenames.SanitizedName | index.js:183-206 | the sanitised name is never empty |
| Filenames.CleanedIsSafe | index.js:183-206 | the cleaned name holds only safe code units, does not start with a dot and contains no `..` |
| Filenames.TruncateKeepsCharacters | index.js:183-206 | truncation adds no code unit |
| Filenames.Truncate | index.js:199-203 | a name of at most 255 code units is kept; a longer one becomes 255 code units ending in its extension (or the extension alone when that is longer) |
| Filenames.SanitizedNameIsSafe | index.js:183-206 | every code unit of every sanitised name is safe |
| Filenames.SanitizedNameKeepsExtension | index.js:183-206 | a name longer than 255 UTF-16 code units is cut to exactly 255 code units, keeping its extension at the end and its head in front |
| Filenames.SanitizedNameShortUnchanged | index.js:183-206 | a name of at most 255 code units is the cleaned name itself, or the fallback when nothing is left |
| Filenames.SanitizeFilename | index.js:183-206 | the method computes the sanitised name of the name's code units: non-empty and safe, with the fallback for a missing or empty name |
| Filenames.CleanedKeepsPlainNames | index.js:183-197 | a name of safe code units that starts with no dot and holds no `..` passes the cleaning passes unchanged |
| Filenames.SanitizedNameSplitsSurrogatePair | index.js:199-202 | the well-formed name of 128 × U+1F600 is 256 code units, and its sanitised form is 255 code units ending in a lone high surrogate |
| Filenames.CorrectedTruncate | index.js:199-203 | the corrected cut keeps the bound and the extension of the original cut and moves the cut back by one unit when it would fall inside a surrogate pair |
| Filenames.CleanedWellFormed | index.js:183-197 | the cleaning passes keep a well-formed name well-formed |
| Filenames.CorrectedSanitizedNameWellFormed | index.js:183-206 | with the corrected cut, a well-formed name sanitises to a well-formed name of at most 255 code units |
| Filenames.StripDownloadExtension | index.js:997 | removes the last four characters exactly when they are a dot and three alphanumerics, and otherwise keeps the key |
| Secrets.PadEnd | index.js:209-226 | pads with NUL to the longer length, keeping the original prefix |
| Secrets.TimingSafeEqual | index.js:209-226 | a missing string is never accepted, and strings whose NUL-padded forms are equal always are |
| Secrets.PaddedEqualMeaning | index.js:209-226 | two strings have equal NUL-padded forms exactly when they are equal up to trailing NUL units |
| Secrets.TimingSafeEqualMeaning | index.js:209-226 | two present strings equal up to trailing NUL units are accepted; an accepted pair is present, and equal up to trailing NULs whenever both strings are well-formed UTF-16 |
| Secrets.TimingSafeEqualAcceptsNulSuffix | index.js:209-226 | a string with NUL characters appended is different but compares equal |
| Secrets.TimingSafeEqualConflatesLoneSurrogates | index.js:216-217 | two different lone surrogates compare equal, because both encode as U+FFFD |
| Secrets.ConstantTimeEqualIsEquality | index.js:209-226 | the corrected comparison accepts exactly equal present strings |
| Secrets.HashIp | index.js:228-241 | a missing or empty address is `unknown`, and any other is the digest of address and secret |
| Secrets.HashIpSeparatesAddresses | index.js:228-241 | the `unknown` fingerprint belongs exactly to a missing or empty address, and distinct addresses get distinct fingerprints when the digest separates them |
| Framing.EncryptChunk | index.js:256-266 | the stored frame starts with the IV |
| Framing.SplitFrame | index.js:269-280 | the three parts concatenate back to the blob; the IV and tag have their fixed lengths when the blob is long enough |
| Framing.SplitFrameInvertsConcat | index.js:269-280 | splitting a frame built from an IV, tag and ciphertext gives those parts back |
| Framing.DecryptChunk | index.js:269-280 | decryption opens bytes 16 to 32 as the tag over bytes 0 to 16 as the IV and the rest as ciphertext |
| Framing.EncryptedLength | index.js:256-266 | a frame is 32 bytes longer than its chunk: a 16-byte IV and a 16-byte tag |
| Framing.DecryptInvertsEncrypt | index.js:256-280 | decrypting an encrypted chunk gives the chunk back when the cipher opens what it sealed |
| IdAlloc.ValidChars | index.js:42 | the id alphabet has 66 symbols |
| IdAlloc.Candidate | index.js:840-876 | the try after k collisions has length 4 + k |
| IdAlloc.RandomIdFrom | index.js:840-876 | a returned id is the first candidate that is free and whose query succeeded, with every earlier try a collision; otherwise the search stops on a query failure or the retry limit |
| IdAlloc.SafeRandomId | index.js:840-876 | a returned id is free, 4 to 14 symbols long, follows only collisions, and is the candidate its attempt draws |
| IdAlloc.SafeRandomIdOutcome | index.js:840-876 | no id comes back exactly when the search stops on a failed query or exhausts its retries |
| IdAlloc.StoredSymbolIsDigit | index.js:853-858 | every symbol as stored is a decimal digit, and `0` for every byte that selects a letter or punctuation |
| IdAlloc.IntendedSymbolCoversAlphabet | index.js:853-858 | the intended mapping reaches every symbol of the alphabet and stays inside it |
| IdAlloc.DotFreeIdsSurviveDownloadStrip | index.js:997 | an id without a dot passes the download-key strip unchanged |
| IdAlloc.PrefixSearchStopsEarlier | index.js:893-912 | a prefix search that stops from a later length also stops from an earlier one |
| IdAlloc.ShortenFrom | index.js:893-912 | returns the shortest free prefix from the starting length, every shorter one being taken, or a stop on failure or at the full length |
| IdAlloc.ShortenHash | index.js:893-912 | a short hash is a free proper prefix of at least 4 characters, and every shorter candidate from 4 is taken |
| IdAlloc.ShortenHashIsShortestFreePrefix | index.js:893-912 | without failures, shortening fails exactly when every proper prefix from length 4 is taken |
| IdAlloc.HashId | index.js:878-891 | without short hashes the id is the digest of name, time, secret and address; with them it is the shortened digest, a free prefix of at least 4 characters |
| Auth.AfterLockCheck | index.js:567-581 | the lock check removes the user's entry exactly when its lock has expired and touches no other user |
| Auth.RecordFailure | index.js:583-597 | the count goes up by one; the fifth failure and every later one sets a 15-minute lock from now; other users are untouched |
| Auth.RecordFailuresCount | index.js:583-597 | a run of failures adds one to the count per failure |
| Auth.RecordFailuresLastLock | index.js:583-597 | once the limit is reached, the lock runs from the last failure |
| Auth.FifthFailureLocks | index.js:560-597 | five failures lock the account exactly until 15 minutes after the fifth, and four do not |
| Auth.FourFailuresUnlocked | index.js:583-597 | below the limit no lock is set |
| Auth.LoginGuard.constructor | index.js:559 | the failure map starts empty |
| Auth.LoginGuard.IsAccountLocked | index.js:567-581 | answers whether the lock is in force and leaves the map as the lock check does |
| Auth.LoginGuard.RecordFailedLogin | index.js:583-597 | updates the map by one failure and answers true exactly when the account is now locked |
| Auth.LoginGuard.ResetFailedLogins | index.js:599-601 | removes exactly the user's entry |
| Auth.AddSession | index.js:603-616 | appends the new session, dropping the oldest when three are already active, so at most three remain and the newest is last |
| Auth.RemoveSession | index.js:618-627 | keeps exactly the other sessions, each as often as it occurs and in its order |
| Auth.RemoveAbsentSession | index.js:618-627 | removing an absent session changes nothing |
| Auth.AddThenRemoveSession | index.js:603-627 | below the limit, adding and then removing a new session restores the list |
| Auth.RemoveAppend | index.js:603-627 | removing a session also removes its appended copy |
| Auth.SessionRegistry.constructor | index.js:564 | the session map starts empty |
| Auth.SessionRegistry.AddActiveSession | index.js:603-616 | the user's list becomes the list with the session added, starting from an empty list |
| Auth.SessionRegistry.RemoveActiveSession | index.js:618-627 | the user's list loses the session and the user is deleted once the list is empty; an absent user changes nothing |
| Ledger.RowsOf | index.js:1105-1120 | selects exactly the chunk rows of the session, each as often as it occurs, in table order |
| Ledger.RowsNotOf | index.js:1309-1321 | keeps exactly the chunk rows of other sessions, each as often as it occurs, in table order |
| Ledger.InsertByChunkId | index.js:1105-1120 | inserting a row adds exactly one row |
| Ledger.InsertByChunkIdPermutes | index.js:1105-1120 | insertion adds the row and loses none |
| Ledger.InsertByChunkIdSorted | index.js:1105-1120 | insertion keeps the rows ordered by chunk index |
| Ledger.OrderByChunkId | index.js:1105-1120 | `ORDER BY chunk_id` is a permutation of the rows, sorted by chunk index |
| Ledger.KeepSince | index.js:409-543 | the sweeps keep exactly the rows stamped at or after the cutoff |
| Ledger.ExpiredBefore | index.js:409-543 | the sweeps select exactly the rows stamped before the cutoff |
| Ledger.KeepSinceIdempotent | index.js:409-543 | sweeping twice with the same cutoff is sweeping once |
| Ledger.SweepPartitions | index.js:409-543 | kept and expired rows together are exactly the original rows |
| Assembly.SessionRows | index.js:1105-1120 | the merge query returns the session's rows, sorted by chunk index, as a permutation |
| Assembly.Assemble | index.js:1131-1150 | a complete read lists every row's chunk file in row order |
| Assembly.AssembleUpTo | index.js:1131-1150 | a complete read of n rows lists the n chunk files in row order |
| Assembly.FailureIsFinal | index.js:1131-1150 | after the first unreadable chunk the read changes no more |
| Assembly.ReadChunks | index.js:1131-1150 | the loop writes what the read specification assembles, and the file size is the number of bytes written |
| Assembly.FlattenLength | index.js:1156-1188 | the merged size is the sum of the chunk sizes |
| Assembly.AssembleCompleteIff | index.js:1131-1150 | the read is complete exactly when every chunk is present and decrypts |
| Assembly.AssembleConcatenates | index.js:1131-1150 | a read is the concatenation of the decrypted chunks it covers |
| Assembly.Indices | index.js:1123-1127 | the expected index set is exactly 0 up to the chunk count |
| Assembly.RowsOfOneSession | index.js:1105-1120 | rows all of one session are all selected |
| Assembly.OrderOfSortedRows | index.js:1105-1120 | ordering rows that are already sorted leaves them alone |
| Assembly.SessionRowsOfSortedSession | index.js:1105-1120 | the query on a sorted single-session table returns the table |
| Assembly.CountCheckAcceptsGap | index.js:1123-1127 | indices 0 and 5 pass the count check for two chunks although the index set is wrong |
| Assembly.CountCheckRejectsRetry | index.js:1123-1127 | any session whose rows carry indices 0, 0 and 1 (a retried chunk 0) fails the count check for two chunks although every index is present |
| Assembly.DistinctIndices | index.js:1123-1127 | the deduplicated rows come from the query and start with its first index |
| Assembly.DistinctIndicesKeepsIndexSet | index.js:1123-1127 | deduplication keeps the set of indices |
| Assembly.DistinctIndicesIncrease | index.js:1123-1127 | deduplicated sorted rows have strictly increasing indices |
| Assembly.IncreasingExact | index.js:1123-1127 | strictly increasing indices are exactly 0 to n-1 exactly when the index set is |
| Assembly.CorrectedCheckMeaning | index.js:1123-1127 | the corrected check passes exactly when the index set is 0 to n-1 |
| Assembly.CorrectedMergeIsInOrder | index.js:1123-1150 | after the corrected check the merged file is the chunks concatenated in index order |
| Pipeline.ChunkNamesDiffer | index.js:952-956 | two chunks of one session get different stored names |
| Pipeline.QuotaGate | index.js:938-950 | only chunk 0 is quota-checked, against the uploader's usage |
| Pipeline.QuotaReply | index.js:938-950 | a rejection answers its own code and message with the decision's retry time, or the default |
| Pipeline.AppendKeepsShasUnique | index.js:1290-1299 | publishing a fresh id keeps the file ids unique |
| Pipeline.KeepSinceKeepsShasUnique | index.js:462-515 | the old-files sweep keeps the file ids unique |
| Pipeline.CollectionRows | index.js:1362 | selects exactly the collection's files, each as often as it occurs, in table order |
| Pipeline.OldestTimestamp | index.js:1372-1382 | the oldest timestamp belongs to a row and bounds every row from below |
| Pipeline.ListedOf | index.js:1384-1388 | the listing shows each row of the collection once, in order |
| Pipeline.CollectionLookup | index.js:1357-1394 | a query failure answers 500, an unknown collection 404, and an expired one (any file past the expiry) 410; otherwise it lists every file of the collection, in order |
| Pipeline.FindSha | index.js:999-1011 | finds a file row with the id exactly when one exists |
| Pipeline.MainType | index.js:1027-1028 | the main type is the MIME type up to its first slash |
| Pipeline.Discarded | index.js:1156-1279 | a rejected merge removes the session's chunk rows, the output blob and the chunk blobs, and leaves files and audit alone |
| Pipeline.PublishAddsOneFreshArtifact | index.js:1281-1355 | a successful merge adds exactly one file row, with a fresh id and the written size, and leaves no chunk row of the session; a failed one adds no file; status 200 means success |
| Pipeline.GateOutcome | index.js:1153-1279 | a gate answers 413, 422 or 403 after removing the output blob and the session's chunk rows, or 500 changing nothing; no gate adds a file |
| Pipeline.PublishOutcome | index.js:1281-1355 | the transaction answers 200 with one appended file row under a free id and the session's rows gone, or 409 or 500 changing nothing |
| Pipeline.PolicyRejectionCleansUp | index.js:1156-1299 | rejections for size, checksum or MIME type leave no output blob, no chunk row of the session and no new file; a duplicate id (409) changes nothing |
| Pipeline.Server.constructor | index.js:915-990 | the server starts with empty tables and stores |
| Pipeline.Server.UploadChunk | index.js:915-990 | an empty body answers 400; a quota rejection audits and answers the rejection; an insert failure answers 500; otherwise the chunk row is appended and, unless the write fails, the encrypted frame is stored under the chunk name |
| Pipeline.Server.Merge | index.js:1065-1355 | an id allocator that throws answers 500 `Error generating filename` and a missing or empty id 500 `Failed to create filename`, both changing nothing; otherwise the output blob is created first, then a query failure answers 500, no rows 404 and a failed count check 400; a passing session is merged as the merge specification says |
| Pipeline.Server.AssembleAndConclude | index.js:1131-1355 | reading, gating and publishing follow the merge specification |
| Pipeline.Server.Conclude | index.js:1153-1355 | when a gate rejects, the size gate answers 413, the checksum gate 422 and the MIME gate 403, each deleting the artifact, the chunk blobs read and the session's rows, while an unreadable checksum answers 500 keeping everything; otherwise the transaction publishes the file with 200, or answers 409 or 500 changing nothing |
| Pipeline.Server.ApplyGates | index.js:1156-1279 | rejects exactly when the size, checksum or MIME policy does, cleaning up as the policy requires, and otherwise changes nothing |
| Pipeline.Server.Publish | index.js:1281-1355 | the transaction inserts the file, deletes the session's chunks and commits, or answers 409 or 500 as specified |
| Pipeline.Server.SweepOrphanChunks | index.js:409-459 | chunk blobs older than a day are deleted and their rows removed unless the delete fails; nothing else changes |
| Pipeline.Server.SweepOldFiles | index.js:462-515 | when retention is on, expired files' blobs are deleted and their rows removed unless the delete fails |
| Pipeline.Server.SweepAuditLog | index.js:522-543 | when retention is on, audit rows older than the window are removed unless the delete fails |
| Pipeline.Server.Download | index.js:992-1063 | a query failure answers 500 and a missing row or blob 404; otherwise the row with the id is served as the row-serving step says |
| Pipeline.Server.ServeRow | index.js:1020-1062 | a sanitised name that is not well-formed UTF-16 makes `encodeURIComponent` throw, so no answer is sent and nothing is audited; an image whose sanitised name holds a code unit Node refuses in a header crashes the process after the audit entry is queued; otherwise the file is served under its sanitised name and MIME type, inline exactly for images, and the download is audited; only the audit log changes |
| Pipeline.ImageDownloadCrashesBeyondLatin1 | index.js:1027-1037 | an image whose sanitised name encodes crashes the download exactly when some code unit of that name is above 0xFF |
| Pipeline.HanImageNameCrashesDownload | index.js:1027-1037 | a stored image named U+4E2D crashes its download |
| Headers.HeaderSafeTextUnits | index.js:1031-1037 | Node's header rule on code units and the same rule on characters agree: a character above U+00FF always gives a unit above 0xFF |
| Headers.SanitizedHeaderSafeIff | index.js:1022-1035 | a sanitised name passes the header check exactly when none of its code units is above 0xFF |
| Headers.Latin1Fallback | index.js:1035 | the corrected quoted name has the same length and replaces exactly the code units above 0xFF by `?` |
| Headers.Latin1FallbackIsHeaderSafe | index.js:1035 | without control units the corrected quoted name always passes the header check |
| Headers.Latin1FallbackKeepsSafe | index.js:1035 | on a name the header accepts the correction changes nothing |
| Headers.CorrectedInlineNameIsHeaderSafe | index.js:1022-1035 | the corrected quoted name of every sanitised name passes the header check, and equals the name whenever the name already passed |
| Scheduler.ChunkCount | static/js/upload.webworker.js:324-328 | the chunk count is the least number of 1 MiB chunks covering the blob |
| Scheduler.Chunk | static/js/upload.webworker.js:308-310 | each chunk is non-empty and at most 1 MiB |
| Scheduler.ChunksCoverPrefix | static/js/upload.webworker.js:308-310 | the first n chunks concatenate to the blob's prefix of n chunk lengths |
| Scheduler.ChunksPartitionBlob | static/js/upload.webworker.js:308-310 | all chunks concatenate to the whole blob |
| Scheduler.Pow2 | static/js/upload.webworker.js:98 | powers of two are positive |
| Scheduler.RetryDelay | static/js/upload.webworker.js:98 | every backoff delay lies between 1 s and the 30 s cap |
| Scheduler.RetryDelayDoubles | static/js/upload.webworker.js:98 | the first retry waits 1 s, each later one doubles, and every delay lies between 1 s and the cap |
| Scheduler.RetryDelayCapped | static/js/upload.webworker.js:98 | from the sixth retry the delay is the cap |
| Scheduler.FirstPending | static/js/upload.webworker.js:305-314 | finds the first pending chunk, or reports that there is none |
| Scheduler.NextStep | static/js/upload.webworker.js:201-321 | the merge starts exactly when every chunk is done; a chunk sent is pending; the worker waits only when none is |
| Scheduler.NextStepMeaning | static/js/upload.webworker.js:201-321 | merge starts exactly when every chunk is done; one is sent exactly when some chunk is pending, and it is the first pending one; otherwise the worker waits |
| Scheduler.Failure | static/js/upload.webworker.js:77-103 | a failure keeps the worker state well formed |
| Scheduler.Succeeded | static/js/upload.webworker.js:132-153 | a success keeps the worker state well formed |
| Scheduler.OnReplySpec | static/js/upload.webworker.js:105-162 | every reply keeps the worker state well formed |
| Scheduler.QuotaRejectionIsFinal | static/js/upload.webworker.js:110-126 | a 429 or 507 reply reports a quota failure and schedules nothing |
| Scheduler.WrongIndexIsFailure | static/js/upload.webworker.js:132-153 | a 200 reply for another chunk index counts as a failure |
| Scheduler.FailureGivesUpAtLimit | static/js/upload.webworker.js:77-103 | the worker gives up exactly at the retry limit, and otherwise re-queues the chunk with the backoff delay |
| Scheduler.NetworkErrorCountsTwice | static/js/upload.webworker.js:105-187 | a network error or timeout runs the failure handler twice (status 0 on `readystatechange`, then the error event), adding two retries and giving up once the count reaches the limit |
| Scheduler.Initial | static/js/upload.webworker.js:339-343 | the initial state has one pending entry per chunk |
| Scheduler.SentCountsDoneChunks | static/js/upload.webworker.js:203-212 | in sequential operation the sent counter is the number of done chunks |
| Scheduler.InitialIsSequential | static/js/upload.webworker.js:339-343 | the initial state is sequential |
| Scheduler.SequentialStep | static/js/upload.webworker.js:305-314 | in sequential operation the next chunk sent is the next index, or the merge once all are sent, and sequencing is kept |
| Scheduler.SequentialFailure | static/js/upload.webworker.js:77-103 | a failure of the chunk in flight keeps sequencing |
| Scheduler.SequentialSuccess | static/js/upload.webworker.js:142-160 | confirming the chunk in flight advances the count by one and keeps sequencing after the next step |
| Scheduler.SequentialReply | static/js/upload.webworker.js:105-162 | only the chunk in flight gets a reply, every reply keeps sequencing, and a matching success advances by one |
| Scheduler.Worker.constructor | static/js/upload.webworker.js:323-347 | the worker starts with no chunks |
| Scheduler.Worker.ClearedArrays | static/js/upload.webworker.js:334-343 | the three arrays are new and hold pending, zero retries and no request for every chunk |
| Scheduler.Worker.OnMessage | static/js/upload.webworker.js:323-347 | a new blob sets up fresh arrays for its chunk count and takes the first scheduling step |
| Scheduler.Worker.UploadNextChunk | static/js/upload.webworker.js:201-321 | the step taken is the scheduler's next step, and the state changes as that step says |
| Scheduler.Worker.HandleFailure | static/js/upload.webworker.js:77-103 | the state and reaction are those of the failure specification |
| Scheduler.Worker.OnReply | static/js/upload.webworker.js:105-162 | the state and reaction are those of the reply specification |
| Scheduler.Worker.OnTransportError | static/js/upload.webworker.js:181-187 | a network error or timeout is handled as a failure |
| Scheduler.MergeReply | static/js/upload.webworker.js:226-278 | success exactly for a 200 with a parsable body, carrying the server's file name; a 200 without one is a server error |
| Scheduler.MergeReplyPassesServerError | static/js/upload.webworker.js:226-278 | for other statuses the server's own error message is shown |
| Scheduler.MergeTransportPosts | static/js/upload.webworker.js:226-298 | a merge lost to the network or the timeout posts two failures: `readystatechange` at status 0, then the error or timeout event |
| Scheduler.MergeTransportFailsTwice | static/js/upload.webworker.js:226-298 | the first failure carries the generic retry text and the second the transport's own message, so the two differ |
| Base64.KeyStrBySymbols | static/js/upload.webworker.js:25-29 | the key string is the symbol table followed by `=` |
| Base64.Group | static/js/upload.webworker.js:31-64 | each group is four characters |
| Base64.Encoded | static/js/upload.webworker.js:31-64 | the output length is a positive multiple of four |
| Base64.EncodedLength | static/js/upload.webworker.js:31-64 | the output is four characters per started group of three bytes, with one group for the empty input |
| Base64.EncodeGroup | static/js/upload.webworker.js:39-58 | one pass of the loop body computes the group of the next three bytes, with its padding |
| Base64.Encode64 | static/js/upload.webworker.js:31-64 | the do-while loop computes the encoding |
| Base64.SymbolValueOfKey | static/js/upload.webworker.js:25-29 | each symbol decodes to its own index |
| Base64.DecodeFirstGroup | static/js/upload.webworker.js:31-64 | decoding consumes a leading group and continues with the rest |
| Base64.GroupRoundTrip | static/js/upload.webworker.js:31-64 | a group decodes to the up to three bytes it encodes |
| Base64.EncodedFirstGroup | static/js/upload.webworker.js:31-64 | the encoding is the first group followed by the encoding of the rest |
| Base64.LastGroupRoundTrip | static/js/upload.webworker.js:31-64 | inputs of at most three bytes decode back |
| Base64.DecodeInvertsEncode | static/js/upload.webworker.js:31-64 | decoding the encoding gives every non-empty input back |
| Base64.EmptyInputEncodesNul | static/js/upload.webworker.js:31-64 | the empty input encodes as `AA==`, the encoding of one NUL byte |
| Base64.SymbolIsNotPad | static/js/upload.webworker.js:25-29 | no data symbol is the pad character |
| Base64.GroupPadding | static/js/upload.webworker.js:31-64 | a group pads its third character exactly for one byte and its fourth exactly for at most two |
| Base64.PaddingMatchesRemainder | static/js/upload.webworker.js:31-64 | padding appears only at the end, as many as the input length is short of a multiple of three |
| Client.RStripSlash | tools/lib/sfs_client.py:53 | removes exactly the trailing slashes |
| Client.NormalizeServerUrl | tools/lib/sfs_client.py:53 | the normalised URL ends in a slash |
| Client.NormalizeIdempotent | tools/lib/sfs_client.py:53 | normalising twice is normalising once |
| Client.ValidateServerUrl | tools/lib/sfs_client.py:44-53 | an empty URL raises its message; a URL is accepted exactly with a scheme and a host, and stored ending in `/` |
| Client.ValidateServerUrlMeaning | tools/lib/sfs_client.py:44-53 | a URL is accepted exactly when it is non-empty with a scheme and a host, and it is then stored with exactly one trailing slash |
| Client.LoadSession | tools/lib/sfs_client.py:58-68 | a loaded token is the file's token, and at a non-negative time only a stored expiry in the future loads it |
| Client.SaveSession | tools/lib/sfs_client.py:70-83 | a saved session loads with its token until its expiry and not from then on |
| Client.SavedSessionLoadsUntilExpiry | tools/lib/sfs_client.py:58-83 | a saved token loads exactly until its expiry, one year by default |
| Client.NoExpiryNoSession | tools/lib/sfs_client.py:58-68 | a session file without an expiry never loads |
| Client.FirstDecisive | tools/lib/sfs_client.py:236-282 | finds the first attempt that succeeded or was rejected outright |
| Client.ChunkAcceptedMeaning | tools/lib/sfs_client.py:236-282 | a chunk is accepted exactly when some attempt answers 200 and no earlier attempt was decisive |
| Client.UploadChunkWithRetry | tools/lib/sfs_client.py:236-282 | the loop stops at the first decisive answer or after ten posts, sleeping the schedule's delays between posts, and reports acceptance |
| Client.NineDelaysSum | tools/lib/sfs_client.py:28-30 | the nine delays before the last attempt add up to 151 seconds |
| Client.RetrySleepBound | tools/lib/sfs_client.py:28-30 | one chunk sleeps at most 151 seconds |
| Client.ChunkCount | tools/lib/sfs_client.py:182 | the chunk count is the least number of 2 MiB chunks covering the file |
| Client.FirstRejected | tools/lib/sfs_client.py:190-197 | finds the first chunk that is not accepted |
| Client.MergeRequest | tools/lib/sfs_client.py:199-212 | the merge asks for enough chunks to cover the file (none for an empty file), and passes the collection only when it is a non-empty string |
| Client.MergeOutcome | tools/lib/sfs_client.py:199-234 | the merge succeeds exactly on a 200 with a file name, and links to `d/` plus that name |
| Client.FileOutcome | tools/lib/sfs_client.py:161-234 | a missing file fails with `File not found`, a success is the merge's own success, and a single upload never reports a collection |
| Client.FileOutcomeMeaning | tools/lib/sfs_client.py:161-234 | a file uploads exactly when it exists, every chunk is accepted and the merge succeeds; otherwise the first rejected chunk is named |
| Client.SFSClient.constructor | tools/lib/sfs_client.py:32-56 | stores the normalised URL and the loaded session |
| Client.SFSClient.SendChunks | tools/lib/sfs_client.py:182-197 | the chunks posted are consecutive slices of the file, stopping after the first rejected one, or covering the file |
| Client.SFSClient.UploadFile | tools/lib/sfs_client.py:161-234 | the outcome is the file specification's; a missing file posts nothing, a rejected chunk stops the upload without a merge, and a complete upload merges |
| Client.SFSClient.UploadMultiple | tools/lib/sfs_client.py:284-316 | one file uploads without a collection, and several are aggregated |
| Client.Results | tools/lib/sfs_client.py:284-316 | one result per input |
| Client.SuccessCount | tools/lib/sfs_client.py:307-316 | the count is at most the number of results |
| Client.SuccessCountPositive | tools/lib/sfs_client.py:307-316 | the count is positive exactly when some upload succeeded |
| Client.Aggregate | tools/lib/sfs_client.py:307-316 | a collection is reported exactly when some upload succeeded, with its id and a count between 1 and the number of results; otherwise `All uploads failed` |
| Client.AggregateMeaning | tools/lib/sfs_client.py:307-316 | a collection is reported exactly when some upload succeeded, with the success count and the collection link; otherwise all uploads failed |
| Client.NewClient | tools/lib/sfs_client.py:32-56 | an invalid URL raises its message and makes no client; a valid one makes a fresh client with the normalised URL and the loaded session |
| Splitting.Split | router.js:7 | split yields at least one part, and no part holds the separator |
| Splitting.JoinSplit | router.js:7 | joining the parts gives the string back |
| Splitting.SplitConcat | router.js:7 | a separator between two strings splits them independently |
| Splitting.SplitWithoutSep | router.js:7 | a string without separator is one part |
| Splitting.SplitJoin | router.js:7 | splitting undoes joining separator-free parts |
| Splitting.LastPartAfterLastSep | handlers.js:63-64 | `pop` gives what follows the last separator |
| Splitting.LastPartWithoutSep | handlers.js:63-64 | without a separator `pop` gives the whole string |
| Splitting.LastPartIsSuffix | handlers.js:63-64 | the last part is a separator-free suffix |
| Splitting.LastPartIdempotent | handlers.js:63-64 | taking the last part twice is taking it once |
| Router.NonEmpty | router.js:6-19 | the kept parts are non-empty parts of the input |
| Router.Dir | router.js:6-19 | the chosen segment is non-empty and holds no slash |
| Router.GetDir | router.js:6-19 | the loop computes the first non-empty segment, or `home` |
| Router.DirSkipsLeadingSlash | router.js:6-19 | a leading slash does not change the segment |
| Router.DirFirstSegment | router.js:6-19 | a path starting with a segment selects it, whatever follows |
| Router.NoSegmentIffSlashes | router.js:6-19 | no segment remains exactly for paths made only of slashes |
| Router.SlashesGoHome | router.js:6-19 | such paths route to `home` |
| Router.Route | router.js:21-32 | no callable handler answers 404, and a handled request is one whose handler returned a truthy value, with that handler's response |
| Router.AfterCall | router.js:21-32 | only a truthy handler result counts as handled, with the handler's own response |
| Router.RouteNotFoundMeaning | router.js:21-32 | 404 exactly when no handler is callable or it returns a falsy value; an exception exactly when the handler throws |
| Router.RouteCallsWithPathname | router.js:21-32 | the handler is called on the whole pathname, so paths with the same segment differ exactly as the handler's calls on them do |
| Handlers.OwnHandler | handlers.js:9-14 | the table's own keys are exactly `home`, `upload`, `static` and `d`, with never a built-in |
| Handlers.GetHandler | handlers.js:91-93 | the table's own keys find their handlers, the prototype's methods are callable too, and `__proto__` is found but not callable |
| Handlers.GetHandlerMeaning | handlers.js:91-93 | the lookup finds nothing exactly for keys outside the table and `Object.prototype`, and differs from the table exactly on prototype names |
| Handlers.KeepHex | handlers.js:63-64 | the filter keeps only lowercase hex digits and never lengthens |
| Handlers.KeepHexIsSubsequence | handlers.js:63-64 | the filtered key is a subsequence of the segment |
| Handlers.KeepHexFixedIff | handlers.js:63-64 | the filter changes nothing exactly on hex strings |
| Handlers.KeepHexIdempotent | handlers.js:63-64 | filtering twice is filtering once |
| Handlers.KeepHexConcat | handlers.js:63-64 | the filter works piecewise over concatenation |
| Handlers.DownloadKey | handlers.js:63-64 | the key is lowercase hex, a subsequence of the last segment, and no longer than the path |
| Handlers.DownloadKeyMeaning | handlers.js:63-64 | the key is the hex digits of the last segment, in order |
| Handlers.DownloadKeyIdempotent | handlers.js:63-64 | a key is its own key |
| Handlers.StripDataUrlPrefix | handlers.js:33 | the payload is a comma-free suffix of the contents |
| Handlers.StripDataUrlPrefixMeaning | handlers.js:33 | a data URL loses its prefix up to the last comma, and plain text is kept |
| Handlers.StripDataUrlPrefixIsSuffix | handlers.js:33 | the payload is a comma-free suffix and stripping twice is stripping once |
| Handlers.BuiltinCall | handlers.js:91-93 | a prototype method never responds, and returns a truthy value exactly for `constructor` and `toString` |
| Handlers.Invoke | handlers.js:19-93 | a handler writes a response only when it returns a truthy value; only `serveStatic` on a missing file returns a falsy one; `serveDownload` never throws, and its callback writes the file only when it is found, `writeHead` accepts the stored name and `readFileSync` can read the file |
| Handlers.Serve | router.js:21-32 | a request is a 404 exactly when its segment is neither a table key nor a prototype method, or it is a static path whose file is missing; an answered request has a table key |
| Handlers.StaticMeaning | handlers.js:49-59 | a static path is a 404 when its file is missing, is answered when it can be read, and throws when it exists but cannot be read |
| Handlers.HomeMeaning | handlers.js:19-23 | the home page is answered when `index.html` can be read, and throws otherwise |
| Handlers.ServeOneSegment | handlers.js:91-93 | a one-segment path is served by the handler the lookup finds, or is a 404 |
| Handlers.ConstructorPathAnswersNothing | handlers.js:91-93 | `/constructor` is considered handled but never answered |
| Handlers.ValueOfPathThrows | handlers.js:91-93 | `/valueOf` throws |
| Handlers.UnknownDownloadAnswersNothing | handlers.js:62-88 | a download of an unknown hex key is considered handled but never answered |
| Handlers.DownloadMeaning | handlers.js:62-88 | a download is considered handled with a response exactly when the row and file are found, the header accepts the stored name and the file can be read; it gets no response exactly when nothing is found or the callback throws, on a refused name or on a file `readFileSync` cannot read (a directory, no read permission) |
| Handlers.IntendedUnknownSegmentIsNotFound | handlers.js:91-93 | with own-key lookup every unknown segment is a 404 |
| Handlers.IntendedDownloadMeaning | handlers.js:62-88 | with the corrected result a download is answered when found, its stored name passes `writeHead` and the file can be read; it throws when found with a name the header refuses or a file `readFileSync` cannot read, and is a 404 when not found |
| Handlers.IntendedAlwaysAnswers | handlers.js:9-93 | the corrected dispatcher never leaves a request handled but unanswered, and throws only on a non-JSON upload, a home or static file that cannot be read, or a found download whose stored name the header refuses or whose file cannot be read |

## Left out

- HTTP and Express plumbing, request validators, headers and templates: the model starts from parsed parameters.
- AES-256-GCM, PBKDF2, SHA-256 and `randomBytes` are oracles passed as parameters; only the framing is modelled.
- SQLite and the file system are in-memory sequences of rows and maps of blobs.
- Failures the source only logs are not modelled: the `DELETE` and `unlink` calls of the size, checksum and MIME gates (index.js:1157-1279), the chunk unlinks after the commit (index.js:1329-1336) and the orphan sweep's unlinks (index.js:434-446) always succeed. Pipeline.PolicyRejectionCleansUp and Pipeline.Server.SweepOrphanChunks hold under that assumption.
- The client's file-read and checksum exceptions, which propagate out of `upload_multiple`, are not modelled; a file is either missing or read whole.
- MIME sniffing is an oracle.
- Concurrency, timers and the interleaving of asynchronous callbacks are not modelled; each operation runs to completion.
- Console logging is left out.
- Express's asynchronous `sendFile` is collapsed: Node's header check is applied to the Content-Disposition value as soon as the row is served, and Pipeline.Server.ServeRow stores the audit entry queued before the crash; Pipeline.DownloadsRow allows either outcome for it.
- The legacy download's header check works on the stored name's Dafny characters, so a stored name with a lone surrogate is not modelled there.
- `TIMESTAMP` columns and `Date.now()` are integers.
- A `chunkIndex` query parameter that is not a canonical decimal is not modelled; indices are naturals.
- A failing audit-log write is not modelled.
- File names in the database rows are Dafny strings, so a stored name with a lone surrogate is not modelled; their code units enter the sanitiser through `Utf16.Units`.
- Filenames.StripDownloadExtension works on Dafny strings; its pattern matches ASCII characters only, so code units and scalar values agree there.
- `failedLogins` and `activeSessions` are maps, so the prototype keys `__proto__` and `constructor` behave like other names there.
- Quota.CheckUploadQuotas: compares the existing aggregates with the limits and does not add the incoming chunk's size. The code compares only the existing aggregates.
- IdAlloc.ValidChars: the alphabet has 66 symbols, as the code declares, not the 64 its comment assumes.
- Pipeline.Server.Merge: keeps the count check as written, comparing only the number of rows. The corrected check and its proof sit beside it in the `Assembly` module.
- `encode64`'s `escape` pre-pass is left out: the model encodes bytes, not a string of characters.
- The web worker's XHR abort event (the model covers `readystatechange` at status 0 followed by the error or timeout event), progress messages, `humanFileSize` (a parameter of the merge reply), `guid` and `pendingCount` are left out.
- Client.ValidateServerUrlMeaning: `urlparse` is simplified. It does not strip leading C0 characters and spaces, remove tabs or newlines, or reject malformed IPv6 brackets.
- `urljoin` is modelled as concatenation.
- The client's `time.time()` is an integer number of seconds.
- The client's `login`, `ensure_authenticated` and `calculate_checksum` are left out; the digest is an oracle.
- `serveUpload`'s file and row writes are not modelled; only its comma strip is.
- The legacy `JSON.parse` of the upload body is a flag in the handler environment.

## Findings

| source | as written | input that shows it | evidently intended | confidence | as-written member | corrected member |
|---|---|---|---|---|---|---|
| index.js:853-858 | `randomBytes(n).map(...)` maps a Buffer, so each symbol is stored back as a byte: letters and punctuation become 0, and digits keep their value | byte 0 gives `0`, not `A`; ids are decimal digits, mostly `0` | each byte selects a symbol of the 66-character alphabet | not executed | IdAlloc.StoredSymbolIsDigit | IdAlloc.IntendedSymbolCoversAlphabet |
| index.js:209-226 | both strings are padded with NUL to the same length before the comparison | `admin` followed by one NUL equals `admin` | equal exactly when the strings are equal | not executed | Secrets.TimingSafeEqualAcceptsNulSuffix | Secrets.ConstantTimeEqualIsEquality |
| index.js:1123-1127 | only the number of rows is compared with `chunkCount` | chunk indices 0 and 5 pass for a count of 2; a retried chunk 0 and chunk 1 fail | the session's indices are exactly 0 to count-1, each once | not executed | Assembly.CountCheckAcceptsGap | Assembly.CorrectedMergeIsInOrder |
| handlers.js:91-93 | `handlers[path]` also finds `Object.prototype` members | `/constructor` gets neither a 404 nor a response; `/valueOf` throws | unknown segments answer 404 | not executed | Handlers.ConstructorPathAnswersNothing | Handlers.IntendedUnknownSegmentIsNotFound |
| handlers.js:62-88 | `serveDownload` returns the result of `db.get`, the database object, which is always truthy | `/d/` followed by an unknown hex key gets no 404 and no response | answered when found (or thrown on a refused name or unreadable file), 404 otherwise | not executed | Handlers.UnknownDownloadAnswersNothing | Handlers.IntendedDownloadMeaning |
| index.js:199-202 | the 255-unit cut counts UTF-16 code units and can split a surrogate pair, and `encodeURIComponent` (index.js:1025) then throws out of the database callback | a stored name of 128 × U+1F600 (256 code units) is cut to 255 units ending in a lone high surrogate, so its download gets no answer | cut only between whole characters | not executed | Filenames.SanitizedNameSplitsSurrogatePair | Filenames.CorrectedSanitizedNameWellFormed |
| index.js:216-217 | `Buffer.from(…, 'utf8')` turns every lone surrogate into U+FFFD before the comparison | `"\uD800"` equals `"\uD801"` | equal exactly when the strings are equal | not executed | Secrets.TimingSafeEqualConflatesLoneSurrogates | Secrets.ConstantTimeEqualIsEquality |
| index.js:1031-1037 | an image is served with the sanitised name put, as it is, into the quoted `filename="…"` of Content-Disposition, which Node refuses for any code unit above 0xFF | a stored image named U+4E2D: its download throws `ERR_INVALID_CHAR` and the process crashes after the audit entry is queued | the quoted name is a Latin-1 fallback, with `?` for what it cannot carry, since `filename*=` already carries the full name | not executed | Pipeline.HanImageNameCrashesDownload | Headers.CorrectedInlineNameIsHeaderSafe |
