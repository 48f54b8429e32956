/**
 * The upload quota decision `checkUploadQuotas` (index.js:77-166), run by the
 * chunk upload route for chunk 0 only. The three aggregates are computed from
 * the artifact table; the decision is a function of them and of the configuration.
 */
module Quota {
  import opened Wrappers
  import opened Ledger

  const DAY_SECONDS: int := 86400

  /** The three configured ceilings; `None` is a key missing from config.json. */
  datatype QuotaConfig = QuotaConfig(
    maxStorageBytes: Option<int>,
    perIpDailyBytes: Option<int>,
    perIpDailyFiles: Option<int>)

  /**
   * The aggregates the three queries return. `None` is a SQL NULL (SUM over no
   * rows) or a query that was not issued because its check is disabled.
   */
  datatype Aggregates = Aggregates(globalTotal: Option<int>, ipDailyTotal: Option<int>, ipDailyCount: Option<int>)

  datatype QuotaKind = GlobalStorage | DailyBytes | DailyFiles

  /** The outcome: admitted, a quota error with its HTTP code and Retry-After, or a database error. */
  datatype QuotaDecision =
    | Admitted
    | Exceeded(kind: QuotaKind, code: int, message: string, retryAfter: int)
    | DatabaseFailure(code: int, message: string)

  /** `config.x && config.x > 0`: an unset, zero or negative ceiling disables its check. */
  predicate Enabled(limit: Option<int>)
  {
    limit.Some? && limit.value > 0
  }

  /** `row?.total || 0`: NULL counts as nothing used. */
  function Used(aggregate: Option<int>): int
  {
    GetOr(aggregate, 0)
  }

  /** A check fails when what is ALREADY stored reaches the ceiling; the incoming upload is not added. */
  predicate Violates(limit: Option<int>, aggregate: Option<int>)
  {
    Enabled(limit) && Used(aggregate) >= limit.value
  }

  /** Some query is issued only when its check is enabled; with none enabled no query can fail. */
  predicate AnyEnabled(cfg: QuotaConfig)
  {
    Enabled(cfg.maxStorageBytes) || Enabled(cfg.perIpDailyBytes) || Enabled(cfg.perIpDailyFiles)
  }

  function CheckUploadQuotas(cfg: QuotaConfig, agg: Aggregates, queryFailed: bool): (d: QuotaDecision)
    ensures d == Admitted <==>
      !(queryFailed && AnyEnabled(cfg))
      && !Violates(cfg.maxStorageBytes, agg.globalTotal)
      && !Violates(cfg.perIpDailyBytes, agg.ipDailyTotal)
      && !Violates(cfg.perIpDailyFiles, agg.ipDailyCount)
    ensures d.Exceeded? ==> d.retryAfter == DAY_SECONDS
    ensures d.Exceeded? ==> d.code == (if d.kind == GlobalStorage then 507 else 429)
    ensures d.DatabaseFailure? ==> d.code == 500 && queryFailed
    ensures queryFailed && AnyEnabled(cfg) ==> d == DatabaseFailure(500, "Database error")
  {
    if queryFailed && AnyEnabled(cfg) then
      DatabaseFailure(500, "Database error")
    else if Violates(cfg.maxStorageBytes, agg.globalTotal) then
      Exceeded(GlobalStorage, 507, "Server storage quota exceeded", DAY_SECONDS)
    else if Violates(cfg.perIpDailyBytes, agg.ipDailyTotal) then
      Exceeded(DailyBytes, 429, "Daily upload quota exceeded", DAY_SECONDS)
    else if Violates(cfg.perIpDailyFiles, agg.ipDailyCount) then
      Exceeded(DailyFiles, 429, "Daily file upload limit exceeded", DAY_SECONDS)
    else
      Admitted
  }

  /** One check of the chain, as a reference formulation: its ceiling, its aggregate, its kind. */
  datatype Check = Check(limit: Option<int>, aggregate: Option<int>, kind: QuotaKind)

  /** The checks in the order the source runs them. */
  function ChecksInOrder(cfg: QuotaConfig, agg: Aggregates): seq<Check>
  {
    [ Check(cfg.maxStorageBytes, agg.globalTotal, GlobalStorage),
      Check(cfg.perIpDailyBytes, agg.ipDailyTotal, DailyBytes),
      Check(cfg.perIpDailyFiles, agg.ipDailyCount, DailyFiles) ]
  }

  /** The kind of the first violated check of a list, if any. */
  function FirstViolation(checks: seq<Check>): (k: Option<QuotaKind>)
    ensures k.None? <==> forall i :: 0 <= i < |checks| ==> !Violates(checks[i].limit, checks[i].aggregate)
    ensures k.Some? ==> exists i :: (0 <= i < |checks| && checks[i].kind == k.value
      && Violates(checks[i].limit, checks[i].aggregate)
      && forall j :: 0 <= j < i ==> !Violates(checks[j].limit, checks[j].aggregate))
  {
    if checks == [] then None
    else if Violates(checks[0].limit, checks[0].aggregate) then Some(checks[0].kind)
    else
      var k := FirstViolation(checks[1..]);
      assert k.Some? ==> exists i :: (1 <= i < |checks| && checks[i].kind == k.value
        && Violates(checks[i].limit, checks[i].aggregate)
        && forall j :: 1 <= j < i ==> !Violates(checks[j].limit, checks[j].aggregate)) by {
        if k.Some? {
          var i' :| 0 <= i' < |checks[1..]| && checks[1..][i'].kind == k.value
            && Violates(checks[1..][i'].limit, checks[1..][i'].aggregate)
            && forall j :: 0 <= j < i' ==> !Violates(checks[1..][j].limit, checks[1..][j].aggregate);
          assert checks[i' + 1] == checks[1..][i'];
          forall j | 1 <= j < i' + 1 ensures !Violates(checks[j].limit, checks[j].aggregate) {
            assert checks[j] == checks[1..][j - 1];
          }
        }
      }
      assert k.None? ==> forall i :: 1 <= i < |checks| ==> !Violates(checks[i].limit, checks[i].aggregate) by {
        if k.None? {
          forall i | 1 <= i < |checks| ensures !Violates(checks[i].limit, checks[i].aggregate) {
            assert checks[i] == checks[1..][i - 1];
          }
        }
      }
      k
  }

  /**
   * A failed query answers 500 once any check is enabled; otherwise the decision
   * chain reports exactly the first violated check, with code 507 for storage and
   * 429 otherwise.
   */
  lemma {:induction false} QuotaReportsFirstViolation(cfg: QuotaConfig, agg: Aggregates, queryFailed: bool)
    ensures var d := CheckUploadQuotas(cfg, agg, queryFailed);
      !(queryFailed && AnyEnabled(cfg)) ==>
        match FirstViolation(ChecksInOrder(cfg, agg))
        case None => d == Admitted
        case Some(k) => d.Exceeded? && d.kind == k
  {
    var cs := ChecksInOrder(cfg, agg);
    match FirstViolation(cs)
    case None =>
      assert !Violates(cs[0].limit, cs[0].aggregate);
      assert !Violates(cs[1].limit, cs[1].aggregate);
      assert !Violates(cs[2].limit, cs[2].aggregate);
    case Some(k) =>
      var i :| 0 <= i < |cs| && cs[i].kind == k && Violates(cs[i].limit, cs[i].aggregate)
        && forall j :: 0 <= j < i ==> !Violates(cs[j].limit, cs[j].aggregate);
      if i == 1 {
        assert !Violates(cs[0].limit, cs[0].aggregate);
      } else if i == 2 {
        assert !Violates(cs[0].limit, cs[0].aggregate);
        assert !Violates(cs[1].limit, cs[1].aggregate);
      }
  }

  /** A disabled check never influences the decision, whatever its aggregate. */
  lemma QuotaIgnoresDisabledChecks(cfg: QuotaConfig, agg: Aggregates, agg': Aggregates, queryFailed: bool)
    requires Enabled(cfg.maxStorageBytes) ==> agg'.globalTotal == agg.globalTotal
    requires Enabled(cfg.perIpDailyBytes) ==> agg'.ipDailyTotal == agg.ipDailyTotal
    requires Enabled(cfg.perIpDailyFiles) ==> agg'.ipDailyCount == agg.ipDailyCount
    ensures CheckUploadQuotas(cfg, agg, queryFailed) == CheckUploadQuotas(cfg, agg', queryFailed)
  {
  }

  /** Less usage never turns an admitted upload into a rejected one. */
  lemma QuotaMonotone(cfg: QuotaConfig, agg: Aggregates, more: Aggregates)
    requires Used(agg.globalTotal) <= Used(more.globalTotal)
    requires Used(agg.ipDailyTotal) <= Used(more.ipDailyTotal)
    requires Used(agg.ipDailyCount) <= Used(more.ipDailyCount)
    requires CheckUploadQuotas(cfg, more, false) == Admitted
    ensures CheckUploadQuotas(cfg, agg, false) == Admitted
  {
  }

  // ---- The aggregates, computed from the artifact table ----

  function SumSizes(files: seq<FileRow>): nat
  {
    if files == [] then 0 else files[0].fileSize + SumSizes(files[1..])
  }

  /** `WHERE remote_ip = ? AND timestamp > ?`. */
  function DailyRows(files: seq<FileRow>, ip: string, dayAgo: int): (r: seq<FileRow>)
    ensures forall x :: x in r <==> x in files && x.remoteIp == ip && x.timestamp > dayAgo
    ensures |r| <= |files|
  {
    if files == [] then []
    else if files[0].remoteIp == ip && files[0].timestamp > dayAgo then [files[0]] + DailyRows(files[1..], ip, dayAgo)
    else DailyRows(files[1..], ip, dayAgo)
  }

  /** The query keeps each matching row as often as it is stored, and no other row. */
  lemma {:induction false} DailyRowsKeepCounts(files: seq<FileRow>, ip: string, dayAgo: int)
    ensures forall x :: multiset(DailyRows(files, ip, dayAgo))[x] == if x.remoteIp == ip && x.timestamp > dayAgo then multiset(files)[x] else 0
    decreases |files|
  {
    if files != [] {
      var keep := (x: FileRow) => x.remoteIp == ip && x.timestamp > dayAgo;
      DailyRowsKeepCounts(files[1..], ip, dayAgo);
      assert KeepsCounts(DailyRows(files[1..], ip, dayAgo), files[1..], keep);
      KeepsCountsCons(files[0], DailyRows(files[1..], ip, dayAgo), files[1..], keep);
      assert files == [files[0]] + files[1..];
    }
  }

  /** The matching rows come out in storage order. */
  lemma {:induction false} DailyRowsKeepOrder(files: seq<FileRow>, ip: string, dayAgo: int)
    ensures IsSubsequence(DailyRows(files, ip, dayAgo), files)
    decreases |files|
  {
    if files != [] {
      var rest := DailyRows(files[1..], ip, dayAgo);
      DailyRowsKeepOrder(files[1..], ip, dayAgo);
      assert files == [files[0]] + files[1..];
      if files[0].remoteIp == ip && files[0].timestamp > dayAgo {
        SubsequenceKeep(files[0], rest, files[1..]);
      } else {
        SubsequenceDrop(files[0], rest, files[1..]);
      }
    }
  }

  /** SQL `SUM`: NULL over no rows. */
  function SqlSum(files: seq<FileRow>): (s: Option<int>)
    ensures s.None? <==> files == []
    ensures Used(s) == SumSizes(files)
  {
    if files == [] then None else Some(SumSizes(files))
  }

  /** The three aggregates for uploader fingerprint `ip` at time `now`; a disabled check issues no query. */
  function UsageOf(cfg: QuotaConfig, files: seq<FileRow>, ip: string, now: int): (agg: Aggregates)
    ensures agg.globalTotal.Some? <==> Enabled(cfg.maxStorageBytes) && files != []
    ensures Enabled(cfg.maxStorageBytes) ==> Used(agg.globalTotal) == SumSizes(files)
    ensures agg.ipDailyTotal.Some? <==> Enabled(cfg.perIpDailyBytes) && DailyRows(files, ip, now - DAY_SECONDS) != []
    ensures Enabled(cfg.perIpDailyBytes) ==> Used(agg.ipDailyTotal) == SumSizes(DailyRows(files, ip, now - DAY_SECONDS))
    ensures agg.ipDailyCount.Some? <==> Enabled(cfg.perIpDailyFiles)
    ensures agg.ipDailyCount.Some? ==> agg.ipDailyCount.value == |DailyRows(files, ip, now - DAY_SECONDS)|
  {
    var daily := DailyRows(files, ip, now - DAY_SECONDS);
    Aggregates(
      if Enabled(cfg.maxStorageBytes) then SqlSum(files) else None,
      if Enabled(cfg.perIpDailyBytes) then SqlSum(daily) else None,
      if Enabled(cfg.perIpDailyFiles) then Some(|daily|) else None)
  }

  /** Uploads older than 24 hours, or from another fingerprint, never count toward the per-uploader ceilings. */
  lemma {:induction false} DailyUsageIgnoresOldAndForeignRows(files: seq<FileRow>, row: FileRow, ip: string, now: int)
    requires row.remoteIp != ip || row.timestamp <= now - DAY_SECONDS
    ensures DailyRows(files + [row], ip, now - DAY_SECONDS) == DailyRows(files, ip, now - DAY_SECONDS)
  {
    if files != [] {
      DailyUsageIgnoresOldAndForeignRows(files[1..], row, ip, now);
      assert (files + [row])[1..] == files[1..] + [row];
    }
  }

  /** The global aggregate is the total size of the table: adding an artifact adds its size. */
  lemma {:induction false} SumSizesAppend(files: seq<FileRow>, row: FileRow)
    ensures SumSizes(files + [row]) == SumSizes(files) + row.fileSize
  {
    if files != [] {
      SumSizesAppend(files[1..], row);
      assert (files + [row])[1..] == files[1..] + [row];
    }
  }
}
