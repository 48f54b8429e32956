/**
 * The in-memory login bookkeeping of index.js:559-627: the failed-attempt table
 * behind account lockout, and the per-user list of active session ids. Both are
 * JavaScript objects keyed by user name, updated in place; here each is a class
 * with a `map` field. Clocks are milliseconds (`Date.now()`), passed in.
 */
module Auth {
  import opened Wrappers

  const MAX_LOGIN_ATTEMPTS: nat := 5
  const LOCKOUT_DURATION_MS: nat := 15 * 60 * 1000
  const MAX_CONCURRENT_SESSIONS: nat := 3

  /** `{ count: N, lockUntil: timestamp }`; `None` is `lockUntil: null`. */
  datatype Attempts = Attempts(count: nat, lockUntil: Option<nat>)

  /** Entries are created with count 1; a lock time is set exactly from the fifth failure on. */
  predicate WellFormedAttempts(failed: map<string, Attempts>)
  {
    forall u :: u in failed ==> failed[u].count >= 1 && (failed[u].lockUntil.Some? <==> failed[u].count >= MAX_LOGIN_ATTEMPTS)
  }

  /** `now < lockUntil` for a recorded lock. */
  predicate IsLocked(failed: map<string, Attempts>, username: string, now: nat)
  {
    username in failed && failed[username].lockUntil.Some? && now < failed[username].lockUntil.value
  }

  /** The table after `isAccountLocked`: an entry whose lock has run out is deleted. */
  function AfterLockCheck(failed: map<string, Attempts>, username: string, now: nat): (m: map<string, Attempts>)
    ensures forall u :: u != username ==> (u in m <==> u in failed) && (u in m ==> m[u] == failed[u])
    ensures username in m <==> username in failed && !(failed[username].lockUntil.Some? && now >= failed[username].lockUntil.value)
  {
    if username in failed && failed[username].lockUntil.Some? && now >= failed[username].lockUntil.value
    then failed - {username}
    else failed
  }

  /** The entry after `recordFailedLogin`: one more failure, and a fresh 15-minute lock from the fifth on. */
  function RecordFailure(failed: map<string, Attempts>, username: string, now: nat): (m: map<string, Attempts>)
    ensures username in m
    ensures m[username].count == (if username in failed then failed[username].count else 0) + 1
    ensures m[username].count >= MAX_LOGIN_ATTEMPTS ==> m[username].lockUntil == Some(now + LOCKOUT_DURATION_MS)
    ensures m[username].count < MAX_LOGIN_ATTEMPTS ==>
      m[username].lockUntil == (if username in failed then failed[username].lockUntil else None)
    ensures forall u :: u != username ==> (u in m <==> u in failed) && (u in m ==> m[u] == failed[u])
  {
    var prev := if username in failed then failed[username] else Attempts(0, None);
    var count := prev.count + 1;
    failed[username := Attempts(count, if count >= MAX_LOGIN_ATTEMPTS then Some(now + LOCKOUT_DURATION_MS) else prev.lockUntil)]
  }

  /** Consecutive failures at the given times, never interrupted by a reset. */
  function RecordFailures(failed: map<string, Attempts>, username: string, times: seq<nat>): map<string, Attempts>
    decreases |times|
  {
    if times == [] then failed else RecordFailures(RecordFailure(failed, username, times[0]), username, times[1..])
  }

  lemma {:induction false} RecordFailuresCount(failed: map<string, Attempts>, username: string, times: seq<nat>)
    requires times != []
    ensures var m := RecordFailures(failed, username, times);
      username in m && m[username].count == (if username in failed then failed[username].count else 0) + |times|
    decreases |times|
  {
    var next := RecordFailure(failed, username, times[0]);
    if |times| > 1 {
      RecordFailuresCount(next, username, times[1..]);
    }
  }

  lemma {:induction false} RecordFailuresLastLock(failed: map<string, Attempts>, username: string, times: seq<nat>)
    requires times != []
    requires (if username in failed then failed[username].count else 0) + |times| >= MAX_LOGIN_ATTEMPTS
    ensures var m := RecordFailures(failed, username, times);
      username in m && m[username].lockUntil == Some(times[|times| - 1] + LOCKOUT_DURATION_MS)
    decreases |times|
  {
    var next := RecordFailure(failed, username, times[0]);
    if |times| > 1 {
      RecordFailuresLastLock(next, username, times[1..]);
    }
  }

  /**
   * Five failures in a row starting from no entry lock the account for exactly
   * the 15 minutes after the fifth; four leave it unlocked.
   */
  lemma FifthFailureLocks(failed: map<string, Attempts>, username: string, times: seq<nat>, now: nat)
    requires username !in failed && |times| == MAX_LOGIN_ATTEMPTS
    ensures IsLocked(RecordFailures(failed, username, times), username, now) <==>
      now < times[MAX_LOGIN_ATTEMPTS - 1] + LOCKOUT_DURATION_MS
    ensures !IsLocked(RecordFailures(failed, username, times[..MAX_LOGIN_ATTEMPTS - 1]), username, now)
  {
    RecordFailuresLastLock(failed, username, times);
    var four := times[..MAX_LOGIN_ATTEMPTS - 1];
    FourFailuresUnlocked(failed, username, four);
  }

  lemma {:induction false} FourFailuresUnlocked(failed: map<string, Attempts>, username: string, times: seq<nat>)
    requires (if username in failed then failed[username].count else 0) + |times| < MAX_LOGIN_ATTEMPTS
    requires username in failed ==> failed[username].lockUntil.None?
    ensures var m := RecordFailures(failed, username, times);
      username in m ==> m[username].lockUntil.None?
    decreases |times|
  {
    if times != [] {
      FourFailuresUnlocked(RecordFailure(failed, username, times[0]), username, times[1..]);
    }
  }

  /** The failed-login table `failedLogins`. */
  class LoginGuard {
    var failedLogins: map<string, Attempts>

    ghost predicate Valid()
      reads this
    {
      WellFormedAttempts(failedLogins)
    }

    constructor()
      ensures Valid() && failedLogins == map[]
    {
      failedLogins := map[];
    }

    /** `isAccountLocked`: true exactly while `now < lockUntil`; an expired entry is deleted. */
    method IsAccountLocked(username: string, now: nat) returns (locked: bool)
      requires Valid()
      modifies this
      ensures Valid()
      ensures locked <==> IsLocked(old(failedLogins), username, now)
      ensures failedLogins == AfterLockCheck(old(failedLogins), username, now)
    {
      if username !in failedLogins {
        return false;
      }
      var entry := failedLogins[username];
      if entry.lockUntil.Some? && now < entry.lockUntil.value {
        return true;
      }
      if entry.lockUntil.Some? && now >= entry.lockUntil.value {
        failedLogins := failedLogins - {username};
      }
      locked := false;
    }

    /** `recordFailedLogin`: counts the failure and reports whether the account is now locked. */
    method RecordFailedLogin(username: string, now: nat) returns (nowLocked: bool)
      requires Valid()
      modifies this
      ensures Valid()
      ensures failedLogins == RecordFailure(old(failedLogins), username, now)
      ensures nowLocked <==> failedLogins[username].count >= MAX_LOGIN_ATTEMPTS
      ensures nowLocked ==> IsLocked(failedLogins, username, now)
    {
      if username !in failedLogins {
        failedLogins := failedLogins[username := Attempts(0, None)];
      }
      var entry := failedLogins[username];
      entry := entry.(count := entry.count + 1);
      failedLogins := failedLogins[username := entry];
      if entry.count >= MAX_LOGIN_ATTEMPTS {
        failedLogins := failedLogins[username := entry.(lockUntil := Some(now + LOCKOUT_DURATION_MS))];
        return true;
      }
      nowLocked := false;
    }

    /** `resetFailedLogins`. */
    method ResetFailedLogins(username: string)
      requires Valid()
      modifies this
      ensures Valid()
      ensures failedLogins == old(failedLogins) - {username}
    {
      failedLogins := failedLogins - {username};
    }
  }

  // ---- Concurrent sessions ----

  /** `push` then, past three, `shift`: the newest id is kept and the oldest dropped. */
  function AddSession(sessions: seq<string>, sid: string): (r: seq<string>)
    ensures |sessions| <= MAX_CONCURRENT_SESSIONS ==> 1 <= |r| <= MAX_CONCURRENT_SESSIONS
    ensures r != [] && r[|r| - 1] == sid
    ensures |sessions| < MAX_CONCURRENT_SESSIONS ==> r == sessions + [sid]
    ensures |sessions| == MAX_CONCURRENT_SESSIONS ==> r == sessions[1..] + [sid]
  {
    var pushed := sessions + [sid];
    if |pushed| > MAX_CONCURRENT_SESSIONS then pushed[1..] else pushed
  }

  /** `filter(sid => sid !== sessionID)`. */
  function RemoveSession(sessions: seq<string>, sid: string): (r: seq<string>)
    ensures forall x :: x in r <==> x in sessions && x != sid
    ensures forall x :: multiset(r)[x] == if x != sid then multiset(sessions)[x] else 0
    ensures IsSubsequence(r, sessions)
    ensures |r| <= |sessions|
  {
    if sessions == [] then []
    else
      var rest := RemoveSession(sessions[1..], sid);
      MultisetOfCons(sessions[0], sessions[1..]);
      assert sessions == [sessions[0]] + sessions[1..];
      if sessions[0] == sid then
        SubsequenceDrop(sessions[0], rest, sessions[1..]);
        rest
      else
        MultisetOfCons(sessions[0], rest);
        SubsequenceKeep(sessions[0], rest, sessions[1..]);
        [sessions[0]] + rest
  }

  lemma {:induction false} RemoveAbsentSession(sessions: seq<string>, sid: string)
    requires sid !in sessions
    ensures RemoveSession(sessions, sid) == sessions
  {
    if sessions != [] {
      RemoveAbsentSession(sessions[1..], sid);
      assert sessions == [sessions[0]] + sessions[1..];
    }
  }

  /** Logging out a session that logged in below the limit gives back the previous list. */
  lemma {:induction false} AddThenRemoveSession(sessions: seq<string>, sid: string)
    requires sid !in sessions && |sessions| < MAX_CONCURRENT_SESSIONS
    ensures RemoveSession(AddSession(sessions, sid), sid) == sessions
  {
    RemoveAbsentSession(sessions, sid);
    RemoveAppend(sessions, sid);
  }

  lemma {:induction false} RemoveAppend(sessions: seq<string>, sid: string)
    ensures RemoveSession(sessions + [sid], sid) == RemoveSession(sessions, sid)
  {
    if sessions != [] {
      RemoveAppend(sessions[1..], sid);
      assert (sessions + [sid])[1..] == sessions[1..] + [sid];
    }
  }

  /** Every user listed has between one and three session ids. */
  predicate WellFormedSessions(active: map<string, seq<string>>)
  {
    forall u :: u in active ==> 1 <= |active[u]| <= MAX_CONCURRENT_SESSIONS
  }

  /** The table `activeSessions`. */
  class SessionRegistry {
    var activeSessions: map<string, seq<string>>

    ghost predicate Valid()
      reads this
    {
      WellFormedSessions(activeSessions)
    }

    constructor()
      ensures Valid() && activeSessions == map[]
    {
      activeSessions := map[];
    }

    /** `addActiveSession`: at most three ids per user, the oldest dropped first. */
    method AddActiveSession(username: string, sessionId: string)
      requires Valid()
      modifies this
      ensures Valid()
      ensures activeSessions == old(activeSessions)[username :=
        AddSession(if username in old(activeSessions) then old(activeSessions)[username] else [], sessionId)]
    {
      if username !in activeSessions {
        activeSessions := activeSessions[username := []];
      }
      var list := activeSessions[username] + [sessionId];
      if |list| > MAX_CONCURRENT_SESSIONS {
        list := list[1..];
      }
      activeSessions := activeSessions[username := list];
    }

    /** `removeActiveSession`: drops every copy of the id, and the user once the list is empty. */
    method RemoveActiveSession(username: string, sessionId: string)
      requires Valid()
      modifies this
      ensures Valid()
      ensures username !in old(activeSessions) ==> activeSessions == old(activeSessions)
      ensures username in old(activeSessions) ==>
        var rest := RemoveSession(old(activeSessions)[username], sessionId);
        activeSessions == if rest == [] then old(activeSessions) - {username} else old(activeSessions)[username := rest]
    {
      if username in activeSessions {
        var rest := RemoveSession(activeSessions[username], sessionId);
        activeSessions := activeSessions[username := rest];
        if |activeSessions[username]| == 0 {
          activeSessions := activeSessions - {username};
        }
      }
    }
  }
}
