/** Login lockout: a failure streak, temporary locks, and escalation to an admin.
 *
 *  The row holds a handful of counters. Beside it stands the history of what happened to
 *  the account, which no operation reads; the counters are shown to summarise it exactly.
 */
module Lockout {
  import opened Basics

  datatype Config = Config(
    maxFailed: nat,
    duration: int,
    escalationCount: int,
    escalationWindow: int,
    requireAdminUnlock: bool,
    resetWindow: int)

  /** A threshold of at least one failure, and a window that does not run backwards. */
  predicate Sane(cfg: Config)
  {
    cfg.maxFailed > 0 && cfg.resetWindow >= 0
  }

  datatype Row = Row(
    failedCount: nat,
    streakStart: Option<Time>,
    cycles: nat,
    lastLockout: Option<Time>,
    lockedUntil: Option<Time>,
    escalated: bool)

  const NewRow := Row(0, None, 0, None, None, false)

  datatype Event =
    | Failure(at: Time)
    | Lock(at: Time)
    | Success(at: Time)
    | Unlock(at: Time)
    | AdminLock(at: Time)

  datatype State = State(row: Row, log: seq<Event>, clock: Time)

  const NewState := State(NewRow, [], 0)

  // ── The operations ──────────────────────────────────────────────────────────

  predicate IsLocked(row: Row, now: Time)
  {
    row.escalated || (row.lockedUntil.Some? && now < row.lockedUntil.value)
  }

  /** The row once the failure is counted, before the threshold is looked at. */
  function CountFailure(cfg: Config, row: Row, now: Time): (r: Row)
  {
    var stale := row.streakStart.Some? && row.streakStart.value < now - cfg.resetWindow;
    var counted := if stale then row.(failedCount := 0, streakStart := None) else row;
    var started := if counted.failedCount == 0 then counted.(streakStart := Some(now)) else counted;
    started.(failedCount := started.failedCount + 1)
  }

  function TripLock(cfg: Config, row: Row, now: Time): (r: Row)
  {
    var chained := row.lastLockout.Some? && now - cfg.escalationWindow <= row.lastLockout.value;
    var cycles := if chained then row.cycles + 1 else 1;
    var cleared := row.(failedCount := 0, streakStart := None, cycles := cycles, lastLockout := Some(now));
    if cycles >= cfg.escalationCount && cfg.requireAdminUnlock then cleared.(escalated := true, lockedUntil := None)
    else cleared.(lockedUntil := Some(now + cfg.duration))
  }

  function RecordFailure(cfg: Config, s: State, now: Time): State
  {
    var counted := CountFailure(cfg, s.row, now);
    if counted.failedCount >= cfg.maxFailed then
      State(TripLock(cfg, counted, now), s.log + [Failure(now)] + [Lock(now)], now)
    else
      State(counted, s.log + [Failure(now)], now)
  }

  function RecordSuccess(s: State, now: Time): State
  {
    State(s.row.(failedCount := 0, streakStart := None, lockedUntil := None), s.log + [Success(now)], now)
  }

  function AdminUnlocks(s: State, now: Time): State
  {
    State(s.row.(failedCount := 0, streakStart := None, lockedUntil := None, cycles := 0, escalated := false),
          s.log + [Unlock(now)], now)
  }

  function AdminLocks(s: State, now: Time): State
  {
    State(s.row.(escalated := true, lockedUntil := None), s.log + [AdminLock(now)], now)
  }

  /** What a sign-in attempt brings: the account's status, whether the password is right,
   *  and whether the account may authenticate at all. */
  datatype Attempt = Attempt(statusActive: bool, passwordRight: bool, mayAuthenticate: bool)

  /** The lock is looked at on the row the request loaded, at `checked`. The outcome is recorded
   *  later, on the row as it is then; nothing looks at the lock again. */
  function Authenticate(cfg: Config, s: State, user: Row, checked: Time, a: Attempt, now: Time): (State, bool)
  {
    if IsLocked(user, checked) then (s.(clock := now), false)
    else if !a.statusActive then (s.(clock := now), false)
    else if !a.passwordRight || !a.mayAuthenticate then (RecordFailure(cfg, s, now), false)
    else (RecordSuccess(s, now), true)
  }

  // ── Runs ────────────────────────────────────────────────────────────────────

  /** `FailCall` and `SuccessCall` are the service called directly; `AuthCall` is the backend,
   *  which looked at the lock on a row loaded when `seen` calls had finished. */
  datatype Call =
    | FailCall(now: Time)
    | SuccessCall(now: Time)
    | UnlockCall(now: Time)
    | AdminLockCall(now: Time)
    | AuthCall(seen: nat, user: Row, checked: Time, attempt: Attempt, now: Time)

  function Step(cfg: Config, s: State, c: Call): State
  {
    match c
    case FailCall(now) => RecordFailure(cfg, s, now)
    case SuccessCall(now) => RecordSuccess(s, now)
    case UnlockCall(now) => AdminUnlocks(s, now)
    case AdminLockCall(now) => AdminLocks(s, now)
    case AuthCall(_, user, checked, a, now) => Authenticate(cfg, s, user, checked, a, now).0
  }

  function After(cfg: Config, s: State, calls: seq<Call>): State
    decreases |calls|
  {
    if |calls| == 0 then s else After(cfg, Step(cfg, s, calls[0]), calls[1..])
  }

  predicate InOrder(clock: Time, calls: seq<Call>)
    decreases |calls|
  {
    |calls| == 0 || (clock <= calls[0].now && InOrder(calls[0].now, calls[1..]))
  }

  // ── What the history says ───────────────────────────────────────────────────

  function LocksSinceUnlock(log: seq<Event>): seq<Time>
  {
    if |log| == 0 then [] else LocksWith(LocksSinceUnlock(log[..|log| - 1]), log[|log| - 1])
  }

  function LocksWith(locks: seq<Time>, e: Event): seq<Time>
  {
    if e.Lock? then locks + [e.at] else if e.Unlock? then [] else locks
  }

  /** The length of the longest suffix whose neighbours are at most `window` apart. */
  function ChainLength(ts: seq<Time>, window: int): (n: nat)
    ensures n <= |ts| && (|ts| > 0 ==> n > 0)
  {
    if |ts| == 0 then 0
    else if |ts| > 1 && ts[|ts| - 1] - ts[|ts| - 2] <= window then 1 + ChainLength(ts[..|ts| - 1], window)
    else 1
  }

  /** Whether the chain of locks reached the threshold, or an admin locked the account,
   *  at some point since the last unlock. */
  predicate EverEscalated(cfg: Config, log: seq<Event>)
  {
    |log| > 0 && !log[|log| - 1].Unlock? &&
    (EverEscalated(cfg, log[..|log| - 1]) || log[|log| - 1].AdminLock? ||
     (log[|log| - 1].Lock? && ChainEscalates(cfg, LocksSinceUnlock(log))))
  }

  predicate ChainEscalates(cfg: Config, locks: seq<Time>)
  {
    cfg.requireAdminUnlock && ChainLength(locks, cfg.escalationWindow) >= cfg.escalationCount
  }

  /** Failures since the last lock, success or unlock. */
  function FailuresSinceReset(log: seq<Event>): seq<Time>
  {
    if |log| == 0 then [] else FailuresWith(FailuresSinceReset(log[..|log| - 1]), log[|log| - 1])
  }

  function FailuresWith(failures: seq<Time>, e: Event): seq<Time>
  {
    if e.Failure? then failures + [e.at] else if e.AdminLock? then failures else []
  }

  /** `n` of the latest failures, all within the reset window of the first of them. */
  ghost predicate IsStreak(cfg: Config, failures: seq<Time>, n: nat, start: Time)
  {
    && 0 < n <= |failures|
    && failures[|failures| - n] == start
    && failures[|failures| - 1] - start <= cfg.resetWindow
  }

  ghost predicate Earned(cfg: Config, failures: seq<Time>, at: Time)
  {
    && 0 < cfg.maxFailed <= |failures|
    && failures[|failures| - 1] == at
    && at - failures[|failures| - cfg.maxFailed] <= cfg.resetWindow
  }

  /** Every lock follows exactly `maxFailed` failures in a row inside the reset window. */
  ghost predicate LocksEarned(cfg: Config, log: seq<Event>)
  {
    forall p {:trigger log[p]} :: 0 <= p < |log| && log[p].Lock? ==> Earned(cfg, FailuresSinceReset(log[..p]), log[p].at)
  }

  ghost predicate Summarises(cfg: Config, row: Row, log: seq<Event>)
  {
    && row.failedCount < cfg.maxFailed
    && (row.failedCount == 0 <==> row.streakStart.None?)
    && (row.failedCount == 0 <==> |FailuresSinceReset(log)| == 0)
    && (row.failedCount > 0 ==> IsStreak(cfg, FailuresSinceReset(log), row.failedCount, row.streakStart.value))
    && row.cycles == ChainLength(LocksSinceUnlock(log), cfg.escalationWindow)
    && row.escalated == EverEscalated(cfg, log)
    && (|LocksSinceUnlock(log)| > 0 ==> row.lastLockout == Some(LocksSinceUnlock(log)[|LocksSinceUnlock(log)| - 1]))
  }

  /** The streak before the current one, from `i` on, was shorter than a lock, kept inside the
   *  reset window, and had gone stale. */
  ghost predicate StaleStreak(cfg: Config, failures: seq<Time>, n: nat, start: Time, i: int)
  {
    && 0 <= i && |failures| - n - cfg.maxFailed < i < |failures| - n
    && failures[i] < start - cfg.resetWindow
    && failures[|failures| - n - 1] <= failures[i] + cfg.resetWindow
  }

  ghost predicate RestartedAfter(cfg: Config, failures: seq<Time>, n: nat, start: Time)
  {
    n < |failures| ==> exists i :: StaleStreak(cfg, failures, n, start, i)
  }

  ghost predicate Ascending(ts: seq<Time>, clock: Time)
  {
    && (forall i, j :: 0 <= i < j < |ts| ==> ts[i] <= ts[j])
    && (forall i :: 0 <= i < |ts| ==> ts[i] <= clock)
  }

  ghost predicate Inv(cfg: Config, s: State)
  {
    && Summarises(cfg, s.row, s.log)
    && LocksEarned(cfg, s.log)
    && Ascending(FailuresSinceReset(s.log), s.clock)
    && (s.row.failedCount > 0 ==> RestartedAfter(cfg, FailuresSinceReset(s.log), s.row.failedCount, s.row.streakStart.value))
  }

  lemma LogAppend(cfg: Config, log: seq<Event>, e: Event)
    ensures (log + [e])[..|log|] == log
    ensures FailuresSinceReset(log + [e]) == FailuresWith(FailuresSinceReset(log), e)
    ensures LocksSinceUnlock(log + [e]) == LocksWith(LocksSinceUnlock(log), e)
    ensures EverEscalated(cfg, log + [e]) ==
      (!e.Unlock? && (EverEscalated(cfg, log) || e.AdminLock? || (e.Lock? && ChainEscalates(cfg, LocksSinceUnlock(log) + [e.at]))))
  {
  }

  lemma ChainAppend(ts: seq<Time>, t: Time, window: int)
    ensures ChainLength(ts + [t], window) ==
      if |ts| > 0 && t - ts[|ts| - 1] <= window then 1 + ChainLength(ts, window) else 1
  {
    assert (ts + [t])[..|ts|] == ts;
  }

  lemma EarnedAppend(cfg: Config, log: seq<Event>, e: Event)
    requires LocksEarned(cfg, log)
    requires e.Lock? ==> Earned(cfg, FailuresSinceReset(log), e.at)
    ensures LocksEarned(cfg, log + [e])
  {
    var longer := log + [e];
    forall p {:trigger longer[p]} | 0 <= p < |longer| && longer[p].Lock?
      ensures Earned(cfg, FailuresSinceReset(longer[..p]), longer[p].at)
    {
      assert longer[..p] == log[..p];
    }
  }

  /** Counting a failure extends the streak, or starts a new one when the old has gone stale. */
  lemma CountExtendsStreak(cfg: Config, s: State, now: Time)
    requires Sane(cfg) && Inv(cfg, s) && s.clock <= now
    ensures var r := CountFailure(cfg, s.row, now); var failures := FailuresSinceReset(s.log) + [now];
      && 0 < r.failedCount <= cfg.maxFailed && r.streakStart.Some?
      && IsStreak(cfg, failures, r.failedCount, r.streakStart.value)
      && RestartedAfter(cfg, failures, r.failedCount, r.streakStart.value)
  {
    var before := FailuresSinceReset(s.log);
    var failures := before + [now];
    var r := CountFailure(cfg, s.row, now);
    if s.row.failedCount > 0 {
      var first := |before| - s.row.failedCount;
      if r.failedCount == 1 {
        assert StaleStreak(cfg, failures, 1, now, first);
      } else if s.row.failedCount < |before| {
        var i :| StaleStreak(cfg, before, s.row.failedCount, s.row.streakStart.value, i);
        assert StaleStreak(cfg, failures, r.failedCount, r.streakStart.value, i);
      }
    }
  }

  lemma FailureKeepsInv(cfg: Config, s: State, now: Time)
    requires Sane(cfg) && Inv(cfg, s) && s.clock <= now
    ensures Inv(cfg, RecordFailure(cfg, s, now))
  {
    hide LocksEarned, RestartedAfter, ChainLength, EverEscalated, FailuresSinceReset, LocksSinceUnlock;
    var counted := CountFailure(cfg, s.row, now);
    var failed := s.log + [Failure(now)];
    CountExtendsStreak(cfg, s, now);
    LogAppend(cfg, s.log, Failure(now));
    EarnedAppend(cfg, s.log, Failure(now));
    if counted.failedCount >= cfg.maxFailed {
      LogAppend(cfg, failed, Lock(now));
      EarnedAppend(cfg, failed, Lock(now));
      ChainAppend(LocksSinceUnlock(s.log), now, cfg.escalationWindow);
      assert s.row.cycles <= |LocksSinceUnlock(s.log)|;
    }
  }

  lemma OtherEventsKeepInv(cfg: Config, s: State, now: Time)
    requires Sane(cfg) && Inv(cfg, s) && s.clock <= now
    ensures Inv(cfg, s.(clock := now))
    ensures Inv(cfg, RecordSuccess(s, now)) && Inv(cfg, AdminUnlocks(s, now)) && Inv(cfg, AdminLocks(s, now))
  {
    LogAppend(cfg, s.log, Success(now));
    EarnedAppend(cfg, s.log, Success(now));
    LogAppend(cfg, s.log, Unlock(now));
    EarnedAppend(cfg, s.log, Unlock(now));
    LogAppend(cfg, s.log, AdminLock(now));
    EarnedAppend(cfg, s.log, AdminLock(now));
  }

  lemma StepKeepsInv(cfg: Config, s: State, c: Call)
    requires Sane(cfg) && Inv(cfg, s) && s.clock <= c.now
    ensures Inv(cfg, Step(cfg, s, c)) && Step(cfg, s, c).clock == c.now
  {
    hide Inv;
    FailureKeepsInv(cfg, s, c.now);
    OtherEventsKeepInv(cfg, s, c.now);
  }

  lemma {:induction false} RunKeepsInv(cfg: Config, s: State, calls: seq<Call>)
    requires Sane(cfg) && Inv(cfg, s) && InOrder(s.clock, calls)
    ensures Inv(cfg, After(cfg, s, calls))
    decreases |calls|
  {
    if |calls| == 0 {
    } else {
      StepKeepsInv(cfg, s, calls[0]);
      RunKeepsInv(cfg, Step(cfg, s, calls[0]), calls[1..]);
    }
  }

  // ── The counters summarise the history ──────────────────────────────────────

  lemma CountersSummariseHistory(cfg: Config, calls: seq<Call>)
    requires Sane(cfg) && InOrder(0, calls)
    ensures var s := After(cfg, NewState, calls); Summarises(cfg, s.row, s.log) && LocksEarned(cfg, s.log)
  {
    RunKeepsInv(cfg, NewState, calls);
  }

  /** `ChainLength` counts the longest suffix whose every gap is inside the window. */
  lemma {:induction false} ChainIsLongest(ts: seq<Time>, window: int)
    ensures var n := ChainLength(ts, window);
      && (forall k :: |ts| - n < k < |ts| ==> ts[k] - ts[k - 1] <= window)
      && (n < |ts| ==> ts[|ts| - n] - ts[|ts| - n - 1] > window)
  {
    if |ts| <= 1 || ts[|ts| - 1] - ts[|ts| - 2] > window {
    } else {
      ChainIsLongest(ts[..|ts| - 1], window);
    }
  }

  predicate NoUnlockAfter(log: seq<Event>, p: nat)
  {
    forall k :: p < k < |log| ==> !log[k].Unlock?
  }

  predicate EscalatesAt(cfg: Config, log: seq<Event>, p: nat)
    requires p < |log|
  {
    log[p].AdminLock? || (log[p].Lock? && ChainEscalates(cfg, LocksSinceUnlock(log[..p + 1])))
  }

  /** Escalated means: since the last unlock an admin locked the account, or a lock brought
   *  the chain to the threshold. */
  lemma {:induction false} EscalatedIff(cfg: Config, log: seq<Event>)
    ensures EverEscalated(cfg, log) <==> exists p :: 0 <= p < |log| && NoUnlockAfter(log, p) && EscalatesAt(cfg, log, p)
  {
    if |log| == 0 {
    } else {
      var init := log[..|log| - 1];
      EscalatedIff(cfg, init);
      assert log[..|log|] == log;
      if EverEscalated(cfg, log) {
        if !EscalatesAt(cfg, log, |log| - 1) {
          var p :| 0 <= p < |init| && NoUnlockAfter(init, p) && EscalatesAt(cfg, init, p);
          assert init[..p + 1] == log[..p + 1];
          assert NoUnlockAfter(log, p) && EscalatesAt(cfg, log, p);
        } else {
          assert NoUnlockAfter(log, |log| - 1);
        }
      }
      if p :| 0 <= p < |log| && NoUnlockAfter(log, p) && EscalatesAt(cfg, log, p) {
        if p < |log| - 1 {
          assert init[..p + 1] == log[..p + 1];
          assert NoUnlockAfter(init, p) && EscalatesAt(cfg, init, p);
          assert !log[|log| - 1].Unlock?;
        }
      }
    }
  }

  /** The streak restarts as a whole when its first failure grows old, so a lock may take
   *  more than `maxFailed` failures inside one window. */
  lemma ThresholdInsideWindowWithoutLock()
    ensures var cfg := Config(3, 15 * MINUTE, 3, DAY, true, 30 * MINUTE);
      var s := RecordFailure(cfg, RecordFailure(cfg, RecordFailure(cfg, RecordFailure(cfg, NewState, 0), 29 * MINUTE), 31 * MINUTE), 32 * MINUTE);
      && s.log == [Failure(0), Failure(29 * MINUTE), Failure(31 * MINUTE), Failure(32 * MINUTE)]
      && !IsLocked(s.row, 32 * MINUTE)
  {
  }

  /** The failures that always lock when they fall inside one window: the threshold, or, when a
   *  streak can go stale and leave its later failures behind, twice the threshold less two. */
  function Burst(cfg: Config): int
  {
    if cfg.maxFailed == 1 || cfg.resetWindow == 0 then cfg.maxFailed else 2 * cfg.maxFailed - 2
  }

  /** The last `n` failures since the last lock, success or unlock fall inside one reset window. */
  ghost predicate LeftUnlocked(cfg: Config, log: seq<Event>, n: nat)
  {
    var failures := FailuresSinceReset(log);
    0 < n <= |failures| && failures[|failures| - 1] - failures[|failures| - n] <= cfg.resetWindow
  }

  lemma LongBurstLocks(cfg: Config, calls: seq<Call>, n: nat)
    requires Sane(cfg) && InOrder(0, calls) && n >= Burst(cfg)
    ensures !LeftUnlocked(cfg, After(cfg, NewState, calls).log, n)
  {
    RunKeepsInv(cfg, NewState, calls);
    var s := After(cfg, NewState, calls);
    var failures := FailuresSinceReset(s.log);
    if 0 < n <= |failures| {
      var k := s.row.failedCount;
      var i :| StaleStreak(cfg, failures, k, s.row.streakStart.value, i);
      assert failures[|failures| - n] <= failures[|failures| - k - 1];
      if cfg.resetWindow > 0 {
        assert failures[|failures| - n] <= failures[i];
      }
      assert failures[|failures| - k] <= failures[|failures| - 1];
    }
  }

  /** `n` wrong passwords at one instant. */
  function FailuresAt(t: Time, n: nat): seq<Call>
  {
    if n == 0 then [] else [FailCall(t)] + FailuresAt(t, n - 1)
  }

  function Times(t: Time, n: nat): (ts: seq<Time>)
    ensures |ts| == n && forall i :: 0 <= i < n ==> ts[i] == t
  {
    seq(n, _ => t)
  }

  lemma OneFailureMore(cfg: Config, s: State, t: Time)
    requires Sane(cfg) && s.row.failedCount + 1 < cfg.maxFailed
    requires s.row.failedCount == 0 <==> s.row.streakStart.None?
    requires s.row.failedCount > 0 ==> t - cfg.resetWindow <= s.row.streakStart.value
    ensures var next := RecordFailure(cfg, s, t);
      && next.row.failedCount == s.row.failedCount + 1 && next.clock == t
      && next.row.streakStart == Some(if s.row.failedCount > 0 then s.row.streakStart.value else t)
      && FailuresSinceReset(next.log) == FailuresSinceReset(s.log) + [t]
  {
    hide FailuresSinceReset;
    LogAppend(cfg, s.log, Failure(t));
  }

  /** Short of the threshold, wrong passwords only lengthen the streak. */
  lemma {:induction false} StreakGrows(cfg: Config, s: State, t: Time, n: nat)
    requires Sane(cfg) && s.clock <= t && s.row.failedCount + n < cfg.maxFailed
    requires s.row.failedCount == 0 <==> s.row.streakStart.None?
    requires s.row.failedCount > 0 ==> t - cfg.resetWindow <= s.row.streakStart.value
    ensures InOrder(s.clock, FailuresAt(t, n))
    ensures var e := After(cfg, s, FailuresAt(t, n));
      && e.row.failedCount == s.row.failedCount + n
      && (e.row.failedCount == 0 <==> e.row.streakStart.None?)
      && (e.row.failedCount > 0 ==> e.row.streakStart == Some(if s.row.failedCount > 0 then s.row.streakStart.value else t))
      && FailuresSinceReset(e.log) == FailuresSinceReset(s.log) + Times(t, n)
      && e.clock == if n == 0 then s.clock else t
    decreases n
  {
    if n == 0 {
    } else {
      hide FailuresSinceReset, RecordFailure;
      var next := Step(cfg, s, FailCall(t));
      OneFailureMore(cfg, s, t);
      assert FailuresAt(t, n)[1..] == FailuresAt(t, n - 1);
      StreakGrows(cfg, next, t, n - 1);
      assert [t] + Times(t, n - 1) == Times(t, n);
      assert FailuresSinceReset(s.log) + [t] + Times(t, n - 1) == FailuresSinceReset(s.log) + ([t] + Times(t, n - 1));
    }
  }

  lemma {:induction false} AfterConcat(cfg: Config, s: State, xs: seq<Call>, ys: seq<Call>)
    ensures After(cfg, s, xs + ys) == After(cfg, After(cfg, s, xs), ys)
    ensures InOrder(s.clock, xs) && InOrder(After(cfg, s, xs).clock, ys) ==> InOrder(s.clock, xs + ys)
    decreases |xs|
  {
    if |xs| == 0 {
      assert xs + ys == ys;
    } else {
      AfterConcat(cfg, Step(cfg, s, xs[0]), xs[1..], ys);
      assert (xs + ys)[1..] == xs[1..] + ys;
    }
  }

  lemma NothingFailed()
    ensures FailuresSinceReset(NewState.log) == []
  {
  }

  lemma StreakRestarts(cfg: Config, s: State, t: Time)
    requires cfg.maxFailed >= 2 && s.row.streakStart.Some? && s.row.streakStart.value < t - cfg.resetWindow
    ensures var next := RecordFailure(cfg, s, t);
      && next.row.failedCount == 1 && next.row.streakStart == Some(t) && next.clock == t
      && FailuresSinceReset(next.log) == FailuresSinceReset(s.log) + [t]
  {
    hide FailuresSinceReset;
    LogAppend(cfg, s.log, Failure(t));
  }

  /** One wrong password, almost enough more at the end of its window, and as many again just
   *  after it: the first streak goes stale and its later failures no longer count. */
  lemma RestartedRun(cfg: Config) returns (calls: seq<Call>)
    requires Sane(cfg) && cfg.maxFailed >= 2 && cfg.resetWindow > 0
    ensures InOrder(0, calls)
    ensures var w := cfg.resetWindow; var m := cfg.maxFailed;
      FailuresSinceReset(After(cfg, NewState, calls).log) == [0] + Times(w, m - 2) + Times(w + 1, m - 1)
  {
    hide FailuresSinceReset, RecordFailure;
    var w, m := cfg.resetWindow, cfg.maxFailed;
    NothingFailed();
    StreakGrows(cfg, NewState, 0, 1);
    var s1 := After(cfg, NewState, FailuresAt(0, 1));
    StreakGrows(cfg, s1, w, m - 2);
    var s2 := After(cfg, s1, FailuresAt(w, m - 2));
    var s3 := Step(cfg, s2, FailCall(w + 1));
    StreakRestarts(cfg, s2, w + 1);
    StreakGrows(cfg, s3, w + 1, m - 2);
    calls := FailuresAt(0, 1) + (FailuresAt(w, m - 2) + FailuresAt(w + 1, m - 1));
    assert FailuresAt(w + 1, m - 1)[1..] == FailuresAt(w + 1, m - 2);
    AfterConcat(cfg, s1, FailuresAt(w, m - 2), FailuresAt(w + 1, m - 1));
    AfterConcat(cfg, NewState, FailuresAt(0, 1), FailuresAt(w, m - 2) + FailuresAt(w + 1, m - 1));
    assert [w + 1] + Times(w + 1, m - 2) == Times(w + 1, m - 1);
    assert [] + Times(0, 1) == [0];
  }

  /** `n` failures inside one window always lock exactly when `n` is at least the burst: no run
   *  leaves that many unlocked, and some run leaves any smaller number. */
  lemma BurstLocksIff(cfg: Config, n: nat)
    requires Sane(cfg) && n > 0
    ensures n >= Burst(cfg) <==> forall calls :: InOrder(0, calls) ==> !LeftUnlocked(cfg, After(cfg, NewState, calls).log, n)
  {
    hide LeftUnlocked;
    if n >= Burst(cfg) {
      forall calls | InOrder(0, calls) ensures !LeftUnlocked(cfg, After(cfg, NewState, calls).log, n) {
        LongBurstLocks(cfg, calls, n);
      }
    } else {
      var calls := ShortBurst(cfg, n);
      assert InOrder(0, calls) && LeftUnlocked(cfg, After(cfg, NewState, calls).log, n);
    }
  }

  lemma ShortBurst(cfg: Config, n: nat) returns (calls: seq<Call>)
    requires Sane(cfg) && 0 < n < Burst(cfg)
    ensures InOrder(0, calls) && LeftUnlocked(cfg, After(cfg, NewState, calls).log, n)
  {
    if n < cfg.maxFailed {
      calls := FailuresAt(0, n);
      StreakGrows(cfg, NewState, 0, n);
    } else {
      calls := RestartedRun(cfg);
    }
  }

  // ── Through the backend, a lock is a lock ───────────────────────────────────

  predicate FromBackend(c: Call)
  {
    c.AuthCall? || c.UnlockCall? || c.AdminLockCall?
  }

  predicate ThroughBackend(calls: seq<Call>)
  {
    forall c :: c in calls ==> FromBackend(c)
  }

  /** Every request records on the row it checked, at the instant it checked it. */
  predicate FreshChecks(cfg: Config, s: State, calls: seq<Call>)
    decreases |calls|
  {
    |calls| > 0 ==>
      && (calls[0].AuthCall? ==> calls[0].user == s.row && calls[0].checked == calls[0].now)
      && FreshChecks(cfg, Step(cfg, s, calls[0]), calls[1..])
  }

  predicate IsAttempt(e: Event)
  {
    e.Failure? || e.Success?
  }

  ghost predicate NoUnlockBetween(log: seq<Event>, p: nat, q: nat)
  {
    forall k :: p < k < q && k < |log| ==> !log[k].Unlock?
  }

  /** Nothing is counted during a lock, or between an escalation and its unlock. */
  ghost predicate Respected(cfg: Config, log: seq<Event>)
  {
    forall p, q :: 0 <= p < q < |log| && IsAttempt(log[q]) && NoUnlockBetween(log, p, q) ==>
      !EscalatesAt(cfg, log, p) && (log[p].Lock? ==> log[p].at + cfg.duration <= log[q].at)
  }

  /** Every lock since the last unlock has run out, or the row still says until when. */
  ghost predicate StillHeld(cfg: Config, s: State)
  {
    !s.row.escalated ==>
      forall p :: 0 <= p < |s.log| && s.log[p].Lock? && NoUnlockAfter(s.log, p) ==>
        || s.log[p].at + cfg.duration <= s.clock
        || (s.row.lockedUntil.Some? && s.log[p].at + cfg.duration <= s.row.lockedUntil.value)
  }

  ghost predicate BackendInv(cfg: Config, s: State)
  {
    Inv(cfg, s) && Respected(cfg, s.log) && StillHeld(cfg, s)
  }

  /** An attempt that gets past the lock check comes after every barrier. */
  lemma AttemptAfterBarriers(cfg: Config, s: State, p: nat, at: Time)
    requires Inv(cfg, s) && StillHeld(cfg, s) && s.clock <= at && !IsLocked(s.row, at)
    requires p < |s.log| && NoUnlockAfter(s.log, p)
    ensures !EscalatesAt(cfg, s.log, p) && (s.log[p].Lock? ==> s.log[p].at + cfg.duration <= at)
  {
    hide EverEscalated, EscalatesAt;
    EscalatedIff(cfg, s.log);
  }

  lemma LogPrefix(cfg: Config, log: seq<Event>, e: Event, p: nat)
    requires p < |log|
    ensures (log + [e])[..p + 1] == log[..p + 1]
    ensures EscalatesAt(cfg, log + [e], p) == EscalatesAt(cfg, log, p)
    ensures NoUnlockAfter(log + [e], p) ==> NoUnlockAfter(log, p)
    ensures NoUnlockBetween(log + [e], p, |log|) ==> NoUnlockAfter(log, p)
    ensures forall q: nat :: q <= |log| && NoUnlockBetween(log + [e], p, q) ==> NoUnlockBetween(log, p, q)
  {
    assert (log + [e])[..p + 1] == log[..p + 1];
    assert forall k :: 0 <= k < |log| ==> (log + [e])[k] == log[k];
  }

  lemma AttemptRespects(cfg: Config, s: State, e: Event)
    requires BackendInv(cfg, s) && s.clock <= e.at && (IsAttempt(e) ==> !IsLocked(s.row, e.at))
    ensures Respected(cfg, s.log + [e])
  {
    hide Inv, EscalatesAt, NoUnlockAfter, NoUnlockBetween, StillHeld;
    var log := s.log + [e];
    forall p: nat, q: nat | p < q < |log| && IsAttempt(log[q]) && NoUnlockBetween(log, p, q)
      ensures !EscalatesAt(cfg, log, p) && (log[p].Lock? ==> log[p].at + cfg.duration <= log[q].at)
    {
      LogPrefix(cfg, s.log, e, p);
      if q == |s.log| {
        AttemptAfterBarriers(cfg, s, p, e.at);
      }
    }
  }

  /** A clearing event leaves nothing to hold; any other keeps what was held. */
  lemma HeldAppend(cfg: Config, s: State, e: Event, row: Row)
    requires StillHeld(cfg, s) && s.clock <= e.at && (s.row.escalated ==> row.escalated || e.Unlock?)
    requires !row.escalated && e.Lock? ==> row.lockedUntil == Some(e.at + cfg.duration)
    requires row.lockedUntil == s.row.lockedUntil || !IsLocked(s.row, e.at) || row.escalated || e.Unlock?
    ensures StillHeld(cfg, State(row, s.log + [e], e.at))
  {
    var t := State(row, s.log + [e], e.at);
    if !row.escalated {
      forall p: nat | p < |t.log| && t.log[p].Lock? && NoUnlockAfter(t.log, p)
        ensures t.log[p].at + cfg.duration <= t.clock
             || (row.lockedUntil.Some? && t.log[p].at + cfg.duration <= row.lockedUntil.value)
      {
        if p < |s.log| {
          LogPrefix(cfg, s.log, e, p);
          assert t.log[|s.log|] == e && !e.Unlock?;
        }
      }
    }
  }

  lemma BackendFailure(cfg: Config, s: State, now: Time)
    requires Sane(cfg) && BackendInv(cfg, s) && s.clock <= now && !IsLocked(s.row, now)
    ensures BackendInv(cfg, RecordFailure(cfg, s, now))
  {
    hide Inv, Respected, StillHeld;
    FailureKeepsInv(cfg, s, now);
    AttemptRespects(cfg, s, Failure(now));
    var counted := CountFailure(cfg, s.row, now);
    var failed := State(counted, s.log + [Failure(now)], now);
    HeldAppend(cfg, s, Failure(now), counted);
    if counted.failedCount >= cfg.maxFailed {
      LockRespects(cfg, failed.log, Lock(now));
      HeldAppend(cfg, failed, Lock(now), TripLock(cfg, counted, now));
    }
  }

  /** Events that are no attempts need no permission. */
  lemma LockRespects(cfg: Config, log: seq<Event>, e: Event)
    requires Respected(cfg, log) && !IsAttempt(e)
    ensures Respected(cfg, log + [e])
  {
    hide EscalatesAt, NoUnlockAfter, NoUnlockBetween;
    var longer := log + [e];
    forall p: nat, q: nat | p < q < |longer| && IsAttempt(longer[q]) && NoUnlockBetween(longer, p, q)
      ensures !EscalatesAt(cfg, longer, p) && (longer[p].Lock? ==> longer[p].at + cfg.duration <= longer[q].at)
    {
      LogPrefix(cfg, log, e, p);
    }
  }

  lemma BackendStep(cfg: Config, s: State, c: Call)
    requires Sane(cfg) && BackendInv(cfg, s) && s.clock <= c.now && FromBackend(c)
    requires c.AuthCall? ==> c.user == s.row && c.checked == c.now
    ensures BackendInv(cfg, Step(cfg, s, c)) && Step(cfg, s, c).clock == c.now
  {
    hide Inv, Respected, StillHeld;
    OtherEventsKeepInv(cfg, s, c.now);
    match c
    case UnlockCall(now) =>
      LockRespects(cfg, s.log, Unlock(now));
      HeldAppend(cfg, s, Unlock(now), AdminUnlocks(s, now).row);
    case AdminLockCall(now) =>
      LockRespects(cfg, s.log, AdminLock(now));
      HeldAppend(cfg, s, AdminLock(now), AdminLocks(s, now).row);
    case AuthCall(_, user, checked, a, now) =>
      if IsLocked(s.row, now) || !a.statusActive {
        ClockMayAdvance(cfg, s, now);
      } else if !a.passwordRight || !a.mayAuthenticate {
        BackendFailure(cfg, s, now);
      } else {
        AttemptRespects(cfg, s, Success(now));
        HeldAppend(cfg, s, Success(now), RecordSuccess(s, now).row);
      }
  }

  lemma ClockMayAdvance(cfg: Config, s: State, now: Time)
    requires StillHeld(cfg, s) && s.clock <= now
    ensures StillHeld(cfg, s.(clock := now))
  {
  }

  lemma {:induction false} BackendRun(cfg: Config, s: State, calls: seq<Call>)
    requires Sane(cfg) && BackendInv(cfg, s) && InOrder(s.clock, calls) && ThroughBackend(calls) && FreshChecks(cfg, s, calls)
    ensures BackendInv(cfg, After(cfg, s, calls))
    decreases |calls|
  {
    if |calls| == 0 {
    } else {
      hide BackendInv;
      BackendStep(cfg, s, calls[0]);
      BackendRun(cfg, Step(cfg, s, calls[0]), calls[1..]);
    }
  }

  /** In every run whose requests record on the row they checked, no failure is counted and nobody
   *  signs in during a lock, or from an escalation until an admin unlocks. */
  lemma NothingCountsDuringALock(cfg: Config, calls: seq<Call>)
    requires Sane(cfg) && InOrder(0, calls) && ThroughBackend(calls) && FreshChecks(cfg, NewState, calls)
    ensures Respected(cfg, After(cfg, NewState, calls).log)
  {
    BackendRun(cfg, NewState, calls);
  }

  // ── Requests that interleave ────────────────────────────────────────────────

  predicate NoSuccessAfter(log: seq<Event>, p: nat)
  {
    forall k :: p < k < |log| ==> !log[k].Success?
  }

  /** A lock that has not run out, or an escalation, with no unlock since. */
  predicate Unexpired(cfg: Config, log: seq<Event>, p: nat, at: Time)
  {
    p < |log| && NoUnlockAfter(log, p) && (EscalatesAt(cfg, log, p) || (log[p].Lock? && at < log[p].at + cfg.duration))
  }

  /** One the row still shows: signing in clears a lock, though not an escalation. */
  predicate Stands(cfg: Config, log: seq<Event>, p: nat, at: Time)
  {
    Unexpired(cfg, log, p, at) && (EscalatesAt(cfg, log, p) || NoSuccessAfter(log, p))
  }

  function HeldUntil(cfg: Config, log: seq<Event>): Option<Time>
  {
    if |log| == 0 then None
    else
      var last := log[|log| - 1];
      if last.Lock? then Some(last.at + cfg.duration)
      else if last.Success? || last.Unlock? then None
      else HeldUntil(cfg, log[..|log| - 1])
  }

  ghost predicate Chronological(log: seq<Event>, clock: Time)
  {
    && (forall i, j :: 0 <= i < j < |log| ==> log[i].at <= log[j].at)
    && (forall i :: 0 <= i < |log| ==> log[i].at <= clock)
  }

  ghost predicate RowShows(cfg: Config, s: State)
  {
    (!s.row.escalated ==> s.row.lockedUntil == HeldUntil(cfg, s.log)) && Chronological(s.log, s.clock)
  }

  lemma StepKeepsShown(cfg: Config, s: State, c: Call)
    requires RowShows(cfg, s) && s.clock <= c.now
    ensures RowShows(cfg, Step(cfg, s, c)) && s.log <= Step(cfg, s, c).log
  {
    var t := Step(cfg, s, c);
    if |t.log| > |s.log| {
      assert t.log[..|s.log|] == s.log;
      if |t.log| > |s.log| + 1 {
        assert t.log[..|s.log| + 1][..|s.log|] == s.log;
      }
    }
  }

  /** All the facts a run keeps. */
  ghost predicate Kept(cfg: Config, s: State)
  {
    Inv(cfg, s) && RowShows(cfg, s)
  }

  lemma {:induction false} RunIsKept(cfg: Config, s: State, calls: seq<Call>)
    requires Sane(cfg) && Kept(cfg, s) && InOrder(s.clock, calls)
    ensures Kept(cfg, After(cfg, s, calls)) && s.log <= After(cfg, s, calls).log && s.clock <= After(cfg, s, calls).clock
    decreases |calls|
  {
    hide Inv, RowShows;
    if |calls| == 0 {
    } else {
      StepKeepsInv(cfg, s, calls[0]);
      StepKeepsShown(cfg, s, calls[0]);
      RunIsKept(cfg, Step(cfg, s, calls[0]), calls[1..]);
    }
  }

  /** A lock that has not run out, with no unlock and no sign-in since. */
  predicate HeldBy(cfg: Config, log: seq<Event>, p: nat, at: Time)
  {
    p < |log| && log[p].Lock? && at < log[p].at + cfg.duration && NoUnlockAfter(log, p) && NoSuccessAfter(log, p)
  }

  lemma HeldByAppend(cfg: Config, log: seq<Event>, e: Event, p: nat, at: Time)
    ensures HeldBy(cfg, log + [e], p, at) <==>
      || (p == |log| && e.Lock? && at < e.at + cfg.duration)
      || (HeldBy(cfg, log, p, at) && !e.Unlock? && !e.Success?)
  {
    var longer := log + [e];
    assert longer[|log|] == e;
    if HeldBy(cfg, longer, p, at) && p < |log| {
      assert forall k :: p < k < |log| ==> longer[k] == log[k];
      assert !longer[|log|].Unlock? && !longer[|log|].Success?;
    }
  }

  lemma {:induction false} HeldUntilExact(cfg: Config, log: seq<Event>, clock: Time, at: Time)
    requires Chronological(log, clock)
    ensures HeldUntil(cfg, log).Some? && at < HeldUntil(cfg, log).value <==> exists p: nat :: HeldBy(cfg, log, p, at)
  {
    if |log| == 0 {
    } else {
      var n := |log| - 1;
      var init, last := log[..n], log[n];
      assert log == init + [last];
      HeldUntilExact(cfg, init, clock, at);
      if last.Lock? && at < last.at + cfg.duration {
        HeldByAppend(cfg, init, last, n, at);
      }
      forall p: nat ensures HeldBy(cfg, log, p, at) <==>
        (p == n && last.Lock? && at < last.at + cfg.duration) || (HeldBy(cfg, init, p, at) && !last.Unlock? && !last.Success?)
      {
        HeldByAppend(cfg, init, last, p, at);
      }
      if last.Lock? && !(at < last.at + cfg.duration) {
        forall p: nat ensures !HeldBy(cfg, init, p, at) {
          if p < n {
            assert log[p].at <= last.at;
          }
        }
      }
      hide HeldBy;
    }
  }

  lemma StandsIsHeld(cfg: Config, log: seq<Event>, p: nat, at: Time)
    requires Stands(cfg, log, p, at)
    ensures EscalatesAt(cfg, log, p) || HeldBy(cfg, log, p, at)
  {
  }

  /** The row is locked exactly while a recorded lock or escalation stands. */
  lemma LockedIffStands(cfg: Config, s: State, at: Time)
    requires Kept(cfg, s)
    ensures IsLocked(s.row, at) <==> exists p :: Stands(cfg, s.log, p, at)
  {
    hide EscalatesAt, HeldUntil, LocksEarned, FailuresSinceReset, LocksSinceUnlock, ChainLength, EverEscalated;
    EscalatedIff(cfg, s.log);
    HeldUntilExact(cfg, s.log, s.clock, at);
    if s.row.escalated {
      var p :| 0 <= p < |s.log| && NoUnlockAfter(s.log, p) && EscalatesAt(cfg, s.log, p);
      assert Stands(cfg, s.log, p, at);
    } else if IsLocked(s.row, at) {
      var p: nat :| HeldBy(cfg, s.log, p, at);
      assert Stands(cfg, s.log, p, at);
    } else if p: nat :| Stands(cfg, s.log, p, at) {
      StandsIsHeld(cfg, s.log, p, at);
    }
  }

  /** So in every reachable row. */
  lemma ReachableLockedIffStands(cfg: Config, calls: seq<Call>, at: Time)
    requires Sane(cfg) && InOrder(0, calls)
    ensures var s := After(cfg, NewState, calls);
      IsLocked(s.row, at) <==> exists p :: Stands(cfg, s.log, p, at)
  {
    hide Kept, After, IsLocked, Stands;
    NewIsKept(cfg);
    RunIsKept(cfg, NewState, calls);
    LockedIffStands(cfg, After(cfg, NewState, calls), at);
  }

  /** What a shorter history says about one of its events, a longer one says too. */
  lemma StandsEarlier(cfg: Config, before: seq<Event>, log: seq<Event>, p: nat, checked: Time, at: Time)
    requires before <= log && p < |before| && checked <= at && Unexpired(cfg, log, p, at)
    requires EscalatesAt(cfg, log, p) || forall k :: p < k < |before| ==> !log[k].Success?
    ensures Stands(cfg, before, p, checked)
  {
    assert before[..p + 1] == log[..p + 1];
    assert forall k :: 0 <= k < |before| ==> before[k] == log[k];
  }

  /** Whether a request gets as far as recording an outcome. */
  predicate Records(user: Row, checked: Time, a: Attempt)
  {
    !IsLocked(user, checked) && a.statusActive
  }

  /** Any request, loaded after `before` and recorded after `between`. The row it is recorded on
   *  is locked exactly by what was recorded since the row it checked. */
  lemma LockedSinceTheCheck(cfg: Config, before: seq<Call>, between: seq<Call>, a: Attempt, checked: Time, now: Time)
    requires Sane(cfg) && InOrder(0, before) && InOrder(After(cfg, NewState, before).clock, between)
    requires var loaded := After(cfg, NewState, before);
      loaded.clock <= checked <= now && After(cfg, loaded, between).clock <= now && Records(loaded.row, checked, a)
    ensures var loaded := After(cfg, NewState, before); var s := After(cfg, loaded, between);
      && loaded.log <= s.log
      && (forall p: nat :: Stands(cfg, s.log, p, now) ==> p >= |loaded.log|)
      && (IsLocked(s.row, now) <==> exists p: nat :: p >= |loaded.log| && Stands(cfg, s.log, p, now))
  {
    hide Inv, RowShows, Stands, Step;
    NewIsKept(cfg);
    RunIsKept(cfg, NewState, before);
    var loaded := After(cfg, NewState, before);
    RunIsKept(cfg, loaded, between);
    var s := After(cfg, loaded, between);
    LockedIffStands(cfg, loaded, checked);
    LockedIffStands(cfg, s, now);
    forall p: nat | Stands(cfg, s.log, p, now) ensures p >= |loaded.log| {
      if p < |loaded.log| {
        StandingIsOlder(cfg, loaded.log, s.log, p, checked, now);
      }
    }
  }

  lemma NewIsKept(cfg: Config)
    requires Sane(cfg)
    ensures Kept(cfg, NewState)
  {
  }

  lemma StandingIsOlder(cfg: Config, before: seq<Event>, log: seq<Event>, p: nat, checked: Time, at: Time)
    requires before <= log && p < |before| && checked <= at && Stands(cfg, log, p, at)
    ensures Stands(cfg, before, p, checked)
  {
    StandsEarlier(cfg, before, log, p, checked, at);
  }

  /** Where nothing has been counted or let in during a lock so far, this request is the first
   *  exactly when a lock that has not run out, or an escalation nobody has lifted, was recorded
   *  after the row it checked. */
  lemma RespectedIff(cfg: Config, before: seq<Call>, between: seq<Call>, a: Attempt, checked: Time, now: Time)
    requires Sane(cfg) && InOrder(0, before) && InOrder(After(cfg, NewState, before).clock, between)
    requires var loaded := After(cfg, NewState, before);
      loaded.clock <= checked <= now && After(cfg, loaded, between).clock <= now && Records(loaded.row, checked, a)
    requires Respected(cfg, After(cfg, After(cfg, NewState, before), between).log)
    ensures var loaded := After(cfg, NewState, before); var s := After(cfg, loaded, between);
      Respected(cfg, Authenticate(cfg, s, loaded.row, checked, a, now).0.log) <==>
        forall p :: p >= |loaded.log| ==> !Unexpired(cfg, s.log, p, now)
  {
    hide Inv, RowShows, Respected, Unexpired, Stands, Step;
    NewIsKept(cfg);
    RunIsKept(cfg, NewState, before);
    var loaded := After(cfg, NewState, before);
    RunIsKept(cfg, loaded, between);
    var s := After(cfg, loaded, between);
    LockedIffStands(cfg, loaded, checked);
    forall p: nat | Unexpired(cfg, s.log, p, now) ensures p >= |loaded.log| {
      if p < |loaded.log| {
        UnexpiredIsShown(cfg, loaded.log, s, p, checked, now);
      }
    }
    var e := if a.passwordRight && a.mayAuthenticate then Success(now) else Failure(now);
    AttemptRespectsIff(cfg, s.log, e);
    RecordedRespects(cfg, s, loaded.row, checked, a, now);
  }

  /** Until something slips in, an unexpired lock from before the check still stood then. */
  lemma UnexpiredIsShown(cfg: Config, before: seq<Event>, s: State, p: nat, checked: Time, now: Time)
    requires RowShows(cfg, s) && Respected(cfg, s.log) && before <= s.log && p < |before| && checked <= now
    requires Unexpired(cfg, s.log, p, now) && s.clock <= now
    ensures Stands(cfg, before, p, checked)
  {
    hide EscalatesAt, HeldUntil;
    forall k | p < k < |before| ensures !s.log[k].Success? {
      assert NoUnlockBetween(s.log, p, k);
    }
    StandsEarlier(cfg, before, s.log, p, checked, now);
  }

  lemma AttemptRespectsIff(cfg: Config, log: seq<Event>, e: Event)
    requires Respected(cfg, log) && IsAttempt(e)
    ensures Respected(cfg, log + [e]) <==> forall p :: !Unexpired(cfg, log, p, e.at)
  {
    hide EscalatesAt;
    var longer := log + [e];
    forall p: nat | p < |log|
      ensures Unexpired(cfg, log, p, e.at) <==>
        NoUnlockBetween(longer, p, |log|) && (EscalatesAt(cfg, longer, p) || (longer[p].Lock? && e.at < longer[p].at + cfg.duration))
    {
      LogPrefix(cfg, log, e, p);
      assert forall k :: 0 <= k < |log| ==> longer[k] == log[k];
      assert NoUnlockAfter(log, p) ==> NoUnlockBetween(longer, p, |log|);
    }
    assert longer[|log|] == e;
    forall p: nat, q: nat | p < q < |log| && IsAttempt(longer[q]) && NoUnlockBetween(longer, p, q)
      ensures !EscalatesAt(cfg, longer, p) && (longer[p].Lock? ==> longer[p].at + cfg.duration <= longer[q].at)
    {
      LogPrefix(cfg, log, e, p);
    }
  }

  /** The lock a failure may trip is no attempt, so the outcome's own event decides. */
  lemma RecordedRespects(cfg: Config, s: State, user: Row, checked: Time, a: Attempt, now: Time)
    requires Records(user, checked, a)
    ensures var e := if a.passwordRight && a.mayAuthenticate then Success(now) else Failure(now);
      Respected(cfg, Authenticate(cfg, s, user, checked, a, now).0.log) <==> Respected(cfg, s.log + [e])
  {
    hide Respected;
    var failed := s.log + [Failure(now)];
    if Respected(cfg, failed) {
      LockRespects(cfg, failed, Lock(now));
    }
    if Respected(cfg, failed + [Lock(now)]) {
      RespectedPrefix(cfg, failed, Lock(now));
    }
  }

  lemma RespectedPrefix(cfg: Config, log: seq<Event>, e: Event)
    requires Respected(cfg, log + [e])
    ensures Respected(cfg, log)
  {
    hide EscalatesAt;
    var longer := log + [e];
    forall p: nat, q: nat | p < q < |log| && IsAttempt(log[q]) && NoUnlockBetween(log, p, q)
      ensures !EscalatesAt(cfg, log, p) && (log[p].Lock? ==> log[p].at + cfg.duration <= log[q].at)
    {
      LogPrefix(cfg, log, e, p);
      assert longer[q] == log[q] && longer[p] == log[p];
      assert NoUnlockBetween(longer, p, q);
    }
  }

  lemma {:induction false} RespectedShrinks(cfg: Config, log: seq<Event>, longer: seq<Event>)
    requires log <= longer && Respected(cfg, longer)
    ensures Respected(cfg, log)
    decreases |longer|
  {
    if log == longer {
    } else {
      var n := |longer| - 1;
      assert longer[..n] + [longer[n]] == longer;
      RespectedPrefix(cfg, longer[..n], longer[n]);
      RespectedShrinks(cfg, log, longer[..n]);
    }
  }

  lemma {:induction false} InOrderSplit(cfg: Config, s: State, xs: seq<Call>, ys: seq<Call>)
    requires InOrder(s.clock, xs + ys)
    ensures InOrder(s.clock, xs) && InOrder(After(cfg, s, xs).clock, ys)
    decreases |xs|
  {
    if |xs| == 0 {
      assert xs + ys == ys;
    } else {
      assert (xs + ys)[1..] == xs[1..] + ys;
      InOrderSplit(cfg, Step(cfg, s, xs[0]), xs[1..], ys);
    }
  }

  /** The row every request checked is the one there was when `seen` calls had finished. */
  ghost predicate Honest(cfg: Config, calls: seq<Call>)
  {
    forall i {:trigger calls[i]} :: 0 <= i < |calls| && calls[i].AuthCall? ==>
      && calls[i].seen <= i
      && calls[i].user == After(cfg, NewState, calls[..calls[i].seen]).row
      && After(cfg, NewState, calls[..calls[i].seen]).clock <= calls[i].checked <= calls[i].now
  }

  /** If the call records an outcome, no unexpired lock or unlifted escalation was recorded between
   *  the row it checked and its recording. */
  ghost predicate Clear(cfg: Config, calls: seq<Call>, i: nat)
    requires i < |calls| && (calls[i].AuthCall? ==> calls[i].seen <= |calls|)
  {
    calls[i].AuthCall? && Records(calls[i].user, calls[i].checked, calls[i].attempt) ==>
      forall p: nat :: p >= |After(cfg, NewState, calls[..calls[i].seen]).log| ==>
        !Unexpired(cfg, After(cfg, NewState, calls[..i]).log, p, calls[i].now)
  }

  lemma ClearInPrefix(cfg: Config, calls: seq<Call>, n: nat, i: nat)
    requires Honest(cfg, calls) && i < n <= |calls|
    ensures Honest(cfg, calls[..n]) && Clear(cfg, calls[..n], i) == Clear(cfg, calls, i)
  {
    hide Unexpired, Records;
    var init := calls[..n];
    forall k {:trigger init[k]} | 0 <= k < n && init[k].AuthCall?
      ensures init[k].seen <= k && init[..init[k].seen] == calls[..calls[k].seen]
    {
      assert init[k] == calls[k];
    }
    assert init[..i] == calls[..i] && init[i] == calls[i];
    if calls[i].AuthCall? {
      assert init[..init[i].seen] == calls[..calls[i].seen];
    }
  }

  lemma LastCallRespects(cfg: Config, calls: seq<Call>)
    requires Sane(cfg) && InOrder(0, calls) && ThroughBackend(calls) && Honest(cfg, calls) && |calls| > 0
    requires Respected(cfg, After(cfg, NewState, calls[..|calls| - 1]).log)
    ensures Respected(cfg, After(cfg, NewState, calls).log) <==> Clear(cfg, calls, |calls| - 1)
  {
    hide Respected, Unexpired, Inv, RowShows;
    var n := |calls| - 1;
    var init, c := calls[..n], calls[n];
    assert init + [c] == calls;
    AfterConcat(cfg, NewState, init, [c]);
    InOrderSplit(cfg, NewState, init, [c]);
    var s := After(cfg, NewState, init);
    assert [c][1..] == [] && After(cfg, s, [c]) == Step(cfg, s, c);
    assert c in calls;
    if c.AuthCall? {
      var before, between := calls[..c.seen], init[c.seen..];
      assert before + between == init;
      AfterConcat(cfg, NewState, before, between);
      InOrderSplit(cfg, NewState, before, between);
      if Records(c.user, c.checked, c.attempt) {
        RespectedIff(cfg, before, between, c.attempt, c.checked, c.now);
      }
    } else if c.UnlockCall? {
      LockRespects(cfg, s.log, Unlock(c.now));
    } else {
      LockRespects(cfg, s.log, AdminLock(c.now));
    }
  }

  /** Over every interleaving: no failure is counted and nobody signs in during a lock or an
   *  escalation exactly when none was recorded between a request's check and its recording. */
  lemma {:induction false} RunRespectedIff(cfg: Config, calls: seq<Call>)
    requires Sane(cfg) && InOrder(0, calls) && ThroughBackend(calls) && Honest(cfg, calls)
    ensures Respected(cfg, After(cfg, NewState, calls).log) <==> forall i: nat :: i < |calls| ==> Clear(cfg, calls, i)
    decreases |calls|
  {
    hide Unexpired, Inv, RowShows, Clear, Step;
    if |calls| == 0 {
    } else {
      hide Respected;
      var n := |calls| - 1;
      var init := calls[..n];
      assert init + [calls[n]] == calls;
      InOrderSplit(cfg, NewState, init, [calls[n]]);
      AfterConcat(cfg, NewState, init, [calls[n]]);
      forall i: nat | i < n ensures Honest(cfg, init) && Clear(cfg, init, i) == Clear(cfg, calls, i) {
        ClearInPrefix(cfg, calls, n, i);
      }
      HonestPrefix(cfg, calls, n);
      RunRespectedIff(cfg, init);
      NewIsKept(cfg);
      RunIsKept(cfg, NewState, init);
      RunIsKept(cfg, After(cfg, NewState, init), [calls[n]]);
      if Respected(cfg, After(cfg, NewState, calls).log) {
        RespectedShrinks(cfg, After(cfg, NewState, init).log, After(cfg, NewState, calls).log);
      }
      if Respected(cfg, After(cfg, NewState, init).log) {
        LastCallRespects(cfg, calls);
      }
    }
  }

  lemma HonestPrefix(cfg: Config, calls: seq<Call>, n: nat)
    requires Honest(cfg, calls) && n <= |calls|
    ensures Honest(cfg, calls[..n])
  {
    var init := calls[..n];
    forall k {:trigger init[k]} | 0 <= k < n && init[k].AuthCall?
      ensures init[k].seen <= k && init[..init[k].seen] == calls[..calls[k].seen]
    {
      assert init[k] == calls[k];
    }
  }

  /** Two failures stored, and two requests that both find the account unlocked: the first one's
   *  wrong password locks it. The second's right password then signs in and lifts the lock; its
   *  wrong password is counted inside the lock. */
  lemma TwoRequestsAtOnce()
    ensures var cfg := Config(3, 15 * MINUTE, 3, DAY, true, 30 * MINUTE);
      var two := RecordFailure(cfg, RecordFailure(cfg, NewState, 0), 0);
      var locked := Authenticate(cfg, two, two.row, 1, Attempt(true, false, true), 2).0;
      var (entered, accepted) := Authenticate(cfg, locked, two.row, 1, Attempt(true, true, true), 3);
      var counted := Authenticate(cfg, locked, two.row, 1, Attempt(true, false, true), 3).0;
      && IsLocked(locked.row, 3)
      && accepted && !IsLocked(entered.row, 3) && !Respected(cfg, entered.log)
      && counted.row.failedCount == 1 && !Respected(cfg, counted.log)
  {
    var cfg := Config(3, 15 * MINUTE, 3, DAY, true, 30 * MINUTE);
    var log := [Failure(0), Failure(0), Failure(2), Lock(2)];
    var two := State(Row(2, Some(0), 0, None, None, false), [Failure(0), Failure(0)], 0);
    assert RecordFailure(cfg, RecordFailure(cfg, NewState, 0), 0) == two;
    var locked := State(Row(0, None, 1, Some(2), Some(2 + 15 * MINUTE), false), log, 2);
    assert RecordFailure(cfg, two, 2) == locked;
    NotRespected(cfg, log, 3, Success(3));
    NotRespected(cfg, log, 3, Failure(3));
  }

  lemma NotRespected(cfg: Config, log: seq<Event>, p: nat, e: Event)
    requires p < |log| && log[p].Lock? && NoUnlockAfter(log, p) && IsAttempt(e) && e.at < log[p].at + cfg.duration
    ensures !Respected(cfg, log + [e])
  {
    var longer := log + [e];
    assert longer[p] == log[p] && longer[|log|] == e;
    assert forall k :: p < k < |log| ==> longer[k] == log[k];
    assert NoUnlockBetween(longer, p, |log|);
  }

  // ── The legacy-lock health check ────────────────────────────────────────────

  const LEGACY_HORIZON: int := 30 * DAY

  predicate FlaggedAsLegacy(row: Row, now: Time)
  {
    row.lockedUntil.Some? && now + LEGACY_HORIZON < row.lockedUntil.value && !row.escalated
  }

  ghost predicate LockEndsInTime(cfg: Config, s: State)
  {
    s.row.lockedUntil.Some? ==>
      s.row.lockedUntil.value <= s.clock + cfg.duration && !(cfg.requireAdminUnlock && cfg.escalationCount <= 1)
  }

  lemma {:induction false} LocksEndInTime(cfg: Config, s: State, calls: seq<Call>)
    requires LockEndsInTime(cfg, s) && InOrder(s.clock, calls)
    ensures LockEndsInTime(cfg, After(cfg, s, calls))
    ensures s.clock <= After(cfg, s, calls).clock
    decreases |calls|
  {
    if |calls| == 0 {
    } else {
      LocksEndInTime(cfg, Step(cfg, s, calls[0]), calls[1..]);
    }
  }

  function Failures(n: nat): seq<Call>
  {
    if n == 0 then [] else [FailCall(0)] + Failures(n - 1)
  }

  /** From a clean row, `n` failures at once lock it exactly when the last one reaches the threshold. */
  lemma {:induction false} FailuresReachLock(cfg: Config, s: State, n: nat)
    requires Sane(cfg) && s.clock == 0 && n > 0 && s.row.failedCount + n == cfg.maxFailed
    requires s.row == NewRow.(failedCount := s.row.failedCount, streakStart := s.row.streakStart)
    requires s.row.failedCount > 0 ==> s.row.streakStart == Some(0)
    requires s.row.failedCount == 0 ==> s.row.streakStart.None?
    ensures InOrder(0, Failures(n))
    ensures !(cfg.requireAdminUnlock && cfg.escalationCount <= 1) ==>
      After(cfg, s, Failures(n)).row.lockedUntil == Some(cfg.duration) && !After(cfg, s, Failures(n)).row.escalated
    decreases n
  {
    var t := Step(cfg, s, FailCall(0));
    assert Failures(n)[1..] == Failures(n - 1);
    if n == 1 {
    } else {
      FailuresReachLock(cfg, t, n - 1);
    }
  }

  /** No reachable row is ever flagged exactly when locks last at most thirty days, or never
   *  carry an end because the very first one escalates. */
  lemma NeverFlaggedIff(cfg: Config)
    requires Sane(cfg)
    ensures (forall calls, now :: InOrder(0, calls) && After(cfg, NewState, calls).clock <= now ==>
               !FlaggedAsLegacy(After(cfg, NewState, calls).row, now))
       <==> (cfg.duration <= LEGACY_HORIZON || (cfg.requireAdminUnlock && cfg.escalationCount <= 1))
  {
    if cfg.duration <= LEGACY_HORIZON || (cfg.requireAdminUnlock && cfg.escalationCount <= 1) {
      forall calls, now | InOrder(0, calls) && After(cfg, NewState, calls).clock <= now
        ensures !FlaggedAsLegacy(After(cfg, NewState, calls).row, now)
      {
        LocksEndInTime(cfg, NewState, calls);
      }
    } else {
      var calls := Failures(cfg.maxFailed);
      FailuresReachLock(cfg, NewState, cfg.maxFailed);
      FailuresKeepClock(cfg, NewState, cfg.maxFailed);
      assert FlaggedAsLegacy(After(cfg, NewState, calls).row, 0);
    }
  }

  lemma {:induction false} FailuresKeepClock(cfg: Config, s: State, n: nat)
    requires s.clock == 0
    ensures After(cfg, s, Failures(n)).clock == 0
    decreases n
  {
    if n == 0 {
    } else {
      assert Failures(n)[1..] == Failures(n - 1);
      FailuresKeepClock(cfg, Step(cfg, s, FailCall(0)), n - 1);
    }
  }

  // ── The service ─────────────────────────────────────────────────────────────

  datatype LockoutState = LockoutState(locked: bool, escalated: bool, lockedUntil: Option<Time>, remaining: int)

  /** The lock as a loaded row shows it. */
  method CheckLockout(user: Row, now: Time) returns (state: LockoutState)
    ensures state.locked == IsLocked(user, now)
    ensures state.escalated == user.escalated
    ensures state.lockedUntil == if state.locked && !user.escalated then user.lockedUntil else None
    ensures state.locked && !user.escalated ==>
      0 <= state.remaining && state.remaining * SECOND <= user.lockedUntil.value - now < (state.remaining + 1) * SECOND
  {
    if user.escalated {
      return LockoutState(true, true, None, -1);
    }
    if user.lockedUntil.Some? && user.lockedUntil.value > now {
      return LockoutState(true, false, user.lockedUntil, (user.lockedUntil.value - now) / SECOND);
    }
    return LockoutState(false, false, None, 0);
  }

  class AccountRow {
    var failedCount: nat
    var streakStart: Option<Time>
    var cycles: nat
    var lastLockout: Option<Time>
    var lockedUntil: Option<Time>
    var escalated: bool
    ghost var log: seq<Event>
    ghost var clock: Time

    ghost function View(): State
      reads this
    {
      State(Row(failedCount, streakStart, cycles, lastLockout, lockedUntil, escalated), log, clock)
    }

    constructor ()
      ensures View() == NewState
    {
      failedCount, cycles, escalated := 0, 0, false;
      streakStart, lastLockout, lockedUntil := None, None, None;
      log, clock := [], 0;
    }

    method RecordFailedAttempt(cfg: Config, now: Time)
      modifies this
      ensures View() == RecordFailure(cfg, old(View()), now)
    {
      CountAttempt(cfg, now);
      hide CountFailure, TripLock;
      log := log + [Failure(now)];
      clock := now;
      if failedCount >= cfg.maxFailed {
        StartLock(cfg, now);
        log := log + [Lock(now)];
      }
    }

    method CountAttempt(cfg: Config, now: Time)
      modifies this`failedCount, this`streakStart
      ensures View() == State(CountFailure(cfg, old(View()).row, now), old(log), old(clock))
    {
      var cutoff := now - cfg.resetWindow;
      if streakStart.Some? && streakStart.value < cutoff {
        failedCount := 0;
        streakStart := None;
      }
      if failedCount == 0 {
        streakStart := Some(now);
      }
      failedCount := failedCount + 1;
    }

    method StartLock(cfg: Config, now: Time)
      modifies this`failedCount, this`streakStart, this`cycles, this`lastLockout, this`lockedUntil, this`escalated
      ensures View() == State(TripLock(cfg, old(View()).row, now), old(log), old(clock))
    {
      var windowCutoff := now - cfg.escalationWindow;
      if lastLockout.Some? && lastLockout.value >= windowCutoff {
        cycles := cycles + 1;
      } else {
        cycles := 1;
      }
      lastLockout := Some(now);
      failedCount := 0;
      streakStart := None;
      if cycles >= cfg.escalationCount && cfg.requireAdminUnlock {
        escalated := true;
        lockedUntil := None;
      } else {
        lockedUntil := Some(now + cfg.duration);
      }
    }

    method RecordSignIn(now: Time)
      modifies this
      ensures View() == RecordSuccess(old(View()), now)
    {
      failedCount, streakStart, lockedUntil := 0, None, None;
      log, clock := log + [Success(now)], now;
    }

    method AdminUnlock(now: Time)
      modifies this
      ensures View() == AdminUnlocks(old(View()), now)
    {
      failedCount, streakStart, lockedUntil, cycles, escalated := 0, None, None, 0, false;
      log, clock := log + [Unlock(now)], now;
    }

    method AdminLockAccount(now: Time)
      modifies this
      ensures View() == AdminLocks(old(View()), now)
    {
      escalated, lockedUntil := true, None;
      log, clock := log + [AdminLock(now)], now;
    }

    /** `user` is the row as the request loaded it, checked at `checked`; what it leads to is
     *  recorded here, at `now`. */
    method SignIn(cfg: Config, user: Row, checked: Time, a: Attempt, now: Time) returns (accepted: bool)
      modifies this
      ensures (View(), accepted) == Authenticate(cfg, old(View()), user, checked, a, now)
    {
      var state := CheckLockout(user, checked);
      if state.locked {
        clock := now;
        return false;
      }
      if !a.statusActive {
        clock := now;
        return false;
      }
      if !a.passwordRight || !a.mayAuthenticate {
        RecordFailedAttempt(cfg, now);
        return false;
      }
      RecordSignIn(now);
      return true;
    }
  }
}
