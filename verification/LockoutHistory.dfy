/** The lockout as its callers see it: what is recorded is what the calls were and how they were
 *  answered, and nothing else.
 */
module LockoutHistory {
  import opened Basics
  import opened Lockout

  /** Whether a request is let in, by what it brings and the row it checked. */
  predicate LetIn(user: Row, checked: Time, a: Attempt)
  {
    !IsLocked(user, checked) && a.statusActive && a.passwordRight && a.mayAuthenticate
  }

  /** What a call has recorded, locks apart: an attempt by a locked or inactive account nothing, a
   *  wrong password a failure, a right one a success. */
  function RecordedBy(c: Call): seq<Event>
  {
    match c
    case FailCall(now) => [Failure(now)]
    case SuccessCall(now) => [Success(now)]
    case UnlockCall(now) => [Unlock(now)]
    case AdminLockCall(now) => [AdminLock(now)]
    case AuthCall(_, user, checked, a, now) =>
      if IsLocked(user, checked) || !a.statusActive then []
      else if a.passwordRight && a.mayAuthenticate then [Success(now)]
      else [Failure(now)]
  }

  function RecordedByAll(calls: seq<Call>): seq<Event>
  {
    if |calls| == 0 then [] else RecordedBy(calls[0]) + RecordedByAll(calls[1..])
  }

  function WithoutLocks(log: seq<Event>): seq<Event>
  {
    if |log| == 0 then []
    else
      var before, last := WithoutLocks(log[..|log| - 1]), log[|log| - 1];
      if last.Lock? then before else before + [last]
  }

  lemma WithoutLocksAppend(log: seq<Event>, e: Event)
    ensures WithoutLocks(log + [e]) == WithoutLocks(log) + if e.Lock? then [] else [e]
  {
    assert (log + [e])[..|log|] == log;
  }

  lemma StepRecords(cfg: Config, s: State, c: Call)
    ensures WithoutLocks(Step(cfg, s, c).log) == WithoutLocks(s.log) + RecordedBy(c)
    ensures s.log <= Step(cfg, s, c).log && |Step(cfg, s, c).log| <= |s.log| + 2
  {
    hide WithoutLocks, CountFailure, TripLock;
    forall e ensures WithoutLocks(s.log + [e]) == WithoutLocks(s.log) + if e.Lock? then [] else [e] {
      WithoutLocksAppend(s.log, e);
    }
    WithoutLocksAppend(s.log + [Failure(c.now)], Lock(c.now));
    assert s.log + [Failure(c.now)] + [Lock(c.now)] == s.log + ([Failure(c.now)] + [Lock(c.now)]);
  }

  /** The history of any run is exactly what its calls recorded, in order, with the locks between. */
  lemma {:induction false} LogIsTheCalls(cfg: Config, s: State, calls: seq<Call>)
    ensures WithoutLocks(After(cfg, s, calls).log) == WithoutLocks(s.log) + RecordedByAll(calls)
    decreases |calls|
  {
    hide WithoutLocks, Step;
    if |calls| == 0 {
    } else {
      StepRecords(cfg, s, calls[0]);
      LogIsTheCalls(cfg, Step(cfg, s, calls[0]), calls[1..]);
      assert WithoutLocks(s.log) + RecordedBy(calls[0]) + RecordedByAll(calls[1..])
          == WithoutLocks(s.log) + (RecordedBy(calls[0]) + RecordedByAll(calls[1..]));
    }
  }

  // ── The backend's answer ────────────────────────────────────────────────────

  /** A request is let in exactly when its row was not locked at the check and everything it brings
   *  is right; and exactly when its success is what was recorded. */
  lemma AcceptedIff(cfg: Config, s: State, user: Row, checked: Time, a: Attempt, now: Time)
    ensures var (t, accepted) := Authenticate(cfg, s, user, checked, a, now);
      && (accepted <==> LetIn(user, checked, a))
      && (accepted <==> t.log == s.log + [Success(now)])
      && (!accepted ==> t.log == s.log || (|t.log| > |s.log| && t.log[|s.log|] == Failure(now)))
  {
    hide CountFailure, TripLock, IsLocked;
    var t := Authenticate(cfg, s, user, checked, a, now).0;
    assert (s.log + [Success(now)])[|s.log|] == Success(now);
    assert t.log == s.log || (|t.log| > |s.log| && t.log[|s.log|] == if LetIn(user, checked, a) then Success(now) else Failure(now));
  }

  function SuccessTimes(log: seq<Event>): seq<Time>
  {
    if |log| == 0 then []
    else
      var before, last := SuccessTimes(log[..|log| - 1]), log[|log| - 1];
      if last.Success? then before + [last.at] else before
  }

  /** When the backend let somebody in. */
  function AcceptedTimes(cfg: Config, s: State, calls: seq<Call>): seq<Time>
    decreases |calls|
  {
    if |calls| == 0 then []
    else
      var c := calls[0];
      (if c.AuthCall? && Authenticate(cfg, s, c.user, c.checked, c.attempt, c.now).1 then [c.now] else [])
      + AcceptedTimes(cfg, Step(cfg, s, c), calls[1..])
  }

  lemma SuccessesOfStep(cfg: Config, s: State, c: Call)
    requires FromBackend(c)
    ensures SuccessTimes(Step(cfg, s, c).log) == SuccessTimes(s.log)
      + if c.AuthCall? && Authenticate(cfg, s, c.user, c.checked, c.attempt, c.now).1 then [c.now] else []
  {
    hide CountFailure, TripLock, IsLocked;
    forall e ensures (s.log + [e])[..|s.log|] == s.log {
    }
    assert (s.log + [Failure(c.now)] + [Lock(c.now)])[..|s.log| + 1] == s.log + [Failure(c.now)];
  }

  /** Over any run through the backend: the sign-ins recorded are exactly the requests let in. */
  lemma {:induction false} AcceptedAreTheSuccesses(cfg: Config, s: State, calls: seq<Call>)
    requires ThroughBackend(calls)
    ensures SuccessTimes(After(cfg, s, calls).log) == SuccessTimes(s.log) + AcceptedTimes(cfg, s, calls)
    decreases |calls|
  {
    hide SuccessTimes, Step, Authenticate;
    if |calls| == 0 {
    } else {
      assert calls[0] in calls && forall c :: c in calls[1..] ==> c in calls;
      SuccessesOfStep(cfg, s, calls[0]);
      AcceptedAreTheSuccesses(cfg, Step(cfg, s, calls[0]), calls[1..]);
    }
  }
}
