/** Closing and reopening one activity.
 *
 *  Both acts take the activity's row lock before they re-read its status, so a run is a
 *  sequence of locked acts. The eligibility check happens before the lock: its answer is an
 *  argument, and may be about an older row. Other services move the activity between other
 *  statuses; none of them sets "closed".
 */
module Closure {
  import opened Basics

  datatype Status = Closed | AccountantConfirmed | IaVerified | ReturnedByIa | Elsewhere(name: string)

  datatype Category = WrongEvidence | WrongSalesforceId | WrongSchool | DuplicateDiscovered | OtherCategory(name: string)

  /** The one closure record of an activity; reopening keeps it and marks it reopened. */
  datatype Record = Record(closedAt: Time, closedBy: nat, standing: bool)

  datatype Event = ClosedEvent(actor: nat) | ReopenedEvent(actor: nat)

  datatype Row = Row(
    status: Status,
    closure: Option<Record>,
    reopens: seq<Time>,
    timeline: seq<Event>)

  datatype CloseResult = MayNotClose | NotEligible | AlreadyClosed(record: Record) | NowClosed(record: Record)

  datatype ReopenResult = NothingToReopen | AlreadyReopened | NowReopened

  predicate Reopenable(s: Status)
  {
    s.Closed? || s.AccountantConfirmed? || s.IaVerified?
  }

  predicate Invalidates(c: Category)
  {
    !c.OtherCategory?
  }

  function Close(r: Row, allowed: bool, eligible: bool, actor: nat, at: Time): (Row, CloseResult)
  {
    if !allowed then (r, MayNotClose)
    else if !eligible then (r, NotEligible)
    else if r.status.Closed? && r.closure.Some? then (r, AlreadyClosed(r.closure.value))
    else
      var record := Record(at, actor, true);
      (r.(status := Closed, closure := Some(record), timeline := r.timeline + [ClosedEvent(actor)]), NowClosed(record))
  }

  predicate ReopenedSince(r: Row, closedAt: Time)
  {
    exists t :: t in r.reopens && t >= closedAt
  }

  function Reopen(r: Row, category: Category, actor: nat, at: Time): (Row, ReopenResult)
  {
    if !Reopenable(r.status) then (r, NothingToReopen)
    else if r.closure.Some? && ReopenedSince(r, r.closure.value.closedAt) then (r, AlreadyReopened)
    else
      (Row(
         if Invalidates(category) then ReturnedByIa else IaVerified,
         if r.closure.Some? then Some(r.closure.value.(standing := false)) else None,
         r.reopens + [at],
         r.timeline + [ReopenedEvent(actor)]),
       NowReopened)
  }

  // ── Runs ────────────────────────────────────────────────────────────────────

  datatype Call =
    | CloseCall(allowed: bool, eligible: bool, actor: nat, at: Time)
    | ReopenCall(category: Category, actor: nat, at: Time)
    | MoveCall(to: Status, at: Time)

  function Step(r: Row, c: Call): Row
  {
    match c
    case CloseCall(allowed, eligible, actor, at) => Close(r, allowed, eligible, actor, at).0
    case ReopenCall(category, actor, at) => Reopen(r, category, actor, at).0
    case MoveCall(to, at) => if to.Closed? then r else r.(status := to)
  }

  predicate Ordered(now: Time, calls: seq<Call>)
    decreases |calls|
  {
    |calls| > 0 ==> now <= calls[0].at && Ordered(calls[0].at, calls[1..])
  }

  function After(r: Row, calls: seq<Call>): Row
    decreases |calls|
  {
    if |calls| == 0 then r else After(Step(r, calls[0]), calls[1..])
  }

  /** The instant the run has reached. */
  function Clock(now: Time, calls: seq<Call>): Time
    decreases |calls|
  {
    if |calls| == 0 then now else Clock(calls[0].at, calls[1..])
  }

  /** What one step visibly did: the activity became closed, was reopened, or was taken out of
   *  "closed" by another service. */
  datatype Mark = Closing | Reopening | Leaving

  function MarkOf(before: Row, after: Row): Option<Mark>
  {
    if |after.reopens| > |before.reopens| then Some(Reopening)
    else if !before.status.Closed? && after.status.Closed? then Some(Closing)
    else if before.status.Closed? && !after.status.Closed? then Some(Leaving)
    else None
  }

  function Marks(r: Row, calls: seq<Call>): seq<Mark>
    decreases |calls|
  {
    if |calls| == 0 then []
    else
      var next := Step(r, calls[0]);
      var mark := MarkOf(r, next);
      (if mark.Some? then [mark.value] else []) + Marks(next, calls[1..])
  }

  // ── The order closings and reopenings come in ───────────────────────────────

  datatype Phase = NeverClosed | Standing | Left | Reopened

  /** What may follow what; None is an order that never occurs. */
  function Follow(p: Phase, m: Mark): Option<Phase>
  {
    match m
    case Closing => if p.Standing? then None else Some(Standing)
    case Reopening => if p.NeverClosed? then Some(NeverClosed) else if p.Reopened? then None else Some(Reopened)
    case Leaving => if p.Standing? then Some(Left) else None
  }

  function FollowAll(p: Phase, marks: seq<Mark>): Option<Phase>
    decreases |marks|
  {
    if |marks| == 0 then Some(p)
    else
      var next := Follow(p, marks[0]);
      if next.None? then None else FollowAll(next.value, marks[1..])
  }

  /** How the row shows the phase. `now` is no earlier than anything recorded. */
  ghost predicate Shows(r: Row, p: Phase, now: Time)
  {
    && (r.closure.None? <==> p.NeverClosed?)
    && (r.status.Closed? <==> p.Standing?)
    && (r.status.Closed? ==> r.closure.Some? && r.closure.value.standing)
    && (forall t :: t in r.reopens ==> t <= now)
    && (r.closure.Some? ==> r.closure.value.closedAt <= now)
    && (p.Standing? || p.Left? ==> forall t :: t in r.reopens ==> t <= r.closure.value.closedAt)
    && (p.Reopened? ==> ReopenedSince(r, r.closure.value.closedAt) && !r.closure.value.standing)
  }

  function NewRow(status: Status): Row
  {
    Row(status, None, [], [])
  }

  function PhaseAfter(p: Phase, before: Row, after: Row): Option<Phase>
  {
    var mark := MarkOf(before, after);
    if mark.None? then Some(p) else Follow(p, mark.value)
  }

  lemma StepFollows(r: Row, p: Phase, now: Time, c: Call)
    requires Shows(r, p, now) && now <= c.at
    ensures PhaseAfter(p, r, Step(r, c)).Some?
    ensures Shows(Step(r, c), PhaseAfter(p, r, Step(r, c)).value, c.at)
  {
    if c.ReopenCall? && Step(r, c) != r && r.closure.Some? {
      assert c.at in Step(r, c).reopens;
    }
  }

  lemma {:induction false} RunFollows(r: Row, p: Phase, now: Time, calls: seq<Call>)
    requires Shows(r, p, now) && Ordered(now, calls)
    ensures FollowAll(p, Marks(r, calls)).Some?
    ensures Shows(After(r, calls), FollowAll(p, Marks(r, calls)).value, Clock(now, calls))
    decreases |calls|
  {
    hide Shows, Step;
    if |calls| == 0 {
    } else {
      var next := Step(r, calls[0]);
      StepFollows(r, p, now, calls[0]);
      RunFollows(next, PhaseAfter(p, r, next).value, calls[0].at, calls[1..]);
      var mark := MarkOf(r, next);
      var rest := Marks(next, calls[1..]);
      if mark.Some? {
        assert ([mark.value] + rest)[1..] == rest;
      } else {
        assert [] + rest == rest;
      }
    }
  }

  /** From the first closing on, closings and reopenings strictly take turns, whoever calls and
   *  whatever stale eligibility a caller holds, as long as nobody else takes the activity out
   *  of "closed". */
  lemma StrictTurns(r: Row, now: Time, calls: seq<Call>, i: nat)
    requires Shows(r, Standing, now) && Ordered(now, calls)
    requires Leaving !in Marks(r, calls)
    requires i < |Marks(r, calls)|
    ensures Marks(r, calls)[i] == if i % 2 == 0 then Reopening else Closing
  {
    RunFollows(r, Standing, now, calls);
    TakeTurns(Standing, Marks(r, calls), i);
  }

  lemma {:induction false} TakeTurns(p: Phase, marks: seq<Mark>, i: nat)
    requires p.Standing? || p.Reopened?
    requires FollowAll(p, marks).Some? && Leaving !in marks && i < |marks|
    ensures marks[i] == if (i % 2 == 0) == p.Standing? then Reopening else Closing
    decreases i
  {
    assert marks[0] != Leaving;
    if i == 0 {
    } else {
      TakeTurns(Follow(p, marks[0]).value, marks[1..], i - 1);
    }
  }

  /** Nothing another service does lets one closing be reopened twice. */
  lemma OneReopeningPerClosing(r: Row, p: Phase, now: Time, calls: seq<Call>, i: nat, j: nat)
    requires Shows(r, p, now) && Ordered(now, calls) && !p.NeverClosed?
    requires i < j < |Marks(r, calls)| && Marks(r, calls)[i] == Marks(r, calls)[j] == Reopening
    ensures exists k :: i < k < j && Marks(r, calls)[k] == Closing
  {
    RunFollows(r, p, now, calls);
    ClosingBetween(p, Marks(r, calls), i, j);
  }

  lemma {:induction false} ClosingBetween(p: Phase, marks: seq<Mark>, i: nat, j: nat)
    requires FollowAll(p, marks).Some? && !p.NeverClosed?
    requires i < j < |marks| && marks[i] == marks[j] == Reopening
    ensures exists k :: i < k < j && marks[k] == Closing
    decreases i
  {
    var q := Follow(p, marks[0]).value;
    if i > 0 {
      ClosingBetween(q, marks[1..], i - 1, j - 1);
      var k :| i - 1 < k < j - 1 && marks[1..][k] == Closing;
      assert marks[k + 1] == Closing;
    } else {
      assert marks[1] == Closing;
    }
  }

  // ── When a reopening is accepted ────────────────────────────────────────────

  /** In every reachable row a reopening is accepted exactly when the work reached the end and
   *  the last closing has not been reopened; it is also refused when an earlier reopening
   *  carries the very instant of the last closing. */
  lemma ReopenAcceptedIff(status: Status, start: Time, calls: seq<Call>, category: Category, actor: nat, at: Time)
    requires !status.Closed? && Ordered(start, calls) && Clock(start, calls) <= at
    ensures var r := After(NewRow(status), calls);
      var phase := FollowAll(NeverClosed, Marks(NewRow(status), calls));
      Reopen(r, category, actor, at).1 == NowReopened <==>
        && r.status in {Closed, AccountantConfirmed, IaVerified}
        && phase != Some(Reopened) && (r.closure.Some? ==> r.closure.value.closedAt !in r.reopens)
    ensures var r := After(NewRow(status), calls);
      Reopen(r, category, actor, at).1 == NothingToReopen <==> r.status !in {Closed, AccountantConfirmed, IaVerified}
  {
    RunFollows(NewRow(status), NeverClosed, start, calls);
  }

  lemma OneMore(r: Row, next: Row, c: Call, rest: seq<Call>)
    requires next == Step(r, c)
    ensures After(r, [c] + rest) == After(next, rest)
    ensures Marks(r, [c] + rest) == (if MarkOf(r, next).Some? then [MarkOf(r, next).value] else []) + Marks(next, rest)
  {
    assert ([c] + rest)[1..] == rest;
  }

  /** Closed, reopened and closed again within one instant, the second closing cannot be reopened. */
  lemma SameInstantIsRefused(actor: nat, at: Time)
    ensures var shut := CloseCall(true, true, actor, at);
      var open := ReopenCall(OtherCategory("finance"), actor, at);
      var r := After(NewRow(IaVerified), [shut, open, shut]);
      && Marks(NewRow(IaVerified), [shut, open, shut]) == [Closing, Reopening, Closing]
      && Reopen(r, OtherCategory("finance"), actor, at + DAY).1 == AlreadyReopened
  {
    var shut := CloseCall(true, true, actor, at);
    var open := ReopenCall(OtherCategory("finance"), actor, at);
    var r0 := NewRow(IaVerified);
    var r1 := Row(Closed, Some(Record(at, actor, true)), [], [ClosedEvent(actor)]);
    var r2 := Row(IaVerified, Some(Record(at, actor, false)), [at], [ClosedEvent(actor), ReopenedEvent(actor)]);
    var r3 := Row(Closed, Some(Record(at, actor, true)), [at], [ClosedEvent(actor), ReopenedEvent(actor), ClosedEvent(actor)]);
    assert Step(r0, shut) == r1 && Step(r1, open) == r2 && Step(r2, shut) == r3;
    assert at in r3.reopens;
    OneMore(r0, r1, shut, [open, shut]);
    OneMore(r1, r2, open, [shut]);
    OneMore(r2, r3, shut, []);
    assert [shut] + [open, shut] == [shut, open, shut] && [open] + [shut] == [open, shut] && [shut] + [] == [shut];
  }

  // ── The timeline ────────────────────────────────────────────────────────────

  function ClosedEvents(timeline: seq<Event>): nat
  {
    if |timeline| == 0 then 0
    else ClosedEvents(timeline[..|timeline| - 1]) + if timeline[|timeline| - 1].ClosedEvent? then 1 else 0
  }

  function Closings(marks: seq<Mark>): nat
  {
    if |marks| == 0 then 0 else (if marks[0].Closing? then 1 else 0) + Closings(marks[1..])
  }

  lemma StepLogsOnce(r: Row, p: Phase, now: Time, c: Call)
    requires Shows(r, p, now) && now <= c.at
    ensures var r' := Step(r, c);
      && r.timeline <= r'.timeline
      && ClosedEvents(r'.timeline) == ClosedEvents(r.timeline) + if MarkOf(r, r') == Some(Closing) then 1 else 0
  {
    var r' := Step(r, c);
    if |r'.timeline| > |r.timeline| {
      assert r'.timeline[..|r.timeline|] == r.timeline;
    }
  }

  /** The timeline only grows, and records "Closed" once for each time the activity became
   *  closed: a double close leaves one event. */
  lemma {:induction false} ClosedOncePerClosing(r: Row, p: Phase, now: Time, calls: seq<Call>)
    requires Shows(r, p, now) && Ordered(now, calls)
    ensures r.timeline <= After(r, calls).timeline
    ensures ClosedEvents(After(r, calls).timeline) == ClosedEvents(r.timeline) + Closings(Marks(r, calls))
    decreases |calls|
  {
    hide Shows, Step, ClosedEvents;
    if |calls| == 0 {
    } else {
      var next := Step(r, calls[0]);
      StepFollows(r, p, now, calls[0]);
      StepLogsOnce(r, p, now, calls[0]);
      ClosedOncePerClosing(next, PhaseAfter(p, r, next).value, calls[0].at, calls[1..]);
      var mark := MarkOf(r, next);
      var rest := Marks(next, calls[1..]);
      if mark.Some? {
        assert ([mark.value] + rest)[1..] == rest;
      } else {
        assert [] + rest == rest;
      }
    }
  }

  /** Two callers that both passed the check: the second gets the first one's record, and the
   *  row is as if it had not called. */
  lemma DoubleCloseIsOne(r: Row, p: Phase, now: Time, first: nat, second: nat, t1: Time, t2: Time)
    requires Shows(r, p, now) && now <= t1 <= t2
    ensures var once := Close(r, true, true, first, t1);
      var twice := Close(once.0, true, true, second, t2);
      twice.0 == once.0 && twice.1 == AlreadyClosed(once.0.closure.value)
      && (p.Standing? ==> once.0 == r) && (!p.Standing? ==> once.0.closure.value == Record(t1, first, true))
  {
  }

  // ── The service ─────────────────────────────────────────────────────────────

  class ActivityRow {
    var status: Status
    var closure: Option<Record>
    var reopens: seq<Time>
    var timeline: seq<Event>

    constructor (initial: Status)
      ensures View() == NewRow(initial)
    {
      status, closure, reopens, timeline := initial, None, [], [];
    }

    ghost function View(): Row
      reads this
    {
      Row(status, closure, reopens, timeline)
    }

    method CloseActivity(system: bool, mayClose: bool, bypassChecks: bool, wasEligible: bool, actor: nat, at: Time)
      returns (result: CloseResult)
      modifies this
      ensures (View(), result) == Close(old(View()), system || mayClose, bypassChecks || wasEligible, actor, at)
    {
      if !system && !mayClose {
        return MayNotClose;
      }
      if !bypassChecks && !wasEligible {
        return NotEligible;
      }
      if status.Closed? && closure.Some? {
        return AlreadyClosed(closure.value);
      }
      status := Closed;
      closure := Some(Record(at, actor, true));
      timeline := timeline + [ClosedEvent(actor)];
      return NowClosed(closure.value);
    }

    method ReopenActivity(category: Category, actor: nat, at: Time) returns (result: ReopenResult)
      modifies this
      ensures (View(), result) == Reopen(old(View()), category, actor, at)
    {
      if !Reopenable(status) {
        return NothingToReopen;
      }
      if closure.Some? && ReopenedSince(Row(status, closure, reopens, timeline), closure.value.closedAt) {
        return AlreadyReopened;
      }
      reopens := reopens + [at];
      status := if Invalidates(category) then ReturnedByIa else IaVerified;
      if closure.Some? {
        closure := Some(closure.value.(standing := false));
      }
      timeline := timeline + [ReopenedEvent(actor)];
      return NowReopened;
    }
  }
}
