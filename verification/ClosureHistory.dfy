/** An activity as its closings, reopenings and moves leave it, told from the calls and the answers
 *  they got.
 */
module ClosureHistory {
  import opened Basics
  import opened Closure

  // ── One act ─────────────────────────────────────────────────────────────────

  /** A reopening for wrong evidence, a wrong Salesforce id, a wrong school or a duplicate returns the
   *  work; for anything else it stays verified. Either way the last closing is marked, the reopening
   *  is filed at its instant, and one event is logged; a refused one changes nothing. */
  lemma ReopeningLeaves(r: Row, category: Category, actor: nat, at: Time)
    ensures var (after, answer) := Reopen(r, category, actor, at);
      if answer == NowReopened then
        && after.status == (match category
            case WrongEvidence => ReturnedByIa
            case WrongSalesforceId => ReturnedByIa
            case WrongSchool => ReturnedByIa
            case DuplicateDiscovered => ReturnedByIa
            case OtherCategory(_) => IaVerified)
        && after.reopens == r.reopens + [at] && after.timeline == r.timeline + [ReopenedEvent(actor)]
        && after.closure == (if r.closure.Some? then Some(Record(r.closure.value.closedAt, r.closure.value.closedBy, false)) else None)
      else after == r
  {
  }

  /** A closing that takes effect, and who gets which answer. */
  lemma ClosingLeaves(r: Row, allowed: bool, eligible: bool, actor: nat, at: Time)
    ensures var (after, answer) := Close(r, allowed, eligible, actor, at);
      && (answer == MayNotClose <==> !allowed)
      && (answer == NotEligible <==> allowed && !eligible)
      && (answer.NowClosed? <==> allowed && eligible && !(r.status == Closed && r.closure.Some?))
      && (answer.NowClosed? ==> after == Row(Closed, Some(Record(at, actor, true)), r.reopens, r.timeline + [ClosedEvent(actor)]))
      && (answer.NowClosed? ==> answer.record == Record(at, actor, true))
      && (!answer.NowClosed? ==> after == r)
      && (answer.AlreadyClosed? ==> Some(answer.record) == r.closure)
  {
  }

  // ── A whole run ─────────────────────────────────────────────────────────────

  datatype Act =
    | ClosedAct(actor: nat, at: Time)
    | ReopenedAct(category: Category, actor: nat, at: Time)
    | MovedAct(to: Status)

  /** What a call did, by its answer: None for one that was refused or came second. */
  function ActOf(r: Row, c: Call): Option<Act>
  {
    match c
    case CloseCall(allowed, eligible, actor, at) =>
      if Close(r, allowed, eligible, actor, at).1.NowClosed? then Some(ClosedAct(actor, at)) else None
    case ReopenCall(category, actor, at) =>
      if Reopen(r, category, actor, at).1 == NowReopened then Some(ReopenedAct(category, actor, at)) else None
    case MoveCall(to, _) => if to == Closed then None else Some(MovedAct(to))
  }

  function Acts(r: Row, calls: seq<Call>): seq<Act>
    decreases |calls|
  {
    if |calls| == 0 then []
    else
      var act := ActOf(r, calls[0]);
      (if act.Some? then [act.value] else []) + Acts(Step(r, calls[0]), calls[1..])
  }

  /** The status after these acts: what the last of them left. */
  function StatusAfter(start: Status, acts: seq<Act>): Status
  {
    if |acts| == 0 then start
    else
      match acts[|acts| - 1]
      case ClosedAct(_, _) => Closed
      case ReopenedAct(category, _, _) => if category.OtherCategory? then IaVerified else ReturnedByIa
      case MovedAct(to) => to
  }

  /** The instants of the reopenings, and the events of the timeline. */
  function Reopenings(acts: seq<Act>): seq<Time>
  {
    if |acts| == 0 then []
    else
      var before, last := Reopenings(acts[..|acts| - 1]), acts[|acts| - 1];
      if last.ReopenedAct? then before + [last.at] else before
  }

  function Logged(acts: seq<Act>): seq<Event>
  {
    if |acts| == 0 then []
    else
      var before, last := Logged(acts[..|acts| - 1]), acts[|acts| - 1];
      match last
      case ClosedAct(actor, _) => before + [ClosedEvent(actor)]
      case ReopenedAct(_, actor, _) => before + [ReopenedEvent(actor)]
      case MovedAct(_) => before
  }

  /** The closing on record: the last one, no longer standing once something was reopened since. */
  function OnRecord(acts: seq<Act>): Option<Record>
  {
    if |acts| == 0 then None
    else
      var before, last := OnRecord(acts[..|acts| - 1]), acts[|acts| - 1];
      match last
      case ClosedAct(actor, at) => Some(Record(at, actor, true))
      case ReopenedAct(_, _, _) => if before.Some? then Some(before.value.(standing := false)) else None
      case MovedAct(_) => before
  }

  ghost predicate Tells(r: Row, start: Status, acts: seq<Act>)
  {
    && r.status == StatusAfter(start, acts)
    && r.closure == OnRecord(acts)
    && r.reopens == Reopenings(acts)
    && r.timeline == Logged(acts)
  }

  lemma StepTells(r: Row, start: Status, acts: seq<Act>, c: Call)
    requires Tells(r, start, acts)
    ensures Tells(Step(r, c), start, acts + if ActOf(r, c).Some? then [ActOf(r, c).value] else [])
  {
    if ActOf(r, c).Some? {
      assert (acts + [ActOf(r, c).value])[..|acts|] == acts;
    } else {
      assert acts + [] == acts;
    }
  }

  lemma {:induction false} RunTells(r: Row, start: Status, acts: seq<Act>, calls: seq<Call>)
    requires Tells(r, start, acts)
    ensures Tells(After(r, calls), start, acts + Acts(r, calls))
    decreases |calls|
  {
    hide Tells, Step, ActOf;
    if |calls| == 0 {
      assert acts + [] == acts;
    } else {
      var act := ActOf(r, calls[0]);
      var first := if act.Some? then [act.value] else [];
      StepTells(r, start, acts, calls[0]);
      RunTells(Step(r, calls[0]), start, acts + first, calls[1..]);
      assert acts + first + Acts(Step(r, calls[0]), calls[1..]) == acts + (first + Acts(Step(r, calls[0]), calls[1..]));
    }
  }

  /** Everything about an activity after any run follows from the acts that took effect: its status
   *  from the last one, its record from the last closing, its timeline from all of them. */
  lemma HistoryDecides(status: Status, calls: seq<Call>)
    ensures Tells(After(NewRow(status), calls), status, Acts(NewRow(status), calls))
  {
    RunTells(NewRow(status), status, [], calls);
    assert [] + Acts(NewRow(status), calls) == Acts(NewRow(status), calls);
  }

  /** Work returned by a reopening is reopened by nobody until somebody moves or closes it. */
  lemma ReturnedWorkWaits(r: Row, category: Category, actor: nat, at: Time, calls: seq<Call>, again: Category, who: nat, later: Time)
    requires !category.OtherCategory? && Reopen(r, category, actor, at).1 == NowReopened
    requires forall c :: c in calls ==> c.ReopenCall? || (c.CloseCall? && !(c.allowed && c.eligible))
    ensures var waiting := Reopen(r, category, actor, at).0;
      After(waiting, calls) == waiting && Reopen(After(waiting, calls), again, who, later) == (waiting, NothingToReopen)
  {
    NothingHappens(Reopen(r, category, actor, at).0, calls);
  }

  lemma {:induction false} NothingHappens(r: Row, calls: seq<Call>)
    requires r.status == ReturnedByIa
    requires forall c :: c in calls ==> c.ReopenCall? || (c.CloseCall? && !(c.allowed && c.eligible))
    ensures After(r, calls) == r
    decreases |calls|
  {
    if |calls| == 0 {
    } else {
      assert calls[0] in calls && forall c :: c in calls[1..] ==> c in calls;
      NothingHappens(r, calls[1..]);
    }
  }
}
