/** The sweep among other calls: a row may be moved between its listing and its stamping.
 *
 *  Every call here falls on or after the day the sweep listed the row for.
 */
module ActingSweep {
  import opened Basics
  import opened Calendar
  import opened Acting

  // ── From listing to stamping ────────────────────────────────────────────────

  predicate NoneBefore(on: Date, calls: seq<Call>)
  {
    forall c :: c in calls ==> NotAfter(on, c.on)
  }

  /** What a row can have become: once it has begun its dates stay, and stamps other than a moved
   *  reminder's are never taken back. */
  predicate Became(a: Assignment, z: Assignment, on: Date)
  {
    && z.appointee == a.appointee && z.seat == a.seat && z.kind == a.kind
    && (a.cancelled ==> z.cancelled) && (a.activated ==> z.activated) && (a.expired ==> z.expired)
    && (NotAfter(a.start, on) ==> z.start == a.start && z.end == a.end && (a.reminded ==> z.reminded))
  }

  lemma StepOfRow(b: Book, c: Call, id: nat, on: Date)
    requires id < |b.rows| && IsDate(c.on) && NotAfter(on, c.on)
    ensures id < |Step(b, c).rows| && Became(b.rows[id], Step(b, c).rows[id], on)
  {
    hide AppointableMonth, Conflicts, LatestEnd;
  }

  lemma {:induction false} RunOfRow(b: Book, calls: seq<Call>, id: nat, on: Date)
    requires id < |b.rows| && Dated(calls) && NoneBefore(on, calls)
    ensures id < |After(b, calls).rows| && Became(b.rows[id], After(b, calls).rows[id], on)
    decreases |calls|
  {
    hide Step;
    if |calls| == 0 {
    } else {
      assert calls[0] in calls && forall c :: c in calls[1..] ==> c in calls;
      StepOfRow(b, calls[0], id, on);
      RunOfRow(Step(b, calls[0]), calls[1..], id, on);
    }
  }

  predicate InReminderRange(a: Assignment, on: Date)
  {
    Earlier(on, a.start) && NotAfter(a.start, AddDays(on, REMINDER_DAYS))
  }

  /** A row that was listed and is stamped was still due then, unless it is a reminder whose month
   *  has been moved out of the range since: starts and ends are never stamped early or late. */
  lemma StampedWasDueIff(b: Book, calls: seq<Call>, id: nat, t: Transition, on: Date)
    requires TableInv(b.rows) && id < |b.rows| && Due(b.rows[id], on, t)
    requires Dated(calls) && NoneBefore(on, calls)
    requires id < |After(b, calls).rows| && Stampable(After(b, calls).rows[id], t)
    ensures var z := After(b, calls).rows[id];
      Due(z, on, t) <==> !(t.Reminder? && z.start != b.rows[id].start && !InReminderRange(z, on))
  {
    RunOfRow(b, calls, id, on);
    hide After;
    RowIsWhole(b.rows, id);
  }

  // ── Stamped once ────────────────────────────────────────────────────────────

  predicate Stamps(b: Book, c: Call, id: nat, t: Transition)
  {
    c.StampCall? && c.id == id && c.t == t && id < |b.rows| && Stampable(b.rows[id], t)
  }

  predicate Moves(b: Book, c: Call, id: nat)
    requires IsDate(c.on)
  {
    c.RescheduleCall? && id < |b.rows| && id < |Step(b, c).rows| && Step(b, c).rows[id].start != b.rows[id].start
  }

  /** How often a run stamps one transition of a row, whatever sweeps its calls come from. */
  function StampCount(b: Book, calls: seq<Call>, id: nat, t: Transition): nat
    requires Dated(calls)
    decreases |calls|
  {
    if |calls| == 0 then 0
    else (if Stamps(b, calls[0], id, t) then 1 else 0) + StampCount(Step(b, calls[0]), calls[1..], id, t)
  }

  function MoveCount(b: Book, calls: seq<Call>, id: nat): nat
    requires Dated(calls)
    decreases |calls|
  {
    if |calls| == 0 then 0
    else (if Moves(b, calls[0], id) then 1 else 0) + MoveCount(Step(b, calls[0]), calls[1..], id)
  }

  function Stamp(b: Book, id: nat, t: Transition): nat
  {
    if id < |b.rows| && IsStamped(b.rows[id], t) then 1 else 0
  }

  lemma StepStamps(b: Book, c: Call, id: nat, t: Transition)
    requires IsDate(c.on)
    ensures !t.Reminder? || !Moves(b, c, id) ==>
      Stamp(Step(b, c), id, t) == Stamp(b, id, t) + if Stamps(b, c, id, t) then 1 else 0
    ensures t.Reminder? && Moves(b, c, id) ==> !Stamps(b, c, id, t) && Stamp(Step(b, c), id, t) == 0
  {
    hide AppointableMonth, Conflicts, LatestEnd;
  }

  /** A start and an end are stamped once, over any run; a reminder once for each time the row is
   *  moved, and once more. */
  lemma {:induction false} StampedOnce(b: Book, calls: seq<Call>, id: nat, t: Transition)
    requires Dated(calls)
    ensures !t.Reminder? ==> StampCount(b, calls, id, t) == Stamp(After(b, calls), id, t) - Stamp(b, id, t)
    ensures t.Reminder? ==>
      StampCount(b, calls, id, t) <= Stamp(After(b, calls), id, t) - Stamp(b, id, t) + MoveCount(b, calls, id)
    decreases |calls|
  {
    hide Step, Stamps, Moves, Stamp;
    if |calls| == 0 {
    } else {
      StepStamps(b, calls[0], id, t);
      StampIsOneOrNone(b, id, t);
      StampedOnce(Step(b, calls[0]), calls[1..], id, t);
    }
  }

  lemma StampIsOneOrNone(b: Book, id: nat, t: Transition)
    ensures Stamp(b, id, t) <= 1
  {
  }

  // ── A reminder that is never sent ───────────────────────────────────────────

  const December := Assignment(1, 1, 1, Date(2026, 12, 1), Date(2026, 12, 31), false, false, false, false)

  const Listed := Book([October], map[1 := October.end])

  /** October is listed on 28 September and moved to December before it is stamped. The stamp is
   *  put on December, which was not due, and in its own range it is never due again. */
  lemma MovedReminderExample()
    ensures var listedOn, later := Date(2026, 9, 28), Date(2026, 11, 29);
      var moved := Reschedule(Listed, [October], [October], 0, true, 2026, 12, listedOn).0;
      var stamped := StampOne(moved, moved.rows, 0, Reminder);
      && Due(Listed.rows[0], listedOn, Reminder)
      && moved.rows == [December] && !Due(December, listedOn, Reminder)
      && stamped.rows == [December.(reminded := true)]
      && Due(December, later, Reminder) && !Due(stamped.rows[0], later, Reminder)
  {
    var listedOn, later := Date(2026, 9, 28), Date(2026, 11, 29);
    AcceptedByDistance(listedOn, 2026, 12);
    hide AppointableMonth, LatestEnd;
    ThreeDaysOn(listedOn);
    ThreeDaysOn(later);
    assert [October][0 := December] == [December];
    assert [December][0 := December.(reminded := true)] == [December.(reminded := true)];
  }

  lemma ThreeDaysOn(d: Date)
    ensures AddDays(d, REMINDER_DAYS) == NextDay(NextDay(NextDay(d)))
  {
    assert AddDays(d, 3) == NextDay(AddDays(d, 2)) && AddDays(d, 2) == NextDay(AddDays(d, 1)) && AddDays(d, 1) == NextDay(AddDays(d, 0));
  }
}
