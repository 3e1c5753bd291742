/** When the acting services accept a call, and what they leave when they do, written out from
 *  the rows, the months and the count of days.
 */
module ActingRules {
  import opened Basics
  import opened Calendar
  import opened Acting

  /** This month or one of the next eleven. */
  predicate WithinReach(on: Date, year: int, month: int)
  {
    1 <= month <= 12 && 0 <= (12 * year + month) - (12 * on.year + on.month) < 12
  }

  /** Nobody standing there already: not the person, nor anybody in that seat for that purpose. */
  ghost predicate Free(rows: seq<Assignment>, ignore: Option<nat>, start: Date, who: nat, seat: nat, kind: nat)
  {
    forall i {:trigger rows[i]} :: 0 <= i < |rows| && Some(i) != ignore && !rows[i].cancelled && rows[i].start == start ==>
      rows[i].appointee != who && !(rows[i].seat == seat && rows[i].kind == kind)
  }

  lemma FreeIffNoConflict(rows: seq<Assignment>, a: Assignment, ignore: Option<nat>)
    requires !a.cancelled
    ensures Free(rows, ignore, a.start, a.appointee, a.seat, a.kind) <==> !Conflicts(rows, a, ignore)
  {
    if !Conflicts(rows, a, ignore) {
      forall i | 0 <= i < |rows| && Some(i) != ignore && !rows[i].cancelled && rows[i].start == a.start
        ensures rows[i].appointee != a.appointee && !(rows[i].seat == a.seat && rows[i].kind == a.kind)
      {
        assert !Clash(rows[i], a);
      }
    }
  }

  /** A row newly appointed: the whole month, standing, with nothing recorded. */
  predicate IsNew(a: Assignment, who: nat, seat: nat, kind: nat, year: int, month: int)
  {
    && a.appointee == who && a.seat == seat && a.kind == kind
    && a.start == Date(year, month, 1) && NextDay(a.end) == FirstOfNextMonth(a.start) && a.end.month == month
    && !a.cancelled && !a.reminded && !a.activated && !a.expired
  }

  /** An appointment is made exactly when it is allowed, for a month within reach, and both the
   *  table that was read and the table it is written to are free. Then it is the one new row. */
  lemma AppointedIff(b: Book, seen: seq<Assignment>, read: seq<Assignment>, allowed: bool,
                     who: nat, seat: nat, kind: nat, year: int, month: int, on: Date)
    requires IsDate(on)
    ensures var (t, answer) := Appoint(b, seen, read, allowed, who, seat, kind, year, month, on);
      && (answer == Done <==>
          && allowed && WithinReach(on, year, month)
          && Free(seen, None, Date(year, month, 1), who, seat, kind) && Free(b.rows, None, Date(year, month, 1), who, seat, kind))
      && (answer == Forbidden <==> !allowed)
      && (answer.BadMonth? <==> allowed && !WithinReach(on, year, month))
      && (answer == Done ==>
          && |t.rows| == |b.rows| + 1 && t.rows[..|b.rows|] == b.rows
          && IsNew(t.rows[|b.rows|], who, seat, kind, year, month))
      && (answer != Done ==> t == b)
  {
    hide Conflicts, Free, AppointableMonth, Options, LatestEnd;
    AcceptedByDistance(on, year, month);
    if WithinReach(on, year, month) {
      var (start, end) := MonthBounds(year, month);
      BoundsMeetTheConstraint(year, month);
      var a := Assignment(who, seat, kind, start, end, false, false, false, false);
      FreeIffNoConflict(seen, a, None);
      FreeIffNoConflict(b.rows, a, None);
    }
  }

  /** One row is another, and nothing else about the table changed. */
  ghost predicate OnlyRow(before: seq<Assignment>, rows: seq<Assignment>, id: nat)
  {
    |rows| == |before| && forall i :: 0 <= i < |rows| && i != id ==> rows[i] == before[i]
  }

  /** A cancellation is accepted exactly when it is allowed and the appointment stands and has not
   *  ended. Then it no longer stands, and that is all that changes about the rows. */
  lemma CancelledIff(b: Book, read: seq<Assignment>, id: nat, allowed: bool, on: Date)
    requires AllWhole(b.rows)
    ensures var (t, answer) := Cancel(b, read, id, allowed, on);
      && (answer == Done <==> id < |b.rows| && allowed && !b.rows[id].cancelled && NotAfter(on, b.rows[id].end))
      && (answer == NotFound <==> id >= |b.rows|)
      && (answer == Forbidden <==> id < |b.rows| && !allowed)
      && (answer == Done ==> OnlyRow(b.rows, t.rows, id) && t.rows[id] == b.rows[id].(cancelled := true))
      && (answer != Done ==> t == b)
  {
    hide LatestEnd;
    if id < |b.rows| {
      assert WholeMonth(b.rows[id].start, b.rows[id].end);
      BoundsMeetTheConstraint(b.rows[id].start.year, b.rows[id].start.month);
    }
  }

  /** An appointment is moved exactly when that is allowed, it stands and has not begun, the month
   *  is within reach, and it is its own month or free of everybody but itself. */
  lemma MovedIff(b: Book, seen: seq<Assignment>, read: seq<Assignment>, id: nat, allowed: bool, year: int, month: int, on: Date)
    requires IsDate(on) && id < |b.rows|
    ensures var (t, answer) := Reschedule(b, seen, read, id, allowed, year, month, on); var a := b.rows[id];
      && (answer == Done <==>
          && allowed && !a.cancelled && Earlier(on, a.start) && WithinReach(on, year, month)
          && (|| a.start == Date(year, month, 1)
              || (Free(seen, Some(id), Date(year, month, 1), a.appointee, a.seat, a.kind) &&
                  Free(b.rows, Some(id), Date(year, month, 1), a.appointee, a.seat, a.kind))))
      && (answer == Forbidden <==> !allowed)
      && (answer == WrongState <==> allowed && (a.cancelled || NotAfter(a.start, on)))
      && (answer != Done || a.start == Date(year, month, 1) ==> t == b)
  {
    hide Conflicts, Free, AppointableMonth, Options, LatestEnd;
    AcceptedByDistance(on, year, month);
    if WithinReach(on, year, month) {
      var (start, end) := MonthBounds(year, month);
      var a := b.rows[id].(start := start, end := end, reminded := false);
      if !a.cancelled {
        FreeIffNoConflict(seen, a, Some(id));
        FreeIffNoConflict(b.rows, a, Some(id));
      }
    }
  }

  /** Then it lies in the new month, its reminder is to be sent again, and nothing else changed. */
  lemma MovedRow(b: Book, seen: seq<Assignment>, read: seq<Assignment>, id: nat, allowed: bool, year: int, month: int, on: Date)
    requires IsDate(on) && id < |b.rows| && Reschedule(b, seen, read, id, allowed, year, month, on).1 == Done
    requires b.rows[id].start != Date(year, month, 1)
    ensures var t, a := Reschedule(b, seen, read, id, allowed, year, month, on).0, b.rows[id];
      && OnlyRow(b.rows, t.rows, id)
      && t.rows[id].start == Date(year, month, 1) && NextDay(t.rows[id].end) == FirstOfNextMonth(t.rows[id].start)
      && !t.rows[id].reminded
      && t.rows[id] == a.(start := t.rows[id].start, end := t.rows[id].end, reminded := false)
  {
    hide Conflicts, AppointableMonth, Options, LatestEnd;
    AcceptedByDistance(on, year, month);
    BoundsMeetTheConstraint(year, month);
  }

  /** A stamp records its own transition on a standing row, and nothing else about the rows. */
  lemma StampSets(b: Book, read: seq<Assignment>, id: nat, t: Transition)
    requires id < |b.rows|
    ensures var rows, a := StampOne(b, read, id, t).rows, b.rows[id];
      && OnlyRow(b.rows, rows, id)
      && (a.cancelled ==> rows[id] == a)
      && (!a.cancelled ==>
          rows[id] == a.(reminded := a.reminded || t == Reminder, activated := a.activated || t == Activation, expired := a.expired || t == Expiry))
  {
    hide LatestEnd;
  }

  /** Whom a call is about is the only one whose hint it can write. */
  lemma OthersKeepTheirHint(b: Book, seen: seq<Assignment>, read: seq<Assignment>, id: nat, allowed: bool,
                            who: nat, seat: nat, kind: nat, year: int, month: int, on: Date, other: nat)
    requires IsDate(on)
    ensures other != who ==> HintOf(Appoint(b, seen, read, allowed, who, seat, kind, year, month, on).0.hints, other) == HintOf(b.hints, other)
    ensures id < |b.rows| && b.rows[id].appointee != other ==>
      && HintOf(Cancel(b, read, id, allowed, on).0.hints, other) == HintOf(b.hints, other)
      && HintOf(Reschedule(b, seen, read, id, allowed, year, month, on).0.hints, other) == HintOf(b.hints, other)
  {
    hide Conflicts, AppointableMonth, LatestEnd, StateOf;
  }

  /** What the sweep finds due, by the count of days: a reminder from three days to one day before
   *  the start, an activation from the start to the end, an end once the end is past. */
  lemma DueByDays(a: Assignment, on: Date)
    requires IsDate(on) && WholeMonth(a.start, a.end)
    ensures Due(a, on, Reminder) <==> !a.cancelled && !a.reminded && 1 <= DayNumber(a.start) - DayNumber(on) <= 3
    ensures Due(a, on, Activation) <==> !a.cancelled && !a.activated && DayNumber(a.start) <= DayNumber(on) <= DayNumber(a.end)
    ensures Due(a, on, Expiry) <==> !a.cancelled && !a.expired && DayNumber(a.end) < DayNumber(on)
  {
    hide DayNumber, Earlier, DaysInMonth;
    WholeMonthsAreDates(a.start, a.end);
    var last := AddDays(on, REMINDER_DAYS);
    AddDaysAddsToTheNumber(on, REMINDER_DAYS);
    EarlierIffSmaller(on, a.start);
    EarlierIffSmaller(a.start, on);
    EarlierIffSmaller(a.start, last);
    EarlierIffSmaller(a.end, on);
    EarlierIffSmaller(on, a.end);
  }

  lemma WholeMonthsAreDates(start: Date, end: Date)
    requires WholeMonth(start, end)
    ensures IsDate(start) && IsDate(end)
  {
  }
}
