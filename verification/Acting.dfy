/** Acting appointments: one person, one kind of seat, one calendar month.
 *
 *  Rows are never deleted, so an appointment's id is its position. Authority and eligibility
 *  are decided elsewhere and arrive as answers. The conflict check reads the table before
 *  the insert, possibly an older table than the insert meets; the unique constraints hold
 *  at the insert itself. The hint is computed from what its query reads, the caller's own
 *  change on top of what others had committed by then, and written later under no lock.
 */
module Acting {
  import opened Basics
  import opened Calendar

  const MONTHS_AHEAD: nat := 12
  const REMINDER_DAYS: nat := 3

  datatype Assignment = Assignment(
    appointee: nat,
    seat: nat,
    kind: nat,
    start: Date,
    end: Date,
    cancelled: bool,
    reminded: bool,
    activated: bool,
    expired: bool)

  datatype LifeState = Upcoming | Active | Expired | Cancelled

  /** `hints` is `acting_until`; a user without one has no entry. */
  datatype Book = Book(rows: seq<Assignment>, hints: map<nat, Date>)

  const EmptyBook := Book([], map[])

  // ── Months ──────────────────────────────────────────────────────────────────

  datatype MonthChoice = Chosen(start: Date, end: Date) | NotAMonth | MonthEnded | TooFarAhead

  /** The whole month with this number. */
  function MonthAt(number: int): (m: (Date, Date))
    ensures WholeMonth(m.0, m.1) && MonthNumber(m.0) == number
  {
    MonthBounds(number / 12, number % 12 + 1)
  }

  /** This month and the next eleven. */
  function Options(on: Date): (options: seq<(Date, Date)>)
    ensures |options| == MONTHS_AHEAD
  {
    seq(MONTHS_AHEAD, k => MonthAt(MonthNumber(on) + k))
  }

  method MonthOptions(on: Date) returns (options: seq<(Date, Date)>)
    requires IsDate(on)
    ensures options == Options(on)
  {
    options := [];
    var year, month := on.year, on.month;
    var n := 0;
    while n < MONTHS_AHEAD
      invariant 0 <= n <= MONTHS_AHEAD && 1 <= month <= 12
      invariant 12 * year + month - 1 == MonthNumber(on) + n
      invariant options == Options(on)[..n]
    {
      SameMonth(year, month);
      options := options + [MonthBounds(year, month)];
      if month == 12 {
        year, month := year + 1, 1;
      } else {
        month := month + 1;
      }
      n := n + 1;
    }
  }

  lemma SameMonth(year: int, month: int)
    requires 1 <= month <= 12
    ensures MonthAt(12 * year + month - 1) == MonthBounds(year, month)
  {
  }

  function AppointableMonth(on: Date, year: int, month: int): MonthChoice
    requires IsDate(on)
  {
    if !(1 <= month <= 12) then NotAMonth
    else
      var (start, end) := MonthBounds(year, month);
      var last := Options(on)[MONTHS_AHEAD - 1].0;
      if Earlier(end, on) then MonthEnded
      else if Earlier(last, start) then TooFarAhead
      else Chosen(start, end)
  }

  /** Which months are refused depends only on how far they are from this one. */
  lemma AcceptedByDistance(on: Date, year: int, month: int)
    requires IsDate(on)
    ensures AppointableMonth(on, year, month).Chosen? <==>
      1 <= month <= 12 && 0 <= 12 * year + month - 1 - MonthNumber(on) < MONTHS_AHEAD
    ensures AppointableMonth(on, year, month).Chosen? ==>
      AppointableMonth(on, year, month) == Chosen(MonthBounds(year, month).0, MonthBounds(year, month).1)
  {
    var last := MonthAt(MonthNumber(on) + MONTHS_AHEAD - 1).0;
    assert Options(on)[MONTHS_AHEAD - 1].0 == last;
  }

  /** The server accepts exactly the months it lists. */
  lemma AcceptsExactlyWhatItLists(on: Date, year: int, month: int)
    requires IsDate(on)
    ensures AppointableMonth(on, year, month).Chosen? <==> exists m :: m in Options(on) && m.0 == Date(year, month, 1)
    ensures AppointableMonth(on, year, month).Chosen? ==>
      (AppointableMonth(on, year, month).start, AppointableMonth(on, year, month).end) in Options(on)
  {
    hide AppointableMonth;
    AcceptedByDistance(on, year, month);
    if 1 <= month <= 12 {
      SameMonth(year, month);
      var k := 12 * year + month - 1 - MonthNumber(on);
      if 0 <= k < MONTHS_AHEAD {
        assert Options(on)[k] == MonthBounds(year, month);
      }
    }
    if m :| m in Options(on) && m.0 == Date(year, month, 1) {
      var j :| 0 <= j < MONTHS_AHEAD && Options(on)[j] == m;
      assert m == MonthAt(MonthNumber(on) + j);
    }
  }

  // ── The life of an appointment ──────────────────────────────────────────────

  function StateOf(a: Assignment, on: Date): LifeState
  {
    if a.cancelled then Cancelled
    else if Earlier(on, a.start) then Upcoming
    else if Earlier(a.end, on) then Expired
    else Active
  }

  predicate ActiveOn(a: Assignment, on: Date)
  {
    !a.cancelled && NotAfter(a.start, on) && NotAfter(on, a.end)
  }

  /** The query filters and the state agree. */
  lemma StateIsTheFilter(a: Assignment, on: Date)
    requires NotAfter(a.start, a.end)
    ensures StateOf(a, on).Active? <==> ActiveOn(a, on)
    ensures StateOf(a, on).Upcoming? <==> !a.cancelled && Earlier(on, a.start)
    ensures StateOf(a, on).Cancelled? || StateOf(a, on).Expired? <==> a.cancelled || Earlier(a.end, on)
  {
  }

  /** The latest end among a person's standing appointments. */
  function LatestEnd(rows: seq<Assignment>, user: nat): Option<Date>
  {
    if |rows| == 0 then None
    else
      var before := LatestEnd(rows[..|rows| - 1], user);
      var last := rows[|rows| - 1];
      if last.appointee != user || last.cancelled then before
      else if before.Some? && Earlier(last.end, before.value) then before
      else Some(last.end)
  }

  lemma {:induction false} LatestEndIsLatest(rows: seq<Assignment>, user: nat, i: nat)
    requires i < |rows| && rows[i].appointee == user && !rows[i].cancelled
    ensures LatestEnd(rows, user).Some? && NotAfter(rows[i].end, LatestEnd(rows, user).value)
  {
    if i == |rows| - 1 {
    } else {
      LatestEndIsLatest(rows[..|rows| - 1], user, i);
    }
  }

  lemma {:induction false} LatestEndIsSomebodys(rows: seq<Assignment>, user: nat)
    ensures LatestEnd(rows, user).Some? ==>
      exists i :: 0 <= i < |rows| && rows[i].appointee == user && !rows[i].cancelled && rows[i].end == LatestEnd(rows, user).value
  {
    if |rows| == 0 {
    } else {
      var init := rows[..|rows| - 1];
      LatestEndIsSomebodys(init, user);
      if LatestEnd(rows, user).Some? && LatestEnd(rows, user) == LatestEnd(init, user) {
        var i :| 0 <= i < |init| && init[i].appointee == user && !init[i].cancelled && init[i].end == LatestEnd(init, user).value;
        assert rows[i] == init[i];
      }
    }
  }

  function HintOf(hints: map<nat, Date>, user: nat): Option<Date>
  {
    if user in hints then Some(hints[user]) else None
  }

  function SetHint(hints: map<nat, Date>, user: nat, end: Option<Date>): map<nat, Date>
  {
    if end.Some? then hints[user := end.value] else hints - {user}
  }

  /** Write the hint one person has by the table that was read. */
  function Synced(b: Book, user: nat, read: seq<Assignment>): Book
  {
    b.(hints := SetHint(b.hints, user, LatestEnd(read, user)))
  }

  /** A table with one's own change on it. */
  function Own(rows: seq<Assignment>, id: nat, a: Assignment): seq<Assignment>
  {
    if id < |rows| then rows[id := a] else rows
  }

  /** Two standing appointments that may not share a month. */
  predicate Clash(a: Assignment, b: Assignment)
  {
    && !a.cancelled && !b.cancelled && a.start == b.start
    && (a.appointee == b.appointee || (a.seat == b.seat && a.kind == b.kind))
  }

  predicate Conflicts(rows: seq<Assignment>, a: Assignment, ignore: Option<nat>)
  {
    exists i :: 0 <= i < |rows| && Some(i) != ignore && Clash(rows[i], a)
  }

  // ── The operations ──────────────────────────────────────────────────────────

  datatype ActResult = Done | NotFound | Forbidden | WrongState | BadMonth(why: MonthChoice) | Conflict

  function Appoint(b: Book, seen: seq<Assignment>, read: seq<Assignment>, allowed: bool, who: nat, seat: nat, kind: nat, year: int, month: int, on: Date): (Book, ActResult)
    requires IsDate(on)
  {
    var choice := AppointableMonth(on, year, month);
    if !allowed then (b, Forbidden)
    else if !choice.Chosen? then (b, BadMonth(choice))
    else
      var a := Assignment(who, seat, kind, choice.start, choice.end, false, false, false, false);
      if Conflicts(seen, a, None) || Conflicts(b.rows, a, None) then (b, Conflict)
      else (Synced(b.(rows := b.rows + [a]), who, read + [a]), Done)
  }

  function Cancel(b: Book, read: seq<Assignment>, id: nat, allowed: bool, on: Date): (Book, ActResult)
  {
    if id >= |b.rows| then (b, NotFound)
    else if !allowed then (b, Forbidden)
    else if !(StateOf(b.rows[id], on).Upcoming? || StateOf(b.rows[id], on).Active?) then (b, WrongState)
    else
      var a := b.rows[id].(cancelled := true);
      (Synced(b.(rows := b.rows[id := a]), a.appointee, Own(read, id, a)), Done)
  }

  function Reschedule(b: Book, seen: seq<Assignment>, read: seq<Assignment>, id: nat, allowed: bool, year: int, month: int, on: Date): (Book, ActResult)
    requires IsDate(on)
  {
    if id >= |b.rows| then (b, NotFound)
    else if !allowed then (b, Forbidden)
    else if !StateOf(b.rows[id], on).Upcoming? then (b, WrongState)
    else
      var choice := AppointableMonth(on, year, month);
      if !choice.Chosen? then (b, BadMonth(choice))
      else if choice.start == b.rows[id].start then (b, Done)
      else
        var a := b.rows[id].(start := choice.start, end := choice.end, reminded := false);
        if Conflicts(seen, a, Some(id)) || Conflicts(b.rows, a, Some(id)) then (b, Conflict)
        else (Synced(b.(rows := b.rows[id := a]), a.appointee, Own(read, id, a)), Done)
  }

  /** What the sweep writes down. */
  datatype Transition = Reminder | Activation | Expiry

  predicate Due(a: Assignment, on: Date, t: Transition)
  {
    match t
    case Reminder => !a.cancelled && Earlier(on, a.start) && NotAfter(a.start, AddDays(on, REMINDER_DAYS)) && !a.reminded
    case Activation => ActiveOn(a, on) && !a.activated
    case Expiry => !a.cancelled && Earlier(a.end, on) && !a.expired
  }

  predicate IsStamped(a: Assignment, t: Transition)
  {
    match t
    case Reminder => a.reminded
    case Activation => a.activated
    case Expiry => a.expired
  }

  function Marked(a: Assignment, t: Transition): Assignment
  {
    match t
    case Reminder => a.(reminded := true)
    case Activation => a.(activated := true)
    case Expiry => a.(expired := true)
  }

  /** All that is looked at again once a listed row is locked: not the dates. */
  predicate Stampable(a: Assignment, t: Transition)
  {
    !a.cancelled && !IsStamped(a, t)
  }

  /** One listed row, in a transaction of its own. Recording an end also refreshes the hint. */
  function StampOne(b: Book, read: seq<Assignment>, id: nat, t: Transition): Book
  {
    if id >= |b.rows| || !Stampable(b.rows[id], t) then b
    else
      var a := Marked(b.rows[id], t);
      var next := b.(rows := b.rows[id := a]);
      if t.Expiry? then Synced(next, a.appointee, Own(read, id, a)) else next
  }

  function Stamped(a: Assignment, on: Date, t: Transition): Assignment
  {
    if Due(a, on, t) then Marked(a, t) else a
  }

  function StampedRows(rows: seq<Assignment>, on: Date, t: Transition): (rs: seq<Assignment>)
    ensures |rs| == |rows|
    ensures forall i {:trigger rs[i]} :: 0 <= i < |rows| ==> rs[i] == Stamped(rows[i], on, t)
  {
    seq(|rows|, i requires 0 <= i < |rows| => Stamped(rows[i], on, t))
  }

  /** Where the rows that are due stand, in order. */
  function DueIds(rows: seq<Assignment>, on: Date, t: Transition): (ids: seq<nat>)
    ensures forall i :: i in ids <==> 0 <= i < |rows| && Due(rows[i], on, t)
    ensures forall j, k :: 0 <= j < k < |ids| ==> ids[j] < ids[k]
  {
    if |rows| == 0 then []
    else
      var before := DueIds(rows[..|rows| - 1], on, t);
      assert forall j :: 0 <= j < |before| ==> before[j] in before;
      if Due(rows[|rows| - 1], on, t) then before + [|rows| - 1] else before
  }

  function SweptRows(rows: seq<Assignment>, on: Date): (rs: seq<Assignment>)
    ensures |rs| == |rows|
  {
    StampedRows(StampedRows(StampedRows(rows, on, Reminder), on, Activation), on, Expiry)
  }

  /** The hints once those of the people these rows name have been refreshed. */
  function Repaired(hints: map<nat, Date>, rows: seq<Assignment>, ids: seq<nat>): map<nat, Date>
    requires forall k :: 0 <= k < |ids| ==> ids[k] < |rows|
  {
    if |ids| == 0 then hints
    else
      var user := rows[ids[|ids| - 1]].appointee;
      SetHint(Repaired(hints, rows, ids[..|ids| - 1]), user, LatestEnd(rows, user))
  }

  function ExpiryIds(rows: seq<Assignment>, on: Date): (ids: seq<nat>)
    ensures forall k :: 0 <= k < |ids| ==> ids[k] < |rows|
  {
    var ids := DueIds(rows, on, Expiry);
    assert forall k :: 0 <= k < |ids| ==> ids[k] in ids;
    ids
  }

  /** A sweep nothing crosses: what it listed it stamps, and it refreshes the hint of everybody
   *  whose appointment it records as ended. */
  function Swept(b: Book, on: Date): Book
  {
    Book(SweptRows(b.rows, on), Repaired(b.hints, b.rows, ExpiryIds(b.rows, on)))
  }

  function Recorded(rows: seq<Assignment>, on: Date): nat
  {
    |DueIds(rows, on, Reminder)| + |DueIds(rows, on, Activation)| + |DueIds(rows, on, Expiry)|
  }

  // ── Runs ────────────────────────────────────────────────────────────────────

  /** A sweep lists the due rows first, and then stamps each in a call of its own. */
  datatype Call =
    | AppointCall(seen: seq<Assignment>, read: seq<Assignment>, allowed: bool, who: nat, seat: nat, kind: nat, year: int, month: int, on: Date)
    | CancelCall(read: seq<Assignment>, id: nat, allowed: bool, on: Date)
    | RescheduleCall(seen: seq<Assignment>, read: seq<Assignment>, id: nat, allowed: bool, year: int, month: int, on: Date)
    | StampCall(read: seq<Assignment>, id: nat, t: Transition, on: Date)

  function Step(b: Book, c: Call): Book
    requires IsDate(c.on)
  {
    match c
    case AppointCall(seen, read, allowed, who, seat, kind, year, month, on) => Appoint(b, seen, read, allowed, who, seat, kind, year, month, on).0
    case CancelCall(read, id, allowed, on) => Cancel(b, read, id, allowed, on).0
    case RescheduleCall(seen, read, id, allowed, year, month, on) => Reschedule(b, seen, read, id, allowed, year, month, on).0
    case StampCall(read, id, t, _) => StampOne(b, read, id, t)
  }

  predicate Dated(calls: seq<Call>)
  {
    forall c :: c in calls ==> IsDate(c.on)
  }

  function After(b: Book, calls: seq<Call>): Book
    requires Dated(calls)
    decreases |calls|
  {
    if |calls| == 0 then b else After(Step(b, calls[0]), calls[1..])
  }

  // ── What every run keeps ────────────────────────────────────────────────────

  ghost predicate AllWhole(rows: seq<Assignment>)
  {
    forall i {:trigger rows[i]} :: 0 <= i < |rows| ==> WholeMonth(rows[i].start, rows[i].end)
  }

  ghost predicate NoClash(rows: seq<Assignment>)
  {
    forall i, j :: 0 <= i < j < |rows| ==> !Clash(rows[i], rows[j])
  }

  ghost predicate HintsAgree(b: Book)
  {
    forall user :: HintOf(b.hints, user) == LatestEnd(b.rows, user)
  }

  /** Held by the constraints at every insert and update, whatever was read before. */
  ghost predicate TableInv(rows: seq<Assignment>)
  {
    AllWhole(rows) && NoClash(rows)
  }

  lemma AddKeepsTable(rows: seq<Assignment>, a: Assignment)
    requires TableInv(rows) && WholeMonth(a.start, a.end) && !Conflicts(rows, a, None)
    ensures TableInv(rows + [a])
  {
  }

  lemma ChangeKeepsTable(rows: seq<Assignment>, i: nat, a: Assignment)
    requires TableInv(rows) && i < |rows| && WholeMonth(a.start, a.end)
    requires a.cancelled || !Conflicts(rows, a, Some(i))
    ensures TableInv(rows[i := a])
  {
    var changed := rows[i := a];
    forall j, k | 0 <= j < k < |changed| ensures !Clash(changed[j], changed[k]) {
      if j == i && !a.cancelled {
        assert !Clash(rows[k], a);
      }
    }
  }

  lemma StampKeepsTable(rows: seq<Assignment>, i: nat, t: Transition)
    requires TableInv(rows) && i < |rows|
    ensures TableInv(rows[i := Marked(rows[i], t)])
  {
    var stamped := rows[i := Marked(rows[i], t)];
    forall j, k | 0 <= j < k < |stamped| ensures !Clash(stamped[j], stamped[k]) {
      assert !Clash(rows[j], rows[k]);
    }
  }

  lemma RowIsWhole(rows: seq<Assignment>, i: nat)
    requires TableInv(rows) && i < |rows|
    ensures WholeMonth(rows[i].start, rows[i].end)
  {
  }

  lemma StepKeepsTable(b: Book, c: Call)
    requires TableInv(b.rows) && IsDate(c.on)
    ensures TableInv(Step(b, c).rows)
  {
    hide TableInv, Conflicts, AppointableMonth;
    match c
    case AppointCall(seen, read, allowed, who, seat, kind, year, month, on) =>
      AcceptedByDistance(on, year, month);
      var choice := AppointableMonth(on, year, month);
      if Step(b, c) != b {
        AddKeepsTable(b.rows, Assignment(who, seat, kind, choice.start, choice.end, false, false, false, false));
      }
    case CancelCall(read, id, allowed, on) =>
      if Step(b, c) != b {
        RowIsWhole(b.rows, id);
        ChangeKeepsTable(b.rows, id, b.rows[id].(cancelled := true));
      }
    case RescheduleCall(seen, read, id, allowed, year, month, on) =>
      AcceptedByDistance(on, year, month);
      var choice := AppointableMonth(on, year, month);
      if Step(b, c) != b {
        ChangeKeepsTable(b.rows, id, b.rows[id].(start := choice.start, end := choice.end, reminded := false));
      }
    case StampCall(read, id, t, on) =>
      if Step(b, c) != b {
        StampKeepsTable(b.rows, id, t);
      }
  }

  lemma {:induction false} RunKeepsTable(b: Book, calls: seq<Call>)
    requires TableInv(b.rows) && Dated(calls)
    ensures TableInv(After(b, calls).rows)
    decreases |calls|
  {
    hide TableInv, Step;
    if |calls| == 0 {
    } else {
      StepKeepsTable(b, calls[0]);
      RunKeepsTable(Step(b, calls[0]), calls[1..]);
    }
  }

  // ── One appointment at a time ───────────────────────────────────────────────

  /** Two appointments of one person, or of one seat and kind, are never active on one day. */
  lemma NeverTwoActive(calls: seq<Call>, i: nat, j: nat, day: Date)
    requires Dated(calls)
    requires var rows := After(EmptyBook, calls).rows; i < j < |rows| && ActiveOn(rows[i], day) && ActiveOn(rows[j], day)
    ensures var rows := After(EmptyBook, calls).rows;
      rows[i].appointee != rows[j].appointee && !(rows[i].seat == rows[j].seat && rows[i].kind == rows[j].kind)
  {
    RunKeepsTable(EmptyBook, calls);
    var rows := After(EmptyBook, calls).rows;
    SharedDaySameMonth(rows[i].start, rows[i].end, rows[j].start, rows[j].end, day);
    assert !Clash(rows[i], rows[j]);
  }

  // ── When the hint agrees ────────────────────────────────────────────────────

  predicate StandsFor(a: Assignment, user: nat)
  {
    a.appointee == user && !a.cancelled
  }

  /** Some standing appointment of the person ends on this day. */
  predicate EndsOn(rows: seq<Assignment>, user: nat, end: Date)
  {
    exists i :: 0 <= i < |rows| && StandsFor(rows[i], user) && rows[i].end == end
  }

  lemma LatestEndExact(rows: seq<Assignment>, user: nat)
    ensures LatestEnd(rows, user).None? <==> forall end :: !EndsOn(rows, user, end)
    ensures forall end :: LatestEnd(rows, user) == Some(end) ==>
      EndsOn(rows, user, end) && forall other :: EndsOn(rows, user, other) ==> NotAfter(other, end)
  {
    LatestEndIsSomebodys(rows, user);
    if LatestEnd(rows, user).Some? {
      var i :| 0 <= i < |rows| && StandsFor(rows[i], user) && rows[i].end == LatestEnd(rows, user).value;
      assert EndsOn(rows, user, LatestEnd(rows, user).value);
    }
    forall end | EndsOn(rows, user, end) ensures LatestEnd(rows, user).Some? && NotAfter(end, LatestEnd(rows, user).value) {
      var i :| 0 <= i < |rows| && StandsFor(rows[i], user) && rows[i].end == end;
      LatestEndIsLatest(rows, user, i);
    }
  }

  /** A later end has been committed since the table was read. */
  predicate GainedLater(read: seq<Assignment>, rows: seq<Assignment>, user: nat)
  {
    exists i :: 0 <= i < |rows| && StandsFor(rows[i], user) && !EndsOn(read, user, rows[i].end)
      && (LatestEnd(read, user).None? || Earlier(LatestEnd(read, user).value, rows[i].end))
  }

  /** The appointment with the end that was read has been cancelled or moved since. */
  predicate LostLatest(read: seq<Assignment>, rows: seq<Assignment>, user: nat)
  {
    LatestEnd(read, user).Some? && !EndsOn(rows, user, LatestEnd(read, user).value)
  }

  /** A refresh writes the wrong hint exactly when, between its reading and its writing, another
   *  call gave the person a later end, or took away the one that was read. */
  lemma SyncedAgreesIff(b: Book, user: nat, read: seq<Assignment>)
    ensures HintOf(Synced(b, user, read).hints, user) == LatestEnd(b.rows, user) <==>
      !GainedLater(read, b.rows, user) && !LostLatest(read, b.rows, user)
    ensures forall other :: other != user ==> HintOf(Synced(b, user, read).hints, other) == HintOf(b.hints, other)
  {
    hide LatestEnd, EndsOn;
    LatestEndExact(read, user);
    LatestEndExact(b.rows, user);
    var v, w := LatestEnd(read, user), LatestEnd(b.rows, user);
    if w.Some? {
      var i := WhoseEnd(b.rows, user, w.value);
      assert w != v && (v.None? || Earlier(v.value, w.value)) ==> GainedLater(read, b.rows, user);
    }
    forall i | 0 <= i < |b.rows| && StandsFor(b.rows[i], user) ensures EndsOn(b.rows, user, b.rows[i].end) {
      ItsEnd(b.rows, user, i);
    }
  }

  lemma WhoseEnd(rows: seq<Assignment>, user: nat, end: Date) returns (i: nat)
    requires EndsOn(rows, user, end)
    ensures i < |rows| && StandsFor(rows[i], user) && rows[i].end == end
  {
    i :| i < |rows| && StandsFor(rows[i], user) && rows[i].end == end;
  }

  lemma ItsEnd(rows: seq<Assignment>, user: nat, i: nat)
    requires i < |rows| && StandsFor(rows[i], user)
    ensures EndsOn(rows, user, rows[i].end)
  {
  }

  datatype Sync = Sync(user: nat, read: seq<Assignment>)

  /** Whose hint a call writes, and the table it computes it from; None when it writes no hint. */
  function SyncOf(b: Book, c: Call): Option<Sync>
    requires IsDate(c.on)
  {
    var rows := Step(b, c).rows;
    match c
    case AppointCall(_, read, _, who, _, _, _, _, _) => if |rows| == |b.rows| then None else Some(Sync(who, read + [rows[|b.rows|]]))
    case CancelCall(read, id, _, _) => if rows == b.rows then None else Some(Sync(b.rows[id].appointee, Own(read, id, rows[id])))
    case RescheduleCall(_, read, id, _, _, _, _) => if rows == b.rows then None else Some(Sync(b.rows[id].appointee, Own(read, id, rows[id])))
    case StampCall(read, id, t, _) =>
      if rows == b.rows || !t.Expiry? then None else Some(Sync(b.rows[id].appointee, Own(read, id, rows[id])))
  }

  /** Nobody's calls changed the person's latest end between the reading and the writing. */
  predicate Fresh(b: Book, c: Call)
    requires IsDate(c.on)
  {
    var sync, rows := SyncOf(b, c), Step(b, c).rows;
    sync.Some? ==> !GainedLater(sync.value.read, rows, sync.value.user) && !LostLatest(sync.value.read, rows, sync.value.user)
  }

  lemma {:induction false} OthersKeepTheirEnd(rows: seq<Assignment>, i: nat, a: Assignment, user: nat)
    requires i < |rows| && rows[i].appointee == a.appointee != user
    ensures LatestEnd(rows[i := a], user) == LatestEnd(rows, user)
    decreases |rows|
  {
    var n := |rows| - 1;
    if i == n {
      assert rows[i := a][..n] == rows[..n];
    } else {
      assert rows[i := a][..n] == rows[..n][i := a];
      OthersKeepTheirEnd(rows[..n], i, a, user);
    }
  }

  /** The latest end reads only whose a row is, whether it stands and when it ends. */
  lemma {:induction false} EndsDecideTheHint(xs: seq<Assignment>, ys: seq<Assignment>, user: nat)
    requires |xs| == |ys|
    requires forall i {:trigger ys[i]} :: 0 <= i < |xs| ==> ys[i].appointee == xs[i].appointee && ys[i].cancelled == xs[i].cancelled && ys[i].end == xs[i].end
    ensures LatestEnd(xs, user) == LatestEnd(ys, user)
  {
    if |xs| == 0 {
    } else {
      EndsDecideTheHint(xs[..|xs| - 1], ys[..|xs| - 1], user);
    }
  }

  lemma AppendKeepsOthersEnds(rows: seq<Assignment>, a: Assignment, user: nat)
    requires a.appointee != user
    ensures LatestEnd(rows + [a], user) == LatestEnd(rows, user)
  {
    assert (rows + [a])[..|rows|] == rows;
  }

  /** A call changes the ends, and the hint, of nobody but the person whose hint it writes. */
  lemma StepKeepsOthers(b: Book, c: Call, user: nat)
    requires IsDate(c.on) && (SyncOf(b, c).None? || SyncOf(b, c).value.user != user)
    ensures LatestEnd(Step(b, c).rows, user) == LatestEnd(b.rows, user)
    ensures HintOf(Step(b, c).hints, user) == HintOf(b.hints, user)
  {
    hide LatestEnd, Conflicts, AppointableMonth;
    match c
    case AppointCall(seen, read, allowed, who, seat, kind, year, month, on) =>
      if |Step(b, c).rows| != |b.rows| {
        AppendKeepsOthersEnds(b.rows, Step(b, c).rows[|b.rows|], user);
      }
    case CancelCall(read, id, allowed, on) =>
      if Step(b, c).rows != b.rows {
        OthersKeepTheirEnd(b.rows, id, Step(b, c).rows[id], user);
      }
    case RescheduleCall(seen, read, id, allowed, year, month, on) =>
      if Step(b, c).rows != b.rows {
        OthersKeepTheirEnd(b.rows, id, Step(b, c).rows[id], user);
      }
    case StampCall(read, id, t, on) =>
      EndsDecideTheHint(b.rows, Step(b, c).rows, user);
  }

  lemma StepSyncs(b: Book, c: Call)
    requires IsDate(c.on) && SyncOf(b, c).Some?
    ensures var sync := SyncOf(b, c).value;
      HintOf(Step(b, c).hints, sync.user) == LatestEnd(sync.read, sync.user)
  {
    hide LatestEnd, Conflicts, AppointableMonth;
  }

  /** Where the hints agreed, they agree after a call exactly when it was not overtaken. */
  lemma StepHintsAgreeIff(b: Book, c: Call)
    requires HintsAgree(b) && IsDate(c.on)
    ensures HintsAgree(Step(b, c)) <==> Fresh(b, c)
  {
    hide LatestEnd, Step, SyncOf, GainedLater, LostLatest;
    var next, sync := Step(b, c), SyncOf(b, c);
    forall user | sync.None? || sync.value.user != user ensures HintOf(next.hints, user) == LatestEnd(next.rows, user) {
      StepKeepsOthers(b, c, user);
    }
    if sync.Some? {
      StepSyncs(b, c);
      SyncedAgreesIff(next, sync.value.user, sync.value.read);
    }
  }

  /** No call in the run is overtaken. */
  ghost predicate NoneOvertaken(b: Book, calls: seq<Call>)
    requires Dated(calls)
    decreases |calls|
  {
    |calls| > 0 ==> Fresh(b, calls[0]) && NoneOvertaken(Step(b, calls[0]), calls[1..])
  }

  lemma {:induction false} RunKeepsHints(b: Book, calls: seq<Call>)
    requires HintsAgree(b) && Dated(calls) && NoneOvertaken(b, calls)
    ensures HintsAgree(After(b, calls))
    decreases |calls|
  {
    hide HintsAgree, Step, Fresh;
    if |calls| == 0 {
    } else {
      StepHintsAgreeIff(b, calls[0]);
      RunKeepsHints(Step(b, calls[0]), calls[1..]);
    }
  }

  /** The two tables differ, if at all, in other people's appointments. */
  predicate SameFor(read: seq<Assignment>, rows: seq<Assignment>, user: nat)
  {
    && |read| <= |rows|
    && (forall i :: 0 <= i < |read| ==> read[i] == rows[i] || (read[i].appointee != user && rows[i].appointee != user))
    && (forall i :: |read| <= i < |rows| ==> rows[i].appointee != user)
  }

  lemma {:induction false} SameEnds(read: seq<Assignment>, rows: seq<Assignment>, user: nat)
    requires SameFor(read, rows, user)
    ensures LatestEnd(read, user) == LatestEnd(rows, user)
    decreases |rows|
  {
    if |rows| == 0 {
    } else {
      var n := |rows| - 1;
      if |read| == |rows| {
        SameEnds(read[..n], rows[..n], user);
      } else {
        SameEnds(read, rows[..n], user);
      }
    }
  }

  /** A call that read everything committed for its person is not overtaken. Cancelling, moving
   *  and recording an end lock the row they change, so what they read has it. */
  lemma PersonSerialIsFresh(b: Book, c: Call, read: seq<Assignment>, user: nat)
    requires IsDate(c.on) && SyncOf(b, c).Some? && SyncOf(b, c).value.user == user
    requires c.read == read && SameFor(read, b.rows, user)
    ensures Fresh(b, c)
  {
    hide LatestEnd, Conflicts, AppointableMonth, GainedLater, LostLatest;
    var sync, rows := SyncOf(b, c).value, Step(b, c).rows;
    assert LatestEnd(sync.read, user) == LatestEnd(rows, user) by {
      if c.AppointCall? {
        AppendSameEnds(read, b.rows, rows[|b.rows|], user);
      } else {
        SameEnds(sync.read, rows, user);
      }
    }
    SyncedAgreesIff(Step(b, c), user, sync.read);
  }

  lemma AppendSameEnds(read: seq<Assignment>, rows: seq<Assignment>, a: Assignment, user: nat)
    requires SameFor(read, rows, user)
    ensures LatestEnd(read + [a], user) == LatestEnd(rows + [a], user)
  {
    SameEnds(read, rows, user);
    assert (read + [a])[..|read|] == read && (rows + [a])[..|rows|] == rows;
  }

  // ── The hint ────────────────────────────────────────────────────────────────

  /** The first active appointment of a person, by position. */
  function CurrentFor(rows: seq<Assignment>, user: nat, on: Date): Option<nat>
  {
    if |rows| == 0 then None
    else
      var before := CurrentFor(rows[..|rows| - 1], user, on);
      if before.Some? then before
      else if rows[|rows| - 1].appointee == user && ActiveOn(rows[|rows| - 1], on) then Some(|rows| - 1)
      else None
  }

  /** A request looks at the hint first, and at the table only when the hint reaches today. */
  function Attach(b: Book, user: nat, on: Date): Option<nat>
  {
    var until := HintOf(b.hints, user);
    if until.None? || Earlier(until.value, on) then None else CurrentFor(b.rows, user, on)
  }

  lemma {:induction false} CurrentIsActive(rows: seq<Assignment>, user: nat, on: Date)
    ensures CurrentFor(rows, user, on).Some? ==>
      var i := CurrentFor(rows, user, on).value; i < |rows| && rows[i].appointee == user && ActiveOn(rows[i], on)
    ensures CurrentFor(rows, user, on).None? ==> forall i :: 0 <= i < |rows| && rows[i].appointee == user ==> !ActiveOn(rows[i], on)
  {
    if |rows| == 0 {
    } else {
      CurrentIsActive(rows[..|rows| - 1], user, on);
    }
  }

  /** In any run without overtaken calls the hint is the latest end of the person's standing
   *  appointments, and stopping at it gives the answer the full lookup gives: the one
   *  appointment they hold that day. */
  lemma AttachIsTheFullLookup(calls: seq<Call>, user: nat, on: Date)
    requires Dated(calls) && NoneOvertaken(EmptyBook, calls)
    ensures var b := After(EmptyBook, calls);
      && HintOf(b.hints, user) == LatestEnd(b.rows, user)
      && Attach(b, user, on) == CurrentFor(b.rows, user, on)
      && (forall i :: 0 <= i < |b.rows| && b.rows[i].appointee == user && ActiveOn(b.rows[i], on) ==> Attach(b, user, on) == Some(i))
  {
    RunKeepsHints(EmptyBook, calls);
    var b := After(EmptyBook, calls);
    var current := CurrentFor(b.rows, user, on);
    CurrentIsActive(b.rows, user, on);
    if current.Some? {
      LatestEndIsLatest(b.rows, user, current.value);
    }
    forall i | 0 <= i < |b.rows| && b.rows[i].appointee == user && ActiveOn(b.rows[i], on) ensures current == Some(i) {
      if current.value < i {
        NeverTwoActive(calls, current.value, i, on);
      } else if i < current.value {
        NeverTwoActive(calls, i, current.value, on);
      }
    }
  }

  // A cancelled October beside an appointment for November: the cancellation reads its person's
  // appointments before the new one is committed, and writes the hint after it.

  const October := Assignment(1, 1, 1, Date(2026, 10, 1), Date(2026, 10, 31), false, false, false, false)

  const November := Assignment(1, 1, 1, Date(2026, 11, 1), Date(2026, 11, 30), false, false, false, false)

  const CrossedCalls: seq<Call> := [
    AppointCall([], [], true, 1, 1, 1, 2026, 10, Date(2026, 9, 20)),
    AppointCall([October], [October], true, 1, 1, 1, 2026, 11, Date(2026, 9, 21)),
    CancelCall([October], 0, true, Date(2026, 9, 21))]

  lemma LatestOfOne(a: Assignment, user: nat)
    ensures LatestEnd([a], user) == if StandsFor(a, user) then Some(a.end) else None
  {
    assert [a][..0] == [];
  }

  lemma LatestOfTwo(a: Assignment, b: Assignment, user: nat)
    requires StandsFor(a, user) && StandsFor(b, user) && Earlier(a.end, b.end)
    ensures LatestEnd([a, b], user) == Some(b.end)
  {
    LatestOfOne(a, user);
    assert [a, b][..1] == [a];
  }

  lemma OctoberIsMade()
    ensures Step(EmptyBook, CrossedCalls[0]) == Book([October], map[1 := October.end])
  {
    AcceptedByDistance(Date(2026, 9, 20), 2026, 10);
    LatestOfOne(October, 1);
    hide AppointableMonth, LatestEnd;
    assert [] + [October] == [October];
  }

  lemma NovemberIsMade()
    ensures Step(Book([October], map[1 := October.end]), CrossedCalls[1]) == Book([October, November], map[1 := November.end])
  {
    AcceptedByDistance(Date(2026, 9, 21), 2026, 11);
    LatestOfTwo(October, November, 1);
    hide AppointableMonth, LatestEnd;
    assert [October] + [November] == [October, November];
    assert !Clash(October, November);
  }

  lemma OctoberIsCancelled()
    ensures Step(Book([October, November], map[1 := November.end]), CrossedCalls[2])
      == Book([October.(cancelled := true), November], map[])
  {
    var cancelled := October.(cancelled := true);
    LatestOfOne(cancelled, 1);
    hide LatestEnd;
    assert [October, November][0 := cancelled] == [cancelled, November] && [October][0 := cancelled] == [cancelled];
    assert SetHint(map[1 := November.end], 1, None) == map[];
  }

  /** The hint is lost, and with it the whole of November. */
  lemma LostHintExample(day: int)
    requires 1 <= day <= 30
    ensures Dated(CrossedCalls)
    ensures var b := After(EmptyBook, CrossedCalls); var on := Date(2026, 11, day);
      Attach(b, 1, on) == None && CurrentFor(b.rows, 1, on) == Some(1)
  {
    OctoberIsMade();
    NovemberIsMade();
    OctoberIsCancelled();
    hide Step;
    var b1, b2 := Book([October], map[1 := October.end]), Book([October, November], map[1 := November.end]);
    var b3 := Book([October.(cancelled := true), November], map[]);
    assert CrossedCalls[1..][1..] == [CrossedCalls[2]] && CrossedCalls[1..][0] == CrossedCalls[1] && [CrossedCalls[2]][1..] == [];
    assert After(EmptyBook, CrossedCalls) == After(b1, CrossedCalls[1..]) == After(b2, [CrossedCalls[2]]) == After(b3, []) == b3;
    assert b3.rows[..1] == [October.(cancelled := true)] && b3.rows[..1][..0] == [];
    assert CurrentFor(b3.rows[..1], 1, Date(2026, 11, day)) == None;
  }

  // ── The sweep ───────────────────────────────────────────────────────────────

  predicate EndsRecorded(rows: seq<Assignment>, on: Date, user: nat)
  {
    exists i :: 0 <= i < |rows| && rows[i].appointee == user && Due(rows[i], on, Expiry)
  }

  predicate Names(rows: seq<Assignment>, ids: seq<nat>, user: nat)
    requires forall k :: 0 <= k < |ids| ==> ids[k] < |rows|
  {
    exists k :: 0 <= k < |ids| && rows[ids[k]].appointee == user
  }

  lemma {:induction false} RepairedExact(hints: map<nat, Date>, rows: seq<Assignment>, ids: seq<nat>, user: nat)
    requires forall k :: 0 <= k < |ids| ==> ids[k] < |rows|
    ensures HintOf(Repaired(hints, rows, ids), user) == if Names(rows, ids, user) then LatestEnd(rows, user) else HintOf(hints, user)
  {
    hide LatestEnd;
    if |ids| == 0 {
    } else {
      var n := |ids| - 1;
      RepairedExact(hints, rows, ids[..n], user);
      if Names(rows, ids[..n], user) {
        var k :| 0 <= k < n && rows[ids[..n][k]].appointee == user;
        assert rows[ids[k]].appointee == user;
      }
      if Names(rows, ids, user) && rows[ids[n]].appointee != user {
        var k :| 0 <= k < |ids| && rows[ids[k]].appointee == user;
        assert rows[ids[..n][k]].appointee == user;
      }
    }
  }

  /** A sweep leaves right the hint of everybody whose appointment it records as ended, and the
   *  hint of everybody else as it was. */
  lemma SweepRepairsHints(b: Book, on: Date, user: nat)
    ensures LatestEnd(Swept(b, on).rows, user) == LatestEnd(b.rows, user)
    ensures HintOf(Swept(b, on).hints, user) == if EndsRecorded(b.rows, on, user) then LatestEnd(b.rows, user) else HintOf(b.hints, user)
  {
    hide LatestEnd;
    var ids := ExpiryIds(b.rows, on);
    EndsDecideTheHint(b.rows, Swept(b, on).rows, user);
    RepairedExact(b.hints, b.rows, ids, user);
    if EndsRecorded(b.rows, on, user) {
      var i :| 0 <= i < |b.rows| && b.rows[i].appointee == user && Due(b.rows[i], on, Expiry);
      assert i in DueIds(b.rows, on, Expiry);
    }
    if Names(b.rows, ids, user) {
      var k :| 0 <= k < |ids| && b.rows[ids[k]].appointee == user;
      assert ids[k] in DueIds(b.rows, on, Expiry);
    }
  }

  /** A sweep never changes who is active on any day. The hints are right after it exactly when
   *  those it does not refresh were right before. */
  lemma SweepGrantsNothing(b: Book, on: Date, i: nat, day: Date)
    requires i < |b.rows|
    ensures |Swept(b, on).rows| == |b.rows|
    ensures ActiveOn(Swept(b, on).rows[i], day) == ActiveOn(b.rows[i], day)
    ensures StateOf(Swept(b, on).rows[i], day) == StateOf(b.rows[i], day)
    ensures HintsAgree(Swept(b, on)) <==>
      forall user :: EndsRecorded(b.rows, on, user) || HintOf(b.hints, user) == LatestEnd(b.rows, user)
  {
    hide LatestEnd, Repaired;
    forall user ensures
      && LatestEnd(Swept(b, on).rows, user) == LatestEnd(b.rows, user)
      && HintOf(Swept(b, on).hints, user) == if EndsRecorded(b.rows, on, user) then LatestEnd(b.rows, user) else HintOf(b.hints, user)
    {
      SweepRepairsHints(b, on, user);
    }
  }

  /** A second sweep on the same day records nothing and writes nothing. */
  lemma SweepIsIdempotent(b: Book, on: Date)
    ensures Recorded(Swept(b, on).rows, on) == 0
    ensures Swept(Swept(b, on), on) == Swept(b, on)
  {
    var rows := Swept(b, on).rows;
    forall i, t | 0 <= i < |rows| ensures !Due(rows[i], on, t) {
      SweptIsNotDue(b.rows[i], on, t);
    }
    forall t ensures DueIds(rows, on, t) == [] {
      if DueIds(rows, on, t) != [] {
        assert DueIds(rows, on, t)[0] in DueIds(rows, on, t);
      }
    }
    assert SweptRows(rows, on) == rows;
  }

  lemma SweptIsNotDue(a: Assignment, on: Date, t: Transition)
    ensures !Due(Stamped(Stamped(Stamped(a, on, Reminder), on, Activation), on, Expiry), on, t)
  {
  }

  /** Stamping one transition never makes another due or not due. */
  lemma {:induction false} StampsAreIndependent(rows: seq<Assignment>, on: Date, s: Transition, t: Transition)
    requires s != t
    ensures DueIds(StampedRows(rows, on, s), on, t) == DueIds(rows, on, t)
  {
    if |rows| == 0 {
    } else {
      var n := |rows| - 1;
      assert StampedRows(rows, on, s)[..n] == StampedRows(rows[..n], on, s);
      StampsAreIndependent(rows[..n], on, s, t);
    }
  }

  // ── The service ─────────────────────────────────────────────────────────────

  /** These rows are stamped, the others as they were. */
  ghost predicate MarkedAt(start: seq<Assignment>, rows: seq<Assignment>, ids: seq<nat>, t: Transition)
  {
    && |rows| == |start|
    && forall i {:trigger rows[i]} :: 0 <= i < |rows| ==> rows[i] == if i in ids then Marked(start[i], t) else start[i]
  }

  /** The first `k` listed rows are stamped, the others as they were, and so far the hints. */
  ghost predicate RecordedUpTo(start: Book, b: Book, k: nat, on: Date, t: Transition)
  {
    var ids := DueIds(start.rows, on, t);
    && k <= |ids| && MarkedAt(start.rows, b.rows, ids[..k], t)
    && (forall j :: 0 <= j < |ids| ==> ids[j] < |start.rows|)
    && b.hints == if t.Expiry? then Repaired(start.hints, start.rows, ids[..k]) else start.hints
  }

  lemma ListedInRange(rows: seq<Assignment>, on: Date, t: Transition)
    ensures var ids := DueIds(rows, on, t); forall j :: 0 <= j < |ids| ==> ids[j] < |rows|
  {
    var ids := DueIds(rows, on, t);
    assert forall j :: 0 <= j < |ids| ==> ids[j] in ids;
  }

  lemma NothingRecorded(b: Book, on: Date, t: Transition)
    ensures RecordedUpTo(b, b, 0, on, t)
  {
    ListedInRange(b.rows, on, t);
  }

  lemma RecordOne(start: Book, b: Book, k: nat, on: Date, t: Transition)
    requires RecordedUpTo(start, b, k, on, t) && k < |DueIds(start.rows, on, t)|
    ensures var id := DueIds(start.rows, on, t)[k];
      && id < |b.rows| && Stampable(b.rows[id], t)
      && RecordedUpTo(start, StampOne(b, b.rows, id, t), k + 1, on, t)
  {
    hide LatestEnd, Marked, MarkedAt, Repaired, Due, Stampable;
    var ids := DueIds(start.rows, on, t);
    var id := ids[k];
    ListedOnce(start.rows, on, t, k);
    DueIsStampable(start.rows[id], on, t);
    MarkOne(start.rows, b.rows, ids, k, t);
    RepairOne(start.hints, start.rows, ids, k);
    MarksKeepEnds(start.rows, b.rows[id := Marked(b.rows[id], t)], ids[..k + 1], t, start.rows[id].appointee);
  }

  lemma ListedOnce(rows: seq<Assignment>, on: Date, t: Transition, k: nat)
    requires k < |DueIds(rows, on, t)|
    ensures var ids := DueIds(rows, on, t); ids[k] < |rows| && Due(rows[ids[k]], on, t) && ids[k] !in ids[..k]
  {
    assert DueIds(rows, on, t)[k] in DueIds(rows, on, t);
  }

  lemma MarkOne(start: seq<Assignment>, rows: seq<Assignment>, ids: seq<nat>, k: nat, t: Transition)
    requires k < |ids| && ids[k] < |start| && ids[k] !in ids[..k] && MarkedAt(start, rows, ids[..k], t)
    ensures |rows| == |start| && rows[ids[k]] == start[ids[k]]
    ensures MarkedAt(start, rows[ids[k] := Marked(rows[ids[k]], t)], ids[..k + 1], t)
  {
    assert ids[..k + 1] == ids[..k] + [ids[k]];
  }

  lemma RepairOne(hints: map<nat, Date>, rows: seq<Assignment>, ids: seq<nat>, k: nat)
    requires k < |ids| && forall j :: 0 <= j < |ids| ==> ids[j] < |rows|
    ensures var user := rows[ids[k]].appointee;
      Repaired(hints, rows, ids[..k + 1]) == SetHint(Repaired(hints, rows, ids[..k]), user, LatestEnd(rows, user))
  {
    assert ids[..k + 1][..k] == ids[..k];
  }

  lemma DueIsStampable(a: Assignment, on: Date, t: Transition)
    requires Due(a, on, t)
    ensures Stampable(a, t) && Marked(a, t).appointee == a.appointee
  {
  }

  lemma MarksKeepEnds(start: seq<Assignment>, rows: seq<Assignment>, ids: seq<nat>, t: Transition, user: nat)
    requires MarkedAt(start, rows, ids, t)
    ensures LatestEnd(rows, user) == LatestEnd(start, user)
  {
    EndsDecideTheHint(start, rows, user);
  }

  lemma AllRecorded(start: Book, b: Book, on: Date, t: Transition)
    requires RecordedUpTo(start, b, |DueIds(start.rows, on, t)|, on, t)
    ensures b.rows == StampedRows(start.rows, on, t)
    ensures b.hints == if t.Expiry? then Repaired(start.hints, start.rows, ExpiryIds(start.rows, on)) else start.hints
  {
    hide Marked, Repaired;
    var ids := DueIds(start.rows, on, t);
    assert ids[..|ids|] == ids;
  }

  /** The stamps made before the ends are recorded change neither who is refreshed nor to what. */
  lemma SameRepairs(hints: map<nat, Date>, rows: seq<Assignment>, on: Date)
    ensures var stamped := StampedRows(StampedRows(rows, on, Reminder), on, Activation);
      Repaired(hints, stamped, ExpiryIds(stamped, on)) == Repaired(hints, rows, ExpiryIds(rows, on))
  {
    hide Repaired;
    var stamped := StampedRows(StampedRows(rows, on, Reminder), on, Activation);
    StampsAreIndependent(rows, on, Reminder, Expiry);
    StampsAreIndependent(StampedRows(rows, on, Reminder), on, Activation, Expiry);
    RepairsReadEnds(hints, rows, stamped, ExpiryIds(rows, on));
  }

  lemma {:induction false} RepairsReadEnds(hints: map<nat, Date>, xs: seq<Assignment>, ys: seq<Assignment>, ids: seq<nat>)
    requires |xs| == |ys| && forall k :: 0 <= k < |ids| ==> ids[k] < |xs|
    requires forall i {:trigger ys[i]} :: 0 <= i < |xs| ==> ys[i].appointee == xs[i].appointee && ys[i].cancelled == xs[i].cancelled && ys[i].end == xs[i].end
    ensures Repaired(hints, ys, ids) == Repaired(hints, xs, ids)
  {
    hide LatestEnd;
    if |ids| == 0 {
    } else {
      RepairsReadEnds(hints, xs, ys, ids[..|ids| - 1]);
      EndsDecideTheHint(xs, ys, xs[ids[|ids| - 1]].appointee);
    }
  }

  class ActingService {
    var rows: seq<Assignment>
    var hints: map<nat, Date>

    constructor ()
      ensures View() == EmptyBook
    {
      rows, hints := [], map[];
    }

    ghost function View(): Book
      reads this
    {
      Book(rows, hints)
    }

    method SyncHint(user: nat, read: seq<Assignment>)
      modifies this`hints
      ensures View() == Synced(old(View()), user, read)
    {
      var latest: Option<Date> := None;
      var i := 0;
      while i < |read|
        invariant 0 <= i <= |read|
        invariant latest == LatestEnd(read[..i], user)
      {
        assert read[..i + 1][..i] == read[..i];
        if read[i].appointee == user && !read[i].cancelled && (latest.None? || !Earlier(read[i].end, latest.value)) {
          latest := Some(read[i].end);
        }
        i := i + 1;
      }
      assert read[..i] == read;
      hints := SetHint(hints, user, latest);
    }

    method MakeAppointment(seen: seq<Assignment>, read: seq<Assignment>, allowed: bool,
                           who: nat, seat: nat, kind: nat, year: int, month: int, on: Date)
      returns (result: ActResult)
      requires IsDate(on)
      modifies this
      ensures (View(), result) == Appoint(old(View()), seen, read, allowed, who, seat, kind, year, month, on)
    {
      if !allowed {
        return Forbidden;
      }
      var choice := AppointableMonth(on, year, month);
      if !choice.Chosen? {
        return BadMonth(choice);
      }
      var a := Assignment(who, seat, kind, choice.start, choice.end, false, false, false, false);
      if Conflicts(seen, a, None) || Conflicts(rows, a, None) {
        return Conflict;
      }
      rows := rows + [a];
      SyncHint(who, read + [a]);
      return Done;
    }

    method CancelAppointment(read: seq<Assignment>, id: nat, allowed: bool, on: Date) returns (result: ActResult)
      modifies this
      ensures (View(), result) == Cancel(old(View()), read, id, allowed, on)
    {
      if id >= |rows| {
        return NotFound;
      }
      if !allowed {
        return Forbidden;
      }
      var state := StateOf(rows[id], on);
      if !(state.Upcoming? || state.Active?) {
        return WrongState;
      }
      rows := rows[id := rows[id].(cancelled := true)];
      SyncHint(rows[id].appointee, Own(read, id, rows[id]));
      return Done;
    }

    method MoveAppointment(seen: seq<Assignment>, read: seq<Assignment>, id: nat, allowed: bool, year: int, month: int, on: Date)
      returns (result: ActResult)
      requires IsDate(on)
      modifies this
      ensures (View(), result) == Reschedule(old(View()), seen, read, id, allowed, year, month, on)
    {
      if id >= |rows| {
        return NotFound;
      }
      if !allowed {
        return Forbidden;
      }
      if !StateOf(rows[id], on).Upcoming? {
        return WrongState;
      }
      var choice := AppointableMonth(on, year, month);
      if !choice.Chosen? {
        return BadMonth(choice);
      }
      if choice.start == rows[id].start {
        return Done;
      }
      var a := rows[id].(start := choice.start, end := choice.end, reminded := false);
      if Conflicts(seen, a, Some(id)) || Conflicts(rows, a, Some(id)) {
        return Conflict;
      }
      rows := rows[id := a];
      SyncHint(a.appointee, Own(read, id, a));
      return Done;
    }

    /** One listed row, locked and looked at again. */
    method StampListed(read: seq<Assignment>, id: nat, t: Transition) returns (stamped: bool)
      modifies this
      ensures View() == StampOne(old(View()), read, id, t)
      ensures stamped == (id < |old(rows)| && Stampable(old(rows)[id], t))
    {
      hide LatestEnd, Stampable, Marked;
      if id >= |rows| || !Stampable(rows[id], t) {
        return false;
      }
      rows := rows[id := Marked(rows[id], t)];
      if t.Expiry? {
        SyncHint(rows[id].appointee, Own(read, id, rows[id]));
      }
      return true;
    }

    /** List the rows one transition is due for, and stamp each that still may be. */
    method Record(on: Date, t: Transition) returns (done: nat)
      modifies this
      ensures rows == StampedRows(old(rows), on, t)
      ensures hints == if t.Expiry? then Repaired(old(hints), old(rows), ExpiryIds(old(rows), on)) else old(hints)
      ensures done == |DueIds(old(rows), on, t)|
    {
      hide Recorded, StampOne, Stampable, StampedRows, RecordedUpTo;
      ghost var start := View();
      var ids := DueIds(rows, on, t);
      done := 0;
      NothingRecorded(start, on, t);
      for k := 0 to |ids|
        invariant done == k && RecordedUpTo(start, View(), k, on, t)
      {
        RecordOne(start, View(), k, on, t);
        var stamped := StampListed(rows, ids[k], t);
        if !stamped {
          continue;
        }
        done := done + 1;
      }
      AllRecorded(start, View(), on, t);
    }

    method Sweep(on: Date) returns (done: nat)
      modifies this
      ensures View() == Swept(old(View()), on) && done == Recorded(old(rows), on)
    {
      hide Repaired, StampedRows, DueIds, ExpiryIds;
      ghost var start := rows;
      var reminded := Record(on, Reminder);
      var activated := Record(on, Activation);
      var expired := Record(on, Expiry);
      StampsAreIndependent(start, on, Reminder, Activation);
      StampsAreIndependent(start, on, Reminder, Expiry);
      StampsAreIndependent(StampedRows(start, on, Reminder), on, Activation, Expiry);
      SameRepairs(old(hints), start, on);
      return reminded + activated + expired;
    }

    method Capacity(user: nat, on: Date) returns (held: Option<nat>)
      ensures held == Attach(View(), user, on)
    {
      if user !in hints || Earlier(hints[user], on) {
        return None;
      }
      for i := 0 to |rows|
        invariant CurrentFor(rows[..i], user, on) == None
      {
        assert rows[..i + 1][..i] == rows[..i];
        if rows[i].appointee == user && ActiveOn(rows[i], on) {
          FirstStays(rows, i + 1, user, on);
          return Some(i);
        }
      }
      assert rows[..|rows|] == rows;
      return None;
    }
  }

  /** Once somebody's active appointment is found, later rows do not change the answer. */
  lemma {:induction false} FirstStays(rows: seq<Assignment>, n: nat, user: nat, on: Date)
    requires n <= |rows| && CurrentFor(rows[..n], user, on).Some?
    ensures CurrentFor(rows, user, on) == CurrentFor(rows[..n], user, on)
  {
    if n == |rows| {
      assert rows[..n] == rows;
    } else {
      assert rows[..|rows| - 1][..n] == rows[..n];
      FirstStays(rows[..|rows| - 1], n, user, on);
    }
  }
}
