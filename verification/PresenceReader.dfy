/** Reading a period while the last beat is still uncredited, and the service in program order.
 *
 *  The reader adds to the stored seconds what the next beat will store. Here a request's
 *  statements run without interruption; `AloneIsAtomic` ties them to the interleaved machine.
 */
module PresenceReader {
  import opened Basics
  import opened Presence

  datatype Db = Db(row: UserRow, logins: seq<LoginEvent>, slots: seq<Slot>)

  const NewDb := Db(NewUser, [], [])

  /** Add seconds to a slot, creating it when it is new. */
  function UpsertSlot(slots: seq<Slot>, day: int, task: Task, seconds: nat): seq<Slot>
  {
    if HasSlot(slots, day, task) then AddToSlot(slots, day, task, seconds) else slots + [Slot(day, task, seconds)]
  }

  function NextBeat(site: Site, db: Db, loaded: UserRow, next: UserRow, now: Time): Db
  {
    var written := db.(row := next);
    if !Wins(site, db.row, loaded) then written
    else
      var c := Earned(site, loaded, now);
      if c.seconds == 0 then written
      else
        written.(logins := AddToLogin(db.logins, c.login, c.End(), c.seconds),
                 slots := UpsertSlot(db.slots, c.day, c.task, c.seconds))
  }

  /** A beat whose statements nothing interrupts does what the program order says. */
  lemma AloneIsAtomic(site: Site, s: Ledger, loaded: UserRow, now: Time, footprint: Option<(string, string)>, session: Option<nat>)
    requires |s.rows| > 0
    ensures var k := |s.credits|;
      var s1 := Apply(site, s, Beat(loaded, now, footprint, session));
      var s2 := Apply(site, s1, PayLogin(k));
      var s3 := Apply(site, s2, PaySlot(k));
      var s4 := Apply(site, s3, InsertSlot(k));
      var db := NextBeat(site, Db(Current(s), s.logins, s.slots), loaded, Touched(Current(s), now, footprint, session), now);
      && Db(Current(s4), s4.logins, s4.slots) == db
      && (forall i :: k <= i < |s4.credits| ==> s4.credits[i].stage.Done?)
  {
    var k := |s.credits|;
    var s1 := Apply(site, s, Beat(loaded, now, footprint, session));
    var s2 := Apply(site, s1, PayLogin(k));
    if |s1.credits| > k {
      assert s2.credits[k].stage.OwesSlot?;
      var s3 := Apply(site, s2, PaySlot(k));
      var s4 := Apply(site, s3, InsertSlot(k));
    }
  }

  /** So does a sign-in. */
  lemma SignInAloneIsAtomic(site: Site, s: Ledger, loaded: UserRow, now: Time)
    requires |s.rows| > 0
    ensures var k := |s.credits|;
      var logins := s.logins + [LoginEvent(now, 0, now, None)];
      var s4 := Paid(site, Apply(site, s, SignIn(loaded, now)), k);
      && Db(Current(s4), s4.logins, s4.slots)
           == NextBeat(site, Db(Current(s), logins, s.slots), loaded, UserRow(Some(now), "/dashboard", "", Some(|s.logins|)), now)
      && (forall i :: k <= i < |s4.credits| ==> s4.credits[i].stage.Done?)
  {
    hide Apply;
    var t := s.(logins := s.logins + [LoginEvent(now, 0, now, None)]);
    assert Apply(site, s, SignIn(loaded, now)) == WriteBeat(site, t, loaded, UserRow(Some(now), "/dashboard", "", Some(|s.logins|)), now) by {
      SignInWrites(site, s, loaded, now);
    }
    PaidInFull(site, t, loaded, UserRow(Some(now), "/dashboard", "", Some(|s.logins|)), now);
  }

  lemma SignInWrites(site: Site, s: Ledger, loaded: UserRow, now: Time)
    requires |s.rows| > 0
    ensures Apply(site, s, SignIn(loaded, now))
      == WriteBeat(site, s.(logins := s.logins + [LoginEvent(now, 0, now, None)]), loaded, UserRow(Some(now), "/dashboard", "", Some(|s.logins|)), now)
  {
  }

  /** And a sign-out, which ends its session beside the credit. */
  lemma SignOutAloneIsAtomic(site: Site, s: Ledger, loaded: UserRow, now: Time, session: Option<nat>)
    requires |s.rows| > 0
    ensures var k := |s.credits|;
      var s4 := Paid(site, Apply(site, s, SignOut(loaded, now, session)), k);
      var db := NextBeat(site, Db(Current(s), s.logins, s.slots), loaded, SignedOut(site, Current(s), loaded, now), now);
      && Db(Current(s4), s4.logins, s4.slots) == db.(logins := EndSession(db.logins, session, now))
      && (forall i :: k <= i < |s4.credits| ==> s4.credits[i].stage.Done?)
  {
    var next := SignedOut(site, Current(s), loaded, now);
    var t := s.(logins := EndSession(s.logins, session, now));
    assert Apply(site, s, SignOut(loaded, now, session)) == WriteBeat(site, t, loaded, next, now);
    hide Apply;
    PaidInFull(site, t, loaded, next, now);
    EndingCommutes(site, Db(Current(s), s.logins, s.slots), loaded, next, now, session);
  }

  /** A session ends the same before the credit as after it. */
  lemma EndingCommutes(site: Site, db: Db, loaded: UserRow, next: UserRow, now: Time, session: Option<nat>)
    ensures var credited := NextBeat(site, db, loaded, next, now);
      NextBeat(site, db.(logins := EndSession(db.logins, session, now)), loaded, next, now)
        == credited.(logins := EndSession(credited.logins, session, now))
  {
  }

  /** The statements of one credit, one after the other. */
  function Paid(site: Site, s: Ledger, k: nat): Ledger
    requires |s.rows| > 0
  {
    Apply(site, Apply(site, Apply(site, s, PayLogin(k)), PaySlot(k)), InsertSlot(k))
  }

  lemma PaidInFull(site: Site, s: Ledger, loaded: UserRow, next: UserRow, now: Time)
    requires |s.rows| > 0
    ensures var k := |s.credits|;
      var s4 := Paid(site, WriteBeat(site, s, loaded, next, now), k);
      && Db(Current(s4), s4.logins, s4.slots) == NextBeat(site, Db(Current(s), s.logins, s.slots), loaded, next, now)
      && (forall i :: k <= i < |s4.credits| ==> s4.credits[i].stage.Done?)
  {
    var k := |s.credits|;
    var s1 := WriteBeat(site, s, loaded, next, now);
    var s2 := Apply(site, s1, PayLogin(k));
    if |s1.credits| > k {
      assert s2.credits[k].stage.OwesSlot?;
      var s3 := Apply(site, s2, PaySlot(k));
      var s4 := Apply(site, s3, InsertSlot(k));
    }
  }

  // ── What a period shows ─────────────────────────────────────────────────────

  datatype Period = Period(start: int, end: int)
  {
    predicate Covers(day: int) { start <= day <= end }
  }

  predicate HasPending(site: Site, row: UserRow, period: Period)
  {
    row.lastSeen.Some? && Tracked(site, row.path) && period.Covers(site.dayOf(row.lastSeen.value))
  }

  /** The seconds since the last beat, as the next beat will count them. */
  function Pending(site: Site, row: UserRow, now: Time, period: Period): nat
  {
    if HasPending(site, row, period) then CreditFor(site, now - row.lastSeen.value) else 0
  }

  function OfTask(period: Period, task: Task): (int, Task) -> bool
  {
    (day, t) => period.Covers(day) && t == task
  }

  function InPeriod(period: Period): (int, Task) -> bool
  {
    (day, _) => period.Covers(day)
  }

  /** What a read at `now` shows for a task over a period, and in all. */
  function ShownFor(site: Site, db: Db, now: Time, period: Period, task: Task): nat
  {
    SlotTotal(db.slots, OfTask(period, task))
    + if HasPending(site, db.row, period) && site.describe(db.row.path, db.row.action) == task then Pending(site, db.row, now, period) else 0
  }

  function ShownTotal(site: Site, db: Db, now: Time, period: Period): nat
  {
    SlotTotal(db.slots, InPeriod(period)) + Pending(site, db.row, now, period)
  }

  lemma UpsertTotal(slots: seq<Slot>, day: int, task: Task, seconds: nat, p: (int, Task) -> bool)
    ensures SlotTotal(UpsertSlot(slots, day, task, seconds), p) == SlotTotal(slots, p) + if p(day, task) then seconds else 0
  {
    var i := FindSlot(slots, day, task);
    if i < |slots| {
      SlotTotalAdd(slots, i, seconds, p);
    } else {
      assert (slots + [Slot(day, task, seconds)])[..|slots|] == slots;
    }
  }

  /** What a beat stores under any selection of slots, whatever row its request had loaded. */
  function Stored(site: Site, db: Db, loaded: UserRow, now: Time, p: (int, Task) -> bool): nat
  {
    if Wins(site, db.row, loaded) && p(Earned(site, loaded, now).day, Earned(site, loaded, now).task)
    then Earned(site, loaded, now).seconds else 0
  }

  lemma StoredByBeat(site: Site, db: Db, loaded: UserRow, next: UserRow, now: Time, p: (int, Task) -> bool)
    ensures SlotTotal(NextBeat(site, db, loaded, next, now).slots, p) == SlotTotal(db.slots, p) + Stored(site, db, loaded, now, p)
    ensures NextBeat(site, db, loaded, next, now).row == next
  {
    if Wins(site, db.row, loaded) {
      var c := Earned(site, loaded, now);
      UpsertTotal(db.slots, c.day, c.task, c.seconds, p);
    }
  }

  /** A write by a request that loaded the row as it still is, and that leaves nothing pending,
   *  stores exactly what the read had already shown. */
  lemma FreshWriteNeverJumps(site: Site, db: Db, next: UserRow, now: Time, period: Period, task: Task)
    requires Pending(site, next, now, period) == 0
    ensures var after := NextBeat(site, db, db.row, next, now);
      && ShownFor(site, after, now, period, task) == ShownFor(site, db, now, period, task)
      && ShownTotal(site, after, now, period) == ShownTotal(site, db, now, period)
  {
    hide SlotTotal, NextBeat, CreditFor;
    StoredByBeat(site, db, db.row, next, now, OfTask(period, task));
    StoredByBeat(site, db, db.row, next, now, InPeriod(period));
  }

  /** A beat by a request that loaded the row as it still is stores exactly what the read had
   *  already shown: no task and no total moves, whatever the period. */
  lemma FreshBeatNeverJumps(site: Site, db: Db, next: UserRow, now: Time, period: Period, task: Task)
    requires next.lastSeen == Some(now)
    ensures var after := NextBeat(site, db, db.row, next, now);
      && ShownFor(site, after, now, period, task) == ShownFor(site, db, now, period, task)
      && ShownTotal(site, after, now, period) == ShownTotal(site, db, now, period)
  {
    hide NextBeat, ShownFor, ShownTotal;
    FreshWriteNeverJumps(site, db, next, now, period, task);
  }

  /** The same for a sign-out: what was shown is what is kept. */
  lemma FreshSignOutNeverJumps(site: Site, db: Db, now: Time, period: Period, task: Task)
    ensures var after := NextBeat(site, db, db.row, SignedOut(site, db.row, db.row, now), now);
      && ShownFor(site, after, now, period, task) == ShownFor(site, db, now, period, task)
      && ShownTotal(site, after, now, period) == ShownTotal(site, db, now, period)
      && !HasPending(site, after.row, period)
  {
    hide NextBeat, ShownFor, ShownTotal;
    var next := SignedOut(site, db.row, db.row, now);
    StoredByBeat(site, db, db.row, next, now, InPeriod(period));
    FreshWriteNeverJumps(site, db, next, now, period, task);
  }

  /** Any write moves the total over a period by what it credits, and by what it leaves pending in
   *  place of what was: a beat, a sign-in and a sign-out alike, whichever row was loaded. */
  lemma WriteMovesTotal(site: Site, db: Db, loaded: UserRow, next: UserRow, now: Time, period: Period)
    ensures var after := NextBeat(site, db, loaded, next, now);
      ShownTotal(site, after, now, period) + Pending(site, db.row, now, period)
        == ShownTotal(site, db, now, period) + CreditedIn(site, db.row, loaded, now, period) + Pending(site, next, now, period)
  {
    hide SlotTotal, NextBeat;
    StoredByBeat(site, db, loaded, next, now, InPeriod(period));
  }

  /** What a write credits to the days of a period. */
  function CreditedIn(site: Site, row: UserRow, loaded: UserRow, now: Time, period: Period): nat
  {
    if Wins(site, row, loaded) && period.Covers(site.dayOf(loaded.lastSeen.value)) then CreditFor(site, now - loaded.lastSeen.value) else 0
  }

  /** A sign-out leaves nothing pending, so the total stands still exactly when it credits what was
   *  pending: a stale one loses it, or credits a page the read no longer showed. */
  lemma SignOutKeepsTotalIff(site: Site, db: Db, loaded: UserRow, now: Time, period: Period)
    ensures var after := NextBeat(site, db, loaded, SignedOut(site, db.row, loaded, now), now);
      && ShownTotal(site, after, now, period)
           == ShownTotal(site, db, now, period) + CreditedIn(site, db.row, loaded, now, period) - Pending(site, db.row, now, period)
      && (ShownTotal(site, after, now, period) == ShownTotal(site, db, now, period) <==>
            CreditedIn(site, db.row, loaded, now, period) == Pending(site, db.row, now, period))
  {
    hide NextBeat, ShownTotal, CreditedIn;
    WriteMovesTotal(site, db, loaded, SignedOut(site, db.row, loaded, now), now, period);
  }

  /** The total over a period moves by what the beat credits less what the read was showing as
   *  pending, so it stands still exactly when the two are equal: whichever row the request had
   *  loaded, and whatever has been written since. */
  lemma BeatKeepsTotalIff(site: Site, db: Db, loaded: UserRow, next: UserRow, now: Time, period: Period)
    requires next.lastSeen == Some(now)
    ensures var after := NextBeat(site, db, loaded, next, now); var credited := CreditedIn(site, db.row, loaded, now, period);
      && ShownTotal(site, after, now, period) == ShownTotal(site, db, now, period) + credited - Pending(site, db.row, now, period)
      && (ShownTotal(site, after, now, period) == ShownTotal(site, db, now, period) <==> credited == Pending(site, db.row, now, period))
  {
    hide NextBeat, ShownTotal, CreditedIn;
    WriteMovesTotal(site, db, loaded, next, now, period);
  }

  /** The pending seconds a read shows for one task. */
  function PendingFor(site: Site, row: UserRow, now: Time, period: Period, task: Task): nat
  {
    if HasPending(site, row, period) && site.describe(row.path, row.action) == task then Pending(site, row, now, period) else 0
  }

  /** The same for one task, with the labels of the row that was loaded and of the row as it is. */
  lemma BeatKeepsTaskIff(site: Site, db: Db, loaded: UserRow, next: UserRow, now: Time, period: Period, task: Task)
    requires next.lastSeen == Some(now)
    ensures var after := NextBeat(site, db, loaded, next, now);
      var credited := if Wins(site, db.row, loaded) && period.Covers(site.dayOf(loaded.lastSeen.value))
                         && site.describe(loaded.path, loaded.action) == task
                      then CreditFor(site, now - loaded.lastSeen.value) else 0;
      && ShownFor(site, after, now, period, task)
           == ShownFor(site, db, now, period, task) + credited - PendingFor(site, db.row, now, period, task)
      && (ShownFor(site, after, now, period, task) == ShownFor(site, db, now, period, task) <==>
            credited == PendingFor(site, db.row, now, period, task))
  {
    hide SlotTotal, NextBeat;
    StoredByBeat(site, db, loaded, next, now, OfTask(period, task));
  }

  /** A beat whose row has been seen again since it was loaded credits nothing, so the uncredited
   *  time the read was showing is lost. */
  lemma StaleBeatDropsPending(site: Site, db: Db, loaded: UserRow, next: UserRow, now: Time, period: Period)
    requires next.lastSeen == Some(now) && loaded.lastSeen != db.row.lastSeen
    ensures var after := NextBeat(site, db, loaded, next, now);
      && ShownTotal(site, after, now, period) == ShownTotal(site, db, now, period) - Pending(site, db.row, now, period)
      && (ShownTotal(site, after, now, period) == ShownTotal(site, db, now, period) <==> Pending(site, db.row, now, period) == 0)
  {
    hide NextBeat, ShownTotal, Pending;
    BeatKeepsTotalIff(site, db, loaded, next, now, period);
  }

  /** Two requests load the same beat; the second to write finds a minute uncredited and drops it. */
  lemma StaleBeatExample(site: Site)
    requires site.idleSeconds >= 120 && Tracked(site, "/plan") && Tracked(site, "/visits")
    ensures var first := UserRow(Some(0), "/plan", "", None);
      var db := NextBeat(site, Db(first, [], []), first, UserRow(Some(MINUTE), "/visits", "", None), MINUTE);
      var day := site.dayOf(MINUTE);
      var after := NextBeat(site, db, first, UserRow(Some(2 * MINUTE), "/plan", "", None), 2 * MINUTE);
      ShownTotal(site, after, 2 * MINUTE, Period(day, day)) == ShownTotal(site, db, 2 * MINUTE, Period(day, day)) - 60
  {
    var first := UserRow(Some(0), "/plan", "", None);
    var second := UserRow(Some(MINUTE), "/visits", "", None);
    var third := UserRow(Some(2 * MINUTE), "/plan", "", None);
    var db := NextBeat(site, Db(first, [], []), first, second, MINUTE);
    var day := site.dayOf(MINUTE);
    StoredByBeat(site, Db(first, [], []), first, second, MINUTE, InPeriod(Period(day, day)));
    hide NextBeat, ShownTotal;
    StaleBeatDropsPending(site, db, first, third, 2 * MINUTE, Period(day, day));
    assert Pending(site, second, 2 * MINUTE, Period(day, day)) == 60;
  }

  // A sign-out that loses its compare-and-set clears the page and leaves `lastSeen`, so a beat
  // that loaded the row before it still wins.

  const OldRow := UserRow(Some(0), "/old", "", None)

  const PlanRow := UserRow(Some(MINUTE), "/plan", "", None)

  const ClearedRow := UserRow(Some(MINUTE), "", "", None)

  const Cleared: seq<Move> := [
    Beat(NewUser, 0, Some(("/old", "")), None),
    Beat(NewUser, MINUTE, Some(("/plan", "")), None),
    SignOut(OldRow, MINUTE, None)]

  const Ledger1 := Ledger([NewUser, OldRow], [], [], [], 0)

  const Ledger2 := Ledger([NewUser, OldRow, PlanRow], [], [], [], MINUTE)

  const Ledger3 := Ledger([NewUser, OldRow, PlanRow, ClearedRow], [], [], [], MINUTE)

  lemma ClearedFirst(site: Site)
    ensures Legal(NewLedger, Cleared[0]) && Apply(site, NewLedger, Cleared[0]) == Ledger1
  {
    assert NewLedger.rows[0] == NewUser;
  }

  lemma ClearedSecond(site: Site)
    ensures Legal(Ledger1, Cleared[1]) && Apply(site, Ledger1, Cleared[1]) == Ledger2
  {
    assert Ledger1.rows[0] == NewUser;
  }

  lemma ClearedThird(site: Site)
    ensures Legal(Ledger2, Cleared[2]) && Apply(site, Ledger2, Cleared[2]) == Ledger3
  {
    assert Ledger2.rows[1] == OldRow;
  }

  lemma ClearedRun(site: Site)
    ensures LegalRun(site, NewLedger, Cleared)
    ensures After(site, NewLedger, Cleared) == Ledger3
  {
    ClearedFirst(site);
    ClearedSecond(site);
    ClearedThird(site);
    hide Apply, Legal;
    assert LegalRun(site, Ledger3, []) && After(site, Ledger3, []) == Ledger3;
    OneMove(site, Ledger2, Ledger3, Cleared[2], []);
    OneMove(site, Ledger1, Ledger2, Cleared[1], [Cleared[2]]);
    OneMove(site, NewLedger, Ledger1, Cleared[0], [Cleared[1], Cleared[2]]);
    assert [Cleared[2]] + [] == [Cleared[2]] && [Cleared[1]] + [Cleared[2]] == [Cleared[1], Cleared[2]];
    assert [Cleared[0]] + [Cleared[1], Cleared[2]] == Cleared;
  }

  lemma OneMove(site: Site, s: Ledger, next: Ledger, m: Move, rest: seq<Move>)
    requires |s.rows| > 0 && |next.rows| > 0 && next == Apply(site, s, m) && Legal(s, m)
    ensures LegalRun(site, s, [m] + rest) == LegalRun(site, next, rest)
    ensures After(site, s, [m] + rest) == After(site, next, rest)
  {
    assert ([m] + rest)[1..] == rest;
  }

  /** The read shows nothing pending, and the next beat stores a minute: the total jumps up. */
  lemma ClearedPageJumpsUp(site: Site)
    requires site.idleSeconds >= 60 && Tracked(site, "/plan")
    ensures var s := After(site, NewLedger, Cleared);
      var db := Db(ClearedRow, s.logins, s.slots);
      var day := site.dayOf(MINUTE);
      var after := NextBeat(site, db, PlanRow, UserRow(Some(2 * MINUTE), "/plan", "", None), 2 * MINUTE);
      && LegalRun(site, NewLedger, Cleared) && |s.rows| > 0 && Current(s) == ClearedRow
      && Legal(s, Beat(PlanRow, 2 * MINUTE, Some(("/plan", "")), None))
      && Pending(site, db.row, 2 * MINUTE, Period(day, day)) == 0
      && ShownTotal(site, after, 2 * MINUTE, Period(day, day)) == ShownTotal(site, db, 2 * MINUTE, Period(day, day)) + 60
  {
    ClearedRun(site);
    hide After, LegalRun, NextBeat, ShownTotal;
    var s := After(site, NewLedger, Cleared);
    assert s.rows[2] == PlanRow;
    var day := site.dayOf(MINUTE);
    BeatKeepsTotalIff(site, Db(ClearedRow, s.logins, s.slots), PlanRow, UserRow(Some(2 * MINUTE), "/plan", "", None), 2 * MINUTE, Period(day, day));
  }

  // ── A read between the statements ───────────────────────────────────────────

  /** Seconds of the credits that have not reached their slot, in the slots that `p` selects. */
  function Outstanding(cs: seq<Credit>, p: (int, Task) -> bool): nat
  {
    if |cs| == 0 then 0
    else
      var c := cs[|cs| - 1];
      Outstanding(cs[..|cs| - 1], p) + if !c.stage.Done? && p(c.day, c.task) then c.seconds else 0
  }

  /** What is stored and what is on its way there. */
  function Accounted(s: Ledger, p: (int, Task) -> bool): nat
  {
    SlotTotal(s.slots, p) + Outstanding(s.credits, p)
  }

  lemma {:induction false} OutstandingMoves(cs: seq<Credit>, k: nat, stage: Stage, p: (int, Task) -> bool)
    requires k < |cs| && !cs[k].stage.Done?
    ensures Outstanding(cs[k := cs[k].(stage := stage)], p)
      == Outstanding(cs, p) - if stage.Done? && p(cs[k].day, cs[k].task) then cs[k].seconds else 0
    decreases |cs|
  {
    var n := |cs| - 1;
    var moved := cs[k].(stage := stage);
    if k == n {
      assert cs[k := moved][..n] == cs[..n];
    } else {
      assert cs[k := moved][..n] == cs[..n][k := moved];
      OutstandingMoves(cs[..n], k, stage, p);
    }
  }

  /** The statements that write a credit move seconds to the slots, and neither make nor lose any. */
  lemma PayingKeepsAccounted(site: Site, s: Ledger, k: nat, m: Move, p: (int, Task) -> bool)
    requires |s.rows| > 0 && (m == PayLogin(k) || m == PaySlot(k) || m == InsertSlot(k))
    ensures Accounted(Apply(site, s, m), p) == Accounted(s, p)
  {
    hide SlotTotal, Outstanding;
    if k < |s.credits| && !s.credits[k].stage.Done? {
      var c := s.credits[k];
      OutstandingMoves(s.credits, k, OwesSlot, p);
      OutstandingMoves(s.credits, k, OwesInsert, p);
      OutstandingMoves(s.credits, k, Done, p);
      SlotGains(s.slots, c.day, c.task, c.seconds, p);
    }
  }

  /** A beat that saw the current row raises what is accounted for by exactly what was pending. A
   *  read before its credit is written misses just that, and none after it does. */
  lemma FreshBeatAccounts(site: Site, s: Ledger, now: Time, footprint: Option<(string, string)>, session: Option<nat>, period: Period)
    requires |s.rows| > 0
    ensures var after := Apply(site, s, Beat(Current(s), now, footprint, session));
      && Accounted(after, InPeriod(period)) == Accounted(s, InPeriod(period)) + Pending(site, Current(s), now, period)
      && after.slots == s.slots && Pending(site, Current(after), now, period) == 0
  {
    hide SlotTotal;
    var after := Apply(site, s, Beat(Current(s), now, footprint, session));
    if |after.credits| > |s.credits| {
      assert after.credits[..|s.credits|] == s.credits;
    } else {
      assert after.credits == s.credits;
    }
  }

  // ── The service ─────────────────────────────────────────────────────────────

  class PresenceService {
    var row: UserRow
    var logins: seq<LoginEvent>
    var slots: seq<Slot>

    ghost function View(): Db
      reads this
    {
      Db(row, logins, slots)
    }

    constructor ()
      ensures View() == NewDb
    {
      row, logins, slots := NewUser, [], [];
    }

    method CreditPresenceTime(site: Site, at: Time, path: string, action: string, seconds: int, login: Option<nat>)
      modifies this`logins, this`slots
      ensures seconds <= 0 || site.untracked(path) ==> logins == old(logins) && slots == old(slots)
      ensures seconds > 0 && !site.untracked(path) ==>
        && logins == AddToLogin(old(logins), login, at + seconds * SECOND, seconds)
        && slots == UpsertSlot(old(slots), site.dayOf(at), site.describe(path, action), seconds)
    {
      if seconds <= 0 || site.untracked(path) {
        return;
      }
      if login.Some? && login.value < |logins| {
        var e := logins[login.value];
        var until := at + seconds * SECOND;
        e := e.(activeSeconds := e.activeSeconds + seconds);
        if e.lastActiveAt < until {
          e := e.(lastActiveAt := until);
        }
        logins := logins[login.value := e];
      }
      var task := site.describe(path, action);
      var day := site.dayOf(at);
      var i := FindSlot(slots, day, task);
      if i < |slots| {
        slots := slots[i := slots[i].(seconds := slots[i].seconds + seconds)];
      } else {
        slots := slots + [Slot(day, task, seconds)];
      }
    }

    method WriteNextBeat(site: Site, loaded: UserRow, next: UserRow, now: Time)
      modifies this
      ensures View() == NextBeat(site, old(View()), loaded, next, now)
    {
      var previousPath := loaded.path;
      if site.untracked(previousPath) {
        previousPath := "";
      }
      var won := loaded.lastSeen.Some? && previousPath != "" && row.lastSeen == loaded.lastSeen;
      row := next;
      if won {
        var from := loaded.lastSeen.value;
        CreditPresenceTime(site, from, previousPath, loaded.action, CreditFor(site, now - from), loaded.login);
      }
    }

    method TouchPresence(site: Site, loaded: UserRow, now: Time, footprint: Option<(string, string)>, session: Option<nat>)
      modifies this
      ensures View() == NextBeat(site, old(View()), loaded, Touched(old(row), now, footprint, session), now)
    {
      var next := row.(lastSeen := Some(now));
      if footprint.Some? {
        next := next.(path := footprint.value.0, action := footprint.value.1);
      }
      if session.Some? {
        next := next.(login := session);
      }
      WriteNextBeat(site, loaded, next, now);
    }

    method RecordLogin(site: Site, loaded: UserRow, now: Time) returns (event: nat)
      modifies this
      ensures event == old(|logins|)
      ensures View() == NextBeat(site, old(View()).(logins := old(logins) + [LoginEvent(now, 0, now, None)]), loaded,
                                 UserRow(Some(now), "/dashboard", "", Some(event)), now)
    {
      event := |logins|;
      logins := logins + [LoginEvent(now, 0, now, None)];
      WriteNextBeat(site, loaded, UserRow(Some(now), "/dashboard", "", Some(event)), now);
    }

    method RecordLogout(site: Site, loaded: UserRow, now: Time, session: Option<nat>)
      modifies this
      ensures View() ==
        var db := NextBeat(site, old(View()), loaded, SignedOut(site, old(row), loaded, now), now);
        db.(logins := EndSession(db.logins, session, now))
    {
      var won := false;
      if loaded.lastSeen.Some? && loaded.path != "" && !site.untracked(loaded.path) && row.lastSeen == loaded.lastSeen {
        won := true;
        row := row.(lastSeen := Some(now), path := "", action := "");
      }
      if won {
        var from := loaded.lastSeen.value;
        CreditPresenceTime(site, from, loaded.path, loaded.action, CreditFor(site, now - from), loaded.login);
      } else {
        row := row.(path := "", action := "");
      }
      if session.Some? && session.value < |logins| && logins[session.value].endedAt.None? {
        logins := logins[session.value := logins[session.value].(endedAt := Some(now))];
      }
    }
  }
}
