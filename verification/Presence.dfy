/** Who is online, and the time ledger behind it, for one person.
 *
 *  A request loads the person's row and, later, writes its own beat with a compare-and-set on
 *  `lastSeen`. If it wins, the time since the beat before is credited to the page that beat
 *  recorded and to the sign-in it was made in. The credit is written by separate statements,
 *  so other requests' statements may fall between them.
 */
module Presence {
  import opened Basics

  const FINAL_BEAT_SECONDS: nat := 30

  /** A part of the tool and what was done there. */
  datatype Task = Task(section: string, workingOn: string)

  /** Page labels, the calendar, and the idle threshold. */
  datatype Site = Site(
    describe: (string, string) -> Task,
    untracked: string -> bool,
    dayOf: Time -> int,
    idleSeconds: nat)

  datatype UserRow = UserRow(lastSeen: Option<Time>, path: string, action: string, login: Option<nat>)

  const NewUser := UserRow(None, "", "", None)

  datatype LoginEvent = LoginEvent(at: Time, activeSeconds: nat, lastActiveAt: Time, endedAt: Option<Time>)

  datatype Slot = Slot(day: int, task: Task, seconds: nat)

  // ── What a gap is worth ─────────────────────────────────────────────────────

  function CreditFor(site: Site, gap: Time): nat
  {
    if gap <= 0 then 0
    else if gap <= site.idleSeconds * SECOND then gap / SECOND
    else FINAL_BEAT_SECONDS
  }

  predicate Tracked(site: Site, path: string)
  {
    path != "" && !site.untracked(path)
  }

  /** With an idle threshold of at least the final beat, no gap earns more than itself. */
  lemma CreditFits(site: Site, gap: Time)
    requires site.idleSeconds >= FINAL_BEAT_SECONDS && 0 <= gap
    ensures CreditFor(site, gap) * SECOND <= gap
  {
  }

  // ── Slots and sign-ins ──────────────────────────────────────────────────────

  /** The slot of a day and task, or the table's length when there is none. */
  function FindSlot(slots: seq<Slot>, day: int, task: Task): (i: nat)
    ensures i <= |slots|
    ensures i < |slots| ==> slots[i].day == day && slots[i].task == task
    ensures i == |slots| ==> forall k :: 0 <= k < |slots| ==> !(slots[k].day == day && slots[k].task == task)
  {
    if |slots| == 0 then 0
    else if slots[|slots| - 1].day == day && slots[|slots| - 1].task == task then |slots| - 1
    else
      var i := FindSlot(slots[..|slots| - 1], day, task);
      if i == |slots| - 1 then |slots| else i
  }

  predicate HasSlot(slots: seq<Slot>, day: int, task: Task)
  {
    FindSlot(slots, day, task) < |slots|
  }

  function AddToSlot(slots: seq<Slot>, day: int, task: Task, seconds: nat): seq<Slot>
    requires HasSlot(slots, day, task)
  {
    var i := FindSlot(slots, day, task);
    slots[i := slots[i].(seconds := slots[i].seconds + seconds)]
  }

  function AddToLogin(logins: seq<LoginEvent>, login: Option<nat>, until: Time, seconds: nat): seq<LoginEvent>
  {
    if login.Some? && login.value < |logins| then
      var e := logins[login.value];
      logins[login.value := e.(activeSeconds := e.activeSeconds + seconds,
                               lastActiveAt := if e.lastActiveAt < until then until else e.lastActiveAt)]
    else logins
  }

  /** Seconds in the slots that `p` selects. */
  function SlotTotal(slots: seq<Slot>, p: (int, Task) -> bool): nat
  {
    if |slots| == 0 then 0
    else
      var slot := slots[|slots| - 1];
      SlotTotal(slots[..|slots| - 1], p) + if p(slot.day, slot.task) then slot.seconds else 0
  }

  lemma {:induction false} SlotTotalAdd(slots: seq<Slot>, i: nat, seconds: nat, p: (int, Task) -> bool)
    requires i < |slots|
    ensures SlotTotal(slots[i := slots[i].(seconds := slots[i].seconds + seconds)], p)
         == SlotTotal(slots, p) + if p(slots[i].day, slots[i].task) then seconds else 0
    decreases |slots|
  {
    var n := |slots| - 1;
    var grown := slots[i].(seconds := slots[i].seconds + seconds);
    if i == n {
      assert slots[i := grown][..n] == slots[..n];
    } else {
      assert slots[i := grown][..n] == slots[..n][i := grown];
      SlotTotalAdd(slots[..n], i, seconds, p);
    }
  }

  /** Active seconds of the sign-ins that `q` selects. */
  function LoginTotal(logins: seq<LoginEvent>, q: nat -> bool): nat
  {
    if |logins| == 0 then 0
    else LoginTotal(logins[..|logins| - 1], q) + if q(|logins| - 1) then logins[|logins| - 1].activeSeconds else 0
  }

  lemma {:induction false} LoginTotalAdd(logins: seq<LoginEvent>, id: nat, e: LoginEvent, q: nat -> bool)
    requires id < |logins|
    ensures LoginTotal(logins[id := e], q)
         == LoginTotal(logins, q) + if q(id) then e.activeSeconds - logins[id].activeSeconds else 0
    decreases |logins|
  {
    var n := |logins| - 1;
    if id == n {
      assert logins[id := e][..n] == logins[..n];
    } else {
      assert logins[id := e][..n] == logins[..n][id := e];
      LoginTotalAdd(logins[..n], id, e, q);
    }
  }

  // ── The interleaved machine ─────────────────────────────────────────────────

  /** How far the statements that write one credit have got. */
  datatype Stage = OwesLogin | OwesSlot | OwesInsert | Done

  /** A stretch of time credited: where it starts, how long, to what, and its progress. */
  datatype Credit = Credit(start: Time, seconds: nat, day: int, task: Task, login: Option<nat>, stage: Stage)
  {
    function End(): Time { start + seconds * SECOND }
  }

  /** `rows` is every value the person's row has had, oldest first: what a request can have
   *  loaded. `credits` is the history of compare-and-sets that won. */
  datatype Ledger = Ledger(
    rows: seq<UserRow>,
    logins: seq<LoginEvent>,
    slots: seq<Slot>,
    credits: seq<Credit>,
    clock: Time)

  const NewLedger := Ledger([NewUser], [], [], [], 0)

  function Current(s: Ledger): UserRow
    requires |s.rows| > 0
  {
    s.rows[|s.rows| - 1]
  }

  datatype Move =
    | Beat(loaded: UserRow, now: Time, footprint: Option<(string, string)>, session: Option<nat>)
    | SignIn(loaded: UserRow, now: Time)
    | SignOut(loaded: UserRow, now: Time, session: Option<nat>)
    | PayLogin(credit: nat)
    | PaySlot(credit: nat)
    | InsertSlot(credit: nat)

  /** Whether the compare-and-set of a request that loaded `loaded` succeeds against `row`. */
  predicate Wins(site: Site, row: UserRow, loaded: UserRow)
  {
    loaded.lastSeen.Some? && Tracked(site, loaded.path) && row.lastSeen == loaded.lastSeen
  }

  function Earned(site: Site, loaded: UserRow, now: Time): (c: Credit)
    requires loaded.lastSeen.Some?
  {
    var from := loaded.lastSeen.value;
    Credit(from, CreditFor(site, now - from), site.dayOf(from), site.describe(loaded.path, loaded.action), loaded.login, OwesLogin)
  }

  /** Write `next` as the row; a winner owes the statements of its credit. */
  function WriteBeat(site: Site, s: Ledger, loaded: UserRow, next: UserRow, now: Time): Ledger
    requires |s.rows| > 0
  {
    var won := Wins(site, Current(s), loaded) && Earned(site, loaded, now).seconds > 0;
    s.(rows := s.rows + [next], clock := now, credits := s.credits + if won then [Earned(site, loaded, now)] else [])
  }

  /** The row a beat leaves: an unnamed page or session keeps the stored one. */
  function Touched(row: UserRow, now: Time, footprint: Option<(string, string)>, session: Option<nat>): UserRow
  {
    UserRow(Some(now),
            if footprint.Some? then footprint.value.0 else row.path,
            if footprint.Some? then footprint.value.1 else row.action,
            if session.Some? then session else row.login)
  }

  /** The row a sign-out leaves: a loser does not move `lastSeen`. */
  function SignedOut(site: Site, row: UserRow, loaded: UserRow, now: Time): UserRow
  {
    row.(lastSeen := if Wins(site, row, loaded) then Some(now) else row.lastSeen, path := "", action := "")
  }

  function EndSession(logins: seq<LoginEvent>, session: Option<nat>, now: Time): seq<LoginEvent>
  {
    if session.Some? && session.value < |logins| && logins[session.value].endedAt.None? then
      logins[session.value := logins[session.value].(endedAt := Some(now))]
    else logins
  }

  function Apply(site: Site, s: Ledger, m: Move): Ledger
    requires |s.rows| > 0
  {
    match m
    case Beat(loaded, now, footprint, session) =>
      WriteBeat(site, s, loaded, Touched(Current(s), now, footprint, session), now)
    case SignIn(loaded, now) =>
      WriteBeat(site, s.(logins := s.logins + [LoginEvent(now, 0, now, None)]), loaded,
                UserRow(Some(now), "/dashboard", "", Some(|s.logins|)), now)
    case SignOut(loaded, now, session) =>
      WriteBeat(site, s.(logins := EndSession(s.logins, session, now)), loaded, SignedOut(site, Current(s), loaded, now), now)
    case PayLogin(k) =>
      if k < |s.credits| && s.credits[k].stage.OwesLogin? then
        var c := s.credits[k];
        s.(logins := AddToLogin(s.logins, c.login, c.End(), c.seconds), credits := s.credits[k := c.(stage := OwesSlot)])
      else s
    case PaySlot(k) =>
      if k < |s.credits| && s.credits[k].stage.OwesSlot? then
        var c := s.credits[k];
        if HasSlot(s.slots, c.day, c.task) then
          s.(slots := AddToSlot(s.slots, c.day, c.task, c.seconds), credits := s.credits[k := c.(stage := Done)])
        else s.(credits := s.credits[k := c.(stage := OwesInsert)])
      else s
    case InsertSlot(k) =>
      if k < |s.credits| && s.credits[k].stage.OwesInsert? then
        var c := s.credits[k];
        // The unique constraint turns a lost insert race into an update.
        if HasSlot(s.slots, c.day, c.task) then
          s.(slots := AddToSlot(s.slots, c.day, c.task, c.seconds), credits := s.credits[k := c.(stage := Done)])
        else
          s.(slots := s.slots + [Slot(c.day, c.task, c.seconds)], credits := s.credits[k := c.(stage := Done)])
      else s
  }

  /** A request's row is one the table has held; its clock is read in commit order; and a
   *  session names a sign-in that was recorded. */
  predicate Legal(s: Ledger, m: Move)
  {
    match m
    case Beat(loaded, now, _, session) => loaded in s.rows && s.clock <= now && (session.Some? ==> session.value < |s.logins|)
    case SignIn(loaded, now) => loaded in s.rows && s.clock <= now
    case SignOut(loaded, now, _) => loaded in s.rows && s.clock <= now
    case _ => true
  }

  predicate LegalRun(site: Site, s: Ledger, moves: seq<Move>)
    requires |s.rows| > 0
    decreases |moves|
  {
    |moves| == 0 || (Legal(s, moves[0]) && LegalRun(site, Apply(site, s, moves[0]), moves[1..]))
  }

  function After(site: Site, s: Ledger, moves: seq<Move>): Ledger
    requires |s.rows| > 0
    decreases |moves|
  {
    if |moves| == 0 then s else After(site, Apply(site, s, moves[0]), moves[1..])
  }

  // ── What every interleaving keeps ───────────────────────────────────────────

  /** When the person was first seen. */
  function FirstSeen(rows: seq<UserRow>): Option<Time>
  {
    if |rows| == 0 then None
    else if FirstSeen(rows[..|rows| - 1]).Some? then FirstSeen(rows[..|rows| - 1])
    else rows[|rows| - 1].lastSeen
  }

  /** Seconds credited, all of them; those already in a slot; those already on a sign-in;
   *  and those made with no sign-in. */
  function Credited(cs: seq<Credit>): nat
  {
    if |cs| == 0 then 0 else Credited(cs[..|cs| - 1]) + cs[|cs| - 1].seconds
  }

  function InSlots(cs: seq<Credit>, p: (int, Task) -> bool): nat
  {
    if |cs| == 0 then 0
    else
      var c := cs[|cs| - 1];
      InSlots(cs[..|cs| - 1], p) + if c.stage.Done? && p(c.day, c.task) then c.seconds else 0
  }

  function OnLogins(cs: seq<Credit>, q: nat -> bool): nat
  {
    if |cs| == 0 then 0
    else
      var c := cs[|cs| - 1];
      OnLogins(cs[..|cs| - 1], q) + if !c.stage.OwesLogin? && c.login.Some? && q(c.login.value) then c.seconds else 0
  }

  function WithoutLogin(cs: seq<Credit>): nat
  {
    if |cs| == 0 then 0 else WithoutLogin(cs[..|cs| - 1]) + if cs[|cs| - 1].login.None? then cs[|cs| - 1].seconds else 0
  }

  lemma {:induction false} StageMoves(cs: seq<Credit>, k: nat, stage: Stage, p: (int, Task) -> bool, q: nat -> bool)
    requires k < |cs| && !cs[k].stage.Done? && !stage.OwesLogin?
    ensures var ds := cs[k := cs[k].(stage := stage)]; var c := cs[k];
      && InSlots(ds, p) == InSlots(cs, p) + (if stage.Done? && p(c.day, c.task) then c.seconds else 0)
      && OnLogins(ds, q) == OnLogins(cs, q) + (if c.stage.OwesLogin? && c.login.Some? && q(c.login.value) then c.seconds else 0)
      && Credited(ds) == Credited(cs) && WithoutLogin(ds) == WithoutLogin(cs)
    decreases |cs|
  {
    var n := |cs| - 1;
    var moved := cs[k].(stage := stage);
    if k == n {
      assert cs[k := moved][..n] == cs[..n];
    } else {
      assert cs[k := moved][..n] == cs[..n][k := moved];
      StageMoves(cs[..n], k, stage, p, q);
    }
  }

  lemma NewCredit(cs: seq<Credit>, c: Credit, p: (int, Task) -> bool, q: nat -> bool)
    requires c.stage.OwesLogin?
    ensures InSlots(cs + [c], p) == InSlots(cs, p) && OnLogins(cs + [c], q) == OnLogins(cs, q)
    ensures Credited(cs + [c]) == Credited(cs) + c.seconds
  {
    assert (cs + [c])[..|cs|] == cs;
  }

  ghost predicate Disjoint(cs: seq<Credit>)
  {
    forall i, j :: 0 <= i < j < |cs| ==> cs[i].End() <= cs[j].start
  }

  /** Every credit lies between the first time the person was seen and the last. */
  ghost predicate Timeline(s: Ledger)
  {
    && |s.rows| > 0
    && (Current(s).lastSeen.Some? <==> FirstSeen(s.rows).Some?)
    && (Current(s).lastSeen.Some? ==> FirstSeen(s.rows).value <= Current(s).lastSeen.value <= s.clock)
    && (|s.credits| > 0 ==> Current(s).lastSeen.Some?)
    && (forall i :: 0 <= i < |s.credits| ==>
        FirstSeen(s.rows).value <= s.credits[i].start && s.credits[i].End() <= Current(s).lastSeen.value)
    && Disjoint(s.credits)
  }

  /** What the stored figures add up to, for any choice of slots and of sign-ins. */
  ghost predicate Balanced(s: Ledger, p: (int, Task) -> bool, q: nat -> bool)
  {
    SlotTotal(s.slots, p) == InSlots(s.credits, p) && LoginTotal(s.logins, q) == OnLogins(s.credits, q)
  }

  ghost predicate KnownLogins(s: Ledger)
  {
    && (forall r :: r in s.rows && r.login.Some? ==> r.login.value < |s.logins|)
    && (forall c :: c in s.credits && c.login.Some? ==> c.login.value < |s.logins|)
  }

  /** Each credit is for the page and session that some stored beat recorded at its start. */
  ghost predicate Recorded(site: Site, s: Ledger)
  {
    forall c :: c in s.credits ==> exists r :: r in s.rows && RecordedBy(site, c, r)
  }

  ghost predicate RecordedBy(site: Site, c: Credit, r: UserRow)
  {
    && r.lastSeen == Some(c.start) && r.login == c.login && Tracked(site, r.path)
    && c.task == site.describe(r.path, r.action) && c.day == site.dayOf(c.start)
  }

  ghost predicate OneSlotEach(slots: seq<Slot>)
  {
    forall i, j :: 0 <= i < j < |slots| ==> !(slots[i].day == slots[j].day && slots[i].task == slots[j].task)
  }

  /** A sign-in's last activity is no earlier than the end of any time credited to it. */
  ghost predicate ActiveUntil(s: Ledger)
  {
    forall c :: c in s.credits && !c.stage.OwesLogin? && c.login.Some? && c.login.value < |s.logins| ==>
      c.End() <= s.logins[c.login.value].lastActiveAt
  }

  // ── Each part is kept ───────────────────────────────────────────────────────

  lemma FirstSeenAppend(rows: seq<UserRow>, r: UserRow)
    ensures FirstSeen(rows + [r]) == if FirstSeen(rows).Some? then FirstSeen(rows) else r.lastSeen
  {
    assert (rows + [r])[..|rows|] == rows;
  }

  lemma WriteKeepsTimeline(site: Site, s: Ledger, loaded: UserRow, next: UserRow, now: Time)
    requires site.idleSeconds >= FINAL_BEAT_SECONDS && Timeline(s) && s.clock <= now
    requires next.lastSeen == Some(now) || (next.lastSeen == Current(s).lastSeen && !Wins(site, Current(s), loaded))
    ensures Timeline(WriteBeat(site, s, loaded, next, now))
  {
    FirstSeenAppend(s.rows, next);
    if Wins(site, Current(s), loaded) {
      CreditFits(site, now - loaded.lastSeen.value);
    }
  }

  lemma WriteKeepsBalance(site: Site, s: Ledger, loaded: UserRow, next: UserRow, now: Time, p: (int, Task) -> bool, q: nat -> bool)
    requires |s.rows| > 0 && Balanced(s, p, q)
    ensures Balanced(WriteBeat(site, s, loaded, next, now), p, q)
  {
    if loaded.lastSeen.Some? {
      NewCredit(s.credits, Earned(site, loaded, now), p, q);
    }
    assert s.credits + [] == s.credits;
  }

  lemma WriteKeepsRecords(site: Site, s: Ledger, loaded: UserRow, next: UserRow, now: Time)
    requires |s.rows| > 0 && Recorded(site, s) && loaded in s.rows
    ensures Recorded(site, WriteBeat(site, s, loaded, next, now))
  {
    var t := WriteBeat(site, s, loaded, next, now);
    forall c | c in t.credits ensures exists r :: r in t.rows && RecordedBy(site, c, r) {
      if c in s.credits {
        var r :| r in s.rows && RecordedBy(site, c, r);
        assert r in t.rows;
      } else {
        assert loaded in t.rows && RecordedBy(site, c, loaded);
      }
    }
  }

  lemma LoginsMayGrow(s: Ledger, e: LoginEvent, q: nat -> bool)
    requires e.activeSeconds == 0
    ensures LoginTotal(s.logins + [e], q) == LoginTotal(s.logins, q)
  {
    assert (s.logins + [e])[..|s.logins|] == s.logins;
  }

  lemma PayLoginKeepsBalance(s: Ledger, k: nat, p: (int, Task) -> bool, q: nat -> bool)
    requires k < |s.credits| && s.credits[k].stage.OwesLogin? && Balanced(s, p, q) && KnownLogins(s)
    ensures var c := s.credits[k];
      Balanced(s.(logins := AddToLogin(s.logins, c.login, c.End(), c.seconds), credits := s.credits[k := c.(stage := OwesSlot)]), p, q)
  {
    var c := s.credits[k];
    StageMoves(s.credits, k, OwesSlot, p, q);
    if c.login.Some? {
      LoginTotalAdd(s.logins, c.login.value, AddToLogin(s.logins, c.login, c.End(), c.seconds)[c.login.value], q);
    }
  }

  lemma SlotGains(slots: seq<Slot>, day: int, task: Task, seconds: nat, p: (int, Task) -> bool)
    ensures HasSlot(slots, day, task) ==>
      SlotTotal(AddToSlot(slots, day, task, seconds), p) == SlotTotal(slots, p) + if p(day, task) then seconds else 0
    ensures SlotTotal(slots + [Slot(day, task, seconds)], p) == SlotTotal(slots, p) + if p(day, task) then seconds else 0
  {
    var i := FindSlot(slots, day, task);
    if i < |slots| {
      SlotTotalAdd(slots, i, seconds, p);
    }
    assert (slots + [Slot(day, task, seconds)])[..|slots|] == slots;
  }

  lemma PaySlotKeepsBalance(s: Ledger, k: nat, p: (int, Task) -> bool, q: nat -> bool)
    requires k < |s.credits| && (s.credits[k].stage.OwesSlot? || s.credits[k].stage.OwesInsert?) && Balanced(s, p, q)
    ensures var c := s.credits[k]; var done := s.credits[k := c.(stage := Done)];
      && (HasSlot(s.slots, c.day, c.task) ==>
          Balanced(s.(slots := AddToSlot(s.slots, c.day, c.task, c.seconds), credits := done), p, q))
      && Balanced(s.(slots := s.slots + [Slot(c.day, c.task, c.seconds)], credits := done), p, q)
      && Balanced(s.(credits := s.credits[k := c.(stage := OwesInsert)]), p, q)
  {
    hide InSlots, OnLogins, Credited, WithoutLogin, LoginTotal;
    var c := s.credits[k];
    StageMoves(s.credits, k, Done, p, q);
    StageMoves(s.credits, k, OwesInsert, p, q);
    SlotGains(s.slots, c.day, c.task, c.seconds, p);
  }

  lemma StageKeepsTimeline(s: Ledger, k: nat, stage: Stage)
    requires Timeline(s) && k < |s.credits|
    ensures Timeline(s.(credits := s.credits[k := s.credits[k].(stage := stage)]))
  {
  }

  lemma StageKeepsRecords(site: Site, s: Ledger, k: nat, stage: Stage)
    requires Recorded(site, s) && k < |s.credits|
    ensures Recorded(site, s.(credits := s.credits[k := s.credits[k].(stage := stage)]))
  {
    var cs := s.credits[k := s.credits[k].(stage := stage)];
    forall c | c in cs ensures exists r :: r in s.rows && RecordedBy(site, c, r) {
      if c !in s.credits {
        assert s.credits[k] in s.credits;
        var r :| r in s.rows && RecordedBy(site, s.credits[k], r);
        assert RecordedBy(site, c, r);
      }
    }
  }

  lemma PaidLoginIsActiveUntil(s: Ledger, k: nat)
    requires ActiveUntil(s) && KnownLogins(s) && k < |s.credits|
    ensures var c := s.credits[k];
      ActiveUntil(s.(logins := AddToLogin(s.logins, c.login, c.End(), c.seconds), credits := s.credits[k := c.(stage := OwesSlot)]))
  {
  }

  ghost predicate Inv(site: Site, s: Ledger)
  {
    |s.rows| > 0 && Timeline(s) && KnownLogins(s) && Recorded(site, s) && OneSlotEach(s.slots) && ActiveUntil(s)
  }

  lemma BeatKeepsInv(site: Site, s: Ledger, loaded: UserRow, next: UserRow, logins: seq<LoginEvent>, now: Time)
    requires site.idleSeconds >= FINAL_BEAT_SECONDS && Inv(site, s) && s.clock <= now && loaded in s.rows
    requires next.lastSeen == Some(now) || (next.lastSeen == Current(s).lastSeen && !Wins(site, Current(s), loaded))
    requires |s.logins| <= |logins| && (next.login.Some? ==> next.login.value < |logins|)
    requires forall i :: 0 <= i < |s.logins| ==> logins[i].lastActiveAt == s.logins[i].lastActiveAt
    ensures Inv(site, WriteBeat(site, s.(logins := logins), loaded, next, now))
  {
    hide Timeline, Recorded;
    var l := s.(logins := logins);
    assert Timeline(l) by { TimelineIgnoresLogins(s, logins); }
    assert Recorded(site, l) by { RecordsIgnoreLogins(site, s, logins); }
    WriteKeepsTimeline(site, l, loaded, next, now);
    WriteKeepsRecords(site, l, loaded, next, now);
  }

  lemma TimelineIgnoresLogins(s: Ledger, logins: seq<LoginEvent>)
    requires Timeline(s)
    ensures Timeline(s.(logins := logins))
  {
  }

  lemma RecordsIgnoreLogins(site: Site, s: Ledger, logins: seq<LoginEvent>)
    requires Recorded(site, s)
    ensures Recorded(site, s.(logins := logins))
  {
  }

  lemma StepKeepsInv(site: Site, s: Ledger, m: Move)
    requires site.idleSeconds >= FINAL_BEAT_SECONDS && Inv(site, s) && Legal(s, m)
    ensures Inv(site, Apply(site, s, m))
  {
    match m
    case Beat(loaded, now, footprint, session) =>
      BeatKeepsInv(site, s, loaded, Touched(Current(s), now, footprint, session), s.logins, now);
    case SignIn(loaded, now) =>
      BeatKeepsInv(site, s, loaded, UserRow(Some(now), "/dashboard", "", Some(|s.logins|)), s.logins + [LoginEvent(now, 0, now, None)], now);
    case SignOut(loaded, now, session) =>
      BeatKeepsInv(site, s, loaded, SignedOut(site, Current(s), loaded, now), EndSession(s.logins, session, now), now);
    case PayLogin(k) =>
      if Apply(site, s, m) != s {
        StageKeepsTimeline(s, k, OwesSlot);
        StageKeepsRecords(site, s, k, OwesSlot);
        PaidLoginIsActiveUntil(s, k);
      }
    case PaySlot(k) => SlotMoveKeepsInv(site, s, k);
    case InsertSlot(k) => SlotMoveKeepsInv(site, s, k);
  }

  lemma SlotMoveKeepsInv(site: Site, s: Ledger, k: nat)
    requires Inv(site, s)
    ensures Inv(site, Apply(site, s, PaySlot(k))) && Inv(site, Apply(site, s, InsertSlot(k)))
  {
    hide Timeline, Recorded, KnownLogins, ActiveUntil, OneSlotEach;
    if k < |s.credits| && (s.credits[k].stage.OwesSlot? || s.credits[k].stage.OwesInsert?) {
      StageKeepsTimeline(s, k, Done);
      StageKeepsRecords(site, s, k, Done);
      StageKeepsLogins(s, k, Done);
      StageKeepsTimeline(s, k, OwesInsert);
      StageKeepsRecords(site, s, k, OwesInsert);
      StageKeepsLogins(s, k, OwesInsert);
      SlotsStayUnique(s.slots, s.credits[k].day, s.credits[k].task, s.credits[k].seconds);
      SlotsAreAside(site);
    }
  }

  lemma StageKeepsLogins(s: Ledger, k: nat, stage: Stage)
    requires KnownLogins(s) && ActiveUntil(s) && k < |s.credits| && !s.credits[k].stage.OwesLogin?
    ensures var t := s.(credits := s.credits[k := s.credits[k].(stage := stage)]); KnownLogins(t) && ActiveUntil(t)
  {
    assert s.credits[k] in s.credits;
  }

  lemma SlotsStayUnique(slots: seq<Slot>, day: int, task: Task, seconds: nat)
    requires OneSlotEach(slots)
    ensures HasSlot(slots, day, task) ==> OneSlotEach(AddToSlot(slots, day, task, seconds))
    ensures !HasSlot(slots, day, task) ==> OneSlotEach(slots + [Slot(day, task, seconds)])
  {
  }

  /** Rows, sign-ins and credits do not look at the slots. */
  lemma SlotsAreAside(site: Site)
    ensures forall t: Ledger, other :: Timeline(t) ==> Timeline(t.(slots := other))
    ensures forall t: Ledger, other :: Recorded(site, t) ==> Recorded(site, t.(slots := other))
    ensures forall t: Ledger, other :: KnownLogins(t) && ActiveUntil(t) ==> KnownLogins(t.(slots := other)) && ActiveUntil(t.(slots := other))
  {
  }

  lemma StepKeepsBalance(site: Site, s: Ledger, m: Move, p: (int, Task) -> bool, q: nat -> bool)
    requires Inv(site, s) && Balanced(s, p, q)
    ensures Balanced(Apply(site, s, m), p, q)
  {
    hide Timeline, Recorded, OneSlotEach, ActiveUntil;
    match m
    case Beat(loaded, now, footprint, session) =>
      WriteKeepsBalance(site, s, loaded, Touched(Current(s), now, footprint, session), now, p, q);
    case SignIn(loaded, now) =>
      LoginsMayGrow(s, LoginEvent(now, 0, now, None), q);
      WriteKeepsBalance(site, s.(logins := s.logins + [LoginEvent(now, 0, now, None)]), loaded,
                        UserRow(Some(now), "/dashboard", "", Some(|s.logins|)), now, p, q);
    case SignOut(loaded, now, session) =>
      if session.Some? && session.value < |s.logins| {
        LoginTotalAdd(s.logins, session.value, s.logins[session.value].(endedAt := Some(now)), q);
      }
      WriteKeepsBalance(site, s.(logins := EndSession(s.logins, session, now)), loaded, SignedOut(site, Current(s), loaded, now), now, p, q);
    case PayLogin(k) =>
      if Apply(site, s, m) != s {
        PayLoginKeepsBalance(s, k, p, q);
      }
    case PaySlot(k) =>
      if Apply(site, s, m) != s {
        PaySlotKeepsBalance(s, k, p, q);
      }
    case InsertSlot(k) =>
      if Apply(site, s, m) != s {
        PaySlotKeepsBalance(s, k, p, q);
      }
  }

  lemma {:induction false} RunKeepsInv(site: Site, s: Ledger, moves: seq<Move>, p: (int, Task) -> bool, q: nat -> bool)
    requires site.idleSeconds >= FINAL_BEAT_SECONDS && Inv(site, s) && Balanced(s, p, q) && LegalRun(site, s, moves)
    ensures Inv(site, After(site, s, moves)) && Balanced(After(site, s, moves), p, q)
    decreases |moves|
  {
    if |moves| == 0 {
    } else {
      StepKeepsInv(site, s, moves[0]);
      StepKeepsBalance(site, s, moves[0], p, q);
      RunKeepsInv(site, Apply(site, s, moves[0]), moves[1..], p, q);
    }
  }

  lemma NewLedgerInv(site: Site)
    ensures Inv(site, NewLedger)
  {
    assert FirstSeen(NewLedger.rows) == None;
  }

  lemma ReachableInv(site: Site, moves: seq<Move>, p: (int, Task) -> bool, q: nat -> bool)
    requires site.idleSeconds >= FINAL_BEAT_SECONDS && LegalRun(site, NewLedger, moves)
    ensures var s := After(site, NewLedger, moves); Inv(site, s) && Balanced(s, p, q)
  {
    hide Inv, After, LegalRun;
    NewLedgerInv(site);
    RunKeepsInv(site, NewLedger, moves, p, q);
  }

  // ── Conservation ────────────────────────────────────────────────────────────

  /** Credited stretches never overlap, and together fit between the first and the last time
   *  the person was seen. */
  lemma CreditsAreDisjoint(site: Site, moves: seq<Move>)
    requires site.idleSeconds >= FINAL_BEAT_SECONDS && LegalRun(site, NewLedger, moves)
    ensures var s := After(site, NewLedger, moves);
      && Disjoint(s.credits)
      && |s.rows| > 0
      && (|s.credits| > 0 ==>
          && Current(s).lastSeen.Some? && FirstSeen(s.rows).Some?
          && Credited(s.credits) * SECOND <= Current(s).lastSeen.value - FirstSeen(s.rows).value)
  {
    hide After, LegalRun, Recorded, KnownLogins, ActiveUntil, OneSlotEach, Balanced;
    ReachableInv(site, moves, (_, _) => true, _ => true);
    var s := After(site, NewLedger, moves);
    if |s.credits| > 0 {
      CreditsFit(s.credits, FirstSeen(s.rows).value);
    }
  }

  lemma {:induction false} CreditsFit(cs: seq<Credit>, first: Time)
    requires Disjoint(cs) && |cs| > 0 && forall i :: 0 <= i < |cs| ==> first <= cs[i].start
    ensures Credited(cs) * SECOND <= cs[|cs| - 1].End() - first
  {
    var init := cs[..|cs| - 1];
    if |init| == 0 {
    } else {
      CreditsFit(init, first);
      assert init[|init| - 1].End() <= cs[|cs| - 1].start;
    }
  }

  /** No statement of any credit is still to come. */
  ghost predicate Quiet(s: Ledger)
  {
    forall i :: 0 <= i < |s.credits| ==> s.credits[i].stage.Done?
  }

  lemma {:induction false} QuietTotals(cs: seq<Credit>)
    requires forall i :: 0 <= i < |cs| ==> cs[i].stage.Done?
    ensures InSlots(cs, (_, _) => true) == Credited(cs) == OnLogins(cs, _ => true) + WithoutLogin(cs)
  {
    if |cs| == 0 {
    } else {
      QuietTotals(cs[..|cs| - 1]);
    }
  }

  /** Once every request has finished, the slots hold exactly what was credited, and so do
   *  the sign-ins together with the credits made with no sign-in. */
  lemma Conservation(site: Site, moves: seq<Move>)
    requires site.idleSeconds >= FINAL_BEAT_SECONDS && LegalRun(site, NewLedger, moves)
    requires Quiet(After(site, NewLedger, moves))
    ensures var s := After(site, NewLedger, moves);
      SlotTotal(s.slots, (_, _) => true) == Credited(s.credits) == LoginTotal(s.logins, _ => true) + WithoutLogin(s.credits)
  {
    hide After, LegalRun, Inv;
    ReachableInv(site, moves, (_, _) => true, _ => true);
    QuietTotals(After(site, NewLedger, moves).credits);
  }

  /** At any moment, even with statements outstanding, any selection of slots holds exactly
   *  the credits that have reached them, and each sign-in exactly its own. */
  lemma EveryFigureIsItsCredits(site: Site, moves: seq<Move>, p: (int, Task) -> bool, q: nat -> bool)
    requires site.idleSeconds >= FINAL_BEAT_SECONDS && LegalRun(site, NewLedger, moves)
    ensures var s := After(site, NewLedger, moves);
      && SlotTotal(s.slots, p) == InSlots(s.credits, p)
      && LoginTotal(s.logins, q) == OnLogins(s.credits, q)
      && OneSlotEach(s.slots) && Recorded(site, s) && ActiveUntil(s)
  {
    hide After, LegalRun, Timeline, Recorded, KnownLogins, ActiveUntil, OneSlotEach;
    ReachableInv(site, moves, p, q);
  }
}
