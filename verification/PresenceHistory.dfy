/** Presence told from the requests alone: what each names, when it is made, and which of them win.
 */
module PresenceHistory {
  import opened Basics
  import opened Presence

  // ── The row, from the moves ─────────────────────────────────────────────────

  /** Sign-ins so far; the next one gets this number. */
  function SignIns(moves: seq<Move>): nat
  {
    if |moves| == 0 then 0 else SignIns(moves[..|moves| - 1]) + if moves[|moves| - 1].SignIn? then 1 else 0
  }

  /** The page last named: a sign-in names the dashboard, a sign-out none. */
  function Page(moves: seq<Move>): string
  {
    if |moves| == 0 then ""
    else
      var before := Page(moves[..|moves| - 1]);
      match moves[|moves| - 1]
      case Beat(_, _, footprint, _) => if footprint.Some? then footprint.value.0 else before
      case SignIn(_, _) => "/dashboard"
      case SignOut(_, _, _) => ""
      case _ => before
  }

  /** What was last named as done there. */
  function Action(moves: seq<Move>): string
  {
    if |moves| == 0 then ""
    else
      var before := Action(moves[..|moves| - 1]);
      match moves[|moves| - 1]
      case Beat(_, _, footprint, _) => if footprint.Some? then footprint.value.1 else before
      case SignIn(_, _) => ""
      case SignOut(_, _, _) => ""
      case _ => before
  }

  /** The sign-in last named. */
  function Session(moves: seq<Move>): Option<nat>
  {
    if |moves| == 0 then None
    else
      var before := Session(moves[..|moves| - 1]);
      match moves[|moves| - 1]
      case Beat(_, _, _, session) => if session.Some? then session else before
      case SignIn(_, _) => Some(SignIns(moves[..|moves| - 1]))
      case _ => before
  }

  /** When the person was last seen: a sign-out that comes after another write does not count. */
  function Seen(site: Site, moves: seq<Move>): Option<Time>
  {
    if |moves| == 0 then None
    else
      var before := Seen(site, moves[..|moves| - 1]);
      match moves[|moves| - 1]
      case Beat(_, now, _, _) => Some(now)
      case SignIn(_, now) => Some(now)
      case SignOut(loaded, now, _) =>
        if loaded.lastSeen.Some? && loaded.lastSeen == before && loaded.path != "" && !site.untracked(loaded.path) then Some(now) else before
      case _ => before
  }

  function Told(site: Site, moves: seq<Move>): UserRow
  {
    UserRow(Seen(site, moves), Page(moves), Action(moves), Session(moves))
  }

  // ── What is credited, from the moves ────────────────────────────────────────

  /** A gap of at most the idle threshold is worth its whole seconds, a longer one thirty. */
  function Worth(site: Site, gap: Time): nat
  {
    if gap <= 0 then 0 else if gap <= site.idleSeconds * 1_000_000 then gap / 1_000_000 else 30
  }

  /** The credit of a request that loaded this row and writes at this instant. */
  function CreditOf(site: Site, loaded: UserRow, now: Time): Credit
    requires loaded.lastSeen.Some?
  {
    Credit(loaded.lastSeen.value, Worth(site, now - loaded.lastSeen.value), site.dayOf(loaded.lastSeen.value),
           site.describe(loaded.path, loaded.action), loaded.login, OwesLogin)
  }

  /** It is made when nobody was seen since the row was loaded and the row named a tracked page. */
  predicate MakesCredit(site: Site, moves: seq<Move>, loaded: UserRow, now: Time)
  {
    && loaded.lastSeen.Some? && loaded.lastSeen == Seen(site, moves) && loaded.path != "" && !site.untracked(loaded.path)
    && Worth(site, now - loaded.lastSeen.value) > 0
  }

  function Writes(m: Move): bool
  {
    m.Beat? || m.SignIn? || m.SignOut?
  }

  function Made(site: Site, moves: seq<Move>): seq<Credit>
  {
    if |moves| == 0 then []
    else
      var init, m := moves[..|moves| - 1], moves[|moves| - 1];
      if Writes(m) && MakesCredit(site, init, m.loaded, m.now) then Made(site, init) + [CreditOf(site, m.loaded, m.now)]
      else Made(site, init)
  }

  /** The same credits, however far their statements have got. */
  ghost predicate SameCredits(xs: seq<Credit>, ys: seq<Credit>)
  {
    |xs| == |ys| && forall i {:trigger xs[i]} :: 0 <= i < |xs| ==> xs[i].(stage := OwesLogin) == ys[i].(stage := OwesLogin)
  }

  ghost predicate Tells(site: Site, s: Ledger, moves: seq<Move>)
  {
    && |s.rows| > 0 && Current(s) == Told(site, moves)
    && |s.logins| == SignIns(moves)
    && SameCredits(s.credits, Made(site, moves))
  }

  lemma WriteTells(site: Site, s: Ledger, moves: seq<Move>, m: Move)
    requires Tells(site, s, moves) && Writes(m)
    ensures Tells(site, Apply(site, s, m), moves + [m])
  {
    hide SignIns, Page, Action, Session, Seen, Made;
    ToldAppend(site, moves, m);
    MadeAppend(site, moves, m);
  }

  lemma ToldAppend(site: Site, moves: seq<Move>, m: Move)
    ensures Page(moves + [m]) == match m
      case Beat(_, _, footprint, _) => (if footprint.Some? then footprint.value.0 else Page(moves))
      case SignIn(_, _) => "/dashboard"
      case SignOut(_, _, _) => ""
      case _ => Page(moves)
    ensures Action(moves + [m]) == match m
      case Beat(_, _, footprint, _) => (if footprint.Some? then footprint.value.1 else Action(moves))
      case SignIn(_, _) => ""
      case SignOut(_, _, _) => ""
      case _ => Action(moves)
    ensures Session(moves + [m]) == match m
      case Beat(_, _, _, session) => (if session.Some? then session else Session(moves))
      case SignIn(_, _) => Some(SignIns(moves))
      case _ => Session(moves)
    ensures SignIns(moves + [m]) == SignIns(moves) + if m.SignIn? then 1 else 0
    ensures Seen(site, moves + [m]) == match m
      case Beat(_, now, _, _) => Some(now)
      case SignIn(_, now) => Some(now)
      case SignOut(loaded, now, _) =>
        (if loaded.lastSeen.Some? && loaded.lastSeen == Seen(site, moves) && loaded.path != "" && !site.untracked(loaded.path)
         then Some(now) else Seen(site, moves))
      case _ => Seen(site, moves)
  {
    assert (moves + [m])[..|moves|] == moves;
  }

  lemma MadeAppend(site: Site, moves: seq<Move>, m: Move)
    ensures Made(site, moves + [m]) ==
      if Writes(m) && MakesCredit(site, moves, m.loaded, m.now) then Made(site, moves) + [CreditOf(site, m.loaded, m.now)] else Made(site, moves)
  {
    assert (moves + [m])[..|moves|] == moves;
  }

  lemma PayTells(site: Site, s: Ledger, moves: seq<Move>, m: Move)
    requires Tells(site, s, moves) && !Writes(m)
    ensures Tells(site, Apply(site, s, m), moves + [m])
  {
    hide SignIns, Page, Action, Session, Seen, Made, HasSlot, AddToSlot;
    ToldAppend(site, moves, m);
    MadeAppend(site, moves, m);
  }

  lemma {:induction false} RunAppend(site: Site, s: Ledger, moves: seq<Move>, m: Move)
    requires |s.rows| > 0
    ensures |After(site, s, moves).rows| > 0 && After(site, s, moves + [m]) == Apply(site, After(site, s, moves), m)
    decreases |moves|
  {
    if |moves| == 0 {
      assert moves + [m] == [m] && [m][1..] == [];
    } else {
      assert (moves + [m])[0] == moves[0] && (moves + [m])[1..] == moves[1..] + [m];
      KeepsRows(site, s, moves[0]);
      hide Apply;
      RunAppend(site, Apply(site, s, moves[0]), moves[1..], m);
    }
  }

  lemma KeepsRows(site: Site, s: Ledger, m: Move)
    requires |s.rows| > 0
    ensures |Apply(site, s, m).rows| > 0
  {
  }

  /** After any interleaving: the stored row is what the requests last named, and the credits are
   *  those of the requests that won, each worth its gap, on the page and the sign-in its row named. */
  lemma {:induction false} RunTells(site: Site, moves: seq<Move>)
    ensures Tells(site, After(site, NewLedger, moves), moves)
    decreases |moves|
  {
    if |moves| == 0 {
    } else {
      var n := |moves| - 1;
      hide Tells, Apply, Writes;
      RunTells(site, moves[..n]);
      assert moves[..n] + [moves[n]] == moves;
      RunAppend(site, NewLedger, moves[..n], moves[n]);
      if Writes(moves[n]) {
        WriteTells(site, After(site, NewLedger, moves[..n]), moves[..n], moves[n]);
      } else {
        PayTells(site, After(site, NewLedger, moves[..n]), moves[..n], moves[n]);
      }
    }
  }

  /** Every row a request can have loaded is what the requests up to some point named. */
  lemma {:induction false} EveryRowIsTold(site: Site, moves: seq<Move>, row: UserRow)
    requires row in After(site, NewLedger, moves).rows
    ensures exists n :: 0 <= n <= |moves| && row == Told(site, moves[..n])
    decreases |moves|
  {
    if |moves| == 0 {
      assert row == Told(site, moves[..0]);
    } else {
      var n := |moves| - 1;
      hide Told;
      assert moves[..n] + [moves[n]] == moves;
      RunAppend(site, NewLedger, moves[..n], moves[n]);
      var s, t := After(site, NewLedger, moves[..n]), After(site, NewLedger, moves);
      RowsGrow(site, s, moves[n]);
      hide After, Apply;
      if row in s.rows {
        EveryRowIsTold(site, moves[..n], row);
        var k :| 0 <= k <= n && row == Told(site, moves[..n][..k]);
        assert moves[..n][..k] == moves[..k];
      } else {
        RunTells(site, moves);
        assert moves[..|moves|] == moves;
      }
    }
  }

  lemma RowsGrow(site: Site, s: Ledger, m: Move)
    requires |s.rows| > 0
    ensures forall row :: row in Apply(site, s, m).rows ==> row in s.rows || row == Current(Apply(site, s, m))
  {
  }

  // ── What a beat names is what is credited ───────────────────────────────────

  /** A beat that names a page, an action and a sign-in: whichever request loads it and wins, later
   *  and in whatever state, credits its own gap to them, from the beat on. */
  lemma NamedBeatIsCredited(site: Site, before: seq<Move>, loaded: UserRow, t1: Time, page: string, action: string, session: nat,
                            s: Ledger, m: Move)
    requires page != "" && !site.untracked(page)
    requires |s.rows| > 0 && Current(s).lastSeen == Some(t1)
    requires Writes(m) && m.loaded == Told(site, before + [Beat(loaded, t1, Some((page, action)), Some(session))])
    ensures Apply(site, s, m).credits == s.credits +
      if Worth(site, m.now - t1) == 0 then []
      else [Credit(t1, Worth(site, m.now - t1), site.dayOf(t1), site.describe(page, action), Some(session), OwesLogin)]
  {
    hide Page, Action, Session, Seen, SignIns;
    ToldAppend(site, before, Beat(loaded, t1, Some((page, action)), Some(session)));
    assert s.credits + [] == s.credits;
  }

  /** One that names nothing leaves what was named before. */
  lemma UnnamedBeatKeepsNames(site: Site, before: seq<Move>, loaded: UserRow, t1: Time)
    ensures var told := Told(site, before + [Beat(loaded, t1, None, None)]);
      told == Told(site, before).(lastSeen := Some(t1))
  {
    hide Page, Action, Session, Seen, SignIns;
    ToldAppend(site, before, Beat(loaded, t1, None, None));
  }

  // ── The sign-ins ────────────────────────────────────────────────────────────

  /** When the `n`th sign-in was made. */
  function SignedInAt(moves: seq<Move>, n: nat): Time
  {
    if |moves| == 0 then 0
    else
      var init, m := moves[..|moves| - 1], moves[|moves| - 1];
      if m.SignIn? && SignIns(init) == n then m.now else SignedInAt(init, n)
  }

  /** When it ended: at the first sign-out that names it. */
  function EndedAt(moves: seq<Move>, n: nat): Option<Time>
  {
    if |moves| == 0 then None
    else
      var init, m := moves[..|moves| - 1], moves[|moves| - 1];
      if EndedAt(init, n).Some? then EndedAt(init, n)
      else if m.SignOut? && m.session == Some(n) && n < SignIns(init) then Some(m.now)
      else None
  }

  predicate Counts(c: Credit, n: nat)
  {
    c.login == Some(n) && !c.stage.OwesLogin?
  }

  /** The end of the last stretch written to it, or when it was made. */
  function LastActive(cs: seq<Credit>, n: nat, at: Time): Time
  {
    if |cs| == 0 then at
    else
      var before, c := LastActive(cs[..|cs| - 1], n, at), cs[|cs| - 1];
      if Counts(c, n) && before < c.End() then c.End() else before
  }

  ghost predicate SignInTold(s: Ledger, moves: seq<Move>, n: nat)
    requires n < |s.logins|
  {
    && s.logins[n].at == SignedInAt(moves, n)
    && s.logins[n].endedAt == EndedAt(moves, n)
    && s.logins[n].lastActiveAt == LastActive(s.credits, n, s.logins[n].at)
  }

  ghost predicate SignInsTold(s: Ledger, moves: seq<Move>)
  {
    |s.logins| == SignIns(moves) && forall n :: 0 <= n < |s.logins| ==> SignInTold(s, moves, n)
  }

  lemma SignInsAppend(moves: seq<Move>, m: Move, n: nat)
    ensures SignIns(moves + [m]) == SignIns(moves) + if m.SignIn? then 1 else 0
    ensures SignedInAt(moves + [m], n) == if m.SignIn? && SignIns(moves) == n then m.now else SignedInAt(moves, n)
    ensures EndedAt(moves + [m], n) ==
      if EndedAt(moves, n).Some? then EndedAt(moves, n)
      else if m.SignOut? && m.session == Some(n) && n < SignIns(moves) then Some(m.now)
      else None
  {
    assert (moves + [m])[..|moves|] == moves;
  }

  lemma LastActiveAppend(cs: seq<Credit>, c: Credit, n: nat, at: Time)
    requires c.stage.OwesLogin?
    ensures LastActive(cs + [c], n, at) == LastActive(cs, n, at)
  {
    assert (cs + [c])[..|cs|] == cs;
  }

  lemma {:induction false} NobodysLastActive(cs: seq<Credit>, n: nat, at: Time)
    requires forall c :: c in cs ==> !Counts(c, n)
    ensures LastActive(cs, n, at) == at
  {
    if |cs| == 0 {
    } else {
      NobodysLastActive(cs[..|cs| - 1], n, at);
    }
  }

  lemma {:induction false} EndsNotYet(moves: seq<Move>, n: nat)
    requires SignIns(moves) <= n
    ensures EndedAt(moves, n) == None
  {
    if |moves| == 0 {
    } else {
      EndsNotYet(moves[..|moves| - 1], n);
    }
  }

  /** Writing a stretch to its sign-in moves the last activity to its end if that is later. */
  lemma {:induction false} LastActivePaid(cs: seq<Credit>, k: nat, stage: Stage, n: nat, at: Time)
    requires k < |cs| && !stage.OwesLogin?
    ensures var before, c := LastActive(cs, n, at), cs[k];
      LastActive(cs[k := c.(stage := stage)], n, at) == if c.login == Some(n) && before < c.End() then c.End() else before
    ensures Counts(cs[k], n) ==> LastActive(cs, n, at) >= cs[k].End()
    decreases |cs|
  {
    var n' := |cs| - 1;
    var paid := cs[k].(stage := stage);
    if k == n' {
      assert cs[k := paid][..n'] == cs[..n'];
    } else {
      assert cs[k := paid][..n'] == cs[..n'][k := paid];
      LastActivePaid(cs[..n'], k, stage, n, at);
    }
  }

  lemma BeatTellsSignIns(site: Site, s: Ledger, moves: seq<Move>, m: Move)
    requires |s.rows| > 0 && SignInsTold(s, moves) && m.Beat?
    ensures SignInsTold(Apply(site, s, m), moves + [m])
  {
    hide SignIns, SignedInAt, EndedAt, LastActive;
    var t := Apply(site, s, m);
    SignInsAppend(moves, m, 0);
    forall n | 0 <= n < |t.logins| ensures SignInTold(t, moves + [m], n) {
      SignInsAppend(moves, m, n);
      WriteKeepsLastActive(site, s, m, n, s.logins[n].at);
      assert SignInTold(s, moves, n);
    }
  }

  lemma WriteKeepsLastActive(site: Site, s: Ledger, m: Move, n: nat, at: Time)
    requires |s.rows| > 0 && Writes(m)
    ensures LastActive(Apply(site, s, m).credits, n, at) == LastActive(s.credits, n, at)
  {
    if Wins(site, Current(s), m.loaded) {
      LastActiveAppend(s.credits, Earned(site, m.loaded, m.now), n, at);
    }
    assert s.credits + [] == s.credits;
  }

  lemma SignInTellsSignIns(site: Site, s: Ledger, moves: seq<Move>, m: Move)
    requires |s.rows| > 0 && SignInsTold(s, moves) && KnownLogins(s) && m.SignIn?
    ensures SignInsTold(Apply(site, s, m), moves + [m])
  {
    hide SignIns, SignedInAt, EndedAt, LastActive;
    var t := Apply(site, s, m);
    SignInsAppend(moves, m, 0);
    forall n | 0 <= n < |t.logins| ensures SignInTold(t, moves + [m], n) {
      SignInsAppend(moves, m, n);
      WriteKeepsLastActive(site, s, m, n, t.logins[n].at);
      if n == |s.logins| {
        NobodysLastActive(s.credits, n, m.now);
        EndsNotYet(moves, n);
      } else {
        assert SignInTold(s, moves, n);
      }
    }
  }

  lemma SignOutTellsSignIns(site: Site, s: Ledger, moves: seq<Move>, m: Move)
    requires |s.rows| > 0 && SignInsTold(s, moves) && m.SignOut?
    ensures SignInsTold(Apply(site, s, m), moves + [m])
  {
    hide SignIns, SignedInAt, EndedAt, LastActive;
    var t := Apply(site, s, m);
    SignInsAppend(moves, m, 0);
    forall n | 0 <= n < |t.logins| ensures SignInTold(t, moves + [m], n) {
      SignInsAppend(moves, m, n);
      assert SignInTold(s, moves, n) && t.logins[n].at == s.logins[n].at;
      WriteKeepsLastActive(site, s, m, n, s.logins[n].at);
    }
  }

  lemma PayTellsSignIns(site: Site, s: Ledger, moves: seq<Move>, m: Move)
    requires |s.rows| > 0 && SignInsTold(s, moves) && !Writes(m)
    ensures SignInsTold(Apply(site, s, m), moves + [m])
  {
    hide SignIns, SignedInAt, EndedAt, LastActive, HasSlot, AddToSlot;
    var t := Apply(site, s, m);
    SignInsAppend(moves, m, 0);
    forall n | 0 <= n < |t.logins| ensures SignInTold(t, moves + [m], n) {
      SignInsAppend(moves, m, n);
      assert SignInTold(s, moves, n) && t.logins[n].at == s.logins[n].at;
      if m.credit < |s.credits| {
        var stage := t.credits[m.credit].stage;
        if !stage.OwesLogin? {
          LastActivePaid(s.credits, m.credit, stage, n, s.logins[n].at);
        }
      }
    }
  }

  lemma StepTellsSignIns(site: Site, s: Ledger, moves: seq<Move>, m: Move)
    requires |s.rows| > 0 && SignInsTold(s, moves) && KnownLogins(s)
    ensures SignInsTold(Apply(site, s, m), moves + [m])
  {
    hide *;
    if m.Beat? {
      BeatTellsSignIns(site, s, moves, m);
    } else if m.SignIn? {
      SignInTellsSignIns(site, s, moves, m);
    } else if m.SignOut? {
      SignOutTellsSignIns(site, s, moves, m);
    } else {
      NoWrite(m);
      PayTellsSignIns(site, s, moves, m);
    }
  }

  lemma NoWrite(m: Move)
    requires !m.Beat? && !m.SignIn? && !m.SignOut?
    ensures !Writes(m)
  {
  }

  lemma {:induction false} LegalPrefix(site: Site, s: Ledger, moves: seq<Move>, n: nat)
    requires |s.rows| > 0 && n <= |moves| && LegalRun(site, s, moves)
    ensures LegalRun(site, s, moves[..n])
    decreases |moves|
  {
    if n == 0 {
    } else {
      KeepsRows(site, s, moves[0]);
      hide Apply, Legal;
      LegalPrefix(site, Apply(site, s, moves[0]), moves[1..], n - 1);
      assert moves[..n][1..] == moves[1..][..n - 1] && moves[..n][0] == moves[0];
    }
  }

  lemma InvKnows(site: Site, s: Ledger)
    requires Inv(site, s)
    ensures |s.rows| > 0 && KnownLogins(s)
  {
  }

  /** After any interleaving, each sign-in's row says when it was made, ends at the first sign-out
   *  that named it, and was last active at the end of the last stretch written to it. */
  lemma {:induction false} RunTellsSignIns(site: Site, moves: seq<Move>)
    requires site.idleSeconds >= FINAL_BEAT_SECONDS && LegalRun(site, NewLedger, moves)
    ensures SignInsTold(After(site, NewLedger, moves), moves)
    decreases |moves|
  {
    if |moves| == 0 {
    } else {
      var n := |moves| - 1;
      hide SignInsTold, Apply, KnownLogins, Inv, Balanced, LegalRun;
      LegalPrefix(site, NewLedger, moves, n);
      RunTellsSignIns(site, moves[..n]);
      ReachableInv(site, moves[..n], (_, _) => true, _ => true);
      InvKnows(site, After(site, NewLedger, moves[..n]));
      assert moves[..n] + [moves[n]] == moves;
      RunAppend(site, NewLedger, moves[..n], moves[n]);
      StepTellsSignIns(site, After(site, NewLedger, moves[..n]), moves[..n], moves[n]);
    }
  }
}
