/** Any number of simultaneous refreshes of one raw token.
 *
 *  Each request takes the row lock, re-reads the committed row, executes its statements
 *  (seen by nobody else until it commits) and commits, releasing the lock. The steps of
 *  different requests interleave freely. `MintAfterCommit` is the design the code avoids:
 *  the child is inserted by a later statement, outside the transaction.
 */
module RefreshRace {
  import opened Basics
  import opened Refresh

  datatype Design = MintInside | MintAfterCommit

  datatype Phase =
    | Waiting
    | Locked
    | WillRotate(at: Time)
    | WillRevoke(at: Time, doomed: set<nat>)
    | WillFail(at: Time)
    | OwesChild(at: Time)
    | Succeeded
    | ReuseDetected
    | Failed(at: Time)

  datatype Race = Race(tokens: seq<Token>, lock: Option<nat>, phases: seq<Phase>)

  /** One step of request `t`; `at` is the clock it reads if it reads one. */
  datatype Move = Acquire(t: nat) | Execute(t: nat, at: Time, userActive: bool) | Commit(t: nat) | Mint(t: nat)

  function LiveInFamily(ts: seq<Token>, family: nat): set<nat>
  {
    set i | 0 <= i < |ts| && ts[i].family == family && ts[i].revokedAt.None?
  }

  function RevokeThese(ts: seq<Token>, doomed: set<nat>, now: Time): (rs: seq<Token>)
    ensures |rs| == |ts|
    ensures forall i {:trigger rs[i]} :: 0 <= i < |ts| ==>
      rs[i] == if i in doomed then ts[i].(revokedAt := Some(now)) else ts[i]
  {
    seq(|ts|, i requires 0 <= i < |ts| => if i in doomed then ts[i].(revokedAt := Some(now)) else ts[i])
  }

  function MarkReuse(ts: seq<Token>, raw: nat, now: Time): seq<Token>
    requires raw < |ts|
  {
    ts[raw := ts[raw].(reuseDetectedAt := Some(now))]
  }

  function Consume(ts: seq<Token>, raw: nat, now: Time): seq<Token>
    requires raw < |ts|
  {
    ts[raw := ts[raw].(revokedAt := Some(now), consumedAt := Some(now))]
  }

  function Child(ts: seq<Token>, raw: nat, now: Time): Token
    requires raw < |ts|
  {
    NewToken(ts[raw].user, ts[raw].family, Some(raw), now)
  }

  /** A move that is not enabled does nothing: a request blocked on the lock stays put. */
  function Apply(design: Design, r: Race, raw: nat, m: Move): Race
    requires raw < |r.tokens|
  {
    if m.t >= |r.phases| then r
    else
      match (m, r.phases[m.t])
      case (Acquire(t), Waiting) =>
        if r.lock.None? then r.(lock := Some(t), phases := r.phases[t := Locked]) else r
      case (Execute(t, at, userActive), Locked) =>
        var record := r.tokens[raw];
        if !userActive || record.expiresAt <= at then r.(phases := r.phases[t := WillFail(at)])
        else if record.revokedAt.Some? then
          r.(phases := r.phases[t := WillRevoke(at, LiveInFamily(r.tokens, record.family))])
        else r.(phases := r.phases[t := WillRotate(at)])
      case (Commit(t), WillRotate(at)) =>
        (match design
         case MintInside =>
           r.(tokens := Consume(r.tokens, raw, at) + [Child(r.tokens, raw, at)], lock := None, phases := r.phases[t := Succeeded])
         case MintAfterCommit =>
           r.(tokens := Consume(r.tokens, raw, at), lock := None, phases := r.phases[t := OwesChild(at)]))
      case (Commit(t), WillRevoke(at, doomed)) =>
        r.(tokens := RevokeThese(MarkReuse(r.tokens, raw, at), doomed, at), lock := None, phases := r.phases[t := ReuseDetected])
      case (Commit(t), WillFail(at)) => r.(lock := None, phases := r.phases[t := Failed(at)])
      case (Mint(t), OwesChild(at)) =>
        r.(tokens := r.tokens + [Child(r.tokens, raw, at)], phases := r.phases[t := Succeeded])
      case _ => r
  }

  function Run(design: Design, r: Race, raw: nat, moves: seq<Move>): Race
    requires raw < |r.tokens|
    decreases |moves|
  {
    if |moves| == 0 then r else Run(design, Apply(design, r, raw, moves[0]), raw, moves[1..])
  }

  /** `n` requests present the same raw token, which a sign-in or a rotation minted. */
  ghost predicate Start(r: Race, raw: nat)
  {
    && raw < |r.tokens|
    && Superseded(r.tokens)
    && r.lock.None?
    && (forall t :: 0 <= t < |r.phases| ==> r.phases[t].Waiting?)
  }

  ghost predicate HoldsLock(p: Phase)
  {
    p.Locked? || p.WillRotate? || p.WillRevoke? || p.WillFail?
  }

  ghost predicate AllRevoked(ts: seq<Token>, family: nat)
  {
    forall i :: 0 <= i < |ts| && ts[i].family == family ==> ts[i].revokedAt.Some?
  }

  ghost predicate Inv(r: Race, raw: nat)
  {
    && raw < |r.tokens|
    && (forall t {:trigger r.phases[t]} :: 0 <= t < |r.phases| ==>
        && !r.phases[t].OwesChild?
        && (HoldsLock(r.phases[t]) ==> r.lock == Some(t))
        && (r.phases[t].WillRotate? ==> r.tokens[raw].revokedAt.None?)
        && (r.phases[t].WillRevoke? ==>
            r.tokens[raw].revokedAt.Some? && r.phases[t].doomed == LiveInFamily(r.tokens, r.tokens[raw].family))
        && (r.phases[t].Succeeded? ==> r.tokens[raw].revokedAt.Some?)
        && (r.phases[t].ReuseDetected? ==> r.tokens[raw].revokedAt.Some? && AllRevoked(r.tokens, r.tokens[raw].family)))
    && (forall t, u :: 0 <= t < u < |r.phases| ==> !(r.phases[t].Succeeded? && r.phases[u].Succeeded?))
  }

  lemma ApplyKeepsInv(r: Race, raw: nat, m: Move)
    requires Inv(r, raw)
    ensures Inv(Apply(MintInside, r, raw, m), raw)
    ensures Apply(MintInside, r, raw, m).tokens[raw].family == r.tokens[raw].family
    ensures |Apply(MintInside, r, raw, m).phases| == |r.phases|
  {
  }

  lemma {:induction false} RunKeepsInv(r: Race, raw: nat, moves: seq<Move>)
    requires Inv(r, raw)
    ensures Inv(Run(MintInside, r, raw, moves), raw)
    decreases |moves|
  {
    if |moves| == 0 {
    } else {
      ApplyKeepsInv(r, raw, moves[0]);
      RunKeepsInv(Apply(MintInside, r, raw, moves[0]), raw, moves[1..]);
    }
  }

  /** However the requests interleave, at most one succeeds, and from the moment one of them
   *  has completed through the reuse branch no token of the family is live. */
  lemma OneWinnerAtMost(r: Race, raw: nat, moves: seq<Move>)
    requires Start(r, raw)
    ensures var e := Run(MintInside, r, raw, moves);
      && raw < |e.tokens|
      && (forall t, u :: 0 <= t < u < |e.phases| ==> !(e.phases[t].Succeeded? && e.phases[u].Succeeded?))
      && ((exists t :: 0 <= t < |e.phases| && e.phases[t].ReuseDetected?) ==> AllRevoked(e.tokens, e.tokens[raw].family))
  {
    RunKeepsInv(r, raw, moves);
  }

  /** After a success, any further request that reaches the row while the token has not run
   *  out and its user is active completes through the reuse branch. */
  lemma SecondKillsFamily(r: Race, raw: nat, moves: seq<Move>, winner: nat, u: nat, at: Time)
    requires Start(r, raw)
    requires var e := Run(MintInside, r, raw, moves);
      && raw < |e.tokens|
      && winner < |e.phases| && e.phases[winner].Succeeded?
      && u < |e.phases| && e.phases[u].Locked? && at < e.tokens[raw].expiresAt
    ensures var e := Run(MintInside, r, raw, moves + [Execute(u, at, true), Commit(u)]);
      u < |e.phases| && e.phases[u].ReuseDetected? && raw < |e.tokens| && AllRevoked(e.tokens, e.tokens[raw].family)
  {
    RunKeepsInv(r, raw, moves);
    RunConcat(r, raw, moves, [Execute(u, at, true), Commit(u)]);
    var e := Run(MintInside, r, raw, moves);
    var f := Apply(MintInside, e, raw, Execute(u, at, true));
    var g := Apply(MintInside, f, raw, Commit(u));
    ApplyKeepsInv(e, raw, Execute(u, at, true));
    ApplyKeepsInv(f, raw, Commit(u));
    assert Run(MintInside, e, raw, [Execute(u, at, true), Commit(u)]) == Run(MintInside, f, raw, [Commit(u)]) == Run(MintInside, g, raw, []);
  }

  lemma {:induction false} RunConcat(r: Race, raw: nat, xs: seq<Move>, ys: seq<Move>)
    requires Inv(r, raw)
    ensures Inv(Run(MintInside, r, raw, xs), raw)
    ensures Run(MintInside, r, raw, xs + ys) == Run(MintInside, Run(MintInside, r, raw, xs), raw, ys)
    decreases |xs|
  {
    if |xs| == 0 {
      assert xs + ys == ys;
    } else {
      ApplyKeepsInv(r, raw, xs[0]);
      RunConcat(Apply(MintInside, r, raw, xs[0]), raw, xs[1..], ys);
      assert (xs + ys)[1..] == xs[1..] + ys;
    }
  }

  lemma RunCons(design: Design, r: Race, raw: nat, m: Move, ms: seq<Move>)
    requires raw < |r.tokens|
    ensures Run(design, r, raw, [m] + ms) == Run(design, Apply(design, r, raw, m), raw, ms)
  {
    assert ([m] + ms)[1..] == ms;
  }

  /** The winner commits its consumption but has not inserted the child yet. */
  lemma WinnerOwesChild(rest: seq<Move>)
    ensures Run(MintAfterCommit, Race([NewToken(1, 0, None, 0)], None, [Waiting, Waiting]), 0, [Acquire(0)] + ([Execute(0, 1, true)] + ([Commit(0)] + rest)))
         == Run(MintAfterCommit, Race(Consume([NewToken(1, 0, None, 0)], 0, 1), None, [OwesChild(1), Waiting]), 0, rest)
  {
    var one := [NewToken(1, 0, None, 0)];
    assert [Waiting, Waiting][0 := Locked] == [Locked, Waiting];
    assert [Locked, Waiting][0 := WillRotate(1)] == [WillRotate(1), Waiting];
    assert [WillRotate(1), Waiting][0 := OwesChild(1)] == [OwesChild(1), Waiting];
    RunCons(MintAfterCommit, Race(one, None, [Waiting, Waiting]), 0, Acquire(0), [Execute(0, 1, true)] + ([Commit(0)] + rest));
    RunCons(MintAfterCommit, Race(one, Some(0), [Locked, Waiting]), 0, Execute(0, 1, true), [Commit(0)] + rest);
    RunCons(MintAfterCommit, Race(one, Some(0), [WillRotate(1), Waiting]), 0, Commit(0), rest);
  }

  /** The loser finds nothing left to revoke. */
  lemma LoserRevokesNothing(ts: seq<Token>, rest: seq<Move>)
    requires |ts| == 1 && ts[0].revokedAt.Some? && 2 < ts[0].expiresAt
    ensures Run(MintAfterCommit, Race(ts, None, [OwesChild(1), Waiting]), 0, [Acquire(1)] + ([Execute(1, 2, true)] + ([Commit(1)] + rest)))
         == Run(MintAfterCommit, Race(MarkReuse(ts, 0, 2), None, [OwesChild(1), ReuseDetected]), 0, rest)
  {
    assert LiveInFamily(ts, ts[0].family) == {};
    assert RevokeThese(MarkReuse(ts, 0, 2), {}, 2) == MarkReuse(ts, 0, 2);
    assert [OwesChild(1), Waiting][1 := Locked] == [OwesChild(1), Locked];
    assert [OwesChild(1), Locked][1 := WillRevoke(2, {})] == [OwesChild(1), WillRevoke(2, {})];
    assert [OwesChild(1), WillRevoke(2, {})][1 := ReuseDetected] == [OwesChild(1), ReuseDetected];
    RunCons(MintAfterCommit, Race(ts, None, [OwesChild(1), Waiting]), 0, Acquire(1), [Execute(1, 2, true)] + ([Commit(1)] + rest));
    RunCons(MintAfterCommit, Race(ts, Some(1), [OwesChild(1), Locked]), 0, Execute(1, 2, true), [Commit(1)] + rest);
    RunCons(MintAfterCommit, Race(ts, Some(1), [OwesChild(1), WillRevoke(2, {})]), 0, Commit(1), rest);
  }

  /** Why the child is minted inside the transaction: minted after the commit, it can be
   *  inserted behind the loser's revocation and stay live. */
  lemma MintingAfterCommitLeaksAChild()
    ensures exists r, moves ::
      && Start(r, 0)
      && var e := Run(MintAfterCommit, r, 0, moves);
         |e.tokens| == 2 && |e.phases| == 2 && e.phases[0].Succeeded? && e.phases[1].ReuseDetected? && e.tokens[1].revokedAt.None?
  {
    hide Start;
    StartsWaiting();
    LeakyRun();
    var r := Race([NewToken(1, 0, None, 0)], None, [Waiting, Waiting]);
    var moves := LeakyMoves();
    assert Run(MintAfterCommit, r, 0, moves).tokens[1].revokedAt.None?;
  }

  lemma StartsWaiting()
    ensures Start(Race([NewToken(1, 0, None, 0)], None, [Waiting, Waiting]), 0)
  {
  }

  function LeakyMoves(): seq<Move>
  {
    [Acquire(0)] + ([Execute(0, 1, true)] + ([Commit(0)] + ([Acquire(1)] + ([Execute(1, 2, true)] + ([Commit(1)] + ([Mint(0)] + []))))))
  }

  lemma LeakyRun()
    ensures var consumed := MarkReuse(Consume([NewToken(1, 0, None, 0)], 0, 1), 0, 2);
      Run(MintAfterCommit, Race([NewToken(1, 0, None, 0)], None, [Waiting, Waiting]), 0, LeakyMoves())
        == Race(consumed + [Child(consumed, 0, 1)], None, [Succeeded, ReuseDetected])
  {
    var consumed := Consume([NewToken(1, 0, None, 0)], 0, 1);
    WinnerOwesChild([Acquire(1)] + ([Execute(1, 2, true)] + ([Commit(1)] + ([Mint(0)] + []))));
    LoserRevokesNothing(consumed, [Mint(0)] + []);
    consumed := MarkReuse(consumed, 0, 2);
    RunCons(MintAfterCommit, Race(consumed, None, [OwesChild(1), ReuseDetected]), 0, Mint(0), []);
    assert [OwesChild(1), ReuseDetected][0 := Succeeded] == [Succeeded, ReuseDetected];
  }

  // ── Alone, a request is a refresh ───────────────────────────────────────────

  /** A request nothing crosses does what a refresh does, and has its answer. */
  lemma AloneIsARefresh(r: Race, raw: nat, t: nat, at: Time, active: set<nat>)
    requires raw < |r.tokens| && r.lock.None? && t < |r.phases| && r.phases[t].Waiting?
    ensures var s := Store(r.tokens, active, 0, 0);
      var (after, answer) := RefreshToken(s, Some(raw), at);
      var e := Run(MintInside, r, raw, [Acquire(t), Execute(t, at, r.tokens[raw].user in active), Commit(t)]);
      && e.tokens == after.tokens && e.lock.None? && |e.phases| == |r.phases|
      && (e.phases[t].Succeeded? <==> answer.Rotated?)
      && (forall u :: 0 <= u < |r.phases| && u != t ==> e.phases[u] == r.phases[u])
  {
    var moves := [Acquire(t), Execute(t, at, r.tokens[raw].user in active), Commit(t)];
    var r1 := Apply(MintInside, r, raw, moves[0]);
    var r2 := Apply(MintInside, r1, raw, moves[1]);
    var r3 := Apply(MintInside, r2, raw, moves[2]);
    assert moves[1..][1..] == [moves[2]] && moves[1..][0] == moves[1] && [moves[2]][1..] == [];
    assert Run(MintInside, r, raw, moves) == Run(MintInside, r1, raw, moves[1..]) == Run(MintInside, r2, raw, [moves[2]]) == Run(MintInside, r3, raw, []);
    AloneEnds(r, raw, t, at, active, r3);
  }

  lemma AloneEnds(r: Race, raw: nat, t: nat, at: Time, active: set<nat>, e: Race)
    requires raw < |r.tokens| && r.lock.None? && t < |r.phases| && r.phases[t].Waiting?
    requires e == Apply(MintInside, Apply(MintInside, Apply(MintInside, r, raw, Acquire(t)), raw, Execute(t, at, r.tokens[raw].user in active)), raw, Commit(t))
    ensures var (after, answer) := RefreshToken(Store(r.tokens, active, 0, 0), Some(raw), at);
      && e.tokens == after.tokens && e.lock.None? && |e.phases| == |r.phases|
      && (e.phases[t].Succeeded? <==> answer.Rotated?)
      && (forall u :: 0 <= u < |r.phases| && u != t ==> e.phases[u] == r.phases[u])
  {
    var record := r.tokens[raw];
    if record.user in active && at < record.expiresAt && record.revokedAt.Some? {
      var marked := MarkReuse(r.tokens, raw, at);
      assert RevokeThese(marked, LiveInFamily(r.tokens, record.family), at) == RevokeFamily(marked, record.family, at);
    }
  }

  // ── The winner's child ──────────────────────────────────────────────────────

  ghost predicate SomeoneWon(r: Race)
  {
    exists t :: 0 <= t < |r.phases| && r.phases[t].Succeeded?
  }

  /** There is a child exactly when a request has succeeded, and it is the token's own. */
  ghost predicate ChildOfWinner(r: Race, raw: nat, n: nat)
  {
    && raw < n <= |r.tokens| && |r.tokens| == n + (if SomeoneWon(r) then 1 else 0)
    && (SomeoneWon(r) ==>
        && r.tokens[n].parent == Some(raw) && r.tokens[n].family == r.tokens[raw].family && r.tokens[n].user == r.tokens[raw].user
        && r.tokens[raw].consumedAt.Some?)
  }

  lemma ApplyKeepsChild(r: Race, raw: nat, n: nat, m: Move)
    requires Inv(r, raw) && ChildOfWinner(r, raw, n)
    ensures ChildOfWinner(Apply(MintInside, r, raw, m), raw, n)
  {
    var e := Apply(MintInside, r, raw, m);
    if e != r {
      if SomeoneWon(r) {
        var t :| 0 <= t < |r.phases| && r.phases[t].Succeeded?;
        assert t == m.t || e.phases[t] == r.phases[t];
      }
      if SomeoneWon(e) {
        var t :| 0 <= t < |e.phases| && e.phases[t].Succeeded?;
        assert t == m.t || e.phases[t] == r.phases[t];
      }
      assert e.phases[m.t].Succeeded? ==> SomeoneWon(e);
    }
  }

  /** Whatever the interleaving, the tokens gain exactly one child of the raced token once a request
   *  has succeeded, and none before. */
  lemma {:induction false} OneChildForTheWinner(r: Race, raw: nat, n: nat, moves: seq<Move>)
    requires Inv(r, raw) && ChildOfWinner(r, raw, n)
    ensures Inv(Run(MintInside, r, raw, moves), raw) && ChildOfWinner(Run(MintInside, r, raw, moves), raw, n)
    decreases |moves|
  {
    hide Inv, ChildOfWinner, Apply;
    if |moves| == 0 {
    } else {
      RawExists(r, raw);
      ApplyKeepsInv(r, raw, moves[0]);
      ApplyKeepsChild(r, raw, n, moves[0]);
      OneChildForTheWinner(Apply(MintInside, r, raw, moves[0]), raw, n, moves[1..]);
    }
  }

  lemma RawExists(r: Race, raw: nat)
    requires Inv(r, raw)
    ensures raw < |r.tokens|
  {
  }
}
