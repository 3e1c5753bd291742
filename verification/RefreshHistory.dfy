/** Sessions as their calls leave them: which token is live, and what each refresh answers, told
 *  from the calls made and the answers they got.
 */
module RefreshHistory {
  import opened Basics
  import opened Refresh

  // ── What is minted ──────────────────────────────────────────────────────────

  /** The token a call mints, if it mints one: a sign-in's, or the child of an answered refresh. */
  function MintedBy(s: Store, call: Call): Option<Token>
  {
    match call
    case LoginCall(user, now) => Some(Token(user, s.nextFamily, None, now + 7 * DAY, None, None, None))
    case RefreshCall(raw, now) =>
      if raw.Some? && raw.value < |s.tokens| && RefreshToken(s, raw, now).1.Rotated? then
        Some(Token(s.tokens[raw.value].user, s.tokens[raw.value].family, raw, now + 7 * DAY, None, None, None))
      else None
    case _ => None
  }

  /** Every sign-in mints a token of a new family, every answered refresh one of the same family and
   *  person, good for seven days; nothing else mints, and nobody's token changes hands. */
  lemma StepMints(s: Store, call: Call)
    ensures var t := Step(s, call);
      && |t.tokens| == |s.tokens| + (if MintedBy(s, call).Some? then 1 else 0)
      && (MintedBy(s, call).Some? ==> t.tokens[|s.tokens|] == MintedBy(s, call).value)
      && (call.LoginCall? ==> t.nextFamily == s.nextFamily + 1) && (!call.LoginCall? ==> t.nextFamily == s.nextFamily)
    ensures forall i {:trigger s.tokens[i]} :: 0 <= i < |s.tokens| ==>
      var a, z := s.tokens[i], Step(s, call).tokens[i];
      z.user == a.user && z.family == a.family && z.parent == a.parent && z.expiresAt == a.expiresAt
    ensures call.StatusCall? ==> Step(s, call).active == call.activeUsers
    ensures !call.StatusCall? ==> Step(s, call).active == s.active
  {
  }

  // ── What a call ends ────────────────────────────────────────────────────────

  /** Whether a call takes a live token out of use: signing out with it, exchanging it, resetting its
   *  person's password, or replaying a spent token of its family. */
  predicate Ends(s: Store, call: Call, id: nat)
    requires id < |s.tokens|
  {
    match call
    case LogoutCall(raw, _) => raw == Some(id)
    case ResetCall(user, _) => user == s.tokens[id].user
    case RefreshCall(raw, now) =>
      && raw.Some? && raw.value < |s.tokens| && now < s.tokens[raw.value].expiresAt && s.tokens[raw.value].user in s.active
      && (raw.value == id || (s.tokens[raw.value].revokedAt.Some? && s.tokens[raw.value].family == s.tokens[id].family))
    case _ => false
  }

  /** A token is live after a call exactly when it was live before and the call did not end it; what
   *  the call did not end is as it was, in every field. */
  lemma LiveAfterIff(s: Store, call: Call, id: nat)
    requires id < |s.tokens|
    ensures Step(s, call).tokens[id].revokedAt.None? <==> s.tokens[id].revokedAt.None? && !Ends(s, call, id)
    ensures !Ends(s, call, id) ==> Step(s, call).tokens[id] == s.tokens[id]
  {
  }

  /** Whether some call of the run ended the token. */
  predicate EndedIn(s: Store, calls: seq<Call>, id: nat)
    requires id < |s.tokens|
    decreases |calls|
  {
    |calls| > 0 && (Ends(s, calls[0], id) || (id < |Step(s, calls[0]).tokens| && EndedIn(Step(s, calls[0]), calls[1..], id)))
  }

  /** Over any run: live at the end exactly when live at the start and ended by no call. */
  lemma {:induction false} LiveInTheEndIff(s: Store, calls: seq<Call>, id: nat)
    requires id < |s.tokens|
    ensures id < |After(s, calls).tokens|
    ensures After(s, calls).tokens[id].revokedAt.None? <==> s.tokens[id].revokedAt.None? && !EndedIn(s, calls, id)
    decreases |calls|
  {
    if |calls| == 0 {
    } else {
      hide Step, Ends;
      StepMints(s, calls[0]);
      LiveAfterIff(s, calls[0], id);
      LiveInTheEndIff(Step(s, calls[0]), calls[1..], id);
    }
  }

  // ── What a refresh answers ──────────────────────────────────────────────────

  /** A token from a sign-in, after any run: it refreshes exactly when no call has ended it, its
   *  seven days are not over, and its person is active. */
  lemma SignInRefreshesIff(before: seq<Call>, user: nat, at: Time, calls: seq<Call>, now: Time)
    ensures var s := Step(After(EmptyStore, before), LoginCall(user, at)); var id := |After(EmptyStore, before).tokens|;
      && id < |s.tokens|
      && (RefreshToken(After(s, calls), Some(id), now).1.Rotated? <==>
            !EndedIn(s, calls, id) && now < at + 7 * DAY && user in After(s, calls).active)
  {
    var s0 := After(EmptyStore, before);
    var call := LoginCall(user, at);
    StepMints(s0, call);
    var s := Step(s0, call);
    hide Step, EndedIn;
    MintedRefreshesIff(s, calls, |s0.tokens|, now);
  }

  /** And so does the token an answered refresh was exchanged for. */
  lemma ChildRefreshesIff(before: seq<Call>, raw: nat, at: Time, calls: seq<Call>, now: Time)
    requires raw < |After(EmptyStore, before).tokens| && RefreshToken(After(EmptyStore, before), Some(raw), at).1.Rotated?
    ensures var s0 := After(EmptyStore, before); var s := Step(s0, RefreshCall(Some(raw), at)); var id := |s0.tokens|;
      && id < |s.tokens|
      && (RefreshToken(After(s, calls), Some(id), now).1.Rotated? <==>
            !EndedIn(s, calls, id) && now < at + 7 * DAY && s0.tokens[raw].user in After(s, calls).active)
  {
    var s0 := After(EmptyStore, before);
    var call := RefreshCall(Some(raw), at);
    StepMints(s0, call);
    var s := Step(s0, call);
    hide Step, EndedIn;
    MintedRefreshesIff(s, calls, |s0.tokens|, now);
  }

  lemma MintedRefreshesIff(s: Store, calls: seq<Call>, id: nat, now: Time)
    requires id < |s.tokens| && s.tokens[id].revokedAt.None?
    ensures RefreshToken(After(s, calls), Some(id), now).1.Rotated? <==>
      !EndedIn(s, calls, id) && now < s.tokens[id].expiresAt && s.tokens[id].user in After(s, calls).active
  {
    LiveInTheEndIff(s, calls, id);
    SameToken(s, calls, id);
  }

  lemma {:induction false} SameToken(s: Store, calls: seq<Call>, id: nat)
    requires id < |s.tokens|
    ensures id < |After(s, calls).tokens|
    ensures var a, z := s.tokens[id], After(s, calls).tokens[id];
      z.user == a.user && z.family == a.family && z.parent == a.parent && z.expiresAt == a.expiresAt
    decreases |calls|
  {
    if |calls| == 0 {
    } else {
      StepMints(s, calls[0]);
      hide Step;
      SameToken(Step(s, calls[0]), calls[1..], id);
    }
  }

  /** After signing out with a token, no later run has it refresh. */
  lemma SignedOutStaysOut(s: Store, id: nat, at: Time, later: seq<Call>, now: Time)
    requires id < |s.tokens|
    ensures RefreshToken(After(Step(s, LogoutCall(Some(id), at)), later), Some(id), now).1.Unauthorized?
    ensures forall other :: 0 <= other < |s.tokens| && other != id ==> Step(s, LogoutCall(Some(id), at)).tokens[other] == s.tokens[other]
  {
    LiveAfterIff(s, LogoutCall(Some(id), at), id);
    RevokedIsFinal(Step(s, LogoutCall(Some(id), at)), later, id, now);
  }

  /** After a password reset no token the person had refreshes, whatever happens later; other people's
   *  tokens are as they were. */
  lemma ResetSignsOutEverywhere(s: Store, user: nat, at: Time, id: nat, later: seq<Call>, now: Time)
    requires id < |s.tokens|
    ensures s.tokens[id].user == user ==>
      RefreshToken(After(Step(s, ResetCall(user, at)), later), Some(id), now).1.Unauthorized?
    ensures s.tokens[id].user != user ==> Step(s, ResetCall(user, at)).tokens[id] == s.tokens[id]
  {
    LiveAfterIff(s, ResetCall(user, at), id);
    if s.tokens[id].user == user {
      RevokedIsFinal(Step(s, ResetCall(user, at)), later, id, now);
    }
  }

  // ── What the stamps say ─────────────────────────────────────────────────────

  /** When a call revokes, consumes or marks a token, the stamp is the call's own instant, and each
   *  is put on once, or for a replay, on the last one. */
  lemma StampsTellWhen(s: Store, call: Call, id: nat)
    requires id < |s.tokens|
    ensures var a, z := s.tokens[id], Step(s, call).tokens[id];
      && (z.revokedAt == if a.revokedAt.None? && Ends(s, call, id) then Some(call.now) else a.revokedAt)
      && (z.consumedAt == if call == RefreshCall(Some(id), call.now) && a.revokedAt.None? && Ends(s, call, id) then Some(call.now) else a.consumedAt)
      && (z.reuseDetectedAt == if call == RefreshCall(Some(id), call.now) && a.revokedAt.Some? && Ends(s, call, id) then Some(call.now) else a.reuseDetectedAt)
  {
  }
}
