/** Refresh tokens: families, single use, and reuse detection.
 *
 *  A token's id is its position in the table, and presenting a raw token names at most one
 *  row (the stored hash is unique). `None` is a raw token no row matches.
 */
module Refresh {
  import opened Basics

  const REFRESH_TTL: int := 7 * DAY

  datatype Token = Token(
    user: nat,
    family: nat,
    parent: Option<nat>,
    expiresAt: Time,
    consumedAt: Option<Time>,
    revokedAt: Option<Time>,
    reuseDetectedAt: Option<Time>)

  /** `nextFamily` stands for the generator of fresh family ids, `active` for account status. */
  datatype Store = Store(tokens: seq<Token>, active: set<nat>, nextFamily: nat, clock: Time)

  const EmptyStore := Store([], {}, 0, 0)

  datatype RefreshResult = Rotated(child: nat) | Unauthorized

  // ── The operations ──────────────────────────────────────────────────────────

  function NewToken(user: nat, family: nat, parent: Option<nat>, now: Time): Token
  {
    Token(user, family, parent, now + REFRESH_TTL, None, None, None)
  }

  /** Bulk revocation: the rows that are still unrevoked and match. */
  function RevokeWhere(ts: seq<Token>, matches: Token -> bool, now: Time): (rs: seq<Token>)
    ensures |rs| == |ts|
    ensures forall i {:trigger rs[i]} :: 0 <= i < |ts| ==>
      rs[i] == if ts[i].revokedAt.None? && matches(ts[i]) then ts[i].(revokedAt := Some(now)) else ts[i]
  {
    seq(|ts|, i requires 0 <= i < |ts| =>
      if ts[i].revokedAt.None? && matches(ts[i]) then ts[i].(revokedAt := Some(now)) else ts[i])
  }

  function RevokeFamily(ts: seq<Token>, family: nat, now: Time): seq<Token>
  {
    RevokeWhere(ts, (t: Token) => t.family == family, now)
  }

  /** The presented token is stamped and its child minted in one transaction. */
  function Rotate(ts: seq<Token>, id: nat, now: Time): seq<Token>
    requires id < |ts|
  {
    ts[id := ts[id].(revokedAt := Some(now), consumedAt := Some(now))] + [NewToken(ts[id].user, ts[id].family, Some(id), now)]
  }

  function Login(s: Store, user: nat, now: Time): Store
  {
    s.(tokens := s.tokens + [NewToken(user, s.nextFamily, None, now)],
       nextFamily := s.nextFamily + 1,
       clock := now)
  }

  predicate Usable(s: Store, raw: Option<nat>, now: Time)
  {
    raw.Some? && raw.value < |s.tokens| && s.tokens[raw.value].user in s.active && now < s.tokens[raw.value].expiresAt
  }

  function RefreshToken(s: Store, raw: Option<nat>, now: Time): (Store, RefreshResult)
  {
    var t := s.(clock := now);
    if !Usable(s, raw, now) then (t, Unauthorized)
    else
      var id := raw.value;
      var record := s.tokens[id];
      if record.revokedAt.Some? then
        (t.(tokens := RevokeFamily(s.tokens[id := record.(reuseDetectedAt := Some(now))], record.family, now)),
         Unauthorized)
      else
        (t.(tokens := Rotate(s.tokens, id, now)), Rotated(|s.tokens|))
  }

  function Logout(s: Store, raw: Option<nat>, now: Time): Store
  {
    if raw.Some? && raw.value < |s.tokens| && s.tokens[raw.value].revokedAt.None? then
      s.(tokens := s.tokens[raw.value := s.tokens[raw.value].(revokedAt := Some(now))], clock := now)
    else s.(clock := now)
  }

  /** The revocation part of a password reset. */
  function RevokeUser(s: Store, user: nat, now: Time): Store
  {
    s.(tokens := RevokeWhere(s.tokens, (t: Token) => t.user == user, now), clock := now)
  }

  // ── Runs ────────────────────────────────────────────────────────────────────

  datatype Call =
    | LoginCall(user: nat, now: Time)
    | RefreshCall(raw: Option<nat>, now: Time)
    | LogoutCall(raw: Option<nat>, now: Time)
    | ResetCall(user: nat, now: Time)
    | StatusCall(activeUsers: set<nat>, now: Time)

  function Step(s: Store, call: Call): Store
  {
    match call
    case LoginCall(user, now) => Login(s, user, now)
    case RefreshCall(raw, now) => RefreshToken(s, raw, now).0
    case LogoutCall(raw, now) => Logout(s, raw, now)
    case ResetCall(user, now) => RevokeUser(s, user, now)
    case StatusCall(users, now) => s.(active := users, clock := now)
  }

  function After(s: Store, calls: seq<Call>): Store
    decreases |calls|
  {
    if |calls| == 0 then s else After(Step(s, calls[0]), calls[1..])
  }

  // ── What every run keeps ────────────────────────────────────────────────────

  /** The previous token of the same family, if there is one, is the parent. */
  ghost predicate Linked(ts: seq<Token>)
  {
    forall i {:trigger ts[i].parent} :: 0 <= i < |ts| ==>
      match ts[i].parent
      case None => forall k :: 0 <= k < i ==> ts[k].family != ts[i].family
      case Some(p) =>
        && p < i && ts[p].family == ts[i].family && ts[p].user == ts[i].user
        && (forall k :: p < k < i ==> ts[k].family != ts[i].family)
  }

  /** Only the last token of a family may be unrevoked; every earlier one was consumed. */
  ghost predicate Superseded(ts: seq<Token>)
  {
    forall i, j :: 0 <= i < j < |ts| && ts[i].family == ts[j].family ==>
      ts[i].consumedAt.Some? && ts[i].revokedAt.Some?
  }

  /** A token was consumed only in exchange for a child. */
  ghost predicate Exchanged(ts: seq<Token>)
  {
    forall i :: 0 <= i < |ts| && ts[i].consumedAt.Some? ==> HasChild(ts, i)
  }

  ghost predicate HasChild(ts: seq<Token>, i: nat)
  {
    exists c :: 0 <= c < |ts| && ts[c].parent == Some(i)
  }

  ghost predicate Inv(s: Store)
  {
    && Linked(s.tokens)
    && Superseded(s.tokens)
    && Exchanged(s.tokens)
    && (forall i :: 0 <= i < |s.tokens| ==> s.tokens[i].family < s.nextFamily)
  }

  /** Rows keep who they are; revocation is never undone. */
  ghost predicate Ages(ts: seq<Token>, us: seq<Token>)
  {
    && |ts| == |us|
    && (forall i {:trigger us[i]} :: 0 <= i < |ts| ==>
        && us[i].user == ts[i].user && us[i].family == ts[i].family && us[i].parent == ts[i].parent
        && us[i].expiresAt == ts[i].expiresAt && us[i].consumedAt == ts[i].consumedAt
        && (ts[i].revokedAt.Some? ==> us[i].revokedAt.Some?))
  }

  lemma AgesKeepsInv(s: Store, t: Store)
    requires Inv(s) && Ages(s.tokens, t.tokens) && s.nextFamily <= t.nextFamily
    ensures Inv(t)
  {
    forall i | 0 <= i < |t.tokens| && t.tokens[i].consumedAt.Some? ensures HasChild(t.tokens, i) {
      assert HasChild(s.tokens, i);
      var c :| 0 <= c < |s.tokens| && s.tokens[c].parent == Some(i);
      assert t.tokens[c].parent == Some(i);
    }
  }

  lemma MintKeepsLinked(ts: seq<Token>, t: Token)
    requires Linked(ts)
    requires match t.parent
      case None => forall k :: 0 <= k < |ts| ==> ts[k].family != t.family
      case Some(p) =>
        && p < |ts| && ts[p].family == t.family && ts[p].user == t.user
        && (forall k :: p < k < |ts| ==> ts[k].family != t.family)
    ensures Linked(ts + [t])
  {
  }

  /** An unrevoked token has no later one in its family. */
  lemma UnrevokedIsTip(ts: seq<Token>, id: nat)
    requires Superseded(ts) && id < |ts| && ts[id].revokedAt.None?
    ensures forall k :: id < k < |ts| ==> ts[k].family != ts[id].family
  {
  }

  lemma RotateKeepsLinked(ts: seq<Token>, id: nat, now: Time)
    requires Linked(ts) && Superseded(ts) && id < |ts| && ts[id].revokedAt.None?
    ensures Linked(Rotate(ts, id, now))
  {
    UnrevokedIsTip(ts, id);
    MintKeepsLinked(ts[id := ts[id].(revokedAt := Some(now), consumedAt := Some(now))], NewToken(ts[id].user, ts[id].family, Some(id), now));
  }

  lemma RotateKeepsSuperseded(ts: seq<Token>, id: nat, now: Time)
    requires Superseded(ts) && id < |ts| && ts[id].revokedAt.None?
    ensures Superseded(Rotate(ts, id, now))
  {
    UnrevokedIsTip(ts, id);
  }

  lemma RotateKeepsExchanged(ts: seq<Token>, id: nat, now: Time)
    requires Exchanged(ts) && id < |ts|
    ensures Exchanged(Rotate(ts, id, now))
  {
    var us := Rotate(ts, id, now);
    forall i | 0 <= i < |us| && us[i].consumedAt.Some? ensures HasChild(us, i) {
      if i == id {
        assert us[|ts|].parent == Some(id);
      } else {
        assert HasChild(ts, i);
        var c :| 0 <= c < |ts| && ts[c].parent == Some(i);
        assert us[c].parent == Some(i);
      }
    }
  }

  lemma LoginKeepsInv(s: Store, user: nat, now: Time)
    requires Inv(s)
    ensures Inv(Login(s, user, now))
  {
    var t := Login(s, user, now);
    MintKeepsLinked(s.tokens, t.tokens[|s.tokens|]);
    forall i | 0 <= i < |t.tokens| && t.tokens[i].consumedAt.Some? ensures HasChild(t.tokens, i) {
      assert HasChild(s.tokens, i);
      var c :| 0 <= c < |s.tokens| && s.tokens[c].parent == Some(i);
      assert t.tokens[c].parent == Some(i);
    }
  }

  lemma StepKeepsInv(s: Store, call: Call)
    requires Inv(s)
    ensures Inv(Step(s, call))
  {
    match call
    case LoginCall(user, now) => LoginKeepsInv(s, user, now);
    case RefreshCall(raw, now) =>
      if Usable(s, raw, now) && s.tokens[raw.value].revokedAt.None? {
        RotateKeepsLinked(s.tokens, raw.value, now);
        RotateKeepsSuperseded(s.tokens, raw.value, now);
        RotateKeepsExchanged(s.tokens, raw.value, now);
      } else {
        AgesKeepsInv(s, Step(s, call));
      }
    case LogoutCall(raw, now) => AgesKeepsInv(s, Step(s, call));
    case ResetCall(user, now) => AgesKeepsInv(s, Step(s, call));
    case StatusCall(users, now) =>
  }

  lemma {:induction false} RunKeepsInv(s: Store, calls: seq<Call>)
    requires Inv(s)
    ensures Inv(After(s, calls))
    decreases |calls|
  {
    if |calls| == 0 {
    } else {
      StepKeepsInv(s, calls[0]);
      RunKeepsInv(Step(s, calls[0]), calls[1..]);
    }
  }

  // ── Each family is one chain with at most one live end ──────────────────────

  ghost predicate Descends(ts: seq<Token>, from: nat, to: nat)
    decreases from
  {
    from == to ||
    (from < |ts| && ts[from].parent.Some? && ts[from].parent.value < from && Descends(ts, ts[from].parent.value, to))
  }

  lemma {:induction false} EarlierIsAncestor(ts: seq<Token>, i: nat, j: nat)
    requires Linked(ts) && i <= j < |ts| && ts[i].family == ts[j].family
    ensures Descends(ts, j, i) && ts[i].user == ts[j].user
    decreases j
  {
    if i == j {
    } else {
      var parent := ts[j].parent;
      EarlierIsAncestor(ts, i, parent.value);
    }
  }

  /** Two tokens of one family belong to one user, and the later descends from the earlier. */
  lemma FamilyIsAChain(calls: seq<Call>, i: nat, j: nat)
    requires var ts := After(EmptyStore, calls).tokens; i <= j < |ts| && ts[i].family == ts[j].family
    ensures var ts := After(EmptyStore, calls).tokens; Descends(ts, j, i) && ts[i].user == ts[j].user
  {
    RunKeepsInv(EmptyStore, calls);
    EarlierIsAncestor(After(EmptyStore, calls).tokens, i, j);
  }

  /** A parent shares its child's family and user. */
  lemma ParentIsKin(calls: seq<Call>, c: nat)
    requires var ts := After(EmptyStore, calls).tokens; c < |ts| && ts[c].parent.Some?
    ensures var ts := After(EmptyStore, calls).tokens; var p := ts[c].parent.value;
      p < c && ts[p].family == ts[c].family && ts[p].user == ts[c].user
  {
    RunKeepsInv(EmptyStore, calls);
  }

  /** No token has two children, and it was consumed exactly if it has one. */
  lemma ConsumedForOneChild(calls: seq<Call>, p: nat)
    requires p < |After(EmptyStore, calls).tokens|
    ensures var ts := After(EmptyStore, calls).tokens;
      && (ts[p].consumedAt.Some? <==> HasChild(ts, p))
      && (forall c, d :: 0 <= c < |ts| && 0 <= d < |ts| && ts[c].parent == Some(p) && ts[d].parent == Some(p) ==> c == d)
  {
    RunKeepsInv(EmptyStore, calls);
    var ts := After(EmptyStore, calls).tokens;
    forall c, d | 0 <= c < |ts| && 0 <= d < |ts| && ts[c].parent == Some(p) && ts[d].parent == Some(p) && c < d
      ensures false
    {
    }
  }

  /** At most one token of a family is unrevoked, and it is the end of the chain. */
  lemma OneLiveEnd(calls: seq<Call>, i: nat)
    requires i < |After(EmptyStore, calls).tokens| && After(EmptyStore, calls).tokens[i].revokedAt.None?
    ensures var ts := After(EmptyStore, calls).tokens;
      && (forall j :: 0 <= j < |ts| && ts[j].family == ts[i].family && ts[j].revokedAt.None? ==> j == i)
      && !HasChild(ts, i)
      && (forall j :: 0 <= j < |ts| && ts[j].family == ts[i].family ==> Descends(ts, i, j))
  {
    RunKeepsInv(EmptyStore, calls);
    var ts := After(EmptyStore, calls).tokens;
    UnrevokedIsTip(ts, i);
    forall j | 0 <= j < |ts| && ts[j].family == ts[i].family ensures Descends(ts, i, j) {
      EarlierIsAncestor(ts, j, i);
    }
  }

  // ── Reuse ───────────────────────────────────────────────────────────────────

  ghost predicate FamilyDead(s: Store, family: nat)
  {
    && family < s.nextFamily
    && (forall i :: 0 <= i < |s.tokens| && s.tokens[i].family == family ==> s.tokens[i].revokedAt.Some?)
  }

  predicate TakesReuseBranch(s: Store, raw: Option<nat>, now: Time)
  {
    Usable(s, raw, now) && s.tokens[raw.value].revokedAt.Some?
  }

  lemma {:induction false} DeadStaysDead(s: Store, calls: seq<Call>, family: nat)
    requires FamilyDead(s, family)
    ensures FamilyDead(After(s, calls), family)
    decreases |calls|
  {
    if |calls| == 0 {
    } else {
      DeadStaysDead(Step(s, calls[0]), calls[1..], family);
    }
  }

  /** Once a refresh detects reuse, its family has no live token in any later state, and
   *  every later refresh with a token of that family is refused. */
  lemma ReuseIsFinal(before: seq<Call>, raw: Option<nat>, now: Time, later: seq<Call>, again: nat, atLast: Time)
    requires TakesReuseBranch(After(EmptyStore, before), raw, now)
    requires var s := After(RefreshToken(After(EmptyStore, before), raw, now).0, later);
      again < |s.tokens| && s.tokens[again].family == After(EmptyStore, before).tokens[raw.value].family
    ensures var s := After(RefreshToken(After(EmptyStore, before), raw, now).0, later);
      && s.tokens[again].revokedAt.Some?
      && RefreshToken(s, Some(again), atLast).1.Unauthorized?
  {
    var s := After(EmptyStore, before);
    RunKeepsInv(EmptyStore, before);
    DeadStaysDead(RefreshToken(s, raw, now).0, later, s.tokens[raw.value].family);
  }

  /** Presenting a spent token kills its family only while that token itself has not run
   *  out and its user is active; otherwise a live descendant survives the replay. */
  lemma ReplayKillsFamilyIff(calls: seq<Call>, id: nat, now: Time)
    requires id < |After(EmptyStore, calls).tokens| && After(EmptyStore, calls).tokens[id].revokedAt.Some?
    ensures var s := After(EmptyStore, calls); var family := s.tokens[id].family;
      FamilyDead(RefreshToken(s, Some(id), now).0, family) <==>
        || (now < s.tokens[id].expiresAt && s.tokens[id].user in s.active)
        || FamilyDead(s, family)
  {
    RunKeepsInv(EmptyStore, calls);
  }

  /** Sign in, rotate on day six, replay the first token on day eight: its child stays live. */
  lemma ReplayAfterExpiry()
    ensures var calls := [StatusCall({1}, 0), LoginCall(1, 0), RefreshCall(Some(0), 6 * DAY), RefreshCall(Some(0), 8 * DAY)];
      var s := After(EmptyStore, calls);
      |s.tokens| == 2 && s.tokens[0].consumedAt.Some? && s.tokens[1].revokedAt.None? && Usable(s, Some(1), 8 * DAY)
  {
    var s1 := Step(EmptyStore, StatusCall({1}, 0));
    var s2 := Step(s1, LoginCall(1, 0));
    var s3 := Step(s2, RefreshCall(Some(0), 6 * DAY));
    var s4 := Step(s3, RefreshCall(Some(0), 8 * DAY));
    assert After(EmptyStore, [StatusCall({1}, 0), LoginCall(1, 0), RefreshCall(Some(0), 6 * DAY), RefreshCall(Some(0), 8 * DAY)])
        == After(s1, [LoginCall(1, 0), RefreshCall(Some(0), 6 * DAY), RefreshCall(Some(0), 8 * DAY)])
        == After(s2, [RefreshCall(Some(0), 6 * DAY), RefreshCall(Some(0), 8 * DAY)])
        == After(s3, [RefreshCall(Some(0), 8 * DAY)])
        == After(s4, []);
  }

  /** Whatever is revoked is refused, now and in every later state. */
  lemma {:induction false} RevokedIsFinal(s: Store, calls: seq<Call>, id: nat, now: Time)
    requires id < |s.tokens| && s.tokens[id].revokedAt.Some?
    ensures id < |After(s, calls).tokens| && RefreshToken(After(s, calls), Some(id), now).1.Unauthorized?
    decreases |calls|
  {
    if |calls| == 0 {
    } else {
      RevokedIsFinal(Step(s, calls[0]), calls[1..], id, now);
    }
  }

  /** So a token is exchanged at most once, and what it is exchanged for is the only live
   *  token of its family. */
  lemma SingleUse(calls: seq<Call>, id: nat, now: Time, later: seq<Call>, atLast: Time)
    requires var s := After(EmptyStore, calls); id < |s.tokens| && RefreshToken(s, Some(id), now).1.Rotated?
    ensures var s := After(EmptyStore, calls); var (t, result) := RefreshToken(s, Some(id), now);
      && s.tokens[id].revokedAt.None?
      && result.child == |s.tokens| == |t.tokens| - 1
      && t.tokens[result.child].parent == Some(id) && t.tokens[result.child].revokedAt.None?
      && (forall k :: 0 <= k < |s.tokens| && t.tokens[k].family == t.tokens[result.child].family ==> t.tokens[k].revokedAt.Some?)
      && RefreshToken(After(t, later), Some(id), atLast).1.Unauthorized?
  {
    var s := After(EmptyStore, calls);
    var t := RefreshToken(s, Some(id), now).0;
    RunKeepsInv(EmptyStore, calls);
    StepKeepsInv(s, RefreshCall(Some(id), now));
    assert Superseded(t.tokens);
    RevokedIsFinal(t, later, id, atLast);
  }

  // ── The service ─────────────────────────────────────────────────────────────

  class TokenService {
    var tokens: seq<Token>
    var active: set<nat>
    var nextFamily: nat
    ghost var clock: Time

    ghost function View(): Store
      reads this
    {
      Store(tokens, active, nextFamily, clock)
    }

    constructor ()
      ensures View() == EmptyStore
    {
      tokens, active, nextFamily, clock := [], {}, 0, 0;
    }

    /** Mint a token, in the given family or in a new one. */
    method IssueTokenPair(user: nat, family: Option<nat>, parent: Option<nat>, now: Time) returns (id: nat)
      modifies this`tokens, this`nextFamily
      ensures id == old(|tokens|)
      ensures tokens == old(tokens) + [NewToken(user, if family.Some? then family.value else old(nextFamily), parent, now)]
      ensures nextFamily == if family.Some? then old(nextFamily) else old(nextFamily) + 1
    {
      id := |tokens|;
      var familyId := nextFamily;
      if family.Some? {
        familyId := family.value;
      } else {
        nextFamily := nextFamily + 1;
      }
      tokens := tokens + [Token(user, familyId, parent, now + REFRESH_TTL, None, None, None)];
    }

    method SignIn(user: nat, now: Time) returns (id: nat)
      modifies this
      ensures View() == Login(old(View()), user, now) && id == old(|tokens|)
    {
      id := IssueTokenPair(user, None, None, now);
      clock := now;
    }

    method RefreshSession(raw: Option<nat>, now: Time) returns (result: RefreshResult)
      modifies this
      ensures (View(), result) == RefreshToken(old(View()), raw, now)
    {
      clock := now;
      if raw.None? || raw.value >= |tokens| || tokens[raw.value].user !in active {
        return Unauthorized;
      }
      var id := raw.value;
      var record := tokens[id];
      if record.expiresAt <= now {
        return Unauthorized;
      }
      if record.revokedAt.Some? {
        record := record.(reuseDetectedAt := Some(now));
        tokens := tokens[id := record];
        tokens := RevokeFamily(tokens, record.family, now);
        return Unauthorized;
      }
      record := record.(revokedAt := Some(now));
      record := record.(consumedAt := Some(now));
      tokens := tokens[id := record];
      var child := IssueTokenPair(record.user, Some(record.family), Some(id), now);
      return Rotated(child);
    }

    method SignOut(raw: Option<nat>, now: Time)
      modifies this
      ensures View() == Logout(old(View()), raw, now)
    {
      clock := now;
      if raw.Some? && raw.value < |tokens| && tokens[raw.value].revokedAt.None? {
        tokens := tokens[raw.value := tokens[raw.value].(revokedAt := Some(now))];
      }
    }

    /** Accounts are activated and suspended elsewhere. */
    method ChangeStatus(users: set<nat>, now: Time)
      modifies this
      ensures View() == Step(old(View()), StatusCall(users, now))
    {
      active := users;
      clock := now;
    }

    method ResetPassword(user: nat, now: Time)
      modifies this
      ensures View() == RevokeUser(old(View()), user, now)
    {
      clock := now;
      tokens := RevokeWhere(tokens, (t: Token) => t.user == user, now);
    }
  }
}
