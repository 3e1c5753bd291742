/** The second factor: issuing, resending and checking one-time codes for one account.
 *
 *  Rows are the account's challenges in creation order. Three histories are kept beside
 *  them, which no operation reads: wrong codes that were compared, messages that were
 *  sent, and the clock.
 */
module Mfa {
  import opened Basics

  const CODE_TTL: int := 10 * MINUTE
  const MAX_ATTEMPTS: nat := 5
  const MAX_DELIVERIES: nat := 4
  const RESEND_INTERVAL: int := 30 * SECOND
  const MAX_CHALLENGES_PER_WINDOW: nat := 10
  const CHALLENGE_WINDOW: int := HOUR

  datatype Channel = Email | Sms | App

  datatype Challenge = Challenge(
    channel: Channel,
    codeHash: string,
    createdAt: Time,
    expiresAt: Time,
    consumedAt: Option<Time>,
    attempts: nat,
    deliveries: nat,
    lastSentAt: Time)

  /** A wrong code compared against a challenge, or a message sent for one. */
  datatype Entry = Entry(challenge: nat, at: Time, codeHash: string)

  datatype Account = Account(
    challenges: seq<Challenge>,
    guesses: seq<Entry>,
    messages: seq<Entry>,
    clock: Time)

  const NewAccount := Account([], [], [], 0)

  /** SHA-256 and the authenticator's codes, both uninterpreted. */
  datatype Crypto = Crypto(hash: string -> string, appShows: (string, Time) -> bool)

  /** `start_challenge` reads the clock once for each of these, in this order. */
  datatype Readings = Readings(counted: Time, filtered: Time, stamped: Time, base: Time, sent: Time, created: Time)
  {
    predicate Ordered(clock: Time) {
      clock <= counted <= filtered <= stamped <= base <= sent <= created
    }
  }

  datatype StartResult = Started | TooManyRequests
  datatype ResendResult = Resent | AppNeedsNoMessage | Expired | ResendLimit | ResendTooSoon
  datatype VerifyResult = Accepted | Incorrect(attemptsLeft: nat) | AlreadyUsed | CodeExpired | TooManyAttempts

  // ── The operations ──────────────────────────────────────────────────────────

  function RecentCount(cs: seq<Challenge>, now: Time): nat
  {
    Count(cs, (c: Challenge) => now - CHALLENGE_WINDOW <= c.createdAt)
  }

  function ExpireIfOpen(c: Challenge, r: Readings): Challenge
  {
    if c.consumedAt.None? && r.filtered < c.expiresAt then c.(expiresAt := r.stamped) else c
  }

  function ExpireOpen(cs: seq<Challenge>, r: Readings): (es: seq<Challenge>)
    ensures |es| == |cs|
    ensures forall i {:trigger es[i]} :: 0 <= i < |cs| ==> es[i] == ExpireIfOpen(cs[i], r)
  {
    seq(|cs|, i requires 0 <= i < |cs| => ExpireIfOpen(cs[i], r))
  }

  function Start(s: Account, channel: Channel, codeHash: string, r: Readings): (Account, StartResult)
  {
    if RecentCount(s.challenges, r.counted) >= MAX_CHALLENGES_PER_WINDOW then
      (s.(clock := r.counted), TooManyRequests)
    else
      var issued := Challenge(channel, codeHash, r.created, r.base + CODE_TTL, None, 0, 1, r.sent);
      (s.(challenges := ExpireOpen(s.challenges, r) + [issued],
          messages := s.messages + if channel.App? then [] else [Entry(|s.challenges|, r.created, codeHash)],
          clock := r.created),
       Started)
  }

  function Resend(s: Account, id: nat, codeHash: string, now: Time): (Account, ResendResult)
    requires id < |s.challenges|
  {
    var c := s.challenges[id];
    var t := s.(clock := now);
    if c.consumedAt.Some? || c.expiresAt <= now then (t, Expired)
    else if c.channel.App? then (t, AppNeedsNoMessage)
    else if c.deliveries >= MAX_DELIVERIES then (t, ResendLimit)
    else if now - c.lastSentAt < RESEND_INTERVAL then (t, ResendTooSoon)
    else
      (t.(challenges := s.challenges[id := c.(codeHash := codeHash, deliveries := c.deliveries + 1, lastSentAt := now)],
          messages := s.messages + [Entry(id, now, codeHash)]),
       Resent)
  }

  /** The digits of what was typed; everything else is ignored. */
  function Digits(code: string): (d: string)
  {
    if |code| == 0 then ""
    else Digits(code[..|code| - 1]) + if '0' <= code[|code| - 1] <= '9' then [code[|code| - 1]] else ""
  }

  predicate Matches(crypto: Crypto, c: Challenge, code: string, now: Time)
  {
    if c.channel.App? then crypto.appShows(Digits(code), now)
    else crypto.hash(Digits(code)) == c.codeHash && Digits(code) != ""
  }

  function Verify(s: Account, crypto: Crypto, id: nat, code: string, now: Time): (Account, VerifyResult)
    requires id < |s.challenges|
  {
    var c := s.challenges[id];
    var t := s.(clock := now);
    if c.consumedAt.Some? then (t, AlreadyUsed)
    else if c.expiresAt <= now then (t, CodeExpired)
    else if c.attempts >= MAX_ATTEMPTS then (t, TooManyAttempts)
    else if Matches(crypto, c, code, now) then
      (t.(challenges := s.challenges[id := c.(consumedAt := Some(now))]), Accepted)
    else
      (t.(challenges := s.challenges[id := c.(attempts := c.attempts + 1)],
          guesses := s.guesses + [Entry(id, now, crypto.hash(Digits(code)))]),
       if c.attempts + 1 == MAX_ATTEMPTS then TooManyAttempts else Incorrect(MAX_ATTEMPTS - c.attempts - 1))
  }

  // ── Runs ────────────────────────────────────────────────────────────────────

  datatype Call =
    | StartCall(channel: Channel, codeHash: string, readings: Readings)
    | ResendCall(id: nat, newHash: string, now: Time)
    | VerifyCall(crypto: Crypto, id: nat, code: string, now: Time)

  /** Calls are serial: each reads a clock no earlier than the one before it. */
  predicate Legal(s: Account, call: Call)
  {
    match call
    case StartCall(_, _, r) => r.Ordered(s.clock)
    case ResendCall(id, _, now) => id < |s.challenges| && s.clock <= now
    case VerifyCall(_, id, _, now) => id < |s.challenges| && s.clock <= now
  }

  function Step(s: Account, call: Call): Account
    requires Legal(s, call)
  {
    match call
    case StartCall(channel, codeHash, r) => Start(s, channel, codeHash, r).0
    case ResendCall(id, codeHash, now) => Resend(s, id, codeHash, now).0
    case VerifyCall(crypto, id, code, now) => Verify(s, crypto, id, code, now).0
  }

  predicate LegalRun(s: Account, calls: seq<Call>)
    decreases |calls|
  {
    |calls| == 0 || (Legal(s, calls[0]) && LegalRun(Step(s, calls[0]), calls[1..]))
  }

  function After(s: Account, calls: seq<Call>): Account
    requires LegalRun(s, calls)
    decreases |calls|
  {
    if |calls| == 0 then s else After(Step(s, calls[0]), calls[1..])
  }

  // ── What every run keeps ────────────────────────────────────────────────────

  /** The instant a challenge stopped being answerable, as far as is known. */
  function End(c: Challenge): Time
  {
    if c.consumedAt.Some? && c.consumedAt.value < c.expiresAt then c.consumedAt.value else c.expiresAt
  }

  predicate OpenAt(c: Challenge, u: Time)
  {
    c.createdAt <= u < End(c)
  }

  ghost predicate Ordered(cs: seq<Challenge>, clock: Time)
  {
    && (forall i, j :: 0 <= i < j < |cs| ==> cs[i].createdAt <= cs[j].createdAt)
    && (forall i {:trigger cs[i]} :: 0 <= i < |cs| ==>
        cs[i].createdAt <= clock && (cs[i].consumedAt.Some? ==> cs[i].consumedAt.value <= clock))
  }

  /** Any eleven consecutive challenges span more than the window. */
  ghost predicate Spaced(cs: seq<Challenge>)
  {
    forall i, j :: 0 <= i && j < |cs| && j == i + MAX_CHALLENGES_PER_WINDOW ==>
      cs[i].createdAt < cs[j].createdAt - CHALLENGE_WINDOW
  }

  /** Each challenge had stopped by the time the next one was created. */
  ghost predicate Sequential(cs: seq<Challenge>)
  {
    forall i, j :: 0 <= i < j < |cs| ==> End(cs[i]) <= cs[j].createdAt
  }

  /** Entries for one challenge. */
  function EntriesFor(es: seq<Entry>, id: nat): nat
  {
    if |es| == 0 then 0
    else EntriesFor(es[..|es| - 1], id) + if es[|es| - 1].challenge == id then 1 else 0
  }

  /** An entry falls between its challenge's creation and the next one's. */
  ghost predicate Placed(cs: seq<Challenge>, e: Entry, clock: Time)
  {
    && e.challenge < |cs|
    && cs[e.challenge].createdAt <= e.at <= clock
    && (e.challenge + 1 < |cs| ==> e.at <= cs[e.challenge + 1].createdAt)
  }

  ghost predicate AllPlaced(cs: seq<Challenge>, es: seq<Entry>, clock: Time)
  {
    forall e :: e in es ==> Placed(cs, e, clock)
  }

  ghost predicate AttemptsCounted(cs: seq<Challenge>, guesses: seq<Entry>)
  {
    forall i {:trigger cs[i]} :: 0 <= i < |cs| ==> EntriesFor(guesses, i) == cs[i].attempts <= MAX_ATTEMPTS
  }

  ghost predicate DeliveriesCounted(cs: seq<Challenge>, messages: seq<Entry>)
  {
    forall i {:trigger cs[i]} :: 0 <= i < |cs| ==> EntriesFor(messages, i) <= cs[i].deliveries <= MAX_DELIVERIES
  }

  /** The newest message belongs to the newest challenge and carries its code. */
  ghost predicate LatestCode(cs: seq<Challenge>, messages: seq<Entry>)
  {
    var n := |cs|;
    n > 0 && !cs[n - 1].channel.App? ==>
      && |messages| > 0
      && messages[|messages| - 1].challenge == n - 1
      && messages[|messages| - 1].codeHash == cs[n - 1].codeHash
  }

  ghost predicate Inv(s: Account)
  {
    && Ordered(s.challenges, s.clock)
    && Spaced(s.challenges)
    && Sequential(s.challenges)
    && AllPlaced(s.challenges, s.guesses, s.clock)
    && AllPlaced(s.challenges, s.messages, s.clock)
    && AttemptsCounted(s.challenges, s.guesses)
    && DeliveriesCounted(s.challenges, s.messages)
    && LatestCode(s.challenges, s.messages)
  }

  // ── Each part is kept ───────────────────────────────────────────────────────

  lemma EntriesAppend(es: seq<Entry>, e: Entry, id: nat)
    ensures EntriesFor(es + [e], id) == EntriesFor(es, id) + if e.challenge == id then 1 else 0
  {
    assert (es + [e])[..|es|] == es;
  }

  lemma {:induction false} EntriesNone(es: seq<Entry>, id: nat)
    requires forall e :: e in es ==> e.challenge != id
    ensures EntriesFor(es, id) == 0
  {
    if |es| == 0 {
    } else {
      EntriesNone(es[..|es| - 1], id);
    }
  }

  lemma {:induction false} RecentSuffix(cs: seq<Challenge>, now: Time, k: nat)
    requires k <= |cs|
    requires forall i :: k <= i < |cs| ==> now - CHALLENGE_WINDOW <= cs[i].createdAt
    ensures RecentCount(cs, now) >= |cs| - k
  {
    if k == |cs| {
    } else {
      RecentSuffix(cs[..|cs| - 1], now, k);
    }
  }

  lemma IssueSpaced(cs: seq<Challenge>, clock: Time, c: Challenge, r: Readings)
    requires Ordered(cs, clock) && Spaced(cs) && r.Ordered(clock) && c.createdAt == r.created
    requires RecentCount(cs, r.counted) < MAX_CHALLENGES_PER_WINDOW
    ensures Spaced(ExpireOpen(cs, r) + [c])
  {
    var k := |cs| - MAX_CHALLENGES_PER_WINDOW;
    if k >= 0 && r.counted - CHALLENGE_WINDOW <= cs[k].createdAt {
      RecentSuffix(cs, r.counted, k);
      assert false;
    }
  }

  lemma IssueSequential(cs: seq<Challenge>, clock: Time, c: Challenge, r: Readings)
    requires Ordered(cs, clock) && Sequential(cs) && r.Ordered(clock) && c.createdAt == r.created
    ensures Sequential(ExpireOpen(cs, r) + [c])
  {
  }

  lemma IssuePlaced(cs: seq<Challenge>, es: seq<Entry>, clock: Time, c: Challenge, r: Readings)
    requires AllPlaced(cs, es, clock) && r.Ordered(clock) && c.createdAt == r.created
    ensures AllPlaced(ExpireOpen(cs, r) + [c], es, r.created)
  {
    forall e | e in es ensures Placed(ExpireOpen(cs, r) + [c], e, r.created) {
      assert Placed(cs, e, clock);
    }
  }

  lemma IssueCounted(s: Account, c: Challenge, r: Readings)
    requires AttemptsCounted(s.challenges, s.guesses) && DeliveriesCounted(s.challenges, s.messages)
    requires AllPlaced(s.challenges, s.guesses, s.clock) && AllPlaced(s.challenges, s.messages, s.clock)
    requires c.attempts == 0 && c.deliveries == 1
    ensures AttemptsCounted(ExpireOpen(s.challenges, r) + [c], s.guesses)
    ensures DeliveriesCounted(ExpireOpen(s.challenges, r) + [c], s.messages)
    ensures DeliveriesCounted(ExpireOpen(s.challenges, r) + [c], s.messages + [Entry(|s.challenges|, r.created, c.codeHash)])
  {
    var n := |s.challenges|;
    var cs := ExpireOpen(s.challenges, r) + [c];
    EntriesNone(s.guesses, n);
    EntriesNone(s.messages, n);
    forall i {:trigger cs[i]} | 0 <= i <= n
      ensures EntriesFor(s.guesses, i) == cs[i].attempts <= MAX_ATTEMPTS
      ensures EntriesFor(s.messages, i) <= cs[i].deliveries <= MAX_DELIVERIES
      ensures EntriesFor(s.messages + [Entry(n, r.created, c.codeHash)], i) <= cs[i].deliveries
    {
      EntriesAppend(s.messages, Entry(n, r.created, c.codeHash), i);
      assert i < n ==> cs[i] == ExpireIfOpen(s.challenges[i], r);
    }
  }

  lemma IssueOrdered(cs: seq<Challenge>, clock: Time, c: Challenge, r: Readings)
    requires Ordered(cs, clock) && r.Ordered(clock) && c.createdAt == r.created && c.consumedAt.None?
    ensures Ordered(ExpireOpen(cs, r) + [c], r.created)
  {
  }

  /** Time passing changes nothing. */
  lemma ClockMayAdvance(s: Account, now: Time)
    requires Inv(s) && s.clock <= now
    ensures Inv(s.(clock := now))
  {
    forall e | Placed(s.challenges, e, s.clock) ensures Placed(s.challenges, e, now) {
    }
  }

  lemma StartKeepsInv(s: Account, channel: Channel, codeHash: string, r: Readings)
    requires Inv(s) && r.Ordered(s.clock)
    ensures Inv(Start(s, channel, codeHash, r).0)
  {
    hide AllPlaced, AttemptsCounted, DeliveriesCounted, Ordered, Spaced, Sequential;
    if RecentCount(s.challenges, r.counted) < MAX_CHALLENGES_PER_WINDOW {
      var c := Challenge(channel, codeHash, r.created, r.base + CODE_TTL, None, 0, 1, r.sent);
      var sent := Entry(|s.challenges|, r.created, codeHash);
      IssueOrdered(s.challenges, s.clock, c, r);
      IssueSpaced(s.challenges, s.clock, c, r);
      IssueSequential(s.challenges, s.clock, c, r);
      IssuePlaced(s.challenges, s.guesses, s.clock, c, r);
      IssuePlaced(s.challenges, s.messages, s.clock, c, r);
      AddPlaced(ExpireOpen(s.challenges, r) + [c], s.messages, sent, r.created);
      IssueCounted(s, c, r);
      assert s.messages + [] == s.messages;
    } else {
      ClockMayAdvance(s, r.counted);
    }
  }

  lemma AddPlaced(cs: seq<Challenge>, es: seq<Entry>, e: Entry, clock: Time)
    requires AllPlaced(cs, es, clock) && e.challenge == |cs| - 1 && cs[|cs| - 1].createdAt <= e.at <= clock
    ensures AllPlaced(cs, es + [e], clock)
  {
  }

  /** A challenge that has neither been used nor expired is the last one issued. */
  lemma OpenIsNewest(cs: seq<Challenge>, clock: Time, id: nat, now: Time)
    requires Ordered(cs, clock) && Sequential(cs) && id < |cs| && clock <= now
    requires cs[id].consumedAt.None? && now < cs[id].expiresAt
    ensures id == |cs| - 1
    ensures cs[id].createdAt <= clock
  {
    var newest := cs[|cs| - 1];
  }

  /** Updating one challenge without touching its creation keeps the time line. */
  lemma UpdateKeepsTimes(s: Account, id: nat, c: Challenge, now: Time)
    requires Ordered(s.challenges, s.clock) && Spaced(s.challenges) && Sequential(s.challenges)
    requires AllPlaced(s.challenges, s.guesses, s.clock) && AllPlaced(s.challenges, s.messages, s.clock)
    requires id < |s.challenges| && s.clock <= now
    requires c.createdAt == s.challenges[id].createdAt && End(c) <= End(s.challenges[id])
    requires c.consumedAt.Some? ==> c.consumedAt.value <= now
    ensures Ordered(s.challenges[id := c], now)
    ensures Spaced(s.challenges[id := c]) && Sequential(s.challenges[id := c])
    ensures AllPlaced(s.challenges[id := c], s.guesses, now)
    ensures AllPlaced(s.challenges[id := c], s.messages, now)
  {
    forall e | Placed(s.challenges, e, s.clock) ensures Placed(s.challenges[id := c], e, now) {
    }
  }

  lemma UpdateCounted(s: Account, id: nat, c: Challenge, guesses: seq<Entry>, messages: seq<Entry>, e: Entry)
    requires AttemptsCounted(s.challenges, s.guesses) && DeliveriesCounted(s.challenges, s.messages)
    requires id < |s.challenges| && e.challenge == id
    requires
      || (guesses == s.guesses && c.attempts == s.challenges[id].attempts)
      || (guesses == s.guesses + [e] && c.attempts == s.challenges[id].attempts + 1 <= MAX_ATTEMPTS)
    requires
      || (messages == s.messages && c.deliveries == s.challenges[id].deliveries)
      || (messages == s.messages + [e] && c.deliveries == s.challenges[id].deliveries + 1 <= MAX_DELIVERIES)
    ensures AttemptsCounted(s.challenges[id := c], guesses)
    ensures DeliveriesCounted(s.challenges[id := c], messages)
  {
    var cs := s.challenges[id := c];
    forall i {:trigger cs[i]} | 0 <= i < |cs|
      ensures EntriesFor(guesses, i) == cs[i].attempts <= MAX_ATTEMPTS
      ensures EntriesFor(messages, i) <= cs[i].deliveries <= MAX_DELIVERIES
    {
      EntriesAppend(s.guesses, e, i);
      EntriesAppend(s.messages, e, i);
    }
  }

  lemma ResendKeepsInv(s: Account, id: nat, codeHash: string, now: Time)
    requires Inv(s) && id < |s.challenges| && s.clock <= now
    ensures Inv(Resend(s, id, codeHash, now).0)
  {
    hide AllPlaced, AttemptsCounted, DeliveriesCounted, Ordered, Spaced, Sequential;
    var (t, result) := Resend(s, id, codeHash, now);
    if result.Resent? {
      var sent := Entry(id, now, codeHash);
      OpenIsNewest(s.challenges, s.clock, id, now);
      UpdateKeepsTimes(s, id, t.challenges[id], now);
      AddPlaced(t.challenges, s.messages, sent, now);
      UpdateCounted(s, id, t.challenges[id], t.guesses, t.messages, sent);
    } else {
      ClockMayAdvance(s, now);
    }
  }

  lemma VerifyKeepsInv(s: Account, crypto: Crypto, id: nat, code: string, now: Time)
    requires Inv(s) && id < |s.challenges| && s.clock <= now
    ensures Inv(Verify(s, crypto, id, code, now).0)
  {
    hide AllPlaced, AttemptsCounted, DeliveriesCounted, Ordered, Spaced, Sequential;
    var t := Verify(s, crypto, id, code, now).0;
    if t.challenges != s.challenges {
      var guess := Entry(id, now, crypto.hash(Digits(code)));
      OpenIsNewest(s.challenges, s.clock, id, now);
      UpdateKeepsTimes(s, id, t.challenges[id], now);
      AddPlaced(t.challenges, s.guesses, guess, now);
      UpdateCounted(s, id, t.challenges[id], t.guesses, t.messages, guess);
    } else {
      ClockMayAdvance(s, now);
    }
  }

  lemma {:induction false} RunKeepsInv(s: Account, calls: seq<Call>)
    requires Inv(s) && LegalRun(s, calls)
    ensures Inv(After(s, calls))
    decreases |calls|
  {
    if |calls| == 0 {
    } else {
      match calls[0] {
        case StartCall(channel, codeHash, r) => StartKeepsInv(s, channel, codeHash, r);
        case ResendCall(id, codeHash, now) => ResendKeepsInv(s, id, codeHash, now);
        case VerifyCall(crypto, id, code, now) => VerifyKeepsInv(s, crypto, id, code, now);
      }
      RunKeepsInv(Step(s, calls[0]), calls[1..]);
    }
  }

  // ── Limits that hold in any window of any run ───────────────────────────────

  /** The position of the first challenge created at or after `a`. */
  lemma FirstFrom(cs: seq<Challenge>, clock: Time, a: Time) returns (lo: nat)
    requires Ordered(cs, clock)
    ensures lo <= |cs|
    ensures forall i :: 0 <= i < lo ==> cs[i].createdAt < a
    ensures forall i :: lo <= i < |cs| ==> a <= cs[i].createdAt
  {
    lo := 0;
    while lo < |cs| && cs[lo].createdAt < a
      invariant lo <= |cs|
      invariant forall i :: 0 <= i < lo ==> cs[i].createdAt < a
    {
      lo := lo + 1;
    }
  }

  /** Ten positions from the first one cover every creation in the window. */
  lemma WindowEnds(cs: seq<Challenge>, a: Time, lo: nat, i: nat)
    requires Spaced(cs) && lo <= i < |cs| && a <= cs[lo].createdAt && cs[i].createdAt <= a + CHALLENGE_WINDOW
    requires forall j, k :: 0 <= j < k < |cs| ==> cs[j].createdAt <= cs[k].createdAt
    ensures i < lo + MAX_CHALLENGES_PER_WINDOW
  {
    if lo + MAX_CHALLENGES_PER_WINDOW < |cs| {
      var eleventh := cs[lo + MAX_CHALLENGES_PER_WINDOW];
    }
  }

  lemma HourlyCreations(calls: seq<Call>, a: Time)
    requires LegalRun(NewAccount, calls)
    ensures Count(After(NewAccount, calls).challenges, (c: Challenge) => a <= c.createdAt <= a + CHALLENGE_WINDOW)
         <= MAX_CHALLENGES_PER_WINDOW
  {
    RunKeepsInv(NewAccount, calls);
    var s := After(NewAccount, calls);
    var cs := s.challenges;
    var created := (c: Challenge) => a <= c.createdAt <= a + CHALLENGE_WINDOW;
    var lo := FirstFrom(cs, s.clock, a);
    forall i {:trigger cs[i]} | 0 <= i < |cs| && created(cs[i])
      ensures lo <= i < lo + MAX_CHALLENGES_PER_WINDOW
    {
      WindowEnds(cs, a, lo, i);
    }
    CountWithin(cs, created, lo, lo + MAX_CHALLENGES_PER_WINDOW);
  }

  lemma AtMostOneOpen(calls: seq<Call>, i: nat, j: nat, u: Time)
    requires LegalRun(NewAccount, calls)
    requires i < |After(NewAccount, calls).challenges| && j < |After(NewAccount, calls).challenges|
    requires OpenAt(After(NewAccount, calls).challenges[i], u) && OpenAt(After(NewAccount, calls).challenges[j], u)
    ensures i == j
  {
    RunKeepsInv(NewAccount, calls);
  }

  ghost predicate AnswerableIn(c: Challenge, a: Time, b: Time)
  {
    exists u :: a <= u <= b && OpenAt(c, u)
  }

  /** Whatever touches the window belongs to a challenge created in it or to the one before. */
  lemma NearWindow(s: Account, a: Time, lo: nat, i: nat, u: Time)
    requires Inv(s) && lo <= |s.challenges| && i < |s.challenges|
    requires forall k :: 0 <= k < lo ==> s.challenges[k].createdAt < a
    requires forall k :: lo <= k < |s.challenges| ==> a <= s.challenges[k].createdAt
    requires a <= u <= a + CHALLENGE_WINDOW && s.challenges[i].createdAt <= u
    requires i + 1 < |s.challenges| ==> u <= s.challenges[i + 1].createdAt
    ensures lo - 1 <= i < lo + MAX_CHALLENGES_PER_WINDOW
  {
    if lo <= i {
      WindowEnds(s.challenges, a, lo, i);
    }
  }

  lemma HourlyAnswerable(calls: seq<Call>, a: Time)
    requires LegalRun(NewAccount, calls)
    ensures Count(After(NewAccount, calls).challenges, (c: Challenge) => AnswerableIn(c, a, a + CHALLENGE_WINDOW))
         <= MAX_CHALLENGES_PER_WINDOW + 1
  {
    RunKeepsInv(NewAccount, calls);
    var s := After(NewAccount, calls);
    var cs := s.challenges;
    var answerable := (c: Challenge) => AnswerableIn(c, a, a + CHALLENGE_WINDOW);
    var lo := FirstFrom(cs, s.clock, a);
    var from := if lo == 0 then 0 else lo - 1;
    forall i {:trigger cs[i]} | 0 <= i < |cs| && answerable(cs[i])
      ensures from <= i < lo + MAX_CHALLENGES_PER_WINDOW
    {
      var u :| a <= u <= a + CHALLENGE_WINDOW && OpenAt(cs[i], u);
      NearWindow(s, a, lo, i, u);
    }
    CountWithin(cs, answerable, from, lo + MAX_CHALLENGES_PER_WINDOW);
  }

  /** Entries made between two instants, for challenges lo..hi. */
  function EntriesIn(es: seq<Entry>, a: Time, b: Time, lo: int, hi: int): nat
  {
    if |es| == 0 then 0
    else
      var e := es[|es| - 1];
      EntriesIn(es[..|es| - 1], a, b, lo, hi) + if a <= e.at <= b && lo <= e.challenge < hi then 1 else 0
  }

  function EntriesBetween(es: seq<Entry>, a: Time, b: Time): nat
  {
    if |es| == 0 then 0
    else
      EntriesBetween(es[..|es| - 1], a, b) + if a <= es[|es| - 1].at <= b then 1 else 0
  }

  lemma {:induction false} EntriesInSplit(es: seq<Entry>, a: Time, b: Time, lo: int, hi: int)
    requires lo <= hi
    ensures EntriesIn(es, a, b, lo, hi + 1) <= EntriesIn(es, a, b, lo, hi) + if hi >= 0 then EntriesFor(es, hi) else 0
    ensures EntriesIn(es, a, b, lo, lo) == 0
  {
    if |es| == 0 {
    } else {
      EntriesInSplit(es[..|es| - 1], a, b, lo, hi);
    }
  }

  lemma {:induction false} EntriesInBound(es: seq<Entry>, a: Time, b: Time, lo: int, n: nat, cap: nat)
    requires forall i: nat :: EntriesFor(es, i) <= cap
    ensures EntriesIn(es, a, b, lo, lo + n) <= cap * n
  {
    if n == 0 {
      EntriesInSplit(es, a, b, lo, lo);
    } else {
      EntriesInBound(es, a, b, lo, n - 1, cap);
      EntriesInSplit(es, a, b, lo, lo + n - 1);
      assert cap * n == cap * (n - 1) + cap;
    }
  }

  lemma {:induction false} AllInRange(es: seq<Entry>, a: Time, b: Time, lo: int, hi: int)
    requires forall e :: e in es && a <= e.at <= b ==> lo <= e.challenge < hi
    ensures EntriesBetween(es, a, b) == EntriesIn(es, a, b, lo, hi)
  {
    if |es| == 0 {
    } else {
      AllInRange(es[..|es| - 1], a, b, lo, hi);
    }
  }

  lemma EntriesInWindow(s: Account, es: seq<Entry>, a: Time, cap: nat)
    requires Inv(s) && AllPlaced(s.challenges, es, s.clock)
    requires forall i: nat :: i < |s.challenges| ==> EntriesFor(es, i) <= cap
    ensures EntriesBetween(es, a, a + CHALLENGE_WINDOW) <= cap * (MAX_CHALLENGES_PER_WINDOW + 1)
  {
    var lo := FirstFrom(s.challenges, s.clock, a);
    forall e | e in es && a <= e.at <= a + CHALLENGE_WINDOW
      ensures lo - 1 <= e.challenge < lo + MAX_CHALLENGES_PER_WINDOW
    {
      assert Placed(s.challenges, e, s.clock);
      NearWindow(s, a, lo, e.challenge, e.at);
    }
    forall i: nat ensures EntriesFor(es, i) <= cap {
      if i >= |s.challenges| {
        forall e | e in es ensures e.challenge != i {
          assert Placed(s.challenges, e, s.clock);
        }
        EntriesNone(es, i);
      }
    }
    AllInRange(es, a, a + CHALLENGE_WINDOW, lo - 1, lo + MAX_CHALLENGES_PER_WINDOW);
    EntriesInBound(es, a, a + CHALLENGE_WINDOW, lo - 1, MAX_CHALLENGES_PER_WINDOW + 1, cap);
  }

  /** No account is ever guessed at more than fifty-five times within an hour. */
  lemma HourlyGuesses(calls: seq<Call>, a: Time)
    requires LegalRun(NewAccount, calls)
    ensures EntriesBetween(After(NewAccount, calls).guesses, a, a + CHALLENGE_WINDOW) <= 55
  {
    RunKeepsInv(NewAccount, calls);
    var s := After(NewAccount, calls);
    forall i: nat | i < |s.challenges| ensures EntriesFor(s.guesses, i) <= MAX_ATTEMPTS {
      var c := s.challenges[i];
    }
    EntriesInWindow(s, s.guesses, a, MAX_ATTEMPTS);
  }

  /** Nor sent more than forty-four messages. */
  lemma HourlyMessages(calls: seq<Call>, a: Time)
    requires LegalRun(NewAccount, calls)
    ensures EntriesBetween(After(NewAccount, calls).messages, a, a + CHALLENGE_WINDOW) <= 44
  {
    RunKeepsInv(NewAccount, calls);
    var s := After(NewAccount, calls);
    forall i: nat | i < |s.challenges| ensures EntriesFor(s.messages, i) <= MAX_DELIVERIES {
      var c := s.challenges[i];
    }
    EntriesInWindow(s, s.messages, a, MAX_DELIVERIES);
  }

  /** The newest challenge expires within its ten minutes; resending and guessing do not extend it. */
  predicate NewestIsShort(cs: seq<Challenge>)
  {
    |cs| > 0 ==> cs[|cs| - 1].expiresAt <= cs[|cs| - 1].createdAt + CODE_TTL
  }

  lemma {:induction false} RunKeepsNewestShort(s: Account, calls: seq<Call>)
    requires LegalRun(s, calls) && NewestIsShort(s.challenges)
    ensures NewestIsShort(After(s, calls).challenges)
    decreases |calls|
  {
    if |calls| == 0 {
    } else {
      RunKeepsNewestShort(Step(s, calls[0]), calls[1..]);
    }
  }

  /** The digits typed are what the authenticator shows, or the code in the newest message. */
  predicate IsTheCode(s: Account, crypto: Crypto, id: nat, code: string, now: Time)
    requires id < |s.challenges|
  {
    if s.challenges[id].channel.App? then crypto.appShows(Digits(code), now)
    else
      && |s.messages| > 0
      && s.messages[|s.messages| - 1].challenge == id
      && s.messages[|s.messages| - 1].codeHash == crypto.hash(Digits(code)) && Digits(code) != ""
  }

  lemma AcceptedInState(s: Account, crypto: Crypto, id: nat, code: string, now: Time)
    requires Inv(s) && NewestIsShort(s.challenges)
    requires id < |s.challenges| && s.clock <= now
    ensures Verify(s, crypto, id, code, now).1.Accepted? <==>
        && id == |s.challenges| - 1
        && IsTheCode(s, crypto, id, code, now)
        && s.challenges[id].consumedAt.None? && now < s.challenges[id].expiresAt
        && EntriesFor(s.guesses, id) < MAX_ATTEMPTS
    ensures Verify(s, crypto, id, code, now).1.Accepted? ==> now < s.challenges[id].createdAt + CODE_TTL
  {
    hide Ordered, Spaced, Sequential, AllPlaced, DeliveriesCounted, Digits, EntriesFor;
    if s.challenges[id].consumedAt.None? && now < s.challenges[id].expiresAt {
      OpenIsNewest(s.challenges, s.clock, id, now);
    }
  }

  /** A typed code signs somebody in exactly when its digits are the code in the newest message,
   *  or what their authenticator shows, and the challenge answered is the newest, unused,
   *  unexpired and guessed at fewer than five times. So neither "resend" nor "start again" leaves an older code working. */
  lemma SignsInExactlyWith(calls: seq<Call>, crypto: Crypto, id: nat, code: string, now: Time)
    requires LegalRun(NewAccount, calls)
    requires var s := After(NewAccount, calls); id < |s.challenges| && s.clock <= now
    ensures var s := After(NewAccount, calls);
      Verify(s, crypto, id, code, now).1.Accepted? <==>
        && id == |s.challenges| - 1
        && IsTheCode(s, crypto, id, code, now)
        && s.challenges[id].consumedAt.None? && now < s.challenges[id].expiresAt
        && EntriesFor(s.guesses, id) < MAX_ATTEMPTS
    ensures var s := After(NewAccount, calls);
      Verify(s, crypto, id, code, now).1.Accepted? ==> now < s.challenges[id].createdAt + CODE_TTL
  {
    hide Inv;
    EmptyInv();
    RunKeepsInv(NewAccount, calls);
    RunKeepsNewestShort(NewAccount, calls);
    var s := After(NewAccount, calls);
    hide Verify, After;
    AcceptedInState(s, crypto, id, code, now);
  }

  lemma EmptyInv()
    ensures Inv(NewAccount)
  {
  }

  /** Used, expired and exhausted are for good: a challenge refused for one of them
   *  compares no further code in any later state. */
  ghost predicate Dead(s: Account, id: nat)
  {
    id < |s.challenges| &&
    var c := s.challenges[id];
    c.consumedAt.Some? || c.expiresAt <= s.clock || c.attempts >= MAX_ATTEMPTS
  }

  lemma {:induction false} DeadStaysDead(s: Account, calls: seq<Call>, id: nat)
    requires LegalRun(s, calls) && Dead(s, id)
    ensures Dead(After(s, calls), id)
    ensures EntriesFor(After(s, calls).guesses, id) == EntriesFor(s.guesses, id)
    decreases |calls|
  {
    if |calls| == 0 {
    } else {
      var t := Step(s, calls[0]);
      assert Dead(t, id) && EntriesFor(t.guesses, id) == EntriesFor(s.guesses, id) by {
        if calls[0].VerifyCall? {
          EntriesAppend(s.guesses, Entry(calls[0].id, calls[0].now, calls[0].crypto.hash(Digits(calls[0].code))), id);
        }
      }
      DeadStaysDead(t, calls[1..], id);
    }
  }

  /** No call ever puts an expiry later, except that starting over stamps what is open after
   *  filtering it: an expiry moves up exactly when it fell between the two readings. */
  lemma ExpiryMoves(s: Account, call: Call, i: nat)
    requires Legal(s, call) && i < |s.challenges|
    ensures i < |Step(s, call).challenges|
    ensures Step(s, call).challenges[i].expiresAt > s.challenges[i].expiresAt <==>
        && call.StartCall? && RecentCount(s.challenges, call.readings.counted) < MAX_CHALLENGES_PER_WINDOW
        && s.challenges[i].consumedAt.None? && call.readings.filtered < s.challenges[i].expiresAt < call.readings.stamped
  {
    if call.StartCall? {
      var es := ExpireOpen(s.challenges, call.readings);
      assert es[i] == ExpireIfOpen(s.challenges[i], call.readings);
    }
  }

  const FirstStart := StartCall(App, "", Readings(0, 0, 0, 0, 0, 0))

  const LateStart := StartCall(App, "", Readings(0, CODE_TTL - 1, CODE_TTL + 1, CODE_TTL + 1, CODE_TTL + 1, CODE_TTL + 1))

  function AppChallenge(createdAt: Time, expiresAt: Time): Challenge
  {
    Challenge(App, "", createdAt, expiresAt, None, 0, 1, createdAt)
  }

  /** The first challenge's expiry falls between the two readings of the next start, and moves up. */
  lemma ExpiryMovesUpExample()
    ensures LegalRun(NewAccount, [FirstStart, LateStart])
    ensures After(NewAccount, [FirstStart]).challenges == [AppChallenge(0, CODE_TTL)]
    ensures After(NewAccount, [FirstStart, LateStart]).challenges ==
      [AppChallenge(0, CODE_TTL + 1), AppChallenge(CODE_TTL + 1, 2 * CODE_TTL + 1)]
  {
    var s1 := Account([AppChallenge(0, CODE_TTL)], [], [], 0);
    FirstStartStep();
    LateStartStep();
    assert [FirstStart, LateStart][1..] == [LateStart] && [FirstStart][1..] == [] && [LateStart][1..] == [];
    var s2 := Step(s1, LateStart);
    assert LegalRun(s2, []) && LegalRun(s1, []);
    assert LegalRun(s1, [LateStart]);
    assert After(NewAccount, [FirstStart, LateStart]) == After(s1, [LateStart]) == After(s2, []) == s2;
  }

  lemma FirstStartStep()
    ensures Legal(NewAccount, FirstStart)
    ensures Step(NewAccount, FirstStart) == Account([AppChallenge(0, CODE_TTL)], [], [], 0)
  {
    assert RecentCount(NewAccount.challenges, 0) == 0;
  }

  lemma LateStartStep()
    ensures var s := Account([AppChallenge(0, CODE_TTL)], [], [], 0);
      && Legal(s, LateStart)
      && Step(s, LateStart).challenges == [AppChallenge(0, CODE_TTL + 1), AppChallenge(CODE_TTL + 1, 2 * CODE_TTL + 1)]
  {
    var s := Account([AppChallenge(0, CODE_TTL)], [], [], 0);
    assert RecentCount(s.challenges, 0) <= 1;
  }

  // ── The service ─────────────────────────────────────────────────────────────

  class MfaService {
    var challenges: seq<Challenge>
    ghost var guesses: seq<Entry>
    ghost var messages: seq<Entry>
    ghost var clock: Time

    ghost function View(): Account
      reads this
    {
      Account(challenges, guesses, messages, clock)
    }

    constructor ()
      ensures View() == NewAccount
    {
      challenges, guesses, messages, clock := [], [], [], 0;
    }

    method StartChallenge(channel: Channel, codeHash: string, r: Readings) returns (result: StartResult)
      requires r.Ordered(clock)
      modifies this
      ensures (View(), result) == Start(old(View()), channel, codeHash, r)
    {
      if RecentCount(challenges, r.counted) >= MAX_CHALLENGES_PER_WINDOW {
        clock := r.counted;
        return TooManyRequests;
      }
      var id := |challenges|;
      challenges := ExpireOpen(challenges, r);
      challenges := challenges + [Challenge(channel, codeHash, r.created, r.base + CODE_TTL, None, 0, 1, r.sent)];
      messages := messages + if channel.App? then [] else [Entry(id, r.created, codeHash)];
      clock := r.created;
      return Started;
    }

    method ResendCode(id: nat, codeHash: string, now: Time) returns (result: ResendResult)
      requires id < |challenges|
      modifies this
      ensures (View(), result) == Resend(old(View()), id, codeHash, now)
    {
      var c := challenges[id];
      clock := now;
      if c.consumedAt.Some? || c.expiresAt <= now {
        return Expired;
      }
      if c.channel.App? {
        return AppNeedsNoMessage;
      }
      if c.deliveries >= MAX_DELIVERIES {
        return ResendLimit;
      }
      if now - c.lastSentAt < RESEND_INTERVAL {
        return ResendTooSoon;
      }
      c := c.(codeHash := codeHash);
      c := c.(deliveries := c.deliveries + 1);
      c := c.(lastSentAt := now);
      challenges := challenges[id := c];
      messages := messages + [Entry(id, now, codeHash)];
      return Resent;
    }

    method VerifyCode(crypto: Crypto, id: nat, code: string, now: Time) returns (result: VerifyResult)
      requires id < |challenges|
      modifies this
      ensures (View(), result) == Verify(old(View()), crypto, id, code, now)
    {
      var c := challenges[id];
      clock := now;
      if c.consumedAt.Some? {
        return AlreadyUsed;
      }
      if c.expiresAt <= now {
        return CodeExpired;
      }
      if c.attempts >= MAX_ATTEMPTS {
        return TooManyAttempts;
      }
      if Matches(crypto, c, code, now) {
        challenges := challenges[id := c.(consumedAt := Some(now))];
        return Accepted;
      }
      c := c.(attempts := c.attempts + 1);
      challenges := challenges[id := c];
      guesses := guesses + [Entry(id, now, crypto.hash(Digits(code)))];
      var remaining := if MAX_ATTEMPTS > c.attempts then MAX_ATTEMPTS - c.attempts else 0;
      if remaining == 0 {
        return TooManyAttempts;
      }
      return Incorrect(remaining);
    }
  }
}
