/** The second factor as its callers see it: only calls and the answers they got.
 *
 *  Everything here is read off the exchanges of a run. The account's rows and histories are
 *  shown to hold exactly what the exchanges say, and every answer to follow from those before it.
 */
module MfaAnswers {
  import opened Basics
  import opened Mfa

  datatype Reply = StartReply(start: StartResult) | ResendReply(resend: ResendResult) | VerifyReply(verify: VerifyResult)

  datatype Exchange = Exchange(call: Call, reply: Reply)

  function Replied(s: Account, call: Call): Reply
    requires Legal(s, call)
  {
    match call
    case StartCall(channel, codeHash, r) => StartReply(Start(s, channel, codeHash, r).1)
    case ResendCall(id, codeHash, now) => ResendReply(Resend(s, id, codeHash, now).1)
    case VerifyCall(crypto, id, code, now) => VerifyReply(Verify(s, crypto, id, code, now).1)
  }

  function Exchanges(s: Account, calls: seq<Call>): seq<Exchange>
    requires LegalRun(s, calls)
    decreases |calls|
  {
    if |calls| == 0 then []
    else [Exchange(calls[0], Replied(s, calls[0]))] + Exchanges(Step(s, calls[0]), calls[1..])
  }

  lemma {:induction false} RunAppend(s: Account, calls: seq<Call>, c: Call)
    requires LegalRun(s, calls + [c])
    ensures LegalRun(s, calls) && Legal(After(s, calls), c)
    ensures After(s, calls + [c]) == Step(After(s, calls), c)
    ensures Exchanges(s, calls + [c]) == Exchanges(s, calls) + [Exchange(c, Replied(After(s, calls), c))]
    decreases |calls|
  {
    hide Legal, Step, Replied;
    if |calls| == 0 {
      assert calls + [c] == [c] && [c][1..] == [];
      assert After(Step(s, c), []) == Step(s, c) && Exchanges(Step(s, c), []) == [];
    } else {
      assert (calls + [c])[0] == calls[0] && (calls + [c])[1..] == calls[1..] + [c];
      RunAppend(Step(s, calls[0]), calls[1..], c);
    }
  }

  // ── What the exchanges say ──────────────────────────────────────────────────

  /** A challenge that was issued: for what, when, until when, and when its message was stamped. */
  datatype Issue = Issue(channel: Channel, created: Time, expires: Time, sent: Time)

  function Issued(es: seq<Exchange>): seq<Issue>
  {
    if |es| == 0 then []
    else
      var before, x := Issued(es[..|es| - 1]), es[|es| - 1];
      if x.call.StartCall? && x.reply == StartReply(Started) then
        before + [Issue(x.call.channel, x.call.readings.created, x.call.readings.base + 10 * MINUTE, x.call.readings.sent)]
      else before
  }

  /** Messages: one for each challenge issued to a phone or mailbox, and one for each resending. */
  function Sent(es: seq<Exchange>): seq<Entry>
  {
    if |es| == 0 then []
    else
      var init, x := es[..|es| - 1], es[|es| - 1];
      if x.call.StartCall? && x.reply == StartReply(Started) && !x.call.channel.App? then
        Sent(init) + [Entry(|Issued(init)|, x.call.readings.created, x.call.codeHash)]
      else if x.call.ResendCall? && x.reply == ResendReply(Resent) then
        Sent(init) + [Entry(x.call.id, x.call.now, x.call.newHash)]
      else Sent(init)
  }

  predicate Answered(x: Exchange, id: nat)
  {
    x.call.VerifyCall? && x.call.id == id && x.reply.VerifyReply?
  }

  predicate SaidIncorrect(x: Exchange, id: nat)
  {
    Answered(x, id) && x.reply.verify.Incorrect?
  }

  predicate SaidTooMany(x: Exchange, id: nat)
  {
    Answered(x, id) && x.reply.verify.TooManyAttempts?
  }

  predicate SaidAccepted(x: Exchange, id: nat)
  {
    Answered(x, id) && x.reply.verify.Accepted?
  }

  function Incorrects(es: seq<Exchange>, id: nat): nat
  {
    if |es| == 0 then 0 else Incorrects(es[..|es| - 1], id) + if SaidIncorrect(es[|es| - 1], id) then 1 else 0
  }

  predicate Exhausted(es: seq<Exchange>, id: nat)
  {
    |es| > 0 && (Exhausted(es[..|es| - 1], id) || SaidTooMany(es[|es| - 1], id))
  }

  predicate Spent(es: seq<Exchange>, id: nat)
  {
    |es| > 0 && (Spent(es[..|es| - 1], id) || SaidAccepted(es[|es| - 1], id))
  }

  /** An answer that followed a comparison with a wrong code: "incorrect", or the first "too many". */
  predicate WrongAfter(es: seq<Exchange>, x: Exchange)
  {
    x.call.VerifyCall? && (SaidIncorrect(x, x.call.id) || (SaidTooMany(x, x.call.id) && !Exhausted(es, x.call.id)))
  }

  function WrongBetween(es: seq<Exchange>, a: Time, b: Time): nat
  {
    if |es| == 0 then 0
    else
      var init, x := es[..|es| - 1], es[|es| - 1];
      WrongBetween(init, a, b) + if WrongAfter(init, x) && a <= x.call.now <= b then 1 else 0
  }

  function IssuedSince(issues: seq<Issue>, from: Time): nat
  {
    if |issues| == 0 then 0
    else IssuedSince(issues[..|issues| - 1], from) + if from <= issues[|issues| - 1].created then 1 else 0
  }

  /** When the last message for the newest challenge was stamped. */
  function LastStamp(es: seq<Exchange>): Time
  {
    if |es| == 0 then 0
    else
      var x := es[|es| - 1];
      if x.call.StartCall? && x.reply == StartReply(Started) then x.call.readings.sent
      else if x.call.ResendCall? && x.reply == ResendReply(Resent) then x.call.now
      else LastStamp(es[..|es| - 1])
  }

  // ── The account holds what the exchanges say ────────────────────────────────

  ghost predicate IdAgrees(s: Account, es: seq<Exchange>, id: nat)
  {
    if id < |s.challenges| then
      var c := s.challenges[id];
      && (c.consumedAt.Some? <==> Spent(es, id))
      && c.attempts == Incorrects(es, id) + (if Exhausted(es, id) then 1 else 0)
      && Incorrects(es, id) <= 4 && (Exhausted(es, id) ==> Incorrects(es, id) == 4)
    else !Spent(es, id) && !Exhausted(es, id) && Incorrects(es, id) == 0
  }

  ghost predicate IssuesAgree(s: Account, es: seq<Exchange>)
  {
    && |s.challenges| == |Issued(es)|
    && (forall i {:trigger s.challenges[i]} :: 0 <= i < |s.challenges| ==>
        s.challenges[i].channel == Issued(es)[i].channel && s.challenges[i].createdAt == Issued(es)[i].created)
    && (|s.challenges| > 0 ==>
        var n := |s.challenges| - 1; var c := s.challenges[n];
        && c.expiresAt == Issued(es)[n].expires && c.lastSentAt == LastStamp(es)
        && (!c.channel.App? ==> c.deliveries == EntriesFor(Sent(es), n)))
  }

  ghost predicate LogsAgree(s: Account, es: seq<Exchange>)
  {
    s.messages == Sent(es) && forall a, b :: EntriesBetween(s.guesses, a, b) == WrongBetween(es, a, b)
  }

  ghost predicate Agrees(s: Account, es: seq<Exchange>)
  {
    IssuesAgree(s, es) && LogsAgree(s, es) && forall id: nat :: IdAgrees(s, es, id)
  }

  lemma Unfold(es: seq<Exchange>, x: Exchange)
    ensures (es + [x])[..|es|] == es
  {
  }

  lemma IdStep(s: Account, es: seq<Exchange>, call: Call, id: nat)
    requires Inv(s) && Legal(s, call) && IdAgrees(s, es, id)
    ensures IdAgrees(Step(s, call), es + [Exchange(call, Replied(s, call))], id)
  {
    hide Inv, Digits, Matches, RecentCount;
    var x := Exchange(call, Replied(s, call));
    Unfold(es, x);
    if call.StartCall? && Replied(s, call) == StartReply(Started) && id < |s.challenges| {
      assert Step(s, call).challenges[id] == ExpireIfOpen(s.challenges[id], call.readings);
    }
  }

  lemma IssueUnfolds(es: seq<Exchange>, x: Exchange)
    requires x.call.StartCall?
    ensures Issued(es + [x]) == Issued(es) +
      if x.reply == StartReply(Started) then
        [Issue(x.call.channel, x.call.readings.created, x.call.readings.base + 10 * MINUTE, x.call.readings.sent)]
      else []
    ensures LastStamp(es + [x]) == if x.reply == StartReply(Started) then x.call.readings.sent else LastStamp(es)
  {
    hide Sent;
    Unfold(es, x);
    assert Issued(es) + [] == Issued(es);
  }

  lemma StartSends(es: seq<Exchange>, x: Exchange)
    requires x.call.StartCall?
    ensures Sent(es + [x]) == Sent(es) +
      if x.reply == StartReply(Started) && !x.call.channel.App? then [Entry(|Issued(es)|, x.call.readings.created, x.call.codeHash)] else []
  {
    hide Issued;
    Unfold(es, x);
    assert Sent(es) + [] == Sent(es);
  }

  lemma IssuesStart(s: Account, es: seq<Exchange>, channel: Channel, codeHash: string, r: Readings)
    requires IssuesAgree(s, es) && s.messages == Sent(es) && EntriesFor(s.messages, |s.challenges|) == 0
    ensures var call := StartCall(channel, codeHash, r);
      r.Ordered(s.clock) ==> IssuesAgree(Step(s, call), es + [Exchange(call, Replied(s, call))])
  {
    hide RecentCount, Inv, EntriesFor, Issued, Sent, LastStamp;
    var call := StartCall(channel, codeHash, r);
    if r.Ordered(s.clock) {
      IssueUnfolds(es, Exchange(call, Replied(s, call)));
      StartSends(es, Exchange(call, Replied(s, call)));
      EntriesAppend(s.messages, Entry(|s.challenges|, r.created, codeHash), |s.challenges|);
      assert Issued(es) + [] == Issued(es) && Sent(es) + [] == Sent(es);
    }
  }

  lemma IssuesResend(s: Account, es: seq<Exchange>, id: nat, codeHash: string, now: Time)
    requires IssuesAgree(s, es) && s.messages == Sent(es) && id < |s.challenges| && s.clock <= now
    requires Resend(s, id, codeHash, now).1.Resent? ==> id == |s.challenges| - 1
    ensures var call := ResendCall(id, codeHash, now); IssuesAgree(Step(s, call), es + [Exchange(call, Replied(s, call))])
  {
    hide EntriesFor;
    var call := ResendCall(id, codeHash, now);
    Unfold(es, Exchange(call, Replied(s, call)));
    EntriesAppend(s.messages, Entry(id, now, codeHash), id);
  }

  lemma IssuesVerify(s: Account, es: seq<Exchange>, call: Call)
    requires IssuesAgree(s, es) && call.VerifyCall? && Legal(s, call)
    ensures IssuesAgree(Step(s, call), es + [Exchange(call, Replied(s, call))])
  {
    hide EntriesFor, Matches;
    Unfold(es, Exchange(call, Replied(s, call)));
  }

  lemma IssuesStep(s: Account, es: seq<Exchange>, call: Call)
    requires Inv(s) && Legal(s, call) && IssuesAgree(s, es) && s.messages == Sent(es)
    ensures IssuesAgree(Step(s, call), es + [Exchange(call, Replied(s, call))])
  {
    match call
    case StartCall(channel, codeHash, r) =>
      hide IssuesAgree, Inv;
      NoneForNew(s);
      IssuesStart(s, es, channel, codeHash, r);
    case ResendCall(id, codeHash, now) =>
      hide IssuesAgree, Inv;
      if Resend(s, id, codeHash, now).1.Resent? {
        ResentIsNewest(s, id, codeHash, now);
      }
      IssuesResend(s, es, id, codeHash, now);
    case VerifyCall(_, _, _, _) =>
      hide IssuesAgree, Inv;
      IssuesVerify(s, es, call);
  }

  lemma ResentIsNewest(s: Account, id: nat, codeHash: string, now: Time)
    requires Inv(s) && id < |s.challenges| && s.clock <= now && Resend(s, id, codeHash, now).1.Resent?
    ensures id == |s.challenges| - 1
  {
    OpenIsNewest(s.challenges, s.clock, id, now);
  }

  lemma NoneForNew(s: Account)
    requires Inv(s)
    ensures EntriesFor(s.messages, |s.challenges|) == 0
  {
    EntriesNone(s.messages, |s.challenges|);
  }

  /** What an exchange adds to the two logs. */
  lemma LogsUnfold(es: seq<Exchange>, x: Exchange, a: Time, b: Time)
    ensures WrongBetween(es + [x], a, b) == WrongBetween(es, a, b) + if WrongAfter(es, x) && a <= x.call.now <= b then 1 else 0
    ensures x.call.ResendCall? ==>
      Sent(es + [x]) == Sent(es) + if x.reply == ResendReply(Resent) then [Entry(x.call.id, x.call.now, x.call.newHash)] else []
    ensures x.call.VerifyCall? ==> Sent(es + [x]) == Sent(es)
  {
    Unfold(es, x);
  }

  lemma GuessAppend(gs: seq<Entry>, e: Entry, a: Time, b: Time)
    ensures EntriesBetween(gs + [e], a, b) == EntriesBetween(gs, a, b) + if a <= e.at <= b then 1 else 0
  {
    assert (gs + [e])[..|gs|] == gs;
  }

  /** A comparison is logged exactly when the answer says the code was wrong. */
  lemma WrongIsLogged(s: Account, es: seq<Exchange>, call: Call)
    requires call.VerifyCall? && Legal(s, call) && IdAgrees(s, es, call.id)
    ensures Step(s, call).messages == s.messages
    ensures Step(s, call).guesses == s.guesses +
      if WrongAfter(es, Exchange(call, Replied(s, call))) then [Entry(call.id, call.now, call.crypto.hash(Digits(call.code)))] else []
  {
    hide Inv, Matches, Digits, Incorrects, Exhausted, Spent;
  }

  lemma LogsStep(s: Account, es: seq<Exchange>, call: Call)
    requires Legal(s, call) && LogsAgree(s, es) && |s.challenges| == |Issued(es)|
    requires call.VerifyCall? ==> IdAgrees(s, es, call.id)
    ensures LogsAgree(Step(s, call), es + [Exchange(call, Replied(s, call))])
  {
    hide RecentCount, Matches, Digits, EntriesBetween, WrongBetween, Sent, Issued, IdAgrees, WrongAfter;
    var x := Exchange(call, Replied(s, call));
    var t := Step(s, call);
    LogsUnfold(es, x, 0, 0);
    if call.StartCall? {
      StartSends(es, x);
    }
    if call.VerifyCall? {
      WrongIsLogged(s, es, call);
    } else {
      OnlyVerifyIsWrong(es, x);
    }
    forall a, b ensures EntriesBetween(t.guesses, a, b) == WrongBetween(es + [x], a, b) {
      LogsUnfold(es, x, a, b);
      if call.VerifyCall? {
        GuessAppend(s.guesses, Entry(call.id, call.now, call.crypto.hash(Digits(call.code))), a, b);
      }
    }
  }

  lemma OnlyVerifyIsWrong(es: seq<Exchange>, x: Exchange)
    requires !x.call.VerifyCall?
    ensures !WrongAfter(es, x)
  {
  }

  lemma {:induction false} RunAgrees(calls: seq<Call>)
    requires LegalRun(NewAccount, calls)
    ensures Inv(After(NewAccount, calls)) && Agrees(After(NewAccount, calls), Exchanges(NewAccount, calls))
    decreases |calls|
  {
    if |calls| == 0 {
    } else {
      var n := |calls| - 1;
      assert calls[..n] + [calls[n]] == calls;
      RunAppend(NewAccount, calls[..n], calls[n]);
      hide Inv, IdAgrees, IssuesAgree, LogsAgree, Step, Legal, After, Exchanges, Issued, Replied;
      RunAgrees(calls[..n]);
      EmptyInv();
      RunKeepsInv(NewAccount, calls);
      var s, es := After(NewAccount, calls[..n]), Exchanges(NewAccount, calls[..n]);
      SameIssues(s, es);
      IssuesStep(s, es, calls[n]);
      LogsStep(s, es, calls[n]);
      forall id: nat ensures IdAgrees(Step(s, calls[n]), es + [Exchange(calls[n], Replied(s, calls[n]))], id) {
        IdStep(s, es, calls[n], id);
      }
    }
  }

  lemma SameIssues(s: Account, es: seq<Exchange>)
    requires Agrees(s, es)
    ensures |s.challenges| == |Issued(es)| && s.messages == Sent(es)
  {
  }

  // ── Every answer follows from those before it ───────────────────────────────

  /** "Incorrect" counts down from four, so a challenge says it at most four times; "too many" comes
   *  after exactly four of them. */
  lemma AnswersCountDown(calls: seq<Call>, c: Call, id: nat)
    requires LegalRun(NewAccount, calls + [c]) && c.VerifyCall? && c.id == id
    ensures LegalRun(NewAccount, calls) && Legal(After(NewAccount, calls), c)
    ensures var es := Exchanges(NewAccount, calls); var reply := Replied(After(NewAccount, calls), c);
      && (SaidIncorrect(Exchange(c, reply), id) ==> Incorrects(es, id) < 4 && reply.verify.attemptsLeft == 4 - Incorrects(es, id))
      && (SaidTooMany(Exchange(c, reply), id) ==> Incorrects(es, id) == 4)
  {
    RunAppend(NewAccount, calls, c);
    RunAgrees(calls);
    hide Inv, IssuesAgree, LogsAgree, IdAgrees, Replied, Legal, After, LegalRun, Exchanges, Incorrects, SaidIncorrect, SaidTooMany;
    var s, es := After(NewAccount, calls), Exchanges(NewAccount, calls);
    assert IdAgrees(s, es, id);
    AnswerInState(s, es, c, id);
  }

  lemma AnswerInState(s: Account, es: seq<Exchange>, c: Call, id: nat)
    requires c.VerifyCall? && c.id == id && Legal(s, c) && IdAgrees(s, es, id)
    ensures var x := Exchange(c, Replied(s, c));
      && (SaidIncorrect(x, id) ==> Incorrects(es, id) < 4 && x.reply.verify.attemptsLeft == 4 - Incorrects(es, id))
      && (SaidTooMany(x, id) ==> Incorrects(es, id) == 4)
      && (Exhausted(es, id) || Spent(es, id) ==> !SaidIncorrect(x, id) && !SaidAccepted(x, id))
  {
    hide Matches, Incorrects, Exhausted, Spent;
  }

  /** Once a challenge has said "too many" or accepted a code it compares nothing any more: no later
   *  answer on it is "incorrect" or accepts. */
  lemma OverIsOver(calls: seq<Call>, c: Call, id: nat)
    requires LegalRun(NewAccount, calls + [c]) && c.VerifyCall? && c.id == id
    requires LegalRun(NewAccount, calls) ==> var es := Exchanges(NewAccount, calls); Exhausted(es, id) || Spent(es, id)
    ensures LegalRun(NewAccount, calls) && Legal(After(NewAccount, calls), c)
    ensures var x := Exchange(c, Replied(After(NewAccount, calls), c)); !SaidIncorrect(x, id) && !SaidAccepted(x, id)
  {
    RunAppend(NewAccount, calls, c);
    RunAgrees(calls);
    hide Inv, IssuesAgree, LogsAgree, IdAgrees, Replied, Legal, After, LegalRun, Exchanges, Exhausted, Spent, SaidIncorrect, SaidAccepted;
    var s, es := After(NewAccount, calls), Exchanges(NewAccount, calls);
    assert IdAgrees(s, es, id);
    AnswerInState(s, es, c, id);
  }

  /** In any closed hour at most fifty-five answers follow a comparison with a wrong code. */
  lemma HourlyWrongAnswers(calls: seq<Call>, a: Time)
    requires LegalRun(NewAccount, calls)
    ensures WrongBetween(Exchanges(NewAccount, calls), a, a + 60 * MINUTE) <= 55
  {
    RunAgrees(calls);
    HourlyGuesses(calls, a);
    hide Inv, IssuesAgree, IdAgrees, After, Exchanges, EntriesBetween, WrongBetween;
  }

  /** And at most forty-four messages go out. */
  lemma HourlySentMessages(calls: seq<Call>, a: Time)
    requires LegalRun(NewAccount, calls)
    ensures EntriesBetween(Sent(Exchanges(NewAccount, calls)), a, a + 60 * MINUTE) <= 44
  {
    RunAgrees(calls);
    HourlyMessages(calls, a);
    hide Inv, IssuesAgree, IdAgrees, After, Exchanges, EntriesBetween;
  }

  /** A start is answered exactly when fewer than ten challenges were issued in the hour before. */
  lemma StartedIff(calls: seq<Call>, channel: Channel, codeHash: string, r: Readings)
    requires LegalRun(NewAccount, calls) && r.Ordered(After(NewAccount, calls).clock)
    ensures Start(After(NewAccount, calls), channel, codeHash, r).1.Started? <==>
      IssuedSince(Issued(Exchanges(NewAccount, calls)), r.counted - 60 * MINUTE) < 10
  {
    RunAgrees(calls);
    var s, es := After(NewAccount, calls), Exchanges(NewAccount, calls);
    SameCreations(s, es);
    hide Inv, IdAgrees, LogsAgree, After, Exchanges, Issued, RecentCount, IssuedSince;
    CountsAgree(s.challenges, Issued(es), r.counted);
  }

  lemma SameCreations(s: Account, es: seq<Exchange>)
    requires IssuesAgree(s, es)
    ensures |s.challenges| == |Issued(es)|
    ensures forall i :: 0 <= i < |s.challenges| ==> s.challenges[i].createdAt == Issued(es)[i].created
  {
  }

  lemma {:induction false} CountsAgree(cs: seq<Challenge>, issues: seq<Issue>, now: Time)
    requires |cs| == |issues| && forall i :: 0 <= i < |cs| ==> cs[i].createdAt == issues[i].created
    ensures RecentCount(cs, now) == IssuedSince(issues, now - 60 * MINUTE)
  {
    if |cs| == 0 {
    } else {
      CountsAgree(cs[..|cs| - 1], issues[..|issues| - 1], now);
    }
  }

  /** The newest challenge, neither used nor past the ten minutes it was issued for. */
  predicate StillOpen(es: seq<Exchange>, id: nat, now: Time)
  {
    id == |Issued(es)| - 1 && !Spent(es, id) && now < Issued(es)[id].expires
  }

  lemma OpenIff(calls: seq<Call>, id: nat, now: Time)
    requires LegalRun(NewAccount, calls) && After(NewAccount, calls).clock <= now && id < |After(NewAccount, calls).challenges|
    ensures var s := After(NewAccount, calls);
      s.challenges[id].consumedAt.None? && now < s.challenges[id].expiresAt <==> StillOpen(Exchanges(NewAccount, calls), id, now)
  {
    RunAgrees(calls);
    var s, es := After(NewAccount, calls), Exchanges(NewAccount, calls);
    hide Inv, IssuesAgree, LogsAgree, IdAgrees, After, LegalRun, Exchanges, StillOpen;
    assert IdAgrees(s, es, id);
    OpenInState(s, es, id, now);
  }

  lemma OpenInState(s: Account, es: seq<Exchange>, id: nat, now: Time)
    requires Inv(s) && IssuesAgree(s, es) && IdAgrees(s, es, id) && s.clock <= now && id < |s.challenges|
    ensures s.challenges[id].consumedAt.None? && now < s.challenges[id].expiresAt <==> StillOpen(es, id, now)
  {
    if s.challenges[id].consumedAt.None? && now < s.challenges[id].expiresAt {
      OpenIsNewest(s.challenges, s.clock, id, now);
    }
    hide Inv, Issued, Spent, Incorrects, Exhausted, Sent, EntriesFor, LastStamp;
  }

  /** The code that opens a challenge: what the authenticator shows, or the one in the last message. */
  predicate RightCode(es: seq<Exchange>, crypto: Crypto, id: nat, code: string, now: Time)
    requires id < |Issued(es)|
  {
    if Issued(es)[id].channel.App? then crypto.appShows(Digits(code), now)
    else Digits(code) != "" && |Sent(es)| > 0 && crypto.hash(Digits(code)) == Sent(es)[|Sent(es)| - 1].codeHash
  }

  /** Every answer to a code, from the exchanges before it: accepted exactly when the challenge is
   *  the newest and still open, has not said "too many", and the code is the right one; wrong codes
   *  are told how many tries are left, and the fifth, like all after it, that they were too many. */
  lemma VerifiedIff(calls: seq<Call>, crypto: Crypto, id: nat, code: string, now: Time)
    requires LegalRun(NewAccount, calls) && After(NewAccount, calls).clock <= now && id < |After(NewAccount, calls).challenges|
    ensures var es := Exchanges(NewAccount, calls); var answer := Verify(After(NewAccount, calls), crypto, id, code, now).1;
      && id < |Issued(es)|
      && (answer == Accepted <==> StillOpen(es, id, now) && !Exhausted(es, id) && RightCode(es, crypto, id, code, now))
      && (answer == AlreadyUsed <==> Spent(es, id))
      && (answer == CodeExpired <==> !Spent(es, id) && !StillOpen(es, id, now))
      && (answer == TooManyAttempts <==>
            StillOpen(es, id, now) && (Exhausted(es, id) || (!RightCode(es, crypto, id, code, now) && Incorrects(es, id) == 4)))
      && (answer.Incorrect? <==>
            StillOpen(es, id, now) && !Exhausted(es, id) && !RightCode(es, crypto, id, code, now) && Incorrects(es, id) < 4)
  {
    RunAgrees(calls);
    OpenIff(calls, id, now);
    var s, es := After(NewAccount, calls), Exchanges(NewAccount, calls);
    hide After, LegalRun, Exchanges, Issued, Spent, Incorrects, Exhausted, Sent, StillOpen, Digits;
    if id == |s.challenges| - 1 {
      NewestCode(s, es, id);
    }
    StillOpenIsNewest(es, id, now);
    hide Inv, LogsAgree;
    assert IdAgrees(s, es, id);
    assert |s.challenges| == |Issued(es)| && s.challenges[id].channel == Issued(es)[id].channel;
  }

  lemma StillOpenIsNewest(es: seq<Exchange>, id: nat, now: Time)
    ensures StillOpen(es, id, now) ==> id == |Issued(es)| - 1 && !Spent(es, id)
  {
  }

  lemma NewestCode(s: Account, es: seq<Exchange>, id: nat)
    requires Inv(s) && LogsAgree(s, es) && id == |s.challenges| - 1
    ensures !s.challenges[id].channel.App? ==> |Sent(es)| > 0 && s.challenges[id].codeHash == Sent(es)[|Sent(es)| - 1].codeHash
  {
    hide Ordered, Spaced, Sequential, AllPlaced, AttemptsCounted, DeliveriesCounted;
  }

  /** Every answer to asking again, and so a new message goes out exactly when the challenge is the
   *  newest and open, is answered by message, has had fewer than four, and the last is half a minute
   *  old. */
  lemma ResentIff(calls: seq<Call>, id: nat, codeHash: string, now: Time)
    requires LegalRun(NewAccount, calls) && After(NewAccount, calls).clock <= now && id < |After(NewAccount, calls).challenges|
    ensures var es := Exchanges(NewAccount, calls); var answer := Resend(After(NewAccount, calls), id, codeHash, now).1;
      && id < |Issued(es)|
      && (answer == Expired <==> !StillOpen(es, id, now))
      && (answer == AppNeedsNoMessage <==> StillOpen(es, id, now) && Issued(es)[id].channel.App?)
      && (answer == ResendLimit <==> StillOpen(es, id, now) && !Issued(es)[id].channel.App? && EntriesFor(Sent(es), id) >= 4)
      && (answer == ResendTooSoon <==>
            && StillOpen(es, id, now) && !Issued(es)[id].channel.App?
            && EntriesFor(Sent(es), id) < 4 && now - LastStamp(es) < 30 * SECOND)
  {
    RunAgrees(calls);
    OpenIff(calls, id, now);
    var s, es := After(NewAccount, calls), Exchanges(NewAccount, calls);
    hide After, LegalRun, Exchanges, Issued, Sent, StillOpen, LastStamp, EntriesFor, Inv, LogsAgree, IdAgrees;
    StillOpenIsNewest(es, id, now);
    assert |s.challenges| == |Issued(es)| && s.challenges[id].channel == Issued(es)[id].channel;
  }

  // ── What was typed ──────────────────────────────────────────────────────────

  predicate AllDigits(code: string)
  {
    forall i :: 0 <= i < |code| ==> '0' <= code[i] <= '9'
  }

  predicate NoDigits(code: string)
  {
    forall i :: 0 <= i < |code| ==> !('0' <= code[i] <= '9')
  }

  /** Digits are kept, everything else is dropped, and both piece by piece. */
  lemma {:induction false} DigitsExact(code: string)
    ensures AllDigits(Digits(code))
    ensures AllDigits(code) ==> Digits(code) == code
    ensures NoDigits(code) ==> Digits(code) == ""
  {
    if |code| == 0 {
    } else {
      DigitsExact(code[..|code| - 1]);
    }
  }

  lemma {:induction false} DigitsConcat(xs: string, ys: string)
    ensures Digits(xs + ys) == Digits(xs) + Digits(ys)
    decreases |ys|
  {
    if |ys| == 0 {
      assert xs + ys == xs;
    } else {
      var n := |ys| - 1;
      assert (xs + ys)[..|xs| + n] == xs + ys[..n];
      DigitsConcat(xs, ys[..n]);
    }
  }
}
