/** What an evaluation leaves, written out from the nine facts: the list, the checklist, the rows
 *  and the counts a batch returns.
 */
module BlockerRules {
  import opened Blockers

  /** What the facts leave to be done, and by whom. Finance counts only where money moved. */
  predicate Needs(f: Facts, k: Key)
  {
    || (!f.executed && k == Key(NotExecuted, Cceo))
    || (!f.evidence && k == Key(EvidenceMissing, Cceo))
    || (!f.salesforceId && k == Key(SalesforceIdMissing, Cceo))
    || (!f.iaVerified && k == Key(NotVerified, ImpactAssessment))
    || (f.financeRequired && !f.accountsCleared && k == Key(AccountsNotCleared, Accountant))
    || (f.financeRequired && !f.netSuiteId && k == Key(NetSuiteIdMissing, Accountant))
    || (!f.published && k == Key(NotPublished, ImpactAssessment))
  }

  lemma WantedIff(f: Facts, k: Key)
    ensures k in Wanted(f) <==> Needs(f, k)
  {
    hide Specs, Needs, Unmet;
    SpecsAreTheUnmetRules(f, RULES, k);
    assert |RULES| == 7;
    EachRule(f, k);
  }

  lemma EachRule(f: Facts, k: Key)
    ensures Needs(f, k) <==> exists i :: 0 <= i < |RULES| && RULES[i].key == k && Unmet(f, RULES[i])
  {
    hide Needs, Unmet;
    forall i | 0 <= i < |RULES| && RULES[i].key == k && Unmet(f, RULES[i]) ensures Needs(f, k) {
      RuleIsNeeded(f, i);
    }
    if Needs(f, k) {
      var i := NeededRule(f, k);
      assert RULES[i].key == k;
    }
  }

  lemma RuleIsNeeded(f: Facts, i: nat)
    requires i < |RULES| && Unmet(f, RULES[i])
    ensures Needs(f, RULES[i].key)
  {
    if i < 4 {
    } else if i < 6 {
    } else {
    }
  }

  lemma NeededRule(f: Facts, k: Key) returns (i: nat)
    requires Needs(f, k)
    ensures i < |RULES| && RULES[i].key == k && Unmet(f, RULES[i])
  {
    i := if k.reason == NotExecuted then 0 else if k.reason == EvidenceMissing then 1 else if k.reason == SalesforceIdMissing then 2
      else if k.reason == NotVerified then 3 else if k.reason == AccountsNotCleared then 4
      else if k.reason == NetSuiteIdMissing then 5 else 6;
  }

  /** Its place on the list: first the officer's, then verification, then the money, then analytics. */
  function Place(r: Reason): nat
  {
    match r
    case NotExecuted => 0
    case EvidenceMissing => 1
    case SalesforceIdMissing => 2
    case NotVerified => 3
    case AccountsNotCleared => 4
    case NetSuiteIdMissing => 5
    case NotPublished => 6
    case Retired(_) => 7
  }

  lemma {:induction false} SpecsKeepOrder(f: Facts, rules: seq<Rule>)
    requires forall i, j :: 0 <= i < j < |rules| ==> Place(rules[i].key.reason) < Place(rules[j].key.reason)
    ensures var keys := Specs(f, rules); forall i, j :: 0 <= i < j < |keys| ==> Place(keys[i].reason) < Place(keys[j].reason)
    decreases |rules|
  {
    if |rules| == 0 {
    } else {
      hide Place;
      var rest := Specs(f, rules[1..]);
      SpecsKeepOrder(f, rules[1..]);
      forall i | 0 <= i < |rest| ensures Place(rules[0].key.reason) < Place(rest[i].reason) {
        assert rest[i] in rest;
        SpecsAreTheUnmetRules(f, rules[1..], rest[i]);
      }
    }
  }

  lemma ListedInOrder(f: Facts, i: nat, j: nat)
    requires i < j < |Wanted(f)|
    ensures Place(Wanted(f)[i].reason) < Place(Wanted(f)[j].reason)
  {
    hide Specs;
    SpecsKeepOrder(f, RULES);
    assert Wanted(f)[i] == Specs(f, RULES)[i] && Wanted(f)[j] == Specs(f, RULES)[j];
  }

  /** An activity may close exactly when it was executed, evidenced, entered in Salesforce and
   *  verified, and, where money moved, cleared and entered in NetSuite. */
  lemma MayCloseIff(f: Facts)
    ensures CoreMet(f) <==>
      forall k :: Needs(f, k) ==> k == Key(NotPublished, ImpactAssessment)
  {
    hide Needs, Wanted, CoreMet;
    EligibleIffOnlyAnalyticsIsLeft(f);
    forall k ensures k in Wanted(f) <==> Needs(f, k) {
      WantedIff(f, k);
    }
    OnlyThenPublished(f);
  }

  lemma OnlyThenPublished(f: Facts)
    ensures forall k :: Needs(f, k) && k.reason == NotPublished ==> k.role == ImpactAssessment
  {
  }

  // ── What an evaluation leaves ───────────────────────────────────────────────

  /** The checklist holds the facts, and there is one row for each thing to be done and no other. */
  ghost predicate Settled(db: Db, w: Work)
  {
    && w.pk in db.checklists && db.checklists[w.pk] == w.facts
    && DistinctKeys(RowsOf(db.rows, w.pk))
    && forall k :: HasKey(RowsOf(db.rows, w.pk), k) <==> Needs(w.facts, k)
  }

  /** Nothing about this activity differs. */
  ghost predicate SameFor(before: Db, db: Db, activity: nat)
  {
    && RowsOf(db.rows, activity) == RowsOf(before.rows, activity)
    && (activity in db.checklists <==> activity in before.checklists)
    && (activity in db.checklists ==> db.checklists[activity] == before.checklists[activity])
  }

  lemma EvaluatedSettles(db: Db, w: Work)
    requires Valid(db)
    ensures Settled(Evaluated(db, w.pk, w.facts), w)
  {
    hide Wanted, RowsOf, Without, Needs, HasKey, DistinctKeys, Valid;
    ExactlyOneRowPerRequirement(db, w.pk, w.facts);
    forall k ensures k in Wanted(w.facts) <==> Needs(w.facts, k) {
      WantedIff(w.facts, k);
    }
  }

  lemma ChecklistWritten(db: Db, activity: nat, f: Facts)
    ensures Evaluated(db, activity, f).checklists == db.checklists[activity := f]
  {
  }

  lemma EvaluatedAside(db: Db, activity: nat, f: Facts, other: nat)
    requires Valid(db) && activity != other
    ensures SameFor(db, Evaluated(db, activity, f), other)
  {
    hide Wanted, Valid, RowsOf, Without, Evaluated, EvaluatedFrom, PersistedFrom;
    var w := Work(activity, true, f);
    ChecklistWritten(db, activity, f);
    EmptyBatch(db, db.rows);
    BatchThenOne(db, [], w);
    assert [] + [w] == [w];
    OthersUntouched(db, [w], other);
  }

  lemma SameForThen(a: Db, b: Db, c: Db, activity: nat)
    requires SameFor(a, b, activity) && SameFor(b, c, activity)
    ensures SameFor(a, c, activity)
  {
  }

  lemma SettledStays(before: Db, db: Db, w: Work)
    requires Settled(before, w) && SameFor(before, db, w.pk)
    ensures Settled(db, w)
  {
  }

  /** Evaluating different activities one after another settles each of them and changes nothing
   *  about any other. */
  lemma {:induction false} EvaluatedAllSettles(db: Db, works: seq<Work>)
    requires Valid(db) && DistinctWorks(works)
    ensures Valid(EvaluatedAll(db, works))
    ensures forall w :: w in works ==> Settled(EvaluatedAll(db, works), w)
    ensures forall activity :: !Mentions(works, activity) ==> SameFor(db, EvaluatedAll(db, works), activity)
    decreases |works|
  {
    if |works| == 0 {
    } else {
      hide Settled, SameFor, Evaluated, Valid;
      var n := |works| - 1;
      var init, last := works[..n], works[n];
      var before := EvaluatedAll(db, init);
      EvaluatedAllSettles(db, init);
      EvaluatedStaysValid(before, before.rows, last.pk, last.facts);
      EvaluatedSettles(before, last);
      forall w | w in works ensures Settled(EvaluatedAll(db, works), w) {
        if w != last {
          assert w in init;
          EvaluatedAside(before, last.pk, last.facts, w.pk);
          SettledStays(before, EvaluatedAll(db, works), w);
        }
      }
      forall activity | !Mentions(works, activity) ensures SameFor(db, EvaluatedAll(db, works), activity) {
        assert !Mentions(init, activity) && works[n].pk != activity;
        EvaluatedAside(before, last.pk, last.facts, activity);
        SameForThen(db, before, EvaluatedAll(db, works), activity);
      }
    }
  }

  /** One transaction over a batch settles every activity in it and touches no other. */
  lemma BatchSettles(db: Db, batch: seq<Work>)
    requires Valid(db) && DistinctWorks(batch)
    ensures forall w :: w in batch ==> Settled(Persisted(db, batch), w)
    ensures forall activity :: !Mentions(batch, activity) ==> SameFor(db, Persisted(db, batch), activity)
  {
    hide Settled, SameFor, Persisted, EvaluatedAll, Valid, DistinctWorks, Mentions;
    BatchIsOneByOne(db, batch);
    EvaluatedAllSettles(db, batch);
  }

  lemma {:induction false} OpenExact(works: seq<Work>, w: Work)
    ensures w in Open(works) <==> w in works && w.listed
  {
    if |works| == 0 {
    } else {
      OpenExact(works[..|works| - 1], w);
      assert works == works[..|works| - 1] + [works[|works| - 1]];
    }
  }

  /** The scheduled refresh settles every open activity, and leaves the closed and the unknown ones
   *  as they were. */
  lemma RefreshSettles(db: Db, works: seq<Work>)
    requires Valid(db) && InKeyOrder(works)
    ensures var t := EvaluatedAll(db, Open(works));
      && (forall w :: w in works && w.listed ==> Settled(t, w))
      && (forall w :: w in works && !w.listed ==> SameFor(db, t, w.pk))
      && (forall activity :: !Mentions(works, activity) ==> SameFor(db, t, activity))
  {
    hide Settled, SameFor, EvaluatedAll, Valid, Open;
    OpenStaysInOrder(works);
    EvaluatedAllSettles(db, Open(works));
    forall w ensures w in Open(works) <==> w in works && w.listed {
      OpenExact(works, w);
    }
    forall w | w in works && Mentions(Open(works), w.pk) ensures w in Open(works) {
      var i :| 0 <= i < |Open(works)| && Open(works)[i].pk == w.pk;
      assert Open(works)[i] in works;
      SameKeySameWork(works, w, Open(works)[i]);
    }
    forall activity | Mentions(Open(works), activity) ensures Mentions(works, activity) {
      OpenMentions(works, activity);
    }
  }

  lemma OpenMentions(works: seq<Work>, activity: nat)
    requires Mentions(Open(works), activity)
    ensures Mentions(works, activity)
  {
    var i :| 0 <= i < |Open(works)| && Open(works)[i].pk == activity;
    OpenExact(works, Open(works)[i]);
    var j :| 0 <= j < |works| && works[j] == Open(works)[i];
    assert works[j].pk == activity;
  }

  lemma SameKeySameWork(works: seq<Work>, v: Work, w: Work)
    requires InKeyOrder(works) && v in works && w in works && v.pk == w.pk
    ensures v == w
  {
    var i :| 0 <= i < |works| && works[i] == v;
    var j :| 0 <= j < |works| && works[j] == w;
    assert i == j;
  }

  // ── The counts ──────────────────────────────────────────────────────────────

  lemma {:induction false} StaleIsDistinct(existing: seq<Row>, wanted: seq<Key>, next: nat)
    requires Valid(Db(map[], existing, next))
    ensures Distinct(StalePks(existing, wanted))
  {
    if |existing| == 0 {
    } else {
      hide HasKey;
      var init, last := existing[..|existing| - 1], existing[|existing| - 1];
      StaleIsDistinct(init, wanted, next);
      if last.pk in StalePks(init, wanted) {
        StaleAreRows(init, wanted, last.pk);
      }
    }
  }

  predicate HasPk(rows: seq<Row>, pk: nat)
  {
    exists i :: 0 <= i < |rows| && rows[i].pk == pk
  }

  lemma {:induction false} WithoutOne(rows: seq<Row>, pk: nat, next: nat)
    requires Valid(Db(map[], rows, next))
    ensures |Without(rows, [pk])| == |rows| - if HasPk(rows, pk) then 1 else 0
  {
    if |rows| == 0 {
    } else {
      var n := |rows| - 1;
      WithoutOne(rows[..n], pk, next);
      if rows[n].pk != pk && HasPk(rows, pk) {
        var i :| 0 <= i < |rows| && rows[i].pk == pk;
        assert rows[..n][i].pk == pk;
      }
    }
  }

  /** Deleting rows by their keys deletes one for each key. */
  lemma {:induction false} WithoutCounts(rows: seq<Row>, pks: seq<nat>, next: nat)
    requires Valid(Db(map[], rows, next)) && Distinct(pks)
    requires forall pk :: pk in pks ==> HasPk(rows, pk)
    ensures |Without(rows, pks)| == |rows| - |pks|
    decreases |pks|
  {
    if |pks| == 0 {
      WithoutNone(rows, []);
    } else {
      hide Valid;
      var n := |pks| - 1;
      assert forall pk :: pk in pks[..n] ==> pk in pks;
      WithoutCounts(rows, pks[..n], next);
      WithoutTwice(rows, pks[..n], [pks[n]]);
      assert pks[..n] + [pks[n]] == pks;
      WithoutStaysDistinct(rows, pks[..n], next);
      WithoutOne(Without(rows, pks[..n]), pks[n], next);
      StillThere(rows, pks[..n], pks[n]);
    }
  }

  lemma StillThere(rows: seq<Row>, pks: seq<nat>, pk: nat)
    requires HasPk(rows, pk) && pk !in pks
    ensures HasPk(Without(rows, pks), pk)
  {
    var i :| 0 <= i < |rows| && rows[i].pk == pk;
    WithoutExact(rows, pks, rows[i]);
    var left := Without(rows, pks);
    var j :| 0 <= j < |left| && left[j] == rows[i];
    assert left[j].pk == pk;
  }

  lemma EvaluatedCounts(db: Db, activity: nat, f: Facts)
    requires Valid(db)
    ensures var t := Evaluated(db, activity, f);
      |t.rows| == |db.rows| - |StalePks(RowsOf(db.rows, activity), Wanted(f))| + (t.nextPk - db.nextPk)
  {
    hide Wanted, Missing, Without;
    var existing := RowsOf(db.rows, activity);
    var stale := StalePks(existing, Wanted(f));
    RowsOfStaysDistinct(db.rows, activity, db.nextPk);
    StaleIsDistinct(existing, Wanted(f), db.nextPk);
    forall pk | pk in stale ensures HasPk(db.rows, pk) {
      StaleAreRows(existing, Wanted(f), pk);
      var i :| 0 <= i < |existing| && existing[i].pk == pk;
      RowsOfExact(db.rows, activity, existing[i]);
      var j :| 0 <= j < |db.rows| && db.rows[j] == existing[i];
      assert db.rows[j].pk == pk;
    }
    WithoutCounts(db.rows, stale, db.nextPk);
  }

  /** What a batch that nothing crosses says it added and removed is what the table gained and
   *  lost. */
  lemma {:induction false} CountsAddUp(db: Db, batch: seq<Work>)
    requires Valid(db) && DistinctWorks(batch)
    ensures var t := Persisted(db, batch);
      |t.rows| == |db.rows| - |BatchStale(db.rows, batch)| + (t.nextPk - db.nextPk)
    decreases |batch|
  {
    hide Wanted, Persisted, RowsOf, StalePks, BatchStale, Valid, Mentions, DistinctWorks;
    if |batch| == 0 {
      assert batch == [];
      EmptyCounts(db);
    } else {
      var n := |batch| - 1;
      NotMentioned(batch);
      CountsAddUp(db, batch[..n]);
      StaleOfLast(db, batch);
      assert batch[..n] + [batch[n]] == batch;
      NextCounts(db, batch[..n], batch[n]);
    }
  }

  lemma EmptyCounts(db: Db)
    ensures Persisted(db, []) == db && BatchStale(db.rows, []) == []
  {
    hide PersistedFrom;
    EmptyBatch(db, db.rows);
  }

  lemma NextCounts(db: Db, init: seq<Work>, last: Work)
    requires Valid(db) && !Mentions(init, last.pk)
    ensures var before, t := Persisted(db, init), Persisted(db, init + [last]);
      |t.rows| == |before.rows| - |StalePks(RowsOf(db.rows, last.pk), Wanted(last.facts))| + (t.nextPk - before.nextPk)
  {
    hide Wanted, Evaluated, Persisted, RowsOf, StalePks, Valid, Mentions;
    BatchThenOne(db, init, last);
    OthersUntouched(db, init, last.pk);
    AgainValid(db, init);
    EvaluatedCounts(Persisted(db, init), last.pk, last.facts);
  }

  lemma StaleOfLast(db: Db, batch: seq<Work>)
    requires |batch| > 0
    ensures var n := |batch| - 1;
      |BatchStale(db.rows, batch)|
      == |BatchStale(db.rows, batch[..n])| + |StalePks(RowsOf(db.rows, batch[n].pk), Wanted(batch[n].facts))|
  {
  }

  lemma NotMentioned(batch: seq<Work>)
    requires |batch| > 0 && DistinctWorks(batch)
    ensures !Mentions(batch[..|batch| - 1], batch[|batch| - 1].pk) && DistinctWorks(batch[..|batch| - 1])
  {
  }

  lemma AgainValid(db: Db, batch: seq<Work>)
    requires Valid(db)
    ensures Valid(Persisted(db, batch))
  {
    hide Valid, PersistedFrom;
    PersistedStaysValid(db, db.rows, batch);
  }

  /** Activities whose checklist is new or differs. */
  ghost predicate Differs(checklists: map<nat, Facts>, w: Work)
  {
    !(w.pk in checklists && checklists[w.pk] == w.facts)
  }

  /** And it says it wrote as many checklists as there were activities without one like that. */
  lemma {:induction false} ChangesCounted(checklists: map<nat, Facts>, batch: seq<Work>)
    requires DistinctWorks(batch)
    ensures Changes(checklists, batch) == |set w | w in batch && Differs(checklists, w)|
  {
    if |batch| == 0 {
    } else {
      var n := |batch| - 1;
      hide Differs, Changes;
      ChangesCounted(checklists, batch[..n]);
      ChangesLast(checklists, batch);
      assert batch == batch[..n] + [batch[n]];
      assert batch[n] !in batch[..n];
      OneMore(checklists, batch[..n], batch[n]);
    }
  }

  lemma ChangesLast(checklists: map<nat, Facts>, batch: seq<Work>)
    requires |batch| > 0
    ensures var n := |batch| - 1;
      Changes(checklists, batch) == Changes(checklists, batch[..n]) + if Differs(checklists, batch[n]) then 1 else 0
  {
  }

  lemma OneMore(checklists: map<nat, Facts>, init: seq<Work>, last: Work)
    requires last !in init
    ensures |set w | w in init + [last] && Differs(checklists, w)|
         == |set w | w in init && Differs(checklists, w)| + if Differs(checklists, last) then 1 else 0
  {
    hide Differs;
    var before := set w | w in init && Differs(checklists, w);
    assert (set w | w in init + [last] && Differs(checklists, w)) == before + if Differs(checklists, last) then {last} else {};
  }
}
