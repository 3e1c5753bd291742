/** What stops an activity from closing, and the rows that say so.
 *
 *  The derived facts of an activity arrive as given. Blocker rows of every activity live in one
 *  table, oldest first; their keys come from one counter. Activity keys are positive, so 0 is
 *  before all of them.
 *
 *  An evaluation writes its activity's one checklist row before it reads the blockers, so single
 *  evaluations of an activity take turns. A batch writes only the checklists that changed, so it
 *  can cross another writer: what was read may be older than the table that is written to.
 */
module Blockers {
  // ── The checks ──────────────────────────────────────────────────────────────

  datatype Facts = Facts(
    executed: bool,
    evidence: bool,
    salesforceId: bool,
    iaVerified: bool,
    financeRequired: bool,
    accountsCleared: bool,
    netSuiteId: bool,
    published: bool,
    auditSaved: bool)

  datatype Check = Executed | Evidence | SalesforceId | IaVerified | AccountsCleared | NetSuiteId | Published

  datatype Reason =
    | NotExecuted
    | EvidenceMissing
    | SalesforceIdMissing
    | NotVerified
    | AccountsNotCleared
    | NetSuiteIdMissing
    | NotPublished
    | Retired(text: string)

  datatype Role = Cceo | ImpactAssessment | Accountant | FormerRole(name: string)

  datatype Key = Key(reason: Reason, role: Role)

  datatype Rule = Rule(check: Check, financeOnly: bool, key: Key)

  const RULES: seq<Rule> := [
    Rule(Executed, false, Key(NotExecuted, Cceo)),
    Rule(Evidence, false, Key(EvidenceMissing, Cceo)),
    Rule(SalesforceId, false, Key(SalesforceIdMissing, Cceo)),
    Rule(IaVerified, false, Key(NotVerified, ImpactAssessment)),
    Rule(AccountsCleared, true, Key(AccountsNotCleared, Accountant)),
    Rule(NetSuiteId, true, Key(NetSuiteIdMissing, Accountant)),
    Rule(Published, false, Key(NotPublished, ImpactAssessment))]

  predicate Holds(f: Facts, c: Check)
  {
    match c
    case Executed => f.executed
    case Evidence => f.evidence
    case SalesforceId => f.salesforceId
    case IaVerified => f.iaVerified
    case AccountsCleared => f.accountsCleared
    case NetSuiteId => f.netSuiteId
    case Published => f.published
  }

  predicate Unmet(f: Facts, r: Rule)
  {
    !Holds(f, r.check) && (f.financeRequired || !r.financeOnly)
  }

  /** The keys of the unmet rules, in rule order. */
  function Specs(f: Facts, rules: seq<Rule>): seq<Key>
  {
    if |rules| == 0 then [] else (if Unmet(f, rules[0]) then [rules[0].key] else []) + Specs(f, rules[1..])
  }

  function Wanted(f: Facts): seq<Key>
  {
    Specs(f, RULES)
  }

  predicate CoreMet(f: Facts)
  {
    && f.executed && f.evidence && f.salesforceId && f.iaVerified
    && (!f.financeRequired || (f.accountsCleared && f.netSuiteId))
  }

  ghost predicate Distinct<T(!new)>(xs: seq<T>)
  {
    forall i, j :: 0 <= i < j < |xs| ==> xs[i] != xs[j]
  }

  lemma {:induction false} SpecsAreTheUnmetRules(f: Facts, rules: seq<Rule>, k: Key)
    ensures k in Specs(f, rules) <==> exists i :: 0 <= i < |rules| && rules[i].key == k && Unmet(f, rules[i])
    decreases |rules|
  {
    if |rules| == 0 {
    } else {
      SpecsAreTheUnmetRules(f, rules[1..], k);
      if k in Specs(f, rules[1..]) {
        var i :| 0 <= i < |rules[1..]| && rules[1..][i].key == k && Unmet(f, rules[1..][i]);
        assert rules[i + 1].key == k;
      }
      if i :| 0 <= i < |rules| && rules[i].key == k && Unmet(f, rules[i]) {
        if i > 0 {
          assert rules[1..][i - 1].key == k;
        }
      }
    }
  }

  lemma {:induction false} SpecsAreDistinct(f: Facts, rules: seq<Rule>)
    requires forall i, j :: 0 <= i < j < |rules| ==> rules[i].key != rules[j].key
    ensures Distinct(Specs(f, rules))
    decreases |rules|
  {
    if |rules| == 0 {
    } else {
      SpecsAreDistinct(f, rules[1..]);
      SpecsAreTheUnmetRules(f, rules[1..], rules[0].key);
    }
  }

  lemma WantedIsDistinct(f: Facts)
    ensures Distinct(Wanted(f))
  {
    SpecsAreDistinct(f, RULES);
  }

  /** The first requirement of closing that is not met. */
  lemma UnmetCore(f: Facts) returns (i: nat)
    requires !CoreMet(f)
    ensures i < |RULES| - 1 && Unmet(f, RULES[i])
  {
    i := if !f.executed then 0 else if !f.evidence then 1 else if !f.salesforceId then 2 else if !f.iaVerified then 3
         else if !f.accountsCleared then 4 else 5;
  }

  /** An activity may close exactly when nothing but unpublished analytics is on its list. */
  lemma EligibleIffOnlyAnalyticsIsLeft(f: Facts)
    ensures CoreMet(f) <==> forall k :: k in Wanted(f) ==> k.reason == NotPublished
  {
    hide Specs;
    if CoreMet(f) {
      forall k | k in Wanted(f) ensures k.reason == NotPublished {
        SpecsAreTheUnmetRules(f, RULES, k);
      }
    } else {
      var i := UnmetCore(f);
      SpecsAreTheUnmetRules(f, RULES, RULES[i].key);
      assert RULES[i].key in Wanted(f);
    }
  }

  // ── Rows ────────────────────────────────────────────────────────────────────

  datatype Row = Row(pk: nat, activity: nat, key: Key)

  datatype Db = Db(checklists: map<nat, Facts>, rows: seq<Row>, nextPk: nat)

  datatype Work = Work(pk: nat, listed: bool, facts: Facts)

  predicate HasKey(rows: seq<Row>, k: Key)
  {
    exists i :: 0 <= i < |rows| && rows[i].key == k
  }

  /** The first row with this key. */
  ghost predicate Oldest(rows: seq<Row>, row: Row)
  {
    exists i :: 0 <= i < |rows| && rows[i] == row && forall j :: 0 <= j < i ==> rows[j].key != row.key
  }

  function RowsOf(rows: seq<Row>, activity: nat): seq<Row>
  {
    if |rows| == 0 then []
    else
      var before, last := RowsOf(rows[..|rows| - 1], activity), rows[|rows| - 1];
      if last.activity == activity then before + [last] else before
  }

  function Without(rows: seq<Row>, pks: seq<nat>): seq<Row>
  {
    if |rows| == 0 then []
    else
      var before, last := Without(rows[..|rows| - 1], pks), rows[|rows| - 1];
      if last.pk in pks then before else before + [last]
  }

  /** Rows that no longer apply, and every duplicate but the oldest. */
  function StalePks(existing: seq<Row>, wanted: seq<Key>): seq<nat>
  {
    if |existing| == 0 then []
    else
      var init, last := existing[..|existing| - 1], existing[|existing| - 1];
      var before := StalePks(init, wanted);
      if last.key in wanted && !HasKey(init, last.key) then before else before + [last.pk]
  }

  function Missing(existing: seq<Row>, wanted: seq<Key>): seq<Key>
  {
    if |wanted| == 0 then []
    else
      var before, last := Missing(existing, wanted[..|wanted| - 1]), wanted[|wanted| - 1];
      if HasKey(existing, last) then before else before + [last]
  }

  function NewRows(activity: nat, keys: seq<Key>, pk: nat): (rows: seq<Row>)
    ensures |rows| == |keys|
    ensures forall i {:trigger rows[i]} :: 0 <= i < |keys| ==> rows[i] == Row(pk + i, activity, keys[i])
  {
    seq(|keys|, i requires 0 <= i < |keys| => Row(pk + i, activity, keys[i]))
  }

  /** Evaluate one activity by the rows that were read. */
  function EvaluatedFrom(db: Db, read: seq<Row>, activity: nat, f: Facts): Db
  {
    var existing := RowsOf(read, activity);
    var missing := Missing(existing, Wanted(f));
    Db(db.checklists[activity := f],
       Without(db.rows, StalePks(existing, Wanted(f))) + NewRows(activity, missing, db.nextPk),
       db.nextPk + |missing|)
  }

  /** Evaluate one activity with nothing written in between. */
  function Evaluated(db: Db, activity: nat, f: Facts): Db
  {
    EvaluatedFrom(db, db.rows, activity, f)
  }

  function EvaluatedAllFrom(db: Db, read: seq<Row>, works: seq<Work>): Db
  {
    if |works| == 0 then db
    else EvaluatedFrom(EvaluatedAllFrom(db, read, works[..|works| - 1]), read, works[|works| - 1].pk, works[|works| - 1].facts)
  }

  function EvaluatedAll(db: Db, works: seq<Work>): Db
  {
    if |works| == 0 then db
    else Evaluated(EvaluatedAll(db, works[..|works| - 1]), works[|works| - 1].pk, works[|works| - 1].facts)
  }

  /** Evaluate a batch at once: every reading happens before every deletion and creation. */
  function BatchStale(rows: seq<Row>, batch: seq<Work>): seq<nat>
  {
    if |batch| == 0 then []
    else
      var last := batch[|batch| - 1];
      BatchStale(rows, batch[..|batch| - 1]) + StalePks(RowsOf(rows, last.pk), Wanted(last.facts))
  }

  function BatchNew(rows: seq<Row>, batch: seq<Work>, pk: nat): seq<Row>
  {
    if |batch| == 0 then []
    else
      var last := batch[|batch| - 1];
      var before := BatchNew(rows, batch[..|batch| - 1], pk);
      before + NewRows(last.pk, Missing(RowsOf(rows, last.pk), Wanted(last.facts)), pk + |before|)
  }

  function Checked(checklists: map<nat, Facts>, batch: seq<Work>): map<nat, Facts>
  {
    if |batch| == 0 then checklists
    else Checked(checklists, batch[..|batch| - 1])[batch[|batch| - 1].pk := batch[|batch| - 1].facts]
  }

  function PersistedFrom(db: Db, read: seq<Row>, batch: seq<Work>): Db
  {
    var added := BatchNew(read, batch, db.nextPk);
    Db(Checked(db.checklists, batch), Without(db.rows, BatchStale(read, batch)) + added, db.nextPk + |added|)
  }

  function Persisted(db: Db, batch: seq<Work>): Db
  {
    PersistedFrom(db, db.rows, batch)
  }

  ghost predicate Valid(db: Db)
  {
    && (forall i, j :: 0 <= i < j < |db.rows| ==> db.rows[i].pk != db.rows[j].pk)
    && (forall i :: 0 <= i < |db.rows| ==> db.rows[i].pk < db.nextPk)
  }

  /** An earlier table: its keys are older than the next one. */
  ghost predicate Older(read: seq<Row>, db: Db)
  {
    Valid(Db(map[], read, db.nextPk))
  }

  // ── Filters ─────────────────────────────────────────────────────────────────

  lemma {:induction false} RowsOfExact(rows: seq<Row>, activity: nat, row: Row)
    ensures row in RowsOf(rows, activity) <==> row in rows && row.activity == activity
  {
    if |rows| == 0 {
    } else {
      RowsOfExact(rows[..|rows| - 1], activity, row);
      assert rows == rows[..|rows| - 1] + [rows[|rows| - 1]];
    }
  }

  lemma {:induction false} WithoutExact(rows: seq<Row>, pks: seq<nat>, row: Row)
    ensures row in Without(rows, pks) <==> row in rows && row.pk !in pks
  {
    if |rows| == 0 {
    } else {
      WithoutExact(rows[..|rows| - 1], pks, row);
      assert rows == rows[..|rows| - 1] + [rows[|rows| - 1]];
    }
  }

  lemma {:induction false} RowsOfConcat(xs: seq<Row>, ys: seq<Row>, activity: nat)
    ensures RowsOf(xs + ys, activity) == RowsOf(xs, activity) + RowsOf(ys, activity)
    decreases |ys|
  {
    if |ys| == 0 {
      assert xs + ys == xs;
    } else {
      var n := |ys| - 1;
      assert (xs + ys)[..|xs| + n] == xs + ys[..n];
      RowsOfConcat(xs, ys[..n], activity);
    }
  }

  lemma {:induction false} WithoutConcat(xs: seq<Row>, ys: seq<Row>, pks: seq<nat>)
    ensures Without(xs + ys, pks) == Without(xs, pks) + Without(ys, pks)
    decreases |ys|
  {
    if |ys| == 0 {
      assert xs + ys == xs;
    } else {
      var n := |ys| - 1;
      assert (xs + ys)[..|xs| + n] == xs + ys[..n];
      WithoutConcat(xs, ys[..n], pks);
    }
  }

  lemma {:induction false} WithoutTwice(rows: seq<Row>, xs: seq<nat>, ys: seq<nat>)
    ensures Without(Without(rows, xs), ys) == Without(rows, xs + ys)
  {
    if |rows| == 0 {
    } else {
      var init, last := rows[..|rows| - 1], rows[|rows| - 1];
      WithoutTwice(init, xs, ys);
      if last.pk !in xs {
        assert (Without(init, xs) + [last])[..|Without(init, xs)|] == Without(init, xs);
      }
    }
  }

  lemma {:induction false} WithoutNone(rows: seq<Row>, pks: seq<nat>)
    requires forall i :: 0 <= i < |rows| ==> rows[i].pk !in pks
    ensures Without(rows, pks) == rows
  {
    if |rows| == 0 {
    } else {
      WithoutNone(rows[..|rows| - 1], pks);
    }
  }

  lemma {:induction false} RowsOfWithout(rows: seq<Row>, activity: nat, pks: seq<nat>)
    ensures RowsOf(Without(rows, pks), activity) == Without(RowsOf(rows, activity), pks)
  {
    if |rows| == 0 {
    } else {
      var init, last := rows[..|rows| - 1], rows[|rows| - 1];
      RowsOfWithout(init, activity, pks);
      if last.pk !in pks {
        assert (Without(init, pks) + [last])[..|Without(init, pks)|] == Without(init, pks);
      }
      if last.activity == activity {
        assert (RowsOf(init, activity) + [last])[..|RowsOf(init, activity)|] == RowsOf(init, activity);
      }
    }
  }

  lemma {:induction false} RowsOfOthers(rows: seq<Row>, activity: nat)
    requires forall i :: 0 <= i < |rows| ==> rows[i].activity != activity
    ensures RowsOf(rows, activity) == []
  {
    if |rows| == 0 {
    } else {
      RowsOfOthers(rows[..|rows| - 1], activity);
    }
  }

  lemma {:induction false} RowsOfOwn(rows: seq<Row>, activity: nat)
    requires forall i :: 0 <= i < |rows| ==> rows[i].activity == activity
    ensures RowsOf(rows, activity) == rows
  {
    if |rows| == 0 {
    } else {
      RowsOfOwn(rows[..|rows| - 1], activity);
    }
  }

  /** Filtering keeps keys apart and in range. */
  lemma {:induction false} WithoutStaysDistinct(rows: seq<Row>, pks: seq<nat>, next: nat)
    requires Valid(Db(map[], rows, next))
    ensures Valid(Db(map[], Without(rows, pks), next))
  {
    if |rows| == 0 {
    } else {
      var init, last := rows[..|rows| - 1], rows[|rows| - 1];
      WithoutStaysDistinct(init, pks, next);
      forall i | 0 <= i < |Without(init, pks)| ensures Without(init, pks)[i].pk != last.pk {
        WithoutExact(init, pks, Without(init, pks)[i]);
      }
    }
  }

  lemma {:induction false} RowsOfStaysDistinct(rows: seq<Row>, activity: nat, next: nat)
    requires Valid(Db(map[], rows, next))
    ensures Valid(Db(map[], RowsOf(rows, activity), next))
  {
    if |rows| == 0 {
    } else {
      var init, last := rows[..|rows| - 1], rows[|rows| - 1];
      RowsOfStaysDistinct(init, activity, next);
      forall i | 0 <= i < |RowsOf(init, activity)| ensures RowsOf(init, activity)[i].pk != last.pk {
        RowsOfExact(init, activity, RowsOf(init, activity)[i]);
      }
    }
  }

  // ── One activity ────────────────────────────────────────────────────────────

  /** The rows reconciling keeps: the oldest of every wanted key. */
  function Kept(existing: seq<Row>, wanted: seq<Key>): seq<Row>
  {
    if |existing| == 0 then []
    else
      var init, last := existing[..|existing| - 1], existing[|existing| - 1];
      var before := Kept(init, wanted);
      if last.key in wanted && !HasKey(init, last.key) then before + [last] else before
  }

  lemma {:induction false} StaleAreRows(existing: seq<Row>, wanted: seq<Key>, pk: nat)
    requires pk in StalePks(existing, wanted)
    ensures exists i :: 0 <= i < |existing| && existing[i].pk == pk
  {
    var n := |existing| - 1;
    if pk !in StalePks(existing[..n], wanted) {
      assert existing[n].pk == pk;
    } else {
      StaleAreRows(existing[..n], wanted, pk);
      var i :| 0 <= i < n && existing[..n][i].pk == pk;
      assert existing[i].pk == pk;
    }
  }

  lemma {:induction false} SkipUnused(rows: seq<Row>, pks: seq<nat>, pk: nat)
    requires forall i :: 0 <= i < |rows| ==> rows[i].pk != pk
    ensures Without(rows, pks + [pk]) == Without(rows, pks)
  {
    if |rows| == 0 {
    } else {
      SkipUnused(rows[..|rows| - 1], pks, pk);
    }
  }

  lemma {:induction false} DeletingStaleKeepsTheOldest(existing: seq<Row>, wanted: seq<Key>, next: nat)
    requires Valid(Db(map[], existing, next))
    ensures Without(existing, StalePks(existing, wanted)) == Kept(existing, wanted)
  {
    if |existing| == 0 {
    } else {
      var init, last := existing[..|existing| - 1], existing[|existing| - 1];
      DeletingStaleKeepsTheOldest(init, wanted, next);
      var stale := StalePks(init, wanted);
      if last.key in wanted && !HasKey(init, last.key) {
        if last.pk in stale {
          StaleAreRows(init, wanted, last.pk);
        }
      } else {
        SkipUnused(init, stale, last.pk);
      }
    }
  }

  lemma OldestAppend(rows: seq<Row>, row: Row)
    requires |rows| > 0
    ensures var init, last := rows[..|rows| - 1], rows[|rows| - 1];
      Oldest(rows, row) <==> Oldest(init, row) || (row == last && !HasKey(init, last.key))
  {
    var n := |rows| - 1;
    var init, last := rows[..n], rows[n];
    if Oldest(init, row) {
      var i :| 0 <= i < n && init[i] == row && forall j :: 0 <= j < i ==> init[j].key != row.key;
      assert rows[i] == row && forall j :: 0 <= j < i ==> rows[j] == init[j];
    } else if row == last && !HasKey(init, last.key) {
      assert rows[n] == row && forall j :: 0 <= j < n ==> rows[j] == init[j];
    }
    if Oldest(rows, row) {
      var i :| 0 <= i <= n && rows[i] == row && forall j :: 0 <= j < i ==> rows[j].key != row.key;
      assert forall j :: 0 <= j < n ==> init[j] == rows[j];
      if i < n {
        assert init[i] == row;
      }
    }
  }

  lemma {:induction false} KeptExact(existing: seq<Row>, wanted: seq<Key>, row: Row)
    ensures row in Kept(existing, wanted) <==> row.key in wanted && Oldest(existing, row)
  {
    if |existing| == 0 {
    } else {
      KeptExact(existing[..|existing| - 1], wanted, row);
      OldestAppend(existing, row);
      hide Oldest, HasKey;
    }
  }

  ghost predicate DistinctKeys(rows: seq<Row>)
  {
    forall i, j :: 0 <= i < j < |rows| ==> rows[i].key != rows[j].key
  }

  lemma {:induction false} KeptHasDistinctKeys(existing: seq<Row>, wanted: seq<Key>)
    ensures DistinctKeys(Kept(existing, wanted))
    ensures forall k :: HasKey(Kept(existing, wanted), k) <==> k in wanted && HasKey(existing, k)
  {
    if |existing| == 0 {
    } else {
      var n := |existing| - 1;
      var init, last := existing[..n], existing[n];
      KeptHasDistinctKeys(init, wanted);
      var before, after := Kept(init, wanted), Kept(existing, wanted);
      forall k ensures HasKey(existing, k) <==> HasKey(init, k) || last.key == k {
        if i :| 0 <= i < n && init[i].key == k {
          assert existing[i].key == k;
        }
        if i :| 0 <= i <= n && existing[i].key == k && i < n {
          assert init[i].key == k;
        }
        assert existing[n] == last;
      }
      if after != before {
        assert forall i :: 0 <= i < n ==> init[i].key != last.key;
        forall k ensures HasKey(after, k) <==> HasKey(before, k) || last.key == k {
          if i :| 0 <= i < |before| && before[i].key == k {
            assert after[i].key == k;
          }
          if i :| 0 <= i < |after| && after[i].key == k && i < |before| {
            assert before[i].key == k;
          }
          assert after[|before|] == last;
        }
        forall i | 0 <= i < |before| ensures before[i].key != last.key {
          assert HasKey(before, before[i].key);
        }
      }
    }
  }

  lemma {:induction false} MissingExact(existing: seq<Row>, wanted: seq<Key>)
    requires Distinct(wanted)
    ensures Distinct(Missing(existing, wanted))
    ensures forall k :: k in Missing(existing, wanted) <==> k in wanted && !HasKey(existing, k)
  {
    if |wanted| == 0 {
    } else {
      var init, last := wanted[..|wanted| - 1], wanted[|wanted| - 1];
      MissingExact(existing, init);
      assert wanted == init + [last];
      assert last !in init;
    }
  }

  lemma EvaluatedRows(db: Db, activity: nat, f: Facts)
    requires Valid(db)
    ensures var existing := RowsOf(db.rows, activity);
      RowsOf(Evaluated(db, activity, f).rows, activity)
        == Kept(existing, Wanted(f)) + NewRows(activity, Missing(existing, Wanted(f)), db.nextPk)
  {
    hide Wanted;
    var existing := RowsOf(db.rows, activity);
    var stale := StalePks(existing, Wanted(f));
    var added := NewRows(activity, Missing(existing, Wanted(f)), db.nextPk);
    RowsOfConcat(Without(db.rows, stale), added, activity);
    RowsOfWithout(db.rows, activity, stale);
    RowsOfStaysDistinct(db.rows, activity, db.nextPk);
    DeletingStaleKeepsTheOldest(existing, Wanted(f), db.nextPk);
    RowsOfOwn(added, activity);
  }

  /** Afterwards the activity has exactly one row for every unmet requirement and none for any
   *  other: the oldest existing one where there was one, a new one otherwise. */
  lemma ExactlyOneRowPerRequirement(db: Db, activity: nat, f: Facts)
    requires Valid(db)
    ensures var existing := RowsOf(db.rows, activity);
      var after := RowsOf(Evaluated(db, activity, f).rows, activity);
      && DistinctKeys(after)
      && (forall k :: HasKey(after, k) <==> k in Wanted(f))
      && (forall row :: Oldest(existing, row) && row.key in Wanted(f) ==> row in after)
      && (forall row :: row in after ==> Oldest(existing, row) || (row.pk >= db.nextPk && !HasKey(existing, row.key)))
  {
    hide Wanted;
    var existing := RowsOf(db.rows, activity);
    var missing := Missing(existing, Wanted(f));
    var kept, added := Kept(existing, Wanted(f)), NewRows(activity, missing, db.nextPk);
    EvaluatedRows(db, activity, f);
    WantedIsDistinct(f);
    MissingExact(existing, Wanted(f));
    KeptHasDistinctKeys(existing, Wanted(f));
    forall row ensures row in kept <==> row.key in Wanted(f) && Oldest(existing, row) {
      KeptExact(existing, Wanted(f), row);
    }
    JoinKeys(kept, added, missing, activity, db.nextPk);
    forall row | row in added ensures row.pk >= db.nextPk && !HasKey(existing, row.key) {
      assert row.key in missing;
    }
  }

  lemma JoinKeys(kept: seq<Row>, added: seq<Row>, missing: seq<Key>, activity: nat, pk: nat)
    requires DistinctKeys(kept) && Distinct(missing) && added == NewRows(activity, missing, pk)
    requires forall k :: k in missing ==> !HasKey(kept, k)
    ensures DistinctKeys(kept + added)
    ensures forall k :: HasKey(kept + added, k) <==> HasKey(kept, k) || k in missing
  {
    var all := kept + added;
    forall i, j | 0 <= i < j < |all| ensures all[i].key != all[j].key {
      if i < |kept| <= j {
        assert missing[j - |kept|] in missing;
        assert kept[i].key == all[i].key;
      }
    }
    forall k ensures HasKey(all, k) <==> HasKey(kept, k) || k in missing {
      if i :| 0 <= i < |kept| && kept[i].key == k {
        assert all[i].key == k;
      }
      if i :| 0 <= i < |missing| && missing[i] == k {
        assert all[|kept| + i].key == k;
      }
      if i :| 0 <= i < |all| && all[i].key == k {
        assert i < |kept| ==> kept[i].key == k;
        assert i >= |kept| ==> missing[i - |kept|] == k;
      }
    }
  }

  lemma {:induction false} NothingStale(existing: seq<Row>, wanted: seq<Key>)
    requires DistinctKeys(existing) && forall i :: 0 <= i < |existing| ==> existing[i].key in wanted
    ensures StalePks(existing, wanted) == []
  {
    if |existing| == 0 {
    } else {
      NothingStale(existing[..|existing| - 1], wanted);
    }
  }

  lemma {:induction false} NothingMissing(existing: seq<Row>, wanted: seq<Key>)
    requires forall i :: 0 <= i < |wanted| ==> HasKey(existing, wanted[i])
    ensures Missing(existing, wanted) == []
  {
    if |wanted| == 0 {
    } else {
      NothingMissing(existing, wanted[..|wanted| - 1]);
    }
  }

  lemma NothingToReconcile(db: Db, activity: nat, f: Facts)
    requires Valid(db)
    ensures var rows := RowsOf(Evaluated(db, activity, f).rows, activity);
      StalePks(rows, Wanted(f)) == [] && Missing(rows, Wanted(f)) == []
  {
    hide Wanted, Evaluated, EvaluatedFrom, RowsOf, Oldest;
    ExactlyOneRowPerRequirement(db, activity, f);
    var rows := RowsOf(Evaluated(db, activity, f).rows, activity);
    forall i | 0 <= i < |rows| ensures rows[i].key in Wanted(f) {
      assert HasKey(rows, rows[i].key);
    }
    NothingStale(rows, Wanted(f));
    NothingMissing(rows, Wanted(f));
  }

  /** Looking again at an unchanged activity writes nothing. */
  lemma EvaluatingTwiceIsOnce(db: Db, activity: nat, f: Facts)
    requires Valid(db)
    ensures Evaluated(Evaluated(db, activity, f), activity, f) == Evaluated(db, activity, f)
  {
    var once := Evaluated(db, activity, f);
    assert once.checklists == db.checklists[activity := f];
    NothingToReconcile(db, activity, f);
    hide Evaluated, EvaluatedFrom;
    NothingToWrite(once, activity, f);
  }

  lemma NothingToWrite(db: Db, activity: nat, f: Facts)
    requires var rows := RowsOf(db.rows, activity); StalePks(rows, Wanted(f)) == [] && Missing(rows, Wanted(f)) == []
    ensures var next := Evaluated(db, activity, f);
      next.rows == db.rows && next.nextPk == db.nextPk && next.checklists == db.checklists[activity := f]
  {
    hide Wanted, RowsOf, StalePks, Missing, Without;
    WithoutNone(db.rows, []);
  }

  // ── Evaluations that cross ──────────────────────────────────────────────────

  /** One row for each of these keys and none for any other. */
  ghost predicate OneRowEach(rows: seq<Row>, keys: seq<Key>)
  {
    DistinctKeys(rows) && forall k :: HasKey(rows, k) <==> k in keys
  }

  /** The rows of the activity there are now, less those that were found stale in the read. */
  function LeftOf(db: Db, read: seq<Row>, activity: nat, f: Facts): seq<Row>
  {
    RowsOf(Without(db.rows, StalePks(RowsOf(read, activity), Wanted(f))), activity)
  }

  /** What was written since the read left every kept key once, and added none. */
  ghost predicate SameKeys(left: seq<Row>, kept: seq<Row>)
  {
    DistinctKeys(left) && forall k :: HasKey(left, k) <==> HasKey(kept, k)
  }

  /** Whatever was written between its reading and its writing, an evaluation leaves one row for
   *  each requirement exactly when the rows that are left have the keys it decided to keep. */
  lemma OneRowEachIff(db: Db, read: seq<Row>, activity: nat, f: Facts)
    ensures OneRowEach(RowsOf(EvaluatedFrom(db, read, activity, f).rows, activity), Wanted(f)) <==>
      SameKeys(LeftOf(db, read, activity, f), Kept(RowsOf(read, activity), Wanted(f)))
  {
    hide Wanted, RowsOf, StalePks, Missing, Without, Kept;
    var existing, wanted := RowsOf(read, activity), Wanted(f);
    var missing, left := Missing(existing, wanted), LeftOf(db, read, activity, f);
    var added := NewRows(activity, missing, db.nextPk);
    RowsOfConcat(Without(db.rows, StalePks(existing, wanted)), added, activity);
    RowsOfOwn(added, activity);
    WantedIsDistinct(f);
    MissingExact(existing, wanted);
    KeptHasDistinctKeys(existing, wanted);
    JoinedKeysIff(left, added, Kept(existing, wanted), missing, wanted, activity, db.nextPk);
  }

  lemma JoinedKeysIff(left: seq<Row>, added: seq<Row>, kept: seq<Row>, missing: seq<Key>, wanted: seq<Key>, activity: nat, pk: nat)
    requires Distinct(missing) && added == NewRows(activity, missing, pk)
    requires forall k :: k in wanted <==> HasKey(kept, k) || k in missing
    requires forall k :: k in missing ==> !HasKey(kept, k)
    ensures OneRowEach(left + added, wanted) <==> SameKeys(left, kept)
  {
    hide HasKey;
    if SameKeys(left, kept) {
      JoinKeys(left, added, missing, activity, pk);
    }
    if OneRowEach(left + added, wanted) {
      SplitKeys(left, added, missing, activity, pk);
    }
  }

  lemma SplitKeys(left: seq<Row>, added: seq<Row>, missing: seq<Key>, activity: nat, pk: nat)
    requires added == NewRows(activity, missing, pk) && DistinctKeys(left + added)
    ensures DistinctKeys(left)
    ensures forall k :: HasKey(left + added, k) <==> HasKey(left, k) || k in missing
    ensures forall k :: k in missing ==> !HasKey(left, k)
  {
    var all := left + added;
    forall i | 0 <= i < |left| ensures all[i] == left[i] {
    }
    forall i | 0 <= i < |missing| ensures all[|left| + i].key == missing[i] {
    }
    forall k ensures HasKey(all, k) <==> HasKey(left, k) || k in missing {
      if i :| 0 <= i < |left| && left[i].key == k {
        assert all[i].key == k;
      }
      if i :| 0 <= i < |missing| && missing[i] == k {
        assert all[|left| + i].key == k;
      }
      if i :| 0 <= i < |all| && all[i].key == k {
        assert i < |left| ==> left[i].key == k;
        assert i >= |left| ==> missing[i - |left|] == k;
      }
    }
    forall k | k in missing ensures !HasKey(left, k) {
      var j :| 0 <= j < |missing| && missing[j] == k;
      assert all[|left| + j].key == k;
    }
  }

  /** Two writers that read the same rows both create what was missing: every such requirement has
   *  two rows afterwards, and none has if nothing was missing. */
  lemma CrossedEvaluations(db: Db, activity: nat, f: Facts)
    requires Valid(db)
    ensures var missing := Missing(RowsOf(db.rows, activity), Wanted(f));
      var twice := EvaluatedFrom(Evaluated(db, activity, f), db.rows, activity, f);
      && RowsOf(twice.rows, activity)
           == RowsOf(Evaluated(db, activity, f).rows, activity) + NewRows(activity, missing, db.nextPk + |missing|)
      && (OneRowEach(RowsOf(twice.rows, activity), Wanted(f)) <==> missing == [])
  {
    hide Wanted, Missing, StalePks, Without, RowsOf, OneRowEach;
    var existing := RowsOf(db.rows, activity);
    var missing, stale := Missing(existing, Wanted(f)), StalePks(existing, Wanted(f));
    var once, added := Evaluated(db, activity, f), NewRows(activity, Missing(existing, Wanted(f)), db.nextPk);
    var again := NewRows(activity, missing, once.nextPk);
    forall i | 0 <= i < |added| ensures added[i].pk !in stale {
      if added[i].pk in stale {
        StaleIsOld(db, activity, Wanted(f), added[i].pk);
      }
    }
    WithoutConcat(Without(db.rows, stale), added, stale);
    WithoutTwice(db.rows, stale, stale);
    WithoutSame(db.rows, stale);
    WithoutNone(added, stale);
    RowsOfConcat(once.rows, again, activity);
    RowsOfOwn(again, activity);
    CrossedKeys(db, activity, f, again, missing);
  }

  lemma CrossedKeys(db: Db, activity: nat, f: Facts, again: seq<Row>, missing: seq<Key>)
    requires Valid(db) && missing == Missing(RowsOf(db.rows, activity), Wanted(f)) && |again| == |missing|
    requires forall i :: 0 <= i < |missing| ==> again[i].key == missing[i]
    ensures OneRowEach(RowsOf(Evaluated(db, activity, f).rows, activity) + again, Wanted(f)) <==> missing == []
  {
    hide Wanted, Missing, StalePks, Without, RowsOf, Evaluated;
    var rows := RowsOf(Evaluated(db, activity, f).rows, activity);
    ExactlyOneRowPerRequirement(db, activity, f);
    WantedIsDistinct(f);
    MissingExact(RowsOf(db.rows, activity), Wanted(f));
    if missing == [] {
      assert rows + again == rows;
    } else {
      assert missing[0] in missing && HasKey(rows, missing[0]);
      var i :| 0 <= i < |rows| && rows[i].key == missing[0];
      assert (rows + again)[i].key == (rows + again)[|rows|].key;
    }
  }

  lemma {:induction false} WithoutSame(rows: seq<Row>, pks: seq<nat>)
    ensures Without(rows, pks + pks) == Without(rows, pks)
  {
    if |rows| == 0 {
    } else {
      WithoutSame(rows[..|rows| - 1], pks);
    }
  }

  /** However the table came to be, the next evaluation nothing crosses repairs it. */
  lemma NextEvaluationRepairs(db: Db, read: seq<Row>, activity: nat, f: Facts, g: Facts)
    requires Valid(db)
    ensures OneRowEach(RowsOf(Evaluated(EvaluatedFrom(db, read, activity, f), activity, g).rows, activity), Wanted(g))
  {
    hide EvaluatedFrom, Wanted;
    EvaluatedStaysValid(db, read, activity, f);
    ExactlyOneRowPerRequirement(EvaluatedFrom(db, read, activity, f), activity, g);
  }

  lemma StaleBelongsTo(rows: seq<Row>, next: nat, activity: nat, wanted: seq<Key>, row: Row)
    requires Valid(Db(map[], rows, next)) && row in rows && row.pk in StalePks(RowsOf(rows, activity), wanted)
    ensures row.activity == activity
  {
    var existing := RowsOf(rows, activity);
    StaleAreRows(existing, wanted, row.pk);
    var i :| 0 <= i < |existing| && existing[i].pk == row.pk;
    RowsOfExact(rows, activity, existing[i]);
  }

  predicate Mentions(batch: seq<Work>, activity: nat)
  {
    exists i :: 0 <= i < |batch| && batch[i].pk == activity
  }

  lemma {:induction false} BatchStaleBelongsTo(rows: seq<Row>, next: nat, batch: seq<Work>, row: Row)
    requires Valid(Db(map[], rows, next)) && row in rows && row.pk in BatchStale(rows, batch)
    ensures Mentions(batch, row.activity)
  {
    hide Wanted, StalePks;
    var n := |batch| - 1;
    if row.pk in BatchStale(rows, batch[..n]) {
      BatchStaleBelongsTo(rows, next, batch[..n], row);
      var i :| 0 <= i < n && batch[..n][i].pk == row.activity;
      assert batch[i].pk == row.activity;
    } else {
      StaleBelongsTo(rows, next, batch[n].pk, Wanted(batch[n].facts), row);
    }
  }

  ghost predicate Added(added: seq<Row>, batch: seq<Work>, pk: nat)
  {
    forall i {:trigger added[i]} :: 0 <= i < |added| ==> added[i].pk == pk + i && Mentions(batch, added[i].activity)
  }

  lemma {:induction false} BatchNewBelongsTo(rows: seq<Row>, batch: seq<Work>, pk: nat)
    ensures Added(BatchNew(rows, batch, pk), batch, pk)
  {
    hide Wanted, Missing, RowsOf;
    if |batch| == 0 {
    } else {
      var n := |batch| - 1;
      BatchNewBelongsTo(rows, batch[..n], pk);
      var before, added := BatchNew(rows, batch[..n], pk), BatchNew(rows, batch, pk);
      forall i | 0 <= i < |added| ensures added[i].pk == pk + i && Mentions(batch, added[i].activity) {
        if i < |before| {
          assert added[i] == before[i];
          var j :| 0 <= j < n && batch[..n][j].pk == before[i].activity;
          assert batch[j].pk == added[i].activity;
        } else {
          assert added[i].pk == pk + |before| + (i - |before|);
          assert batch[n].pk == added[i].activity;
        }
      }
    }
  }

  /** A batch reads what the activities it does not hold have, exactly as if it had not run. */
  lemma OthersUntouched(db: Db, batch: seq<Work>, activity: nat)
    requires Valid(db) && !Mentions(batch, activity)
    ensures RowsOf(Persisted(db, batch).rows, activity) == RowsOf(db.rows, activity)
  {
    hide Wanted, BatchStale, BatchNew, Valid;
    var stale, added := BatchStale(db.rows, batch), BatchNew(db.rows, batch, db.nextPk);
    BatchNewBelongsTo(db.rows, batch, db.nextPk);
    RowsOfConcat(Without(db.rows, stale), added, activity);
    RowsOfOthers(added, activity);
    RowsOfWithout(db.rows, activity, stale);
    var existing := RowsOf(db.rows, activity);
    ValidRows(db);
    forall i | 0 <= i < |existing| ensures existing[i].pk !in stale {
      RowsOfExact(db.rows, activity, existing[i]);
      if existing[i].pk in stale {
        BatchStaleBelongsTo(db.rows, db.nextPk, batch, existing[i]);
      }
    }
    WithoutNone(existing, stale);
  }

  lemma ValidRows(db: Db)
    ensures Valid(db) <==> Valid(Db(map[], db.rows, db.nextPk))
  {
  }

  lemma PersistedStaysValid(db: Db, read: seq<Row>, batch: seq<Work>)
    requires Valid(db)
    ensures Valid(PersistedFrom(db, read, batch))
  {
    hide Wanted, BatchStale, BatchNew, Without;
    var stale := BatchStale(read, batch);
    WithoutStaysDistinct(db.rows, stale, db.nextPk);
    BatchNewBelongsTo(read, batch, db.nextPk);
  }

  lemma EvaluatedStaysValid(db: Db, read: seq<Row>, activity: nat, f: Facts)
    requires Valid(db)
    ensures Valid(EvaluatedFrom(db, read, activity, f))
  {
    hide Wanted, StalePks, Missing, RowsOf, Without;
    WithoutStaysDistinct(db.rows, StalePks(RowsOf(read, activity), Wanted(f)), db.nextPk);
  }

  ghost predicate DistinctWorks(works: seq<Work>)
  {
    forall i, j :: 0 <= i < j < |works| ==> works[i].pk != works[j].pk
  }

  lemma StaleIsOld(db: Db, activity: nat, wanted: seq<Key>, pk: nat)
    requires Valid(db) && pk in StalePks(RowsOf(db.rows, activity), wanted)
    ensures pk < db.nextPk
  {
    var existing := RowsOf(db.rows, activity);
    StaleAreRows(existing, wanted, pk);
    var i :| 0 <= i < |existing| && existing[i].pk == pk;
    RowsOfExact(db.rows, activity, existing[i]);
  }

  /** Adding one activity to a batch is evaluating it after the batch, by the same rows. */
  lemma BatchThenOneFrom(db: Db, read: seq<Row>, batch: seq<Work>, last: Work)
    requires Valid(db) && Older(read, db)
    ensures PersistedFrom(db, read, batch + [last]) == EvaluatedFrom(PersistedFrom(db, read, batch), read, last.pk, last.facts)
  {
    hide Wanted, Missing, StalePks, Without, RowsOf;
    assert (batch + [last])[..|batch|] == batch;
    var stale, added := BatchStale(read, batch), BatchNew(read, batch, db.nextPk);
    var existing := RowsOf(read, last.pk);
    var own := StalePks(existing, Wanted(last.facts));
    WithoutConcat(Without(db.rows, stale), added, own);
    WithoutTwice(db.rows, stale, own);
    BatchNewBelongsTo(read, batch, db.nextPk);
    forall i | 0 <= i < |added| ensures added[i].pk !in own {
      if added[i].pk in own {
        StaleIsOld(Db(map[], read, db.nextPk), last.pk, Wanted(last.facts), added[i].pk);
      }
    }
    WithoutNone(added, own);
    assert Without(db.rows, stale + own) + added + NewRows(last.pk, Missing(existing, Wanted(last.facts)), db.nextPk + |added|)
        == Without(db.rows, stale + own) + (added + NewRows(last.pk, Missing(existing, Wanted(last.facts)), db.nextPk + |added|));
  }

  lemma BatchThenOne(db: Db, batch: seq<Work>, last: Work)
    requires Valid(db) && !Mentions(batch, last.pk)
    ensures Persisted(db, batch + [last]) == Evaluated(Persisted(db, batch), last.pk, last.facts)
  {
    hide Wanted, Missing, StalePks, Without, RowsOf, PersistedFrom, Valid;
    ValidRows(db);
    BatchThenOneFrom(db, db.rows, batch, last);
    OthersUntouched(db, batch, last.pk);
  }

  /** A batch that something crosses does to each activity what evaluating it alone, by the rows
   *  the batch read, would have done. */
  lemma {:induction false} CrossedBatchIsOneByOne(db: Db, read: seq<Row>, batch: seq<Work>)
    requires Valid(db) && Older(read, db)
    ensures PersistedFrom(db, read, batch) == EvaluatedAllFrom(db, read, batch)
    decreases |batch|
  {
    hide Wanted, Valid, EvaluatedFrom, Without, BatchNew, BatchStale, Checked, Older;
    if |batch| == 0 {
      EmptyBatch(db, read);
    } else {
      var n := |batch| - 1;
      CrossedBatchIsOneByOne(db, read, batch[..n]);
      BatchThenOneFrom(db, read, batch[..n], batch[n]);
      assert batch[..n] + [batch[n]] == batch;
    }
  }

  /** One transaction for the whole batch ends where evaluating each activity alone ends:
   *  the same checklists, the same rows, the same keys. */
  lemma {:induction false} BatchIsOneByOne(db: Db, batch: seq<Work>)
    requires Valid(db) && DistinctWorks(batch)
    ensures Persisted(db, batch) == EvaluatedAll(db, batch)
    decreases |batch|
  {
    hide Wanted, Valid, Evaluated, EvaluatedFrom, Without, BatchNew, BatchStale, Checked;
    if |batch| == 0 {
      EmptyBatch(db, db.rows);
    } else {
      var n := |batch| - 1;
      BatchIsOneByOne(db, batch[..n]);
      BatchThenOne(db, batch[..n], batch[n]);
      assert batch[..n] + [batch[n]] == batch;
    }
  }

  lemma EmptyBatch(db: Db, read: seq<Row>)
    ensures PersistedFrom(db, read, []) == db
  {
    WithoutNone(db.rows, []);
  }

  lemma {:induction false} EvaluatedAllConcat(db: Db, xs: seq<Work>, ys: seq<Work>)
    ensures EvaluatedAll(db, xs + ys) == EvaluatedAll(EvaluatedAll(db, xs), ys)
    decreases |ys|
  {
    hide Evaluated;
    if |ys| == 0 {
      assert xs + ys == xs;
    } else {
      var n := |ys| - 1;
      assert (xs + ys)[..|xs| + n] == xs + ys[..n];
      EvaluatedAllConcat(db, xs, ys[..n]);
    }
  }

  // ── The scheduled refresh ───────────────────────────────────────────────────

  /** Open activities, in key order as the table is. */
  function Open(works: seq<Work>): seq<Work>
  {
    if |works| == 0 then []
    else
      var before, last := Open(works[..|works| - 1]), works[|works| - 1];
      if last.listed then before + [last] else before
  }

  function Beyond(works: seq<Work>, pk: nat): seq<Work>
  {
    if |works| == 0 then []
    else
      var before, last := Beyond(works[..|works| - 1], pk), works[|works| - 1];
      if last.pk > pk then before + [last] else before
  }

  ghost predicate InKeyOrder(works: seq<Work>)
  {
    && (forall i :: 0 <= i < |works| ==> works[i].pk > 0)
    && (forall i, j :: 0 <= i < j < |works| ==> works[i].pk < works[j].pk)
  }

  lemma {:induction false} OpenStaysInOrder(works: seq<Work>)
    requires InKeyOrder(works)
    ensures InKeyOrder(Open(works))
    ensures forall i :: 0 <= i < |Open(works)| ==> |works| > 0 && Open(works)[i].pk <= works[|works| - 1].pk
  {
    if |works| == 0 {
    } else {
      OpenStaysInOrder(works[..|works| - 1]);
    }
  }

  /** What lies beyond the last key of a prefix is the rest. */
  lemma {:induction false} BeyondIsTheRest(works: seq<Work>, k: nat, pk: nat)
    requires InKeyOrder(works) && k <= |works|
    requires pk == if k == 0 then 0 else works[k - 1].pk
    ensures Beyond(works, pk) == works[k..]
    decreases |works|
  {
    if k == |works| {
      BeyondNothing(works, pk);
    } else {
      var n := |works| - 1;
      LaterIsBeyond(works, k, pk);
      hide InKeyOrder;
      BeyondIsTheRest(works[..n], k, pk);
      assert works[..n][k..] + [works[n]] == works[k..];
    }
  }

  lemma LaterIsBeyond(works: seq<Work>, k: nat, pk: nat)
    requires InKeyOrder(works) && k < |works|
    requires pk == if k == 0 then 0 else works[k - 1].pk
    ensures InKeyOrder(works[..|works| - 1]) && works[|works| - 1].pk > pk
  {
  }

  lemma {:induction false} BeyondNothing(works: seq<Work>, pk: nat)
    requires forall i :: 0 <= i < |works| ==> works[i].pk <= pk
    ensures Beyond(works, pk) == []
  {
    if |works| == 0 {
    } else {
      BeyondNothing(works[..|works| - 1], pk);
    }
  }

  /** How many checklists a batch changes. */
  function Changes(checklists: map<nat, Facts>, batch: seq<Work>): nat
  {
    if |batch| == 0 then 0
    else
      var last := batch[|batch| - 1];
      Changes(checklists, batch[..|batch| - 1]) + if last.pk in checklists && checklists[last.pk] == last.facts then 0 else 1
  }

  /** Which rows to keep, delete and create for one activity. */
  method ReconcileBlockers(existing: seq<Row>, wanted: seq<Key>) returns (kept: map<Key, Row>, stale: seq<nat>, missing: seq<Key>)
    ensures forall k :: k in kept <==> k in wanted && HasKey(existing, k)
    ensures forall k :: k in kept ==> kept[k].key == k && Oldest(existing, kept[k])
    ensures stale == StalePks(existing, wanted) && missing == Missing(existing, wanted)
  {
    kept, stale, missing := map[], [], [];
    for i := 0 to |existing|
      invariant forall k :: k in kept <==> k in wanted && HasKey(existing[..i], k)
      invariant forall k :: k in kept ==> kept[k].key == k && Oldest(existing[..i], kept[k])
      invariant stale == StalePks(existing[..i], wanted)
    {
      OneMore(existing, i);
      var b := existing[i];
      if b.key in wanted && b.key !in kept {
        kept := kept[b.key := b];
      } else {
        stale := stale + [b.pk];
      }
    }
    assert existing[..|existing|] == existing;
    for i := 0 to |wanted|
      invariant missing == Missing(existing, wanted[..i])
    {
      assert wanted[..i + 1][..i] == wanted[..i];
      if wanted[i] !in kept {
        missing := missing + [wanted[i]];
      }
    }
    assert wanted[..|wanted|] == wanted;
  }

  lemma OneMore(rows: seq<Row>, i: nat)
    requires i < |rows|
    ensures rows[..i + 1][..i] == rows[..i] && rows[..i + 1][i] == rows[i]
    ensures forall k :: HasKey(rows[..i + 1], k) <==> HasKey(rows[..i], k) || rows[i].key == k
    ensures forall row :: Oldest(rows[..i], row) ==> Oldest(rows[..i + 1], row)
    ensures !HasKey(rows[..i], rows[i].key) ==> Oldest(rows[..i + 1], rows[i])
  {
    var before, after := rows[..i], rows[..i + 1];
    forall k ensures HasKey(after, k) <==> HasKey(before, k) || rows[i].key == k {
      if j :| 0 <= j < |before| && before[j].key == k {
        assert after[j].key == k;
      }
      if j :| 0 <= j < |after| && after[j].key == k && j < i {
        assert before[j].key == k;
      }
      assert after[i].key == rows[i].key;
    }
    forall row | Oldest(before, row) ensures Oldest(after, row) {
      var j :| 0 <= j < |before| && before[j] == row && forall l :: 0 <= l < j ==> before[l].key != row.key;
      assert after[j] == row && forall l :: 0 <= l < j ==> after[l] == before[l];
    }
    if !HasKey(before, rows[i].key) {
      assert after[i] == rows[i] && forall l :: 0 <= l < i ==> after[l] == before[l];
    }
  }

  /** What one transaction over a batch deletes and creates. */
  method ReconcileBatch(rows: seq<Row>, batch: seq<Work>, nextPk: nat) returns (stale: seq<nat>, newRows: seq<Row>)
    ensures stale == BatchStale(rows, batch) && newRows == BatchNew(rows, batch, nextPk)
  {
    hide Wanted, RowsOf, StalePks, Missing;
    stale, newRows := [], [];
    for i := 0 to |batch|
      invariant stale == BatchStale(rows, batch[..i]) && newRows == BatchNew(rows, batch[..i], nextPk)
    {
      assert batch[..i + 1][..i] == batch[..i];
      var _, gone, missing := ReconcileBlockers(RowsOf(rows, batch[i].pk), Wanted(batch[i].facts));
      stale := stale + gone;
      newRows := newRows + NewRows(batch[i].pk, missing, nextPk + |newRows|);
    }
    assert batch[..|batch|] == batch;
  }

  /** What an evaluation keeps is in the table afterwards, when nothing was written in between. */
  lemma KeptStays(db: Db, activity: nat, f: Facts, row: Row)
    requires Valid(db) && Oldest(RowsOf(db.rows, activity), row) && row.key in Wanted(f)
    ensures row in Evaluated(db, activity, f).rows && row.activity == activity
  {
    hide Wanted, Evaluated, EvaluatedFrom;
    ExactlyOneRowPerRequirement(db, activity, f);
    RowsOfExact(Evaluated(db, activity, f).rows, activity, row);
  }

  function BatchAfter(works: seq<Work>, pk: nat, size: nat): seq<Work>
  {
    var rest := Beyond(works, pk);
    if |rest| < size then rest else rest[..size]
  }

  function LastPk(all: seq<Work>, k: nat): nat
    requires k <= |all|
  {
    if k == 0 then 0 else all[k - 1].pk
  }

  lemma {:induction false} EvaluatedAllStaysValid(db: Db, works: seq<Work>)
    requires Valid(db)
    ensures Valid(EvaluatedAll(db, works))
  {
    hide Valid, EvaluatedFrom;
    if |works| == 0 {
    } else {
      var before, last := EvaluatedAll(db, works[..|works| - 1]), works[|works| - 1];
      EvaluatedAllStaysValid(db, works[..|works| - 1]);
      EvaluatedStaysValid(before, before.rows, last.pk, last.facts);
    }
  }

  /** The batch after the first `k` activities: nothing only at the end, and persisting it
   *  carries on where evaluating those `k` alone left off. */
  lemma RefreshStep(start: Db, all: seq<Work>, k: nat, size: nat)
    requires Valid(start) && InKeyOrder(all) && k <= |all|
    ensures var db := EvaluatedAll(start, all[..k]); var batch := BatchAfter(all, LastPk(all, k), size);
      && (|batch| == 0 <==> size == 0 || k == |all|)
      && k + |batch| <= |all|
      && (|batch| > 0 ==> batch[|batch| - 1].pk == all[k + |batch| - 1].pk)
      && Valid(Persisted(db, batch)) && Persisted(db, batch) == EvaluatedAll(start, all[..k + |batch|])
  {
    hide Wanted, Evaluated, PersistedFrom, Valid, EvaluatedAll, Beyond;
    var db, batch := EvaluatedAll(start, all[..k]), BatchAfter(all, LastPk(all, k), size);
    BeyondIsTheRest(all, k, LastPk(all, k));
    assert batch == all[k..k + |batch|];
    EvaluatedAllStaysValid(start, all[..k]);
    BatchIsOneByOne(db, batch);
    PersistedStaysValid(db, db.rows, batch);
    EvaluatedAllConcat(start, all[..k], batch);
    assert all[..k] + batch == all[..k + |batch|];
  }

  lemma EvaluatedNone(db: Db, works: seq<Work>)
    ensures EvaluatedAll(db, works[..0]) == db
  {
  }

  lemma MissingIsWanted(existing: seq<Row>, wanted: seq<Key>)
    ensures forall k :: k in wanted && !HasKey(existing, k) ==> k in Missing(existing, wanted)
  {
    hide HasKey;
    forall k | k in wanted && !HasKey(existing, k) ensures k in Missing(existing, wanted) {
      OneMissing(existing, wanted, k);
    }
  }

  lemma {:induction false} OneMissing(existing: seq<Row>, wanted: seq<Key>, k: Key)
    requires k in wanted && !HasKey(existing, k)
    ensures k in Missing(existing, wanted)
  {
    var n := |wanted| - 1;
    if wanted[n] == k {
    } else {
      assert wanted == wanted[..n] + [wanted[n]];
      OneMissing(existing, wanted[..n], k);
    }
  }

  class ClosureDesk {
    var checklists: map<nat, Facts>
    var rows: seq<Row>
    var nextPk: nat

    constructor ()
      ensures View() == Db(map[], [], 1) && Valid(View())
    {
      checklists, rows, nextPk := map[], [], 1;
    }

    ghost function View(): Db
      reads this
    {
      Db(checklists, rows, nextPk)
    }

    /** One row per unmet requirement comes back, in rule order: the one kept or the one created. */
    method Evaluate(read: seq<Row>, activity: nat, f: Facts) returns (blockers: seq<Row>)
      requires Valid(View())
      modifies this
      ensures View() == EvaluatedFrom(old(View()), read, activity, f) && Valid(View())
      ensures |blockers| == |Wanted(f)|
      ensures forall i :: 0 <= i < |blockers| ==>
        && blockers[i].key == Wanted(f)[i]
        && (Oldest(RowsOf(read, activity), blockers[i]) || (blockers[i] in rows && blockers[i].activity == activity))
      ensures read == old(rows) ==> forall i :: 0 <= i < |blockers| ==> blockers[i] in rows && blockers[i].activity == activity
    {
      hide Wanted, RowsOf, Without, Missing, StalePks, Oldest, Valid, HasKey;
      ghost var start := View();
      checklists := checklists[activity := f];
      var existing := RowsOf(read, activity);
      var wanted := Wanted(f);
      var kept, stale, missing := ReconcileBlockers(existing, wanted);
      MissingIsWanted(existing, wanted);
      rows := Without(rows, stale);
      var created := CreateRows(activity, missing);
      EvaluatedStaysValid(start, read, activity, f);
      blockers := [];
      for i := 0 to |wanted|
        invariant |blockers| == i
        invariant forall j :: 0 <= j < i ==>
          && blockers[j].key == wanted[j]
          && (Oldest(existing, blockers[j]) || (blockers[j] in rows && blockers[j].activity == activity))
      {
        assert wanted[i] in wanted;
        blockers := blockers + [if wanted[i] in kept then kept[wanted[i]] else created[wanted[i]]];
      }
      if read == start.rows {
        forall i | 0 <= i < |blockers| ensures blockers[i] in rows && blockers[i].activity == activity {
          assert blockers[i].key in wanted;
          if Oldest(existing, blockers[i]) {
            KeptStays(start, activity, f, blockers[i]);
          }
        }
      }
    }

    method CreateRows(activity: nat, keys: seq<Key>) returns (created: map<Key, Row>)
      modifies this`rows, this`nextPk
      ensures rows == old(rows) + NewRows(activity, keys, old(nextPk)) && nextPk == old(nextPk) + |keys|
      ensures forall k :: k in keys ==> k in created && created[k].key == k && created[k] in rows && created[k].activity == activity
    {
      created := map[];
      for i := 0 to |keys|
        invariant rows == old(rows) + NewRows(activity, keys[..i], old(nextPk)) && nextPk == old(nextPk) + i
        invariant forall k :: k in keys[..i] ==>
          k in created && created[k].key == k && created[k] in rows && created[k].activity == activity
      {
        assert keys[..i + 1] == keys[..i] + [keys[i]];
        var row := Row(nextPk, activity, keys[i]);
        rows := rows + [row];
        created := created[keys[i] := row];
        nextPk := nextPk + 1;
      }
      assert keys[..|keys|] == keys;
    }

    method PersistBatch(read: seq<Row>, batch: seq<Work>) returns (written: nat, added: nat, removed: nat)
      requires Valid(View())
      modifies this
      ensures View() == PersistedFrom(old(View()), read, batch) && Valid(View())
      ensures written == Changes(old(checklists), batch)
      ensures added == nextPk - old(nextPk) && removed == |BatchStale(read, batch)|
    {
      hide Wanted, Checked, BatchStale, BatchNew, Changes, Without, Valid;
      PersistedStaysValid(View(), read, batch);
      written := WriteChecklists(batch);
      var stale, newRows := ReconcileBatch(read, batch, nextPk);
      rows := Without(rows, stale) + newRows;
      nextPk := nextPk + |newRows|;
      return written, |newRows|, |stale|;
    }

    method WriteChecklists(batch: seq<Work>) returns (written: nat)
      modifies this`checklists
      ensures checklists == Checked(old(checklists), batch) && written == Changes(old(checklists), batch)
    {
      var current := checklists;
      written := 0;
      for i := 0 to |batch|
        invariant checklists == Checked(current, batch[..i]) && written == Changes(current, batch[..i])
      {
        assert batch[..i + 1][..i] == batch[..i];
        if !(batch[i].pk in current && current[batch[i].pk] == batch[i].facts) {
          written := written + 1;
        }
        checklists := checklists[batch[i].pk := batch[i].facts];
      }
      assert batch[..|batch|] == batch;
    }

    /** Every open activity is visited once, in key order, and the result is that of evaluating
     *  each alone; a batch size of zero visits none. */
    method RefreshOpen(works: seq<Work>, batchSize: nat) returns (evaluated: nat)
      requires Valid(View()) && InKeyOrder(works)
      modifies this
      ensures Valid(View())
      ensures batchSize > 0 ==> View() == EvaluatedAll(old(View()), Open(works)) && evaluated == |Open(works)|
      ensures batchSize == 0 ==> View() == old(View()) && evaluated == 0
    {
      hide Wanted, Evaluated, PersistedFrom, Valid, EvaluatedAll, BatchAfter, Open, InKeyOrder;
      ghost var start := View();
      ghost var all := Open(works);
      OpenStaysInOrder(works);
      var lastPk := 0;
      evaluated := 0;
      EvaluatedNone(start, all);
      while true
        invariant evaluated <= |all| && Valid(View()) && InKeyOrder(all)
        invariant lastPk == LastPk(all, evaluated)
        invariant View() == EvaluatedAll(start, all[..evaluated])
        invariant batchSize == 0 ==> View() == start && evaluated == 0
        decreases |all| - evaluated
      {
        RefreshStep(start, all, evaluated, batchSize);
        var batch := BatchAfter(Open(works), lastPk, batchSize);
        if |batch| == 0 {
          break;
        }
        lastPk := batch[|batch| - 1].pk;
        var _, _, _ := PersistBatch(rows, batch);
        evaluated := evaluated + |batch|;
      }
      assert all[..|all|] == all;
    }
  }
}
