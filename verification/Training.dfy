/** Which schools have been trained, and how often.
 *
 *  A school is trained in its own classroom, by a register row of a cluster session, or by the
 *  array of attended schools the register replaces. Two readers answer from the same tables:
 *  one which schools, the other how many times. A register row names its session by position.
 */
module Training {
  import opened Basics

  datatype Kind = SchoolTraining | ClusterTraining | NoTraining

  /** `completed` and `credited` are the two readings of the status: for a school's own
   *  training, and for a cluster session. */
  datatype Activity = Activity(
    kind: Kind,
    completed: bool,
    credited: bool,
    deleted: bool,
    year: nat,
    school: Option<nat>,
    legacy: seq<nat>)

  datatype Attendance = Attendance(session: nat, school: nat, attended: bool)

  datatype Db = Db(activities: seq<Activity>, register: seq<Attendance>)

  predicate Valid(db: Db)
  {
    forall i :: 0 <= i < |db.register| ==> db.register[i].session < |db.activities|
  }

  predicate InYear(a: Activity, year: Option<nat>)
  {
    year.Some? ==> a.year == year.value
  }

  predicate OwnTraining(a: Activity, year: Option<nat>, school: nat)
  {
    a.kind == SchoolTraining && a.completed && !a.deleted && InYear(a, year) && a.school == Some(school)
  }

  predicate Session(a: Activity, year: Option<nat>)
  {
    a.kind == ClusterTraining && a.credited && !a.deleted && InYear(a, year)
  }

  predicate Attended(db: Db, year: Option<nat>, row: Attendance, school: nat)
    requires row.session < |db.activities|
  {
    row.attended && row.school == school && Session(db.activities[row.session], year)
  }

  // ── Which ───────────────────────────────────────────────────────────────────

  predicate HasOwn(db: Db, year: Option<nat>, school: nat)
  {
    exists i :: 0 <= i < |db.activities| && OwnTraining(db.activities[i], year, school)
  }

  predicate HasRow(db: Db, year: Option<nat>, school: nat)
    requires Valid(db)
  {
    exists i :: 0 <= i < |db.register| && Attended(db, year, db.register[i], school)
  }

  predicate InArray(db: Db, year: Option<nat>, school: nat)
  {
    exists i :: 0 <= i < |db.activities| && Session(db.activities[i], year) && school in db.activities[i].legacy
  }

  predicate IsTrained(db: Db, year: Option<nat>, school: nat)
    requires Valid(db)
  {
    HasOwn(db, year, school) || HasRow(db, year, school) || InArray(db, year, school)
  }

  method TrainedSchools(db: Db, year: Option<nat>, asked: set<nat>) returns (trained: set<nat>)
    requires Valid(db)
    ensures forall s :: s in trained <==> s in asked && IsTrained(db, year, s)
  {
    if asked == {} {
      return {};
    }
    var own := set s | s in asked && HasOwn(db, year, s);
    var cluster := set s | s in asked && HasRow(db, year, s);
    var fromLegacy := {};
    for i := 0 to |db.activities|
      invariant forall s :: s in fromLegacy <==>
        s in asked && exists j :: 0 <= j < i && Session(db.activities[j], year) && s in db.activities[j].legacy
    {
      if Session(db.activities[i], year) {
        var attended := db.activities[i].legacy;
        ghost var before := fromLegacy;
        for k := 0 to |attended|
          invariant forall s :: s in fromLegacy <==> s in before || (s in asked && s in attended[..k])
        {
          if attended[k] in asked {
            fromLegacy := fromLegacy + {attended[k]};
          }
        }
        assert attended[..|attended|] == attended;
      }
    }
    return own + cluster + fromLegacy;
  }

  // ── How often ───────────────────────────────────────────────────────────────

  function OwnCount(activities: seq<Activity>, year: Option<nat>, school: nat): nat
  {
    if |activities| == 0 then 0
    else
      OwnCount(activities[..|activities| - 1], year, school)
      + if OwnTraining(activities[|activities| - 1], year, school) then 1 else 0
  }

  function RowCount(db: Db, register: seq<Attendance>, year: Option<nat>, school: nat): nat
    requires forall i :: 0 <= i < |register| ==> register[i].session < |db.activities|
  {
    if |register| == 0 then 0
    else
      RowCount(db, register[..|register| - 1], year, school)
      + if Attended(db, year, register[|register| - 1], school) then 1 else 0
  }

  function Occurrences(xs: seq<nat>, x: nat): nat
  {
    if |xs| == 0 then 0 else Occurrences(xs[..|xs| - 1], x) + if xs[|xs| - 1] == x then 1 else 0
  }

  /** What the arrays of the sessions not in `counted` add for a school. */
  function ArrayCount(activities: seq<Activity>, year: Option<nat>, counted: set<nat>, school: nat): nat
  {
    if |activities| == 0 then 0
    else
      var n := |activities| - 1;
      ArrayCount(activities[..n], year, counted, school)
      + if Session(activities[n], year) && n !in counted then Occurrences(activities[n].legacy, school) else 0
  }

  /** The sessions already counted from the register: those an asked school attended. */
  function Counted(db: Db, year: Option<nat>, asked: set<nat>): set<nat>
    requires Valid(db)
  {
    set i | 0 <= i < |db.register| && db.register[i].school in asked && Attended(db, year, db.register[i], db.register[i].school)
      :: db.register[i].session
  }

  function TrainingCount(db: Db, year: Option<nat>, asked: set<nat>, school: nat): nat
    requires Valid(db)
  {
    OwnCount(db.activities, year, school) + RowCount(db, db.register, year, school)
    + ArrayCount(db.activities, year, Counted(db, year, asked), school)
  }

  function Get(counts: map<nat, nat>, school: nat): nat
  {
    if school in counts then counts[school] else 0
  }

  /** A grouped query: the schools that have any, with how many. */
  function Grouped(asked: set<nat>, count: nat -> nat): (groups: map<nat, nat>)
  {
    map s | s in asked && count(s) > 0 :: count(s)
  }

  /** Only asked schools are counted, and none of them zero times. */
  predicate Tidy(counts: map<nat, nat>, asked: set<nat>)
  {
    forall s :: s in counts ==> s in asked && counts[s] > 0
  }

  method AddGroups(counts: map<nat, nat>, groups: map<nat, nat>, ghost asked: set<nat>) returns (total: map<nat, nat>)
    requires Tidy(counts, asked) && Tidy(groups, asked)
    ensures Tidy(total, asked)
    ensures forall s :: Get(total, s) == Get(counts, s) + Get(groups, s)
  {
    total := counts;
    var left := groups;
    while left.Keys != {}
      invariant Tidy(total, asked) && Tidy(left, asked)
      invariant forall s :: Get(total, s) + Get(left, s) == Get(counts, s) + Get(groups, s)
      decreases |left.Keys|
    {
      var s :| s in left;
      ghost var before, rest := total, left;
      total := total[s := Get(total, s) + left[s]];
      left := left - {s};
      assert left.Keys == rest.Keys - {s};
      forall t ensures Get(total, t) + Get(left, t) == Get(before, t) + Get(rest, t) {
      }
    }
  }

  /** One session's array: every listing of an asked school counts. */
  method AddArray(counts: map<nat, nat>, attended: seq<nat>, asked: set<nat>) returns (total: map<nat, nat>)
    requires Tidy(counts, asked)
    ensures Tidy(total, asked)
    ensures forall s :: s in asked ==> Get(total, s) == Get(counts, s) + Occurrences(attended, s)
  {
    total := counts;
    for k := 0 to |attended|
      invariant Tidy(total, asked)
      invariant forall s :: s in asked ==> Get(total, s) == Get(counts, s) + Occurrences(attended[..k], s)
    {
      assert attended[..k + 1][..k] == attended[..k];
      if attended[k] in asked {
        total := total[attended[k] := Get(total, attended[k]) + 1];
      }
    }
    assert attended[..|attended|] == attended;
  }

  method AddArrays(counts: map<nat, nat>, activities: seq<Activity>, year: Option<nat>, counted: set<nat>, asked: set<nat>)
    returns (total: map<nat, nat>)
    requires Tidy(counts, asked)
    ensures Tidy(total, asked)
    ensures forall s :: s in asked ==> Get(total, s) == Get(counts, s) + ArrayCount(activities, year, counted, s)
  {
    hide Get, Tidy, Occurrences;
    total := counts;
    for i := 0 to |activities|
      invariant Tidy(total, asked)
      invariant forall s :: s in asked ==> Get(total, s) == Get(counts, s) + ArrayCount(activities[..i], year, counted, s)
    {
      assert activities[..i + 1][..i] == activities[..i];
      if Session(activities[i], year) && i !in counted {
        total := AddArray(total, activities[i].legacy, asked);
      }
    }
    assert activities[..|activities|] == activities;
  }

  method TrainingCounts(db: Db, year: Option<nat>, asked: set<nat>) returns (counts: map<nat, nat>)
    requires Valid(db)
    ensures forall s :: s in asked ==> Get(counts, s) == TrainingCount(db, year, asked, s)
    ensures forall s :: s in counts <==> s in asked && TrainingCount(db, year, asked, s) > 0
  {
    hide OwnCount, RowCount, ArrayCount, Counted;
    counts := map[];
    if asked == {} {
      return;
    }
    counts := AddGroups(counts, Grouped(asked, s => OwnCount(db.activities, year, s)), asked);
    counts := AddGroups(counts, Grouped(asked, s => RowCount(db, db.register, year, s)), asked);
    counts := AddArrays(counts, db.activities, year, Counted(db, year, asked), asked);
  }

  // ── The two readers ─────────────────────────────────────────────────────────

  lemma {:induction false} OwnCountPositive(activities: seq<Activity>, year: Option<nat>, school: nat)
    ensures OwnCount(activities, year, school) > 0 <==> exists i :: 0 <= i < |activities| && OwnTraining(activities[i], year, school)
  {
    if |activities| == 0 {
    } else {
      var init := activities[..|activities| - 1];
      OwnCountPositive(init, year, school);
      if i :| 0 <= i < |init| && OwnTraining(init[i], year, school) {
        assert OwnTraining(activities[i], year, school);
      }
      if i :| 0 <= i < |activities| && OwnTraining(activities[i], year, school) && i < |init| {
        assert OwnTraining(init[i], year, school);
      }
    }
  }

  lemma {:induction false} RowCountPositive(db: Db, register: seq<Attendance>, year: Option<nat>, school: nat)
    requires forall i :: 0 <= i < |register| ==> register[i].session < |db.activities|
    ensures RowCount(db, register, year, school) > 0 <==>
      exists i :: 0 <= i < |register| && Attended(db, year, register[i], school)
  {
    if |register| == 0 {
    } else {
      var init := register[..|register| - 1];
      RowCountPositive(db, init, year, school);
      if i :| 0 <= i < |init| && Attended(db, year, init[i], school) {
        assert Attended(db, year, register[i], school);
      }
      if i :| 0 <= i < |register| && Attended(db, year, register[i], school) && i < |init| {
        assert Attended(db, year, init[i], school);
      }
    }
  }

  lemma {:induction false} OccursPositive(xs: seq<nat>, x: nat)
    ensures Occurrences(xs, x) > 0 <==> x in xs
  {
    if |xs| == 0 {
    } else {
      OccursPositive(xs[..|xs| - 1], x);
      assert xs == xs[..|xs| - 1] + [xs[|xs| - 1]];
    }
  }

  /** A session whose array lists the school and is not counted from the register. */
  predicate Uncounted(activities: seq<Activity>, year: Option<nat>, counted: set<nat>, school: nat, i: nat)
  {
    i < |activities| && Session(activities[i], year) && i !in counted && school in activities[i].legacy
  }

  lemma {:induction false} ArrayCountPositive(activities: seq<Activity>, year: Option<nat>, counted: set<nat>, school: nat)
    ensures ArrayCount(activities, year, counted, school) > 0 <==> exists i :: Uncounted(activities, year, counted, school, i)
  {
    if |activities| == 0 {
    } else {
      var n := |activities| - 1;
      var init := activities[..n];
      ArrayCountPositive(init, year, counted, school);
      OccursPositive(activities[n].legacy, school);
      if i :| Uncounted(init, year, counted, school, i) {
        assert Uncounted(activities, year, counted, school, i);
      }
      if i :| Uncounted(activities, year, counted, school, i) {
        assert i == n || Uncounted(init, year, counted, school, i);
      }
      assert Uncounted(activities, year, counted, school, n) <==>
        Session(activities[n], year) && n !in counted && Occurrences(activities[n].legacy, school) > 0;
    }
  }

  /** A school with a positive count is always among the trained ones. */
  lemma CountedIsTrained(db: Db, year: Option<nat>, asked: set<nat>, school: nat)
    requires Valid(db) && TrainingCount(db, year, asked, school) > 0
    ensures IsTrained(db, year, school)
  {
    hide OwnCount, RowCount, ArrayCount, Counted, Session;
    OwnCountPositive(db.activities, year, school);
    RowCountPositive(db, db.register, year, school);
    ArrayCountPositive(db.activities, year, Counted(db, year, asked), school);
  }

  /** The sessions whose register says the school attended. */
  predicate RowIn(db: Db, year: Option<nat>, session: nat, school: nat)
    requires Valid(db)
  {
    exists i :: 0 <= i < |db.register| && db.register[i].session == session && Attended(db, year, db.register[i], school)
  }

  /** The array of a session that has a register lists no school the register leaves out. */
  ghost predicate ArraysWithinRegisters(db: Db, year: Option<nat>)
    requires Valid(db)
  {
    forall session: nat, present: nat, listed: nat ::
      session < |db.activities| && RowIn(db, year, session, present) && listed in db.activities[session].legacy
      ==> RowIn(db, year, session, listed)
  }

  lemma CountedExact(db: Db, year: Option<nat>, asked: set<nat>, session: nat)
    requires Valid(db)
    ensures session in Counted(db, year, asked) <==> exists s :: s in asked && RowIn(db, year, session, s)
  {
    if session in Counted(db, year, asked) {
      var i :| 0 <= i < |db.register| && db.register[i].school in asked
        && Attended(db, year, db.register[i], db.register[i].school) && db.register[i].session == session;
      assert RowIn(db, year, session, db.register[i].school);
    }
  }

  lemma {:induction false} SameArrayCount(activities: seq<Activity>, year: Option<nat>, c: set<nat>, d: set<nat>, school: nat)
    requires forall i :: 0 <= i < |activities| && school in activities[i].legacy ==> (i in c <==> i in d)
    ensures ArrayCount(activities, year, c, school) == ArrayCount(activities, year, d, school)
  {
    if |activities| == 0 {
    } else {
      var n := |activities| - 1;
      SameArrayCount(activities[..n], year, c, d, school);
      OccursPositive(activities[n].legacy, school);
    }
  }

  /** Counting fewer sessions from the register counts more from the arrays. */
  lemma {:induction false} MoreArrayCount(activities: seq<Activity>, year: Option<nat>, c: set<nat>, d: set<nat>, school: nat, i: nat)
    requires c <= d && i in d && Uncounted(activities, year, c, school, i)
    ensures ArrayCount(activities, year, c, school) > ArrayCount(activities, year, d, school)
    decreases |activities|
  {
    var n := |activities| - 1;
    OccursPositive(activities[n].legacy, school);
    if i == n {
      FewerArrayCount(activities[..n], year, c, d, school);
    } else {
      MoreArrayCount(activities[..n], year, c, d, school, i);
    }
  }

  lemma {:induction false} FewerArrayCount(activities: seq<Activity>, year: Option<nat>, c: set<nat>, d: set<nat>, school: nat)
    requires c <= d
    ensures ArrayCount(activities, year, c, school) >= ArrayCount(activities, year, d, school)
  {
    if |activities| == 0 {
    } else {
      FewerArrayCount(activities[..|activities| - 1], year, c, d, school);
    }
  }

  lemma SameHowever(db: Db, year: Option<nat>, asked: set<nat>, school: nat)
    requires Valid(db) && ArraysWithinRegisters(db, year) && school in asked
    ensures TrainingCount(db, year, asked, school) == TrainingCount(db, year, {school}, school)
  {
    hide RowIn, Counted;
    forall i | 0 <= i < |db.activities| && school in db.activities[i].legacy
      ensures i in Counted(db, year, asked) <==> i in Counted(db, year, {school})
    {
      CountedExact(db, year, asked, i);
      CountedExact(db, year, {school}, i);
      assert RowIn(db, year, i, school) <==> exists s :: s in {school} && RowIn(db, year, i, s);
    }
    SameArrayCount(db.activities, year, Counted(db, year, asked), Counted(db, year, {school}), school);
  }

  lemma DependsOnOthers(db: Db, year: Option<nat>, session: nat, present: nat, listed: nat)
    requires Valid(db) && session < |db.activities| && listed in db.activities[session].legacy
    requires RowIn(db, year, session, present) && !RowIn(db, year, session, listed)
    ensures TrainingCount(db, year, {listed, present}, listed) < TrainingCount(db, year, {listed}, listed)
  {
    var alone, both := Counted(db, year, {listed}), Counted(db, year, {listed, present});
    forall i | i in alone ensures i in both {
      CountedExact(db, year, {listed}, i);
      CountedExact(db, year, {listed, present}, i);
    }
    CountedExact(db, year, {listed}, session);
    CountedExact(db, year, {listed, present}, session);
    assert Uncounted(db.activities, year, alone, listed, session);
    MoreArrayCount(db.activities, year, alone, both, listed, session);
  }

  /** A school's count does not depend on which others were asked for exactly when the array of
   *  every session with a register stays within it. */
  lemma IndependentIff(db: Db, year: Option<nat>)
    requires Valid(db)
    ensures ArraysWithinRegisters(db, year) <==>
      forall asked: set<nat>, s :: s in asked ==> TrainingCount(db, year, asked, s) == TrainingCount(db, year, {s}, s)
  {
    hide TrainingCount, RowIn;
    if ArraysWithinRegisters(db, year) {
      forall asked: set<nat>, s | s in asked ensures TrainingCount(db, year, asked, s) == TrainingCount(db, year, {s}, s) {
        SameHowever(db, year, asked, s);
      }
    } else {
      var session: nat, present: nat, listed: nat :| session < |db.activities| && RowIn(db, year, session, present)
        && listed in db.activities[session].legacy && !RowIn(db, year, session, listed);
      DependsOnOthers(db, year, session, present, listed);
      assert listed in {listed, present};
    }
  }

  /** The readers disagree about a school exactly when it is only in arrays, and each of those
   *  sessions is counted from the rows of other asked schools. */
  lemma DisagreeIff(db: Db, year: Option<nat>, asked: set<nat>, school: nat)
    requires Valid(db)
    ensures IsTrained(db, year, school) && TrainingCount(db, year, asked, school) == 0 <==>
      && InArray(db, year, school) && !HasOwn(db, year, school) && !HasRow(db, year, school)
      && forall i :: 0 <= i < |db.activities| && Session(db.activities[i], year) && school in db.activities[i].legacy ==>
           i in Counted(db, year, asked)
  {
    hide OwnCount, RowCount, ArrayCount, Counted, Session;
    OwnCountPositive(db.activities, year, school);
    RowCountPositive(db, db.register, year, school);
    var counted := Counted(db, year, asked);
    ArrayCountPositive(db.activities, year, counted, school);
    if i :| 0 <= i < |db.activities| && Session(db.activities[i], year) && school in db.activities[i].legacy && i !in counted {
      assert Uncounted(db.activities, year, counted, school, i);
    }
  }

  /** With the arrays within the registers, the trained schools are those with a positive count. */
  lemma ReadersAgree(db: Db, year: Option<nat>, asked: set<nat>, school: nat)
    requires Valid(db) && ArraysWithinRegisters(db, year)
    ensures TrainingCount(db, year, asked, school) > 0 <==> IsTrained(db, year, school)
  {
    hide TrainingCount, Session, Counted, Attended;
    if TrainingCount(db, year, asked, school) > 0 {
      CountedIsTrained(db, year, asked, school);
    } else if IsTrained(db, year, school) {
      DisagreeIff(db, year, asked, school);
      var i :| 0 <= i < |db.activities| && Session(db.activities[i], year) && school in db.activities[i].legacy;
      CountedExact(db, year, asked, i);
    }
  }
}
