/** Training credit told one credit at a time, from the rows themselves.
 */
module TrainingCredits {
  import opened Basics
  import opened Training

  predicate ThisYear(a: Activity, year: Option<nat>)
  {
    year == None || year == Some(a.year)
  }

  /** A delivered training in the school's own classroom. */
  predicate OwnWork(db: Db, year: Option<nat>, school: nat, i: int)
  {
    0 <= i < |db.activities| &&
    var a := db.activities[i];
    a.kind == SchoolTraining && a.completed && !a.deleted && ThisYear(a, year) && a.school == Some(school)
  }

  /** A cluster session that carries credit. */
  predicate ClusterWork(db: Db, year: Option<nat>, i: int)
  {
    0 <= i < |db.activities| &&
    var a := db.activities[i];
    a.kind == ClusterTraining && a.credited && !a.deleted && ThisYear(a, year)
  }

  /** A register row that says the school came to one. */
  predicate RegisterRow(db: Db, year: Option<nat>, school: nat, j: int)
  {
    0 <= j < |db.register| &&
    db.register[j].attended && db.register[j].school == school && ClusterWork(db, year, db.register[j].session)
  }

  /** A place in a session's array that names the school. */
  predicate Listing(db: Db, year: Option<nat>, school: nat, i: int, k: int)
  {
    ClusterWork(db, year, i) && 0 <= k < |db.activities[i].legacy| && db.activities[i].legacy[k] == school
  }

  /** The register speaks for a session once it has a row of a school that was asked for. */
  ghost predicate FromRegister(db: Db, year: Option<nat>, asked: set<nat>, i: int)
  {
    exists j :: 0 <= j < |db.register| && db.register[j].session == i && db.register[j].school in asked && RegisterRow(db, year, db.register[j].school, j)
  }

  // ── Which ───────────────────────────────────────────────────────────────────

  /** A school is trained exactly when it has any credit at all. */
  lemma TrainedIff(db: Db, year: Option<nat>, school: nat)
    requires Valid(db)
    ensures IsTrained(db, year, school) <==>
      || (exists i :: OwnWork(db, year, school, i))
      || (exists j :: RegisterRow(db, year, school, j))
      || (exists i, k :: Listing(db, year, school, i, k))
  {
    if HasOwn(db, year, school) {
      var i :| 0 <= i < |db.activities| && OwnTraining(db.activities[i], year, school);
      assert OwnWork(db, year, school, i);
    }
    if HasRow(db, year, school) {
      var j :| 0 <= j < |db.register| && Attended(db, year, db.register[j], school);
      assert RegisterRow(db, year, school, j);
    }
    if InArray(db, year, school) {
      var i :| 0 <= i < |db.activities| && Session(db.activities[i], year) && school in db.activities[i].legacy;
      var k :| 0 <= k < |db.activities[i].legacy| && db.activities[i].legacy[k] == school;
      assert Listing(db, year, school, i, k);
    }
    if i :| OwnWork(db, year, school, i) {
      assert OwnTraining(db.activities[i], year, school);
    }
    if j :| RegisterRow(db, year, school, j) {
      assert Attended(db, year, db.register[j], school);
    }
    if i, k :| Listing(db, year, school, i, k) {
      assert Session(db.activities[i], year);
    }
  }

  // ── How often ───────────────────────────────────────────────────────────────

  /** Among the first `n` activities. */
  ghost function OwnCredits(db: Db, year: Option<nat>, school: nat, n: nat): set<int>
  {
    set i | 0 <= i < n && OwnWork(db, year, school, i)
  }

  /** Among the first `m` rows. */
  ghost function RowCredits(db: Db, year: Option<nat>, school: nat, m: nat): set<int>
  {
    set j | 0 <= j < m && RegisterRow(db, year, school, j)
  }

  /** The places in arrays that are counted, among the first `n` activities: those of sessions the
   *  register does not speak for. */
  ghost function ListCredits(db: Db, year: Option<nat>, asked: set<nat>, school: nat, n: nat): set<(int, int)>
    requires n <= |db.activities|
  {
    set i, k | 0 <= i < n && 0 <= k < |db.activities[i].legacy| &&
      Listing(db, year, school, i, k) && !FromRegister(db, year, asked, i) :: (i, k)
  }

  /** A school's count is the number of its credits: its own trainings, its register rows, and its
   *  places in the arrays of the sessions the register does not speak for. */
  lemma CountIsCredits(db: Db, year: Option<nat>, asked: set<nat>, school: nat)
    requires Valid(db)
    ensures TrainingCount(db, year, asked, school) ==
      |OwnCredits(db, year, school, |db.activities|)|
      + |RowCredits(db, year, school, |db.register|)|
      + |ListCredits(db, year, asked, school, |db.activities|)|
  {
    hide OwnCount, RowCount, ArrayCount, OwnCredits, RowCredits, ListCredits, Counted;
    var n, m := |db.activities|, |db.register|;
    assert db.activities[..n] == db.activities && db.register[..m] == db.register;
    OwnUpTo(db, year, school, n);
    RowsUpTo(db, year, school, m);
    ListUpTo(db, year, asked, school, n);
  }

  lemma OneMore<T>(before: set<T>, x: T, more: bool, now: set<T>)
    requires x !in before && now == before + if more then {x} else {}
    ensures |now| == |before| + if more then 1 else 0
  {
  }

  lemma {:induction false} OwnUpTo(db: Db, year: Option<nat>, school: nat, n: nat)
    requires n <= |db.activities|
    ensures OwnCount(db.activities[..n], year, school) == |OwnCredits(db, year, school, n)|
  {
    if n == 0 {
      assert OwnCredits(db, year, school, n) == {};
    } else {
      hide OwnCredits, OwnTraining, OwnWork;
      OwnUpTo(db, year, school, n - 1);
      assert db.activities[..n][..n - 1] == db.activities[..n - 1];
      NextOwn(db, year, school, n - 1);
    }
  }

  lemma NextOwn(db: Db, year: Option<nat>, school: nat, i: nat)
    requires i < |db.activities|
    ensures |OwnCredits(db, year, school, i + 1)|
         == |OwnCredits(db, year, school, i)| + if OwnTraining(db.activities[i], year, school) then 1 else 0
  {
    hide OwnTraining, OwnWork;
    SameOwn(db, year, school, i);
    OneMore(OwnCredits(db, year, school, i), i, OwnWork(db, year, school, i), OwnCredits(db, year, school, i + 1));
  }

  lemma SameOwn(db: Db, year: Option<nat>, school: nat, i: nat)
    requires i < |db.activities|
    ensures OwnWork(db, year, school, i) <==> OwnTraining(db.activities[i], year, school)
  {
  }

  lemma {:induction false} RowsUpTo(db: Db, year: Option<nat>, school: nat, m: nat)
    requires Valid(db) && m <= |db.register|
    ensures RowCount(db, db.register[..m], year, school) == |RowCredits(db, year, school, m)|
  {
    if m == 0 {
      assert RowCredits(db, year, school, m) == {};
    } else {
      hide RowCredits, Attended;
      RowsUpTo(db, year, school, m - 1);
      assert db.register[..m][..m - 1] == db.register[..m - 1];
      NextRow(db, year, school, m - 1);
    }
  }

  lemma NextRow(db: Db, year: Option<nat>, school: nat, j: nat)
    requires Valid(db) && j < |db.register|
    ensures |RowCredits(db, year, school, j + 1)|
         == |RowCredits(db, year, school, j)| + if Attended(db, year, db.register[j], school) then 1 else 0
  {
    hide Attended, RegisterRow;
    SameRow(db, year, school, j);
    OneMore(RowCredits(db, year, school, j), j, RegisterRow(db, year, school, j), RowCredits(db, year, school, j + 1));
  }

  lemma SameRow(db: Db, year: Option<nat>, school: nat, j: nat)
    requires Valid(db) && j < |db.register|
    ensures RegisterRow(db, year, school, j) <==> Attended(db, year, db.register[j], school)
  {
  }

  lemma {:induction false} ListUpTo(db: Db, year: Option<nat>, asked: set<nat>, school: nat, n: nat)
    requires Valid(db) && n <= |db.activities|
    ensures ArrayCount(db.activities[..n], year, Counted(db, year, asked), school) == |ListCredits(db, year, asked, school, n)|
  {
    if n == 0 {
      assert ListCredits(db, year, asked, school, n) == {};
    } else {
      hide Counted, FromRegister, Occurrences, PlacesBefore, ListCredits;
      ListUpTo(db, year, asked, school, n - 1);
      assert db.activities[..n][..n - 1] == db.activities[..n - 1];
      RegisterSpeaksFor(db, year, asked, n - 1);
      assert Session(db.activities[n - 1], year) <==> ClusterWork(db, year, n - 1);
      hide Session, ClusterWork;
      var xs := db.activities[n - 1].legacy;
      Places(xs, school, n - 1, |xs|);
      assert xs[..|xs|] == xs;
      NextList(db, year, asked, school, n);
    }
  }

  lemma NextList(db: Db, year: Option<nat>, asked: set<nat>, school: nat, n: nat)
    requires 0 < n <= |db.activities|
    ensures var xs := db.activities[n - 1].legacy;
      |ListCredits(db, year, asked, school, n)| == |ListCredits(db, year, asked, school, n - 1)|
        + if ClusterWork(db, year, n - 1) && !FromRegister(db, year, asked, n - 1) then |PlacesBefore(xs, school, n - 1, |xs|)| else 0
  {
    hide ClusterWork, FromRegister;
    var xs := db.activities[n - 1].legacy;
    var before, here := ListCredits(db, year, asked, school, n - 1), PlacesBefore(xs, school, n - 1, |xs|);
    if ClusterWork(db, year, n - 1) && !FromRegister(db, year, asked, n - 1) {
      assert ListCredits(db, year, asked, school, n) == before + here;
      assert before !! here;
    } else {
      assert ListCredits(db, year, asked, school, n) == before;
    }
  }

  lemma RegisterSpeaksFor(db: Db, year: Option<nat>, asked: set<nat>, i: nat)
    requires Valid(db)
    ensures i in Counted(db, year, asked) <==> FromRegister(db, year, asked, i)
  {
    if j :| 0 <= j < |db.register| && db.register[j].session == i && db.register[j].school in asked && RegisterRow(db, year, db.register[j].school, j) {
      assert Attended(db, year, db.register[j], db.register[j].school);
    }
  }

  ghost function PlacesBefore(xs: seq<nat>, x: nat, i: int, n: nat): set<(int, int)>
    requires n <= |xs|
  {
    set k | 0 <= k < n && xs[k] == x :: (i, k)
  }

  lemma {:induction false} Places(xs: seq<nat>, x: nat, i: int, n: nat)
    requires n <= |xs|
    ensures Occurrences(xs[..n], x) == |PlacesBefore(xs, x, i, n)|
  {
    if n == 0 {
      assert PlacesBefore(xs, x, i, n) == {};
    } else {
      hide PlacesBefore;
      Places(xs, x, i, n - 1);
      assert xs[..n][..n - 1] == xs[..n - 1];
      NextPlace(xs, x, i, n - 1);
    }
  }

  lemma NextPlace(xs: seq<nat>, x: nat, i: int, k: nat)
    requires k < |xs|
    ensures |PlacesBefore(xs, x, i, k + 1)| == |PlacesBefore(xs, x, i, k)| + if xs[k] == x then 1 else 0
  {
    OneMore(PlacesBefore(xs, x, i, k), (i, k), xs[k] == x, PlacesBefore(xs, x, i, k + 1));
  }
}
