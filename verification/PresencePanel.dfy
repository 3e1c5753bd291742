/** The figures of the Who's Online table: whole minutes that add up, from a task to a person,
 *  from people to their group, and from the groups to the panel.
 */
module PresencePanel {
  import opened Basics

  function Floors(seconds: seq<nat>): (m: seq<nat>)
    ensures |m| == |seconds|
    ensures forall i :: 0 <= i < |seconds| ==> m[i] == seconds[i] / 60
  {
    seq(|seconds|, i requires 0 <= i < |seconds| => seconds[i] / 60)
  }

  function Remainders(seconds: seq<nat>): (r: seq<nat>)
    ensures |r| == |seconds|
    ensures forall i :: 0 <= i < |seconds| ==> r[i] == seconds[i] % 60
  {
    seq(|seconds|, i requires 0 <= i < |seconds| => seconds[i] % 60)
  }

  // ── Most left over first ────────────────────────────────────────────────────

  /** The order of the leftover seconds: most first, then the longer task, then position. */
  predicate Before(seconds: seq<nat>, i: nat, j: nat)
    requires i < |seconds| && j < |seconds|
  {
    || seconds[i] % 60 > seconds[j] % 60
    || (seconds[i] % 60 == seconds[j] % 60 && seconds[i] > seconds[j])
    || (seconds[i] == seconds[j] && i < j)
  }

  ghost predicate Arranged(seconds: seq<nat>, order: seq<nat>)
  {
    && (forall k :: 0 <= k < |order| ==> order[k] < |seconds|)
    && (forall k, l :: 0 <= k < l < |order| ==> Before(seconds, order[k], order[l]))
  }

  function Insert(seconds: seq<nat>, order: seq<nat>, i: nat): (o: seq<nat>)
    requires i < |seconds| && Arranged(seconds, order) && i !in order
    ensures Arranged(seconds, o) && |o| == |order| + 1
    ensures forall x :: x in o <==> x == i || x in order
  {
    if |order| == 0 then [i]
    else if Before(seconds, order[|order| - 1], i) then order + [i]
    else
      var last := order[|order| - 1];
      var init := order[..|order| - 1];
      var rest := Insert(seconds, init, i);
      BehindTheRest(seconds, order, i, rest);
      rest + [last]
  }

  lemma BehindTheRest(seconds: seq<nat>, order: seq<nat>, i: nat, rest: seq<nat>)
    requires |order| > 0 && Arranged(seconds, order) && i < |seconds| && !Before(seconds, order[|order| - 1], i) && i !in order
    requires Arranged(seconds, rest) && forall x :: x in rest <==> x == i || x in order[..|order| - 1]
    ensures var o := rest + [order[|order| - 1]]; Arranged(seconds, o) && forall x :: x in o <==> x == i || x in order
  {
    var n := |order| - 1;
    var last := order[n];
    assert order == order[..n] + [last];
    LaterIfNot(seconds, last, i);
    forall k | 0 <= k < |rest| ensures Before(seconds, rest[k], last) {
      assert rest[k] in rest;
      if rest[k] != i {
        var l :| 0 <= l < n && order[..n][l] == rest[k];
        assert order[l] == rest[k];
      }
    }
  }

  /** Of two positions one comes first. */
  lemma LaterIfNot(seconds: seq<nat>, i: nat, j: nat)
    requires i < |seconds| && j < |seconds| && i != j && !Before(seconds, i, j)
    ensures Before(seconds, j, i)
  {
  }

  /** The first `n` positions, sorted by what is left over. */
  function MostLeft(seconds: seq<nat>, n: nat): (o: seq<nat>)
    requires n <= |seconds|
    ensures Arranged(seconds, o) && |o| == n
    ensures forall i :: i in o <==> 0 <= i < n
  {
    if n == 0 then [] else Insert(seconds, MostLeft(seconds, n - 1), n - 1)
  }

  // ── Sharing ─────────────────────────────────────────────────────────────────

  /** The whole minutes of the total, shared by largest remainder. */
  ghost predicate IsShare(seconds: seq<nat>, minutes: seq<nat>)
  {
    && |minutes| == |seconds|
    && Sum(minutes) == Sum(seconds) / 60
    && (forall i :: 0 <= i < |seconds| ==> Bumped(seconds, minutes, i) || minutes[i] == seconds[i] / 60)
    && (forall i :: 0 <= i < |seconds| && Bumped(seconds, minutes, i) ==> seconds[i] % 60 > 0)
    && (forall i, j :: 0 <= i < |seconds| && 0 <= j < |seconds| && Bumped(seconds, minutes, i) && !Bumped(seconds, minutes, j) ==>
        Before(seconds, i, j))
  }

  predicate Bumped(seconds: seq<nat>, minutes: seq<nat>, i: nat)
    requires i < |seconds| == |minutes|
  {
    minutes[i] == seconds[i] / 60 + 1
  }

  lemma {:induction false} SumOfParts(seconds: seq<nat>)
    ensures Sum(seconds) == 60 * Sum(Floors(seconds)) + Sum(Remainders(seconds))
    ensures Sum(Remainders(seconds)) >= 0
  {
    if |seconds| == 0 {
    } else {
      var init := seconds[..|seconds| - 1];
      SumOfParts(init);
      assert Floors(seconds)[..|init|] == Floors(init);
      assert Remainders(seconds)[..|init|] == Remainders(init);
    }
  }

  function Leftover(seconds: seq<nat>): set<nat>
  {
    set i: nat | i < |seconds| && seconds[i] % 60 > 0
  }

  lemma {:induction false} LeftoverBound(seconds: seq<nat>)
    ensures Sum(Remainders(seconds)) <= 59 * |Leftover(seconds)|
  {
    if |seconds| == 0 {
    } else {
      var n := |seconds| - 1;
      var init := seconds[..n];
      LeftoverBound(init);
      assert Remainders(seconds)[..n] == Remainders(init);
      assert Leftover(seconds) == Leftover(init) + if seconds[n] % 60 > 0 then {n} else {};
    }
  }

  lemma {:induction false} FewElements(xs: seq<nat>, s: set<nat>)
    requires forall x :: x in s ==> x in xs
    ensures |s| <= |xs|
  {
    if |xs| == 0 {
      assert s == {};
    } else {
      var last := xs[|xs| - 1];
      FewElements(xs[..|xs| - 1], s - {last});
      assert |s| <= |s - {last}| + 1;
    }
  }

  /** Once a position in the order is whole, everything after it is. */
  lemma WholeAfter(seconds: seq<nat>, order: seq<nat>, k: nat)
    requires Arranged(seconds, order) && (forall i :: 0 <= i < |seconds| ==> i in order)
    requires k < |order| && seconds[order[k]] % 60 == 0
    ensures |Leftover(seconds)| <= k
  {
    forall i | i in Leftover(seconds) ensures i in order[..k] {
      assert i in order;
      var l :| 0 <= l < |order| && order[l] == i;
      assert l < k;
    }
    FewElements(order[..k], Leftover(seconds));
  }

  /** The spare minutes never reach a task that is already whole. */
  lemma SpareFits(seconds: seq<nat>, order: seq<nat>, spare: int)
    requires Arranged(seconds, order) && (forall i :: 0 <= i < |seconds| ==> i in order)
    requires spare == Sum(seconds) / 60 - Sum(Floors(seconds))
    ensures 0 <= spare <= |order|
    ensures forall k :: 0 <= k < spare ==> seconds[order[k]] % 60 > 0
  {
    assert forall k :: 0 <= k < |order| ==> order[k] < |seconds|;
    hide Arranged;
    SumOfParts(seconds);
    LeftoverBound(seconds);
    assert spare == Sum(Remainders(seconds)) / 60;
    FewElements(order, Leftover(seconds));
    assert 60 * spare <= 59 * |Leftover(seconds)|;
    forall k | 0 <= k < spare ensures seconds[order[k]] % 60 > 0 {
      if seconds[order[k]] % 60 == 0 {
        WholeAfter(seconds, order, k);
        assert false;
      }
    }
  }

  method ShareMinutes(seconds: seq<nat>) returns (minutes: seq<nat>)
    ensures IsShare(seconds, minutes)
  {
    hide IsShare, Before, Arranged, MostLeft, Sum;
    minutes := Floors(seconds);
    var total := SumOf(seconds);
    var kept := SumOf(minutes);
    var mostLeft := MostLeft(seconds, |seconds|);
    SpareFits(seconds, mostLeft, Sum(seconds) / 60 - Sum(minutes));
    var spare := total / 60 - kept;
    PlacesAreDistinct(seconds, mostLeft);
    minutes := BumpFirst(minutes, mostLeft, spare);
    BumpingIsSharing(seconds, minutes, mostLeft, spare);
  }

  /** One more minute for each of the first `spare` places. */
  method BumpFirst(floors: seq<nat>, places: seq<nat>, spare: nat) returns (minutes: seq<nat>)
    requires spare <= |places| && forall k :: 0 <= k < |places| ==> places[k] < |floors| && places[k] !in places[..k]
    ensures |minutes| == |floors| && Sum(minutes) == Sum(floors) + spare
    ensures forall i :: 0 <= i < |floors| ==> minutes[i] == floors[i] + if i in places[..spare] then 1 else 0
  {
    hide Sum;
    minutes := floors;
    for n := 0 to spare
      invariant |minutes| == |floors| && Sum(minutes) == Sum(floors) + n
      invariant forall i :: 0 <= i < |floors| ==> minutes[i] == floors[i] + if i in places[..n] then 1 else 0
    {
      var i := places[n];
      SumUpdate(minutes, i, minutes[i] + 1);
      minutes := minutes[i := minutes[i] + 1];
      assert places[..n + 1] == places[..n] + [i];
    }
  }

  lemma BumpingIsSharing(seconds: seq<nat>, minutes: seq<nat>, order: seq<nat>, spare: nat)
    requires Arranged(seconds, order) && (forall i :: 0 <= i < |seconds| ==> i in order) && spare <= |order|
    requires forall k :: 0 <= k < spare ==> order[k] < |seconds| && seconds[order[k]] % 60 > 0
    requires |minutes| == |seconds| && Sum(minutes) == Sum(Floors(seconds)) + spare == Sum(seconds) / 60
    requires forall i :: 0 <= i < |seconds| ==> minutes[i] == Floors(seconds)[i] + if i in order[..spare] then 1 else 0
    ensures IsShare(seconds, minutes)
  {
    hide Before, Arranged, Sum;
    BumpedComeFirst(seconds, minutes, order, spare);
    forall i | 0 <= i < |seconds| && Bumped(seconds, minutes, i) ensures seconds[i] % 60 > 0 {
      assert i in order[..spare];
      var k :| 0 <= k < spare && order[..spare][k] == i;
      assert order[k] == i;
    }
  }

  lemma NotBeforeItself(seconds: seq<nat>, i: nat)
    requires i < |seconds|
    ensures !Before(seconds, i, i)
  {
  }

  lemma PlacesAreDistinct(seconds: seq<nat>, order: seq<nat>)
    requires Arranged(seconds, order)
    ensures forall k :: 0 <= k < |order| ==> order[k] < |seconds| && order[k] !in order[..k]
  {
    forall k | 0 <= k < |order| ensures order[k] !in order[..k] {
      if order[k] in order[..k] {
        var l :| 0 <= l < k && order[l] == order[k];
        NotBeforeItself(seconds, order[k]);
      }
    }
  }

  lemma BumpedComeFirst(seconds: seq<nat>, minutes: seq<nat>, order: seq<nat>, n: nat)
    requires Arranged(seconds, order) && (forall i :: 0 <= i < |seconds| ==> i in order) && n <= |order|
    requires |minutes| == |seconds|
    requires forall i :: 0 <= i < |seconds| ==> minutes[i] == seconds[i] / 60 + if i in order[..n] then 1 else 0
    ensures forall i, j :: 0 <= i < |seconds| && 0 <= j < |seconds| && Bumped(seconds, minutes, i) && !Bumped(seconds, minutes, j) ==>
      Before(seconds, i, j)
  {
    hide Before;
    forall i, j | 0 <= i < |seconds| && 0 <= j < |seconds| && Bumped(seconds, minutes, i) && !Bumped(seconds, minutes, j)
      ensures Before(seconds, i, j)
    {
      assert i in order[..n] && j in order;
      var l :| 0 <= l < |order| && order[l] == j;
      assert forall m :: 0 <= m < n ==> order[..n][m] == order[m];
    }
  }

  method SumOf(xs: seq<nat>) returns (total: nat)
    ensures total == Sum(xs)
  {
    total := 0;
    for i := 0 to |xs|
      invariant total == Sum(xs[..i])
    {
      assert xs[..i + 1][..i] == xs[..i];
      total := total + xs[i];
    }
    assert xs[..|xs|] == xs;
  }

  /** The share is the only one: nothing about it is left to chance. */
  lemma ShareIsUnique(seconds: seq<nat>, a: seq<nat>, b: seq<nat>)
    requires IsShare(seconds, a) && IsShare(seconds, b)
    ensures a == b
  {
    if a != b {
      var i :| 0 <= i < |a| && a[i] != b[i];
      if Bumped(seconds, a, i) {
        NestedShares(seconds, b, a, i);
      } else {
        NestedShares(seconds, a, b, i);
      }
    }
  }

  /** If some task is bumped only in `b`, everything bumped in `a` is bumped in `b` too. */
  lemma NestedShares(seconds: seq<nat>, a: seq<nat>, b: seq<nat>, i: nat)
    requires IsShare(seconds, a) && IsShare(seconds, b) && i < |seconds|
    requires Bumped(seconds, b, i) && !Bumped(seconds, a, i)
    ensures Sum(a) < Sum(b)
  {
    forall j | 0 <= j < |seconds| ensures a[j] <= b[j] {
      if Bumped(seconds, a, j) && !Bumped(seconds, b, j) {
        assert Before(seconds, j, i) && Before(seconds, i, j);
        assert false;
      }
    }
    SumGrows(a, b, i);
  }

  lemma {:induction false} SumGrows(a: seq<nat>, b: seq<nat>, i: nat)
    requires |a| == |b| && i < |a| && a[i] < b[i] && forall j :: 0 <= j < |a| ==> a[j] <= b[j]
    ensures Sum(a) < Sum(b)
    decreases |a|
  {
    var n := |a| - 1;
    if i < n {
      SumGrows(a[..n], b[..n], i);
    } else {
      SumLeq(a[..n], b[..n]);
    }
  }

  lemma {:induction false} SumLeq(a: seq<nat>, b: seq<nat>)
    requires |a| == |b| && forall j :: 0 <= j < |a| ==> a[j] <= b[j]
    ensures Sum(a) <= Sum(b)
  {
    if |a| == 0 {
    } else {
      SumLeq(a[..|a| - 1], b[..|b| - 1]);
    }
  }

  /** `j` has more left over than `i`; or as much, and is longer; or is the same, and comes earlier. */
  predicate Beats(seconds: seq<nat>, j: nat, i: nat)
    requires j < |seconds| && i < |seconds|
  {
    || seconds[j] % 60 > seconds[i] % 60
    || (seconds[j] % 60 == seconds[i] % 60 && seconds[j] > seconds[i])
    || (seconds[j] == seconds[i] && j < i)
  }

  ghost function AheadOf(seconds: seq<nat>, i: nat): set<nat>
    requires i < |seconds|
  {
    set j: nat | j < |seconds| && Beats(seconds, j, i)
  }

  ghost function BumpedPlaces(seconds: seq<nat>, minutes: seq<nat>): set<nat>
    requires |seconds| == |minutes|
  {
    set i: nat | i < |seconds| && minutes[i] == seconds[i] / 60 + 1
  }

  lemma {:induction false} BumpedCount(seconds: seq<nat>, minutes: seq<nat>)
    requires |seconds| == |minutes|
    requires forall i :: 0 <= i < |seconds| ==> minutes[i] == seconds[i] / 60 || minutes[i] == seconds[i] / 60 + 1
    ensures Sum(minutes) == Sum(Floors(seconds)) + |BumpedPlaces(seconds, minutes)|
  {
    if |seconds| == 0 {
    } else {
      var n := |seconds| - 1;
      BumpedCount(seconds[..n], minutes[..n]);
      assert Floors(seconds)[..n] == Floors(seconds[..n]);
      var before := BumpedPlaces(seconds[..n], minutes[..n]);
      assert BumpedPlaces(seconds, minutes) == before + if minutes[n] == seconds[n] / 60 + 1 then {n} else {};
    }
  }

  lemma OrderIsBeats(seconds: seq<nat>, j: nat, i: nat)
    requires j < |seconds| && i < |seconds|
    ensures Before(seconds, j, i) <==> Beats(seconds, j, i)
    ensures !(Beats(seconds, j, i) && Beats(seconds, i, j))
  {
  }

  lemma Smaller(a: set<nat>, b: set<nat>, x: nat)
    requires a <= b && x in b && x !in a
    ensures |a| < |b|
  {
    assert a <= b - {x};
    Subset(a, b - {x});
  }

  lemma {:induction false} Subset(a: set<nat>, b: set<nat>)
    requires a <= b
    ensures |a| <= |b|
    decreases |a|
  {
    if a == {} {
    } else {
      var x :| x in a;
      Subset(a - {x}, b - {x});
    }
  }

  /** Who gets a spare minute: a task does exactly when fewer tasks are ahead of it than there are
   *  minutes to spare. */
  lemma SpareGoesToTheFirst(seconds: seq<nat>, minutes: seq<nat>, i: nat)
    requires IsShare(seconds, minutes) && i < |seconds|
    ensures minutes[i] == seconds[i] / 60 + (if |AheadOf(seconds, i)| < Sum(seconds) / 60 - Sum(Floors(seconds)) then 1 else 0)
  {
    hide Before, Beats, Sum;
    BumpedCount(seconds, minutes);
    var bumped, ahead := BumpedPlaces(seconds, minutes), AheadOf(seconds, i);
    if Bumped(seconds, minutes, i) {
      forall j | j in ahead ensures j in bumped && j != i {
        OrderIsBeats(seconds, i, j);
        OrderIsBeats(seconds, i, i);
      }
      Smaller(ahead, bumped, i);
    } else {
      forall j | j in bumped ensures j in ahead {
        OrderIsBeats(seconds, j, i);
      }
      Subset(bumped, ahead);
    }
  }

  // ── A person's figures ──────────────────────────────────────────────────────

  /** The Duration column adds up to the Overall time, and that is the person's own whole
   *  minutes. */
  method PeriodFigures(taskSeconds: seq<nat>) returns (taskMinutes: seq<nat>, overall: nat)
    ensures IsShare(taskSeconds, taskMinutes)
    ensures overall == Sum(taskMinutes) == Sum(taskSeconds) / 60
  {
    taskMinutes := ShareMinutes(taskSeconds);
    overall := SumOf(taskMinutes);
  }

  // ── Groups ──────────────────────────────────────────────────────────────────

  datatype Role = ProgramLead | Cceo | OtherRole(name: string)

  datatype Person = Person(id: nat, role: Role, online: bool, seconds: nat, minutes: nat)

  datatype GroupKey = LedBy(lead: nat) | Unled | ByRole(name: string)

  datatype Group = Group(key: GroupKey, lead: Option<Person>, members: seq<Person>)

  /** The heading a person is filed under. */
  function KeyOf(p: Person, leadOf: map<nat, nat>): GroupKey
  {
    match p.role
    case ProgramLead => LedBy(p.id)
    case Cceo => if p.id in leadOf then LedBy(leadOf[p.id]) else Unled
    case OtherRole(name) => ByRole(name)
  }

  function Rows(g: Group): seq<Person>
  {
    (if g.lead.Some? then [g.lead.value] else []) + g.members
  }

  function AllRows(gs: seq<Group>): seq<Person>
  {
    if |gs| == 0 then [] else AllRows(gs[..|gs| - 1]) + Rows(gs[|gs| - 1])
  }

  function Minutes(ps: seq<Person>): nat
  {
    if |ps| == 0 then 0 else Minutes(ps[..|ps| - 1]) + ps[|ps| - 1].minutes
  }

  function Seconds(ps: seq<Person>): nat
  {
    if |ps| == 0 then 0 else Seconds(ps[..|ps| - 1]) + ps[|ps| - 1].seconds
  }

  /** What the headings show, added up. */
  function HeadingMinutes(gs: seq<Group>): nat
  {
    if |gs| == 0 then 0 else HeadingMinutes(gs[..|gs| - 1]) + Minutes(Rows(gs[|gs| - 1]))
  }

  function HeadingSeconds(gs: seq<Group>): nat
  {
    if |gs| == 0 then 0 else HeadingSeconds(gs[..|gs| - 1]) + Seconds(Rows(gs[|gs| - 1]))
  }

  lemma {:induction false} MinutesConcat(xs: seq<Person>, ys: seq<Person>)
    ensures Minutes(xs + ys) == Minutes(xs) + Minutes(ys)
    ensures Seconds(xs + ys) == Seconds(xs) + Seconds(ys)
    decreases |ys|
  {
    if |ys| == 0 {
      assert xs + ys == xs;
    } else {
      MinutesConcat(xs, ys[..|ys| - 1]);
      assert (xs + ys)[..|xs + ys| - 1] == xs + ys[..|ys| - 1];
    }
  }

  /** The group for a key, or the number of groups when there is none. */
  function FindGroup(gs: seq<Group>, key: GroupKey): (i: nat)
    ensures i <= |gs|
    ensures i < |gs| ==> gs[i].key == key
    ensures i == |gs| ==> forall k :: 0 <= k < |gs| ==> gs[k].key != key
  {
    if |gs| == 0 then 0
    else if gs[|gs| - 1].key == key then |gs| - 1
    else
      var i := FindGroup(gs[..|gs| - 1], key);
      if i == |gs| - 1 then |gs| else i
  }

  /** `g` is `before` with one more row. */
  ghost predicate GainsRow(before: Group, g: Group, p: Person)
  {
    && g.key == before.key
    && multiset(Rows(g)) == multiset(Rows(before)) + multiset{p}
    && Minutes(Rows(g)) == Minutes(Rows(before)) + p.minutes
    && Seconds(Rows(g)) == Seconds(Rows(before)) + p.seconds
  }

  lemma {:induction false} HeadingsGain(gs: seq<Group>, i: nat, g: Group, p: Person)
    requires i < |gs| && GainsRow(gs[i], g, p)
    ensures HeadingMinutes(gs[i := g]) == HeadingMinutes(gs) + p.minutes
    ensures HeadingSeconds(gs[i := g]) == HeadingSeconds(gs) + p.seconds
    decreases |gs|
  {
    hide Rows, Minutes, Seconds;
    var n := |gs| - 1;
    if i == n {
      assert gs[i := g][..n] == gs[..n];
    } else {
      assert gs[i := g][..n] == gs[..n][i := g];
      HeadingsGain(gs[..n], i, g, p);
    }
  }

  lemma {:induction false} RowsGain(gs: seq<Group>, i: nat, g: Group, p: Person)
    requires i < |gs| && multiset(Rows(g)) == multiset(Rows(gs[i])) + multiset{p}
    ensures multiset(AllRows(gs[i := g])) == multiset(AllRows(gs)) + multiset{p}
    decreases |gs|
  {
    hide Rows;
    var n := |gs| - 1;
    var hs := gs[i := g];
    if i == n {
      assert hs[..n] == gs[..n];
    } else {
      assert hs[..n] == gs[..n][i := g];
      RowsGain(gs[..n], i, g, p);
    }
    MultisetOfConcat(AllRows(gs[..n]), Rows(gs[n]));
    MultisetOfConcat(AllRows(hs[..n]), Rows(hs[n]));
  }

  lemma MultisetOfConcat(xs: seq<Person>, ys: seq<Person>)
    ensures multiset(xs + ys) == multiset(xs) + multiset(ys)
  {
  }

  lemma SeatedLead(g: Group, p: Person)
    requires g.lead.None?
    ensures GainsRow(g, g.(lead := Some(p)), p)
  {
    assert Rows(g) == g.members;
    MinutesConcat([p], g.members);
    assert [p][..0] == [];
  }

  lemma AddedMember(g: Group, p: Person)
    ensures GainsRow(g, g.(members := g.members + [p]), p)
  {
    assert Rows(g.(members := g.members + [p])) == Rows(g) + [p];
    MinutesConcat(Rows(g), [p]);
    assert [p][..0] == [];
  }

  lemma NewGroup(gs: seq<Group>, key: GroupKey)
    ensures var hs := gs + [Group(key, None, [])];
      AllRows(hs) == AllRows(gs) && HeadingMinutes(hs) == HeadingMinutes(gs) && HeadingSeconds(hs) == HeadingSeconds(gs)
  {
    assert (gs + [Group(key, None, [])])[..|gs|] == gs;
  }

  /** The group to file under, created empty if it is new. */
  function WithGroup(gs: seq<Group>, key: GroupKey): seq<Group>
  {
    if FindGroup(gs, key) == |gs| then gs + [Group(key, None, [])] else gs
  }

  function Seat(g: Group, p: Person): Group
  {
    if p.role.ProgramLead? then g.(lead := Some(p)) else g.(members := g.members + [p])
  }

  function File(gs: seq<Group>, p: Person, leadOf: map<nat, nat>): seq<Group>
  {
    var hs := WithGroup(gs, KeyOf(p, leadOf));
    var i := FindGroup(hs, KeyOf(p, leadOf));
    hs[i := Seat(hs[i], p)]
  }

  ghost predicate DistinctIds(people: seq<Person>)
  {
    forall i, j :: 0 <= i < j < |people| ==> people[i].id != people[j].id
  }

  ghost predicate FiledRight(gs: seq<Group>, leadOf: map<nat, nat>)
  {
    && (forall i, j :: 0 <= i < j < |gs| ==> gs[i].key != gs[j].key)
    && (forall i {:trigger gs[i]} :: 0 <= i < |gs| ==>
        && (forall p :: p in gs[i].members ==> KeyOf(p, leadOf) == gs[i].key && !p.role.ProgramLead?)
        && (gs[i].lead.Some? ==> KeyOf(gs[i].lead.value, leadOf) == gs[i].key && gs[i].lead.value.role.ProgramLead?))
  }

  /** No group is led by someone with this id yet. */
  ghost predicate Vacant(gs: seq<Group>, id: nat)
  {
    forall i :: 0 <= i < |gs| && gs[i].lead.Some? ==> gs[i].lead.value.id != id
  }

  lemma FileGains(gs: seq<Group>, p: Person, leadOf: map<nat, nat>)
    requires FiledRight(gs, leadOf) && Vacant(gs, p.id)
    ensures multiset(AllRows(File(gs, p, leadOf))) == multiset(AllRows(gs)) + multiset{p}
    ensures HeadingMinutes(File(gs, p, leadOf)) == HeadingMinutes(gs) + p.minutes
    ensures HeadingSeconds(File(gs, p, leadOf)) == HeadingSeconds(gs) + p.seconds
  {
    var key := KeyOf(p, leadOf);
    var hs := WithGroup(gs, key);
    var i := FindGroup(hs, key);
    var g := Seat(hs[i], p);
    assert p.role.ProgramLead? ==> hs[i].lead.None?;
    hide Rows, AllRows, HeadingMinutes, HeadingSeconds, FiledRight, Vacant;
    NewGroup(gs, key);
    if p.role.ProgramLead? {
      SeatedLead(hs[i], p);
    } else {
      AddedMember(hs[i], p);
    }
    RowsGain(hs, i, g, p);
    HeadingsGain(hs, i, g, p);
  }

  lemma FileKeepsRight(gs: seq<Group>, p: Person, leadOf: map<nat, nat>)
    requires FiledRight(gs, leadOf)
    ensures FiledRight(File(gs, p, leadOf), leadOf)
    ensures forall id :: Vacant(gs, id) && id != p.id ==> Vacant(File(gs, p, leadOf), id)
  {
  }

  /** Every person stands in exactly one group, the one their role and reporting line name;
   *  and what the headings show adds up to what the people show. */
  method PresenceGroups(people: seq<Person>, leadOf: map<nat, nat>) returns (groups: seq<Group>)
    requires DistinctIds(people)
    ensures multiset(AllRows(groups)) == multiset(people)
    ensures FiledRight(groups, leadOf)
    ensures HeadingMinutes(groups) == Minutes(people)
    ensures HeadingSeconds(groups) == Seconds(people)
  {
    hide *;
    groups := [];
    NoGroups(leadOf);
    assert people[..0] == [];
    var n := 0;
    while n < |people|
      invariant n <= |people|
      invariant multiset(AllRows(groups)) == multiset(people[..n])
      invariant FiledRight(groups, leadOf)
      invariant forall k :: n <= k < |people| ==> Vacant(groups, people[k].id)
      invariant HeadingMinutes(groups) == Minutes(people[..n])
      invariant HeadingSeconds(groups) == Seconds(people[..n])
    {
      FileGains(groups, people[n], leadOf);
      FileKeepsRight(groups, people[n], leadOf);
      TakeOne(people, n);
      OthersDiffer(people, n);
      groups := File(groups, people[n], leadOf);
      n := n + 1;
    }
    assert people[..n] == people;
  }

  lemma NoGroups(leadOf: map<nat, nat>)
    ensures AllRows([]) == [] && FiledRight([], leadOf) && forall id :: Vacant([], id)
    ensures HeadingMinutes([]) == 0 && HeadingSeconds([]) == 0 && Minutes([]) == 0 && Seconds([]) == 0
  {
  }

  lemma OthersDiffer(people: seq<Person>, n: nat)
    requires DistinctIds(people) && n < |people|
    ensures forall k :: n < k < |people| ==> people[k].id != people[n].id
  {
  }

  lemma TakeOne(people: seq<Person>, n: nat)
    requires n < |people|
    ensures multiset(people[..n + 1]) == multiset(people[..n]) + multiset{people[n]}
    ensures Minutes(people[..n + 1]) == Minutes(people[..n]) + people[n].minutes
    ensures Seconds(people[..n + 1]) == Seconds(people[..n]) + people[n].seconds
  {
    assert people[..n + 1] == people[..n] + [people[n]];
    assert people[..n + 1][..n] == people[..n];
  }

  /** Where a person belongs: a lead at the head of their own group, an officer among the members
   *  of their own lead's, an officer nobody leads with the others, everyone else with their role. */
  ghost predicate Stands(p: Person, g: Group, leadOf: map<nat, nat>)
  {
    && (p.role == ProgramLead ==> g.lead == Some(p) && g.key == LedBy(p.id))
    && (p.role == Cceo && p.id in leadOf ==> p in g.members && g.key == LedBy(leadOf[p.id]))
    && (p.role == Cceo && p.id !in leadOf ==> p in g.members && g.key == Unled)
    && (p.role.OtherRole? ==> p in g.members && g.key == ByRole(p.role.name))
  }

  lemma {:induction false} InSomeGroup(gs: seq<Group>, p: Person)
    requires p in AllRows(gs)
    ensures exists i :: 0 <= i < |gs| && p in Rows(gs[i])
  {
    if |gs| == 0 {
    } else {
      hide Rows;
      var n := |gs| - 1;
      if p in Rows(gs[n]) {
      } else {
        InSomeGroup(gs[..n], p);
        var i :| 0 <= i < n && p in Rows(gs[..n][i]);
        assert p in Rows(gs[i]);
      }
    }
  }

  /** Everybody stands where they belong, and in no other group. */
  lemma EveryoneStands(people: seq<Person>, gs: seq<Group>, leadOf: map<nat, nat>, p: Person)
    requires multiset(AllRows(gs)) == multiset(people) && FiledRight(gs, leadOf) && p in people
    ensures exists i :: 0 <= i < |gs| && Stands(p, gs[i], leadOf)
    ensures forall i, j :: 0 <= i < |gs| && 0 <= j < |gs| && p in Rows(gs[i]) && p in Rows(gs[j]) ==> i == j
  {
    assert p in multiset(people) && p in AllRows(gs);
    hide FiledRight, Rows, AllRows, Stands, KeyOf;
    InSomeGroup(gs, p);
    var i :| 0 <= i < |gs| && p in Rows(gs[i]);
    StandsThere(gs, leadOf, p, i);
    forall j, k | 0 <= j < |gs| && 0 <= k < |gs| && p in Rows(gs[j]) && p in Rows(gs[k]) ensures j == k {
      StandsThere(gs, leadOf, p, j);
      StandsThere(gs, leadOf, p, k);
      OneGroupEach(gs, leadOf, j, k);
    }
  }

  lemma StandsThere(gs: seq<Group>, leadOf: map<nat, nat>, p: Person, i: nat)
    requires FiledRight(gs, leadOf) && i < |gs| && p in Rows(gs[i])
    ensures Stands(p, gs[i], leadOf) && gs[i].key == KeyOf(p, leadOf)
  {
    assert gs[i].lead == Some(p) || p in gs[i].members;
  }

  lemma OneGroupEach(gs: seq<Group>, leadOf: map<nat, nat>, i: nat, j: nat)
    requires FiledRight(gs, leadOf) && i < |gs| && j < |gs| && gs[i].key == gs[j].key
    ensures i == j
  {
  }

  /** An officer stands in the group their own lead heads, whenever the lead is in the table. */
  lemma OfficerStandsWithTheirLead(people: seq<Person>, gs: seq<Group>, leadOf: map<nat, nat>, p: Person, lead: Person)
    requires multiset(AllRows(gs)) == multiset(people) && FiledRight(gs, leadOf)
    requires p in people && p.role == Cceo && lead in people && lead.role == ProgramLead
    requires p.id in leadOf && leadOf[p.id] == lead.id
    ensures exists i :: 0 <= i < |gs| && gs[i].lead == Some(lead) && p in gs[i].members
  {
    hide FiledRight;
    EveryoneStands(people, gs, leadOf, p);
    EveryoneStands(people, gs, leadOf, lead);
    var i :| 0 <= i < |gs| && Stands(p, gs[i], leadOf);
    var j :| 0 <= j < |gs| && Stands(lead, gs[j], leadOf);
    OneGroupEach(gs, leadOf, i, j);
  }

  // ── The panel ───────────────────────────────────────────────────────────────

  /** Somebody with the seconds of each of their tasks in the period. */
  datatype Spent = Spent(id: nat, role: Role, online: bool, tasks: seq<nat>)

  /** Everybody's own whole minutes, added up. */
  function WholeMinutes(staff: seq<Spent>): int
  {
    if |staff| == 0 then 0 else WholeMinutes(staff[..|staff| - 1]) + Sum(staff[|staff| - 1].tasks) / 60
  }

  /** Every task minute shown, added up. */
  function TaskMinutes(shares: seq<seq<nat>>): int
  {
    if |shares| == 0 then 0 else TaskMinutes(shares[..|shares| - 1]) + Sum(shares[|shares| - 1])
  }

  ghost predicate Shows(p: Person, spent: Spent, share: seq<nat>)
  {
    && IsShare(spent.tasks, share)
    && p.id == spent.id && p.role == spent.role && p.online == spent.online
    && p.seconds == Sum(spent.tasks) && p.minutes == Sum(share) == Sum(spent.tasks) / 60
  }

  /** From the seconds of every task to the panel: the task minutes add up to each person's, the
   *  people's to their heading's, and the headings' to the total, which is everybody's own whole
   *  minutes. */
  method PanelFigures(staff: seq<Spent>, leadOf: map<nat, nat>)
    returns (shares: seq<seq<nat>>, people: seq<Person>, groups: seq<Group>, total: nat)
    requires forall i, j :: 0 <= i < j < |staff| ==> staff[i].id != staff[j].id
    ensures |shares| == |people| == |staff|
    ensures forall i :: 0 <= i < |staff| ==> Shows(people[i], staff[i], shares[i])
    ensures multiset(AllRows(groups)) == multiset(people) && FiledRight(groups, leadOf)
    ensures total == Minutes(people) == HeadingMinutes(groups) == TaskMinutes(shares) == WholeMinutes(staff)
  {
    hide IsShare, Sum, FiledRight, AllRows, HeadingMinutes;
    shares, people, total := [], [], 0;
    for i := 0 to |staff|
      invariant |shares| == |people| == i
      invariant forall j :: 0 <= j < i ==> Shows(people[j], staff[j], shares[j])
      invariant total == Minutes(people) == TaskMinutes(shares) == WholeMinutes(staff[..i])
    {
      var share, overall := PeriodFigures(staff[i].tasks);
      var seconds := SumOf(staff[i].tasks);
      var p := Person(staff[i].id, staff[i].role, staff[i].online, seconds, overall);
      assert (people + [p])[..i] == people && (shares + [share])[..i] == shares && staff[..i + 1][..i] == staff[..i];
      people, shares, total := people + [p], shares + [share], total + overall;
    }
    assert staff[..|staff|] == staff;
    assert DistinctIds(people) by {
      forall i, j | 0 <= i < j < |people| ensures people[i].id != people[j].id {
        assert Shows(people[i], staff[i], shares[i]) && Shows(people[j], staff[j], shares[j]);
      }
    }
    groups := PresenceGroups(people, leadOf);
  }
}
