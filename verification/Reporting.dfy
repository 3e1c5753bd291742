/** Reporting lines: who supervises whom.
 *
 *  A link is a pair and occurs once. The directory of staff stays as it is while links change.
 *  A reassignment reads the present line and writes later, in no transaction and under no lock:
 *  what it read may be an older table than the one it writes to. The two configurations lock
 *  the staff they are about.
 *  A supervisor "is a lead" when Programme Lead is their active role or among their roles.
 */
module Reporting {
  import opened Basics

  datatype Role =
    | Cceo
    | Lead
    | Director
    | ImpactAssessment
    | RegionalVicePresident
    | Accountant
    | Admin
    | PartnerAdmin
    | PartnerFieldOfficer
    | Internal(name: string)

  datatype Person = Person(active: Role, roles: seq<Role>, country: string, live: bool, accountLive: bool)

  type Directory = map<nat, Person>

  datatype Link = Link(supervisee: nat, supervisor: nat)

  datatype Outcome = Applied | Refused(why: Refusal)

  datatype Refusal = Forbidden | NotFound | NoSupervisorGiven | SelfSupervision | WrongLevel | Unavailable | WrongCountry | NotAManager | Automatic

  predicate Holds(p: Person, r: Role)
  {
    p.active == r || r in p.roles
  }

  predicate Manages(r: Role)
  {
    r == Lead || r == Director || r == ImpactAssessment || r == RegionalVicePresident
  }

  /** The first of the roles that manages. */
  function FirstManaging(roles: seq<Role>): Option<Role>
  {
    if |roles| == 0 then None else if Manages(roles[0]) then Some(roles[0]) else FirstManaging(roles[1..])
  }

  /** The role somebody manages in, preferring the active one. */
  function ManagementRole(p: Person): Option<Role>
  {
    if Manages(p.active) then Some(p.active) else FirstManaging(p.roles)
  }

  /** Who should supervise a role; None where any supervisor will do. */
  function ExpectedSupervisor(r: Role): Option<Role>
  {
    if r == Cceo then Some(Lead) else if r == Lead then Some(Director) else None
  }

  predicate Live(staff: Directory, id: nat)
  {
    id in staff && staff[id].live
  }

  predicate IsLead(staff: Directory, id: nat)
  {
    id in staff && Holds(staff[id], Lead)
  }

  predicate Officer(staff: Directory, id: nat)
  {
    id in staff && staff[id].active == Cceo
  }

  // ── The operations ──────────────────────────────────────────────────────────

  /** The people a reassignment may replace. */
  function DirectSupervisors(staff: Directory, links: set<Link>, x: nat): set<nat>
    requires x in staff
  {
    var expected := ExpectedSupervisor(staff[x].active);
    set l | l in links && l.supervisee == x && (expected.Some? ==> l.supervisor in staff && Holds(staff[l.supervisor], expected.value)) :: l.supervisor
  }

  function CheckAssignment(staff: Directory, x: nat, supervisor: Option<nat>, actor: Role): Outcome
  {
    if !Live(staff, x) then Refused(NotFound)
    else if supervisor.None? then Refused(NoSupervisorGiven)
    else if !Live(staff, supervisor.value) then Refused(NotFound)
    else if supervisor.value == x then Refused(SelfSupervision)
    else
      var expected := ExpectedSupervisor(staff[x].active);
      if expected.Some? && staff[supervisor.value].active != expected.value && actor != Admin then Refused(WrongLevel) else Applied
  }

  /** Whether a reassignment goes on to write: there is no present line, or it is to somebody else. */
  predicate Writes(staff: Directory, seen: set<Link>, x: nat, supervisor: Option<nat>, actor: Role, first: nat)
  {
    && CheckAssignment(staff, x, supervisor, actor) == Applied
    && (DirectSupervisors(staff, seen, x) == {} || (first in DirectSupervisors(staff, seen, x) && Some(first) != supervisor))
  }

  /** `seen` is the table the query for the present line read, and `first` the supervisor it
   *  answered, when there was one. */
  function Assign(staff: Directory, links: set<Link>, seen: set<Link>, x: nat, supervisor: Option<nat>, actor: Role, first: nat): (set<Link>, Outcome)
  {
    var outcome := CheckAssignment(staff, x, supervisor, actor);
    if !Writes(staff, seen, x, supervisor, actor, first) then (links, outcome)
    else if DirectSupervisors(staff, seen, x) == {} then (links + {Link(x, supervisor.value)}, Applied)
    else (links - {Link(x, first)} + {Link(x, supervisor.value)}, Applied)
  }

  /** Keep only the selection under this supervisor, and have all of it. */
  function Replaced(links: set<Link>, supervisor: nat, selected: set<nat>): set<Link>
  {
    (set l | l in links && (l.supervisor == supervisor ==> l.supervisee in selected)) + set x | x in selected :: Link(x, supervisor)
  }

  function WithoutCompeting(staff: Directory, links: set<Link>, lead: nat, selected: set<nat>): set<Link>
  {
    set l | l in links && !(l.supervisee in selected && IsLead(staff, l.supervisor) && l.supervisor != lead)
  }

  function CheckTeam(staff: Directory, lead: nat, selected: set<nat>, actor: Role): Outcome
  {
    if actor != Admin then Refused(Forbidden)
    else if !(Live(staff, lead) && IsLead(staff, lead)) then Refused(NotFound)
    else if !(forall x :: x in selected ==> Live(staff, x) && Holds(staff[x], Cceo)) then Refused(Unavailable)
    else if !(forall x :: x in selected ==> staff[x].country == staff[lead].country) then Refused(WrongCountry)
    else Applied
  }

  function ConfigureTeam(staff: Directory, links: set<Link>, lead: nat, selected: set<nat>, actor: Role): (set<Link>, Outcome)
  {
    var outcome := CheckTeam(staff, lead, selected, actor);
    if outcome.Refused? then (links, outcome) else (Replaced(WithoutCompeting(staff, links, lead, selected), lead, selected), Applied)
  }

  predicate Manageable(staff: Directory, manager: nat, role: Role, x: nat)
    requires manager in staff
  {
    && Live(staff, x) && staff[x].accountLive && x != manager && staff[x].country == staff[manager].country
    && if role == Lead then Holds(staff[x], Cceo) else exists r :: r in [staff[x].active] + staff[x].roles && InternalRole(r)
  }

  predicate InternalRole(r: Role)
  {
    r != Admin && r != PartnerAdmin && r != PartnerFieldOfficer
  }

  function CheckManaged(staff: Directory, manager: nat, selected: set<nat>, actor: Role): Outcome
  {
    if actor != Admin then Refused(Forbidden)
    else if !Live(staff, manager) then Refused(NotFound)
    else
      var role := ManagementRole(staff[manager]);
      if role.None? then Refused(NotAManager)
      else if role.value == Director then Refused(Automatic)
      else if !(forall x :: x in selected ==> Manageable(staff, manager, role.value, x)) then
        Refused(if role.value == Lead then WrongCountry else Unavailable)
      else Applied
  }

  function ConfigureManaged(staff: Directory, links: set<Link>, manager: nat, selected: set<nat>, actor: Role): (set<Link>, Outcome)
  {
    var outcome := CheckManaged(staff, manager, selected, actor);
    if outcome.Refused? then (links, outcome)
    else
      var start :=
        if ManagementRole(staff[manager]) == Some(Lead) then ConfigureTeam(staff, links, manager, selected, actor).0 else links;
      (Replaced(start, manager, selected), Applied)
  }

  // ── Runs ────────────────────────────────────────────────────────────────────

  datatype Call =
    | AssignCall(seen: set<Link>, x: nat, supervisor: Option<nat>, actor: Role, first: nat)
    | TeamCall(lead: nat, selected: set<nat>, actor: Role)
    | ManagedCall(manager: nat, selected: set<nat>, actor: Role)

  function Step(staff: Directory, links: set<Link>, c: Call): set<Link>
  {
    match c
    case AssignCall(seen, x, supervisor, actor, first) => Assign(staff, links, seen, x, supervisor, actor, first).0
    case TeamCall(lead, selected, actor) => ConfigureTeam(staff, links, lead, selected, actor).0
    case ManagedCall(manager, selected, actor) => ConfigureManaged(staff, links, manager, selected, actor).0
  }

  function After(staff: Directory, links: set<Link>, calls: seq<Call>): set<Link>
    decreases |calls|
  {
    if |calls| == 0 then links else After(staff, Step(staff, links, calls[0]), calls[1..])
  }

  predicate LeadLink(staff: Directory, l: Link)
  {
    Officer(staff, l.supervisee) && IsLead(staff, l.supervisor)
  }

  /** An officer has at most one lead. */
  ghost predicate OneLead(staff: Directory, links: set<Link>)
  {
    forall a, b :: a in links && b in links && a.supervisee == b.supervisee && LeadLink(staff, a) && LeadLink(staff, b) ==> a == b
  }

  // ── One lead for each officer ───────────────────────────────────────────────

  /** Since the table was read, another call has given this officer a lead other than this one. */
  predicate Overtaken(staff: Directory, links: set<Link>, seen: set<Link>, x: nat, supervisor: Option<nat>)
  {
    exists l :: l in links - seen && l.supervisee == x && LeadLink(staff, l) && Some(l.supervisor) != supervisor
  }

  /** A reassignment gives an officer two leads exactly when it writes a lead and another call has
   *  given them a different one since it read. */
  lemma AssignKeepsOneLeadIff(staff: Directory, links: set<Link>, seen: set<Link>, x: nat, supervisor: Option<nat>, actor: Role, first: nat)
    requires OneLead(staff, links) && OneLead(staff, seen)
    ensures OneLead(staff, Assign(staff, links, seen, x, supervisor, actor, first).0) <==>
      !(&& Writes(staff, seen, x, supervisor, actor, first)
        && IsLead(staff, supervisor.value) && Overtaken(staff, links, seen, x, supervisor))
  {
    var after := Assign(staff, links, seen, x, supervisor, actor, first).0;
    if Writes(staff, seen, x, supervisor, actor, first) {
      var direct := DirectSupervisors(staff, seen, x);
      assert first in direct ==> Link(x, first) in seen;
      forall l | l in seen && l.supervisee == x && LeadLink(staff, l) ensures l == Link(x, first) && first in direct {
        assert l.supervisor in direct;
      }
      if IsLead(staff, supervisor.value) && Overtaken(staff, links, seen, x, supervisor) {
        var l :| l in links - seen && l.supervisee == x && LeadLink(staff, l) && Some(l.supervisor) != supervisor;
        assert l in after && Link(x, supervisor.value) in after;
      } else {
        forall a, b | a in after && b in after && a.supervisee == b.supervisee && LeadLink(staff, a) && LeadLink(staff, b)
          ensures a == b
        {
        }
      }
    }
  }

  /** Two reassignments of an officer without a lead both read no line, and both write one. */
  lemma TwoReassignmentsExample()
    ensures var first := AssignCall({}, 0, Some(1), Admin, 0);
      var second := AssignCall({}, 0, Some(2), Admin, 0);
      After(PlainStaff, {}, [first, second]) == {Link(0, 1), Link(0, 2)} && !OneLead(PlainStaff, {Link(0, 1), Link(0, 2)})
  {
    var first, second := AssignCall({}, 0, Some(1), Admin, 0), AssignCall({}, 0, Some(2), Admin, 0);
    hide OneLead;
    PlainAssignment({}, 1);
    PlainAssignment({Link(0, 1)}, 2);
    assert [first, second][1..] == [second] && [second][1..] == [];
    assert {Link(0, 1)} + {Link(0, 2)} == {Link(0, 1), Link(0, 2)};
    var once := {Link(0, 1)};
    assert {} + {Link(0, 1)} == once;
    hide Assign;
    assert Step(PlainStaff, {}, first) == once;
    assert After(PlainStaff, {}, [first, second]) == After(PlainStaff, once, [second]) == Step(PlainStaff, once, second);
    TwoLeads();
  }

  const PlainStaff: Directory := map[
    0 := Person(Cceo, [], "UG", true, true),
    1 := Person(Lead, [], "UG", true, true),
    2 := Person(Lead, [], "UG", true, true)]

  lemma PlainAssignment(links: set<Link>, lead: nat)
    requires lead == 1 || lead == 2
    ensures Assign(PlainStaff, links, {}, 0, Some(lead), Admin, 0).0 == links + {Link(0, lead)}
  {
    assert DirectSupervisors(PlainStaff, {}, 0) == {};
  }

  lemma TwoLeads()
    ensures !OneLead(PlainStaff, {Link(0, 1), Link(0, 2)})
  {
    var a, b := Link(0, 1), Link(0, 2);
    assert a in {a, b} && b in {a, b};
  }

  lemma TeamKeepsOneLead(staff: Directory, links: set<Link>, lead: nat, selected: set<nat>, actor: Role)
    requires OneLead(staff, links)
    ensures OneLead(staff, ConfigureTeam(staff, links, lead, selected, actor).0)
  {
  }

  /** Configuring managed people breaks the rule exactly when the manager is a lead who manages
   *  in another role and the selection holds another lead's officer. */
  lemma ManagedKeepsOneLeadIff(staff: Directory, links: set<Link>, manager: nat, selected: set<nat>, actor: Role)
    requires OneLead(staff, links)
    ensures var call := ConfigureManaged(staff, links, manager, selected, actor);
      OneLead(staff, call.0) <==>
        !(&& call.1 == Applied
          && IsLead(staff, manager)
          && ManagementRole(staff[manager]) != Some(Lead)
          && exists l :: l in links && l.supervisee in selected && LeadLink(staff, l) && l.supervisor != manager)
  {
    hide OneLead, CheckManaged, ConfigureTeam, Replaced, LeadLink, ManagementRole;
    if CheckManaged(staff, manager, selected, actor) == Applied {
      ManagerIsThere(staff, manager, selected, actor);
      if ManagementRole(staff[manager]) == Some(Lead) {
        TeamKeepsOneLead(staff, links, manager, selected, actor);
        LeadManagesAsATeam(staff, links, manager, selected, actor);
      } else {
        ReplacingKeepsOneLeadIff(staff, links, manager, selected);
      }
    }
  }

  lemma ManagerIsThere(staff: Directory, manager: nat, selected: set<nat>, actor: Role)
    requires CheckManaged(staff, manager, selected, actor) == Applied
    ensures manager in staff
  {
  }

  /** Taking people on without looking at who else leads them. */
  lemma ReplacingKeepsOneLeadIff(staff: Directory, links: set<Link>, manager: nat, selected: set<nat>)
    requires OneLead(staff, links)
    ensures OneLead(staff, Replaced(links, manager, selected)) <==>
      !(IsLead(staff, manager)
        && exists l :: l in links && l.supervisee in selected && LeadLink(staff, l) && l.supervisor != manager)
  {
    var after := Replaced(links, manager, selected);
    if l :| l in links && l.supervisee in selected && LeadLink(staff, l) && l.supervisor != manager {
      assert l in after && Link(l.supervisee, manager) in after;
    }
  }

  lemma {:induction false} FirstManagingIsHeld(roles: seq<Role>)
    ensures FirstManaging(roles).Some? ==> FirstManaging(roles).value in roles
    decreases |roles|
  {
    if |roles| == 0 || Manages(roles[0]) {
    } else {
      FirstManagingIsHeld(roles[1..]);
    }
  }

  /** For somebody who manages as a lead, the two operations are one. */
  lemma LeadManagesAsATeam(staff: Directory, links: set<Link>, manager: nat, selected: set<nat>, actor: Role)
    requires CheckManaged(staff, manager, selected, actor) == Applied && ManagementRole(staff[manager]) == Some(Lead)
    ensures CheckTeam(staff, manager, selected, actor) == Applied
    ensures ConfigureManaged(staff, links, manager, selected, actor) == ConfigureTeam(staff, links, manager, selected, actor)
  {
    FirstManagingIsHeld(staff[manager].roles);
    assert IsLead(staff, manager);
    var once := ConfigureTeam(staff, links, manager, selected, actor).0;
    assert Replaced(once, manager, selected) == once;
  }

  /** Nobody who is a lead manages other people in another role. */
  ghost predicate LeadsManageAsLeads(staff: Directory)
  {
    forall id :: IsLead(staff, id) && Live(staff, id) ==>
      ManagementRole(staff[id]) == Some(Lead) || ManagementRole(staff[id]) == Some(Director)
  }

  /** No reassignment in the run is overtaken between its reading and its writing. Calls that
   *  read the table they write to never are. */
  ghost predicate NoneOvertaken(staff: Directory, links: set<Link>, calls: seq<Call>)
    decreases |calls|
  {
    |calls| > 0 ==>
      && (calls[0].AssignCall? ==>
          OneLead(staff, calls[0].seen) && !Overtaken(staff, links, calls[0].seen, calls[0].x, calls[0].supervisor))
      && NoneOvertaken(staff, Step(staff, links, calls[0]), calls[1..])
  }

  lemma {:induction false} RunKeepsOneLead(staff: Directory, links: set<Link>, calls: seq<Call>)
    requires OneLead(staff, links) && LeadsManageAsLeads(staff) && NoneOvertaken(staff, links, calls)
    ensures OneLead(staff, After(staff, links, calls))
    decreases |calls|
  {
    hide OneLead, Assign, ConfigureTeam, Overtaken, Writes;
    if |calls| == 0 {
    } else {
      match calls[0] {
        case AssignCall(seen, x, supervisor, actor, first) => AssignKeepsOneLeadIff(staff, links, seen, x, supervisor, actor, first);
        case TeamCall(lead, selected, actor) => TeamKeepsOneLead(staff, links, lead, selected, actor);
        case ManagedCall(manager, selected, actor) => ManagedKeepsOneLeadIff(staff, links, manager, selected, actor);
      }
      RunKeepsOneLead(staff, Step(staff, links, calls[0]), calls[1..]);
    }
  }

  /** Every reassignment reads the table it writes to. */
  predicate Serial(staff: Directory, links: set<Link>, calls: seq<Call>)
    decreases |calls|
  {
    |calls| > 0 ==>
      (calls[0].AssignCall? ==> calls[0].seen == links) && Serial(staff, Step(staff, links, calls[0]), calls[1..])
  }

  /** Without interleaving there is nothing to assume. */
  lemma {:induction false} SerialRunKeepsOneLead(staff: Directory, links: set<Link>, calls: seq<Call>)
    requires OneLead(staff, links) && LeadsManageAsLeads(staff) && Serial(staff, links, calls)
    ensures OneLead(staff, After(staff, links, calls)) && NoneOvertaken(staff, links, calls)
    decreases |calls|
  {
    hide OneLead, Assign, ConfigureTeam, Writes, LeadsManageAsLeads;
    if |calls| == 0 {
    } else {
      var next := Step(staff, links, calls[0]);
      assert NoneOvertaken(staff, next, []);
      assert [calls[0]][1..] == [];
      assert NoneOvertaken(staff, links, [calls[0]]);
      assert After(staff, next, []) == next && After(staff, links, [calls[0]]) == next;
      RunKeepsOneLead(staff, links, [calls[0]]);
      SerialRunKeepsOneLead(staff, next, calls[1..]);
    }
  }

  const MixedStaff: Directory := map[
    0 := Person(Cceo, [], "UG", true, true),
    1 := Person(Lead, [], "UG", true, true),
    2 := Person(ImpactAssessment, [Lead], "UG", true, true)]

  /** A lead who acts as Impact Assessment takes an officer on without the first lead losing them. */
  lemma TwoLeadsExample()
    ensures !OneLead(MixedStaff, After(MixedStaff, {}, [TeamCall(1, {0}, Admin), ManagedCall(2, {0}, Admin)]))
  {
    hide OneLead, ConfigureTeam, ConfigureManaged;
    var first, second := TeamCall(1, {0}, Admin), ManagedCall(2, {0}, Admin);
    var once := Step(MixedStaff, {}, first);
    TeamCallApplies();
    TeamIsTheSelection(MixedStaff, {}, 1, {0}, Admin, Link(0, 1));
    ManagedCallApplies(once);
    EmptyHasOneLead();
    TeamKeepsOneLead(MixedStaff, {}, 1, {0}, Admin);
    ManagedKeepsOneLeadIff(MixedStaff, once, 2, {0}, Admin);
    assert [first, second][1..] == [second] && [second][1..] == [];
    assert After(MixedStaff, {}, [first, second]) == After(MixedStaff, once, [second]) == Step(MixedStaff, once, second);
  }

  lemma EmptyHasOneLead()
    ensures OneLead(MixedStaff, {})
  {
  }

  lemma TeamCallApplies()
    ensures ConfigureTeam(MixedStaff, {}, 1, {0}, Admin).1 == Applied
  {
  }

  lemma ManagedCallApplies(links: set<Link>)
    ensures ConfigureManaged(MixedStaff, links, 2, {0}, Admin).1 == Applied
    ensures ManagementRole(MixedStaff[2]) == Some(ImpactAssessment)
    ensures IsLead(MixedStaff, 1) && IsLead(MixedStaff, 2) && Officer(MixedStaff, 0)
  {
    assert MixedStaff[0].active in [MixedStaff[0].active] + MixedStaff[0].roles;
    assert Manageable(MixedStaff, 2, ImpactAssessment, 0);
  }

  // ── What each operation does to the lines ───────────────────────────────────

  /** A lead's team becomes exactly the selection; the selected leave every other lead; no line
   *  to anybody who is not a lead is touched, and no other lead loses anybody else. */
  lemma TeamIsTheSelection(staff: Directory, links: set<Link>, lead: nat, selected: set<nat>, actor: Role, l: Link)
    requires ConfigureTeam(staff, links, lead, selected, actor).1 == Applied
    ensures var after := ConfigureTeam(staff, links, lead, selected, actor).0;
      && (l.supervisor == lead ==> (l in after <==> l.supervisee in selected))
      && (!IsLead(staff, l.supervisor) ==> (l in after <==> l in links))
      && (IsLead(staff, l.supervisor) && l.supervisor != lead ==> (l in after <==> l in links && l.supervisee !in selected))
  {
  }

  /** A reassignment changes one person's lines only: at most the line it read goes, and one
   *  comes. An officer nobody else has given a lead ends with the new one alone. */
  lemma AssignReplacesOneLine(staff: Directory, links: set<Link>, seen: set<Link>, x: nat, supervisor: nat, actor: Role, first: nat)
    requires Assign(staff, links, seen, x, Some(supervisor), actor, first).1 == Applied
    requires DirectSupervisors(staff, seen, x) != {} ==> first in DirectSupervisors(staff, seen, x)
    ensures var after := Assign(staff, links, seen, x, Some(supervisor), actor, first).0;
      && (DirectSupervisors(staff, seen, x) == {} || first != supervisor ==> Link(x, supervisor) in after)
      && after - links <= {Link(x, supervisor)} && links - after <= {Link(x, first)}
      && (Officer(staff, x) ==> forall l :: l in links && !IsLead(staff, l.supervisor) ==> l in after)
      && (Officer(staff, x) && IsLead(staff, supervisor) && OneLead(staff, seen) && !Overtaken(staff, links, seen, x, Some(supervisor)) ==>
            forall s :: Link(x, s) in after && IsLead(staff, s) ==> s == supervisor)
  {
    if Officer(staff, x) {
      forall l | l in seen && l.supervisee == x && IsLead(staff, l.supervisor) ensures l.supervisor in DirectSupervisors(staff, seen, x) {
      }
      assert first in DirectSupervisors(staff, seen, x) ==> Link(x, first) in seen;
    }
  }

  /** Oversight: the person manages as Impact Assessment or as a Vice President. */
  predicate Oversees(staff: Directory, id: nat)
  {
    id in staff && (ManagementRole(staff[id]) == Some(ImpactAssessment) || ManagementRole(staff[id]) == Some(RegionalVicePresident))
  }

  ghost predicate OversightKept(staff: Directory, before: set<Link>, after: set<Link>)
  {
    forall l :: l in before && Oversees(staff, l.supervisor) ==> l in after
  }

  /** A reassignment keeps every oversight row unless the line it replaces is one. */
  lemma OversightKeptIff(staff: Directory, links: set<Link>, seen: set<Link>, x: nat, supervisor: Option<nat>, actor: Role, first: nat)
    ensures var call := Assign(staff, links, seen, x, supervisor, actor, first);
      OversightKept(staff, links, call.0) <==>
        !(&& call.1 == Applied && first in DirectSupervisors(staff, seen, x)
          && Some(first) != supervisor && Oversees(staff, first) && Link(x, first) in links)
  {
  }

  /** Whichever present line the query answers first, oversight rows stay exactly when the call is
   *  refused or none of the lines it may replace, other than to the new supervisor, is one. */
  lemma OversightAlwaysKeptIff(staff: Directory, links: set<Link>, x: nat, supervisor: Option<nat>, actor: Role)
    ensures (forall first :: OversightKept(staff, links, Assign(staff, links, links, x, supervisor, actor, first).0)) <==>
      || CheckAssignment(staff, x, supervisor, actor) != Applied
      || forall d :: d in DirectSupervisors(staff, links, x) ==> Some(d) == supervisor || !Oversees(staff, d)
  {
    hide OversightKept, Oversees;
    forall first: nat
      ensures OversightKept(staff, links, Assign(staff, links, links, x, supervisor, actor, first).0) <==>
        !(&& CheckAssignment(staff, x, supervisor, actor) == Applied && first in DirectSupervisors(staff, links, x)
          && Some(first) != supervisor && Oversees(staff, first))
    {
      OversightKeptIff(staff, links, links, x, supervisor, actor, first);
      if x in staff && first in DirectSupervisors(staff, links, x) {
        assert Link(x, first) in links;
      }
    }
  }

  const SomeStaff: Directory := map[
    0 := Person(Accountant, [], "UG", true, true),
    1 := Person(RegionalVicePresident, [], "UG", true, true),
    2 := Person(Director, [], "UG", true, true)]

  /** For staff nobody in particular should supervise, any of their lines is "the" direct one:
   *  giving an accountant a supervisor deletes the oversight row of a Vice President. */
  lemma OversightLostExample()
    ensures Assign(SomeStaff, {Link(0, 1)}, {Link(0, 1)}, 0, Some(2), Admin, 1) == ({Link(0, 2)}, Applied)
  {
    assert Link(0, 1).supervisor in DirectSupervisors(SomeStaff, {Link(0, 1)}, 0);
    assert {Link(0, 1)} - {Link(0, 1)} + {Link(0, 2)} == {Link(0, 2)};
  }

  // ── The service ─────────────────────────────────────────────────────────────

  class ReportingLines {
    const staff: Directory
    var links: set<Link>

    constructor (staff: Directory)
      ensures this.staff == staff && links == {}
    {
      this.staff := staff;
      links := {};
    }

    /** `seen` is the table as it was when the present line was read. */
    method AssignSupervisor(seen: set<Link>, x: nat, supervisor: Option<nat>, actor: Role) returns (outcome: Outcome)
      modifies this
      ensures outcome == CheckAssignment(staff, x, supervisor, actor)
      ensures exists first: nat ::
        && (x in staff && DirectSupervisors(staff, seen, x) != {} ==> first in DirectSupervisors(staff, seen, x))
        && links == Assign(staff, old(links), seen, x, supervisor, actor, first).0
    {
      outcome := CheckAssignment(staff, x, supervisor, actor);
      ghost var before := links;
      ghost var chosen: nat := 0;
      if outcome.Refused? {
        if x in staff && DirectSupervisors(staff, seen, x) != {} {
          chosen :| chosen in DirectSupervisors(staff, seen, x);
        }
        assert links == Assign(staff, before, seen, x, supervisor, actor, chosen).0;
        return;
      }
      var direct := DirectSupervisors(staff, seen, x);
      var present: Option<nat> := None;
      if direct != {} {
        var first :| first in direct;
        present := Some(first);
        chosen := first;
      }
      if present.Some? && present.value != supervisor.value {
        links := links - {Link(x, present.value)};
        present := None;
      }
      if present.None? {
        links := links + {Link(x, supervisor.value)};
      }
      assert links == Assign(staff, before, seen, x, supervisor, actor, chosen).0;
    }

    method ConfigureProgramLeadTeam(lead: nat, selected: set<nat>, actor: Role) returns (outcome: Outcome)
      modifies this
      ensures (links, outcome) == ConfigureTeam(staff, old(links), lead, selected, actor)
    {
      outcome := CheckTeam(staff, lead, selected, actor);
      if outcome.Refused? {
        return;
      }
      links := set l | l in links && (l.supervisor == lead ==> l.supervisee in selected);
      links := set l | l in links && !(l.supervisee in selected && IsLead(staff, l.supervisor) && l.supervisor != lead);
      var existing := set l | l in links && l.supervisor == lead && l.supervisee in selected :: l.supervisee;
      links := links + set x | x in selected && x !in existing :: Link(x, lead);
      assert links == Replaced(WithoutCompeting(staff, old(links), lead, selected), lead, selected);
    }

    method ConfigureManagedPeople(manager: nat, selected: set<nat>, actor: Role) returns (outcome: Outcome)
      modifies this
      ensures (links, outcome) == ConfigureManaged(staff, old(links), manager, selected, actor)
    {
      outcome := CheckManaged(staff, manager, selected, actor);
      if outcome.Refused? {
        return;
      }
      if ManagementRole(staff[manager]) == Some(Lead) {
        var _ := ConfigureProgramLeadTeam(manager, selected, actor);
      }
      ghost var start := links;
      links := set l | l in links && (l.supervisor == manager ==> l.supervisee in selected);
      var existing := set l | l in links && l.supervisor == manager && l.supervisee in selected :: l.supervisee;
      links := links + set x | x in selected && x !in existing :: Link(x, manager);
      assert links == Replaced(start, manager, selected);
    }
  }
}
