/** When a change of reporting lines is accepted, and which lines there are afterwards, written out
 *  from the staff directory.
 */
module ReportingRules {
  import opened Basics
  import opened Reporting

  /** On the staff, not deleted. */
  predicate Present(staff: Directory, id: nat)
  {
    id in staff && staff[id].live
  }

  /** The level a supervisor should have: a lead over an officer, a director over a lead. */
  predicate RightLevel(supervisee: Role, supervisor: Role)
  {
    (supervisee == Cceo ==> supervisor == Lead) && (supervisee == Lead ==> supervisor == Director)
  }

  /** A reassignment is accepted exactly when both are there, they differ, and the levels fit or an
   *  Admin asks; otherwise the first thing wrong is what is answered. */
  lemma AssignmentIff(staff: Directory, x: nat, supervisor: Option<nat>, actor: Role)
    ensures var outcome := CheckAssignment(staff, x, supervisor, actor);
      && (outcome == Applied <==>
          && Present(staff, x) && supervisor.Some? && Present(staff, supervisor.value) && supervisor.value != x
          && (actor == Admin || RightLevel(staff[x].active, staff[supervisor.value].active)))
      && (outcome == Refused(NotFound) <==> !Present(staff, x) || (supervisor.Some? && !Present(staff, supervisor.value)))
      && (outcome == Refused(NoSupervisorGiven) <==> Present(staff, x) && supervisor.None?)
      && (outcome == Refused(SelfSupervision) <==> Present(staff, x) && supervisor == Some(x))
      && (outcome == Applied || outcome in {Refused(NotFound), Refused(NoSupervisorGiven), Refused(SelfSupervision), Refused(WrongLevel)})
  {
  }

  /** Somebody in the person's present line: for an officer their leads, for a lead their directors,
   *  for anybody else whoever supervises them. */
  predicate InLine(staff: Directory, links: set<Link>, x: nat, s: nat)
  {
    && x in staff && Link(x, s) in links
    && (staff[x].active == Cceo ==> s in staff && (staff[s].active == Lead || Lead in staff[s].roles))
    && (staff[x].active == Lead ==> s in staff && (staff[s].active == Director || Director in staff[s].roles))
  }

  lemma InLineIff(staff: Directory, links: set<Link>, x: nat, s: nat)
    requires x in staff
    ensures s in DirectSupervisors(staff, links, x) <==> InLine(staff, links, x, s)
  {
    if InLine(staff, links, x, s) {
      assert Link(x, s).supervisor == s;
    }
  }

  /** Which lines there are after an accepted reassignment: with the new supervisor already in the
   *  line that was read, and answered, the same; otherwise the new line, and not the answered one. */
  lemma AssignedLines(staff: Directory, links: set<Link>, seen: set<Link>, x: nat, supervisor: nat, actor: Role, first: nat, l: Link)
    requires CheckAssignment(staff, x, Some(supervisor), actor) == Applied
    requires InLine(staff, seen, x, first) || forall s :: !InLine(staff, seen, x, s)
    ensures var after, found := Assign(staff, links, seen, x, Some(supervisor), actor, first).0, InLine(staff, seen, x, first);
      && (found && first == supervisor ==> after == links)
      && (found && first != supervisor ==> (l in after <==> l == Link(x, supervisor) || (l in links && l != Link(x, first))))
      && (!found ==> (l in after <==> l == Link(x, supervisor) || l in links))
  {
    hide CheckAssignment, InLine;
    PresentStaff(staff, x, supervisor, actor);
    forall s ensures s in DirectSupervisors(staff, seen, x) <==> InLine(staff, seen, x, s) {
      InLineIff(staff, seen, x, s);
    }
    if !InLine(staff, seen, x, first) {
      assert DirectSupervisors(staff, seen, x) == {};
    }
  }

  lemma PresentStaff(staff: Directory, x: nat, supervisor: nat, actor: Role)
    requires CheckAssignment(staff, x, Some(supervisor), actor) == Applied
    ensures x in staff
  {
  }

  /** A refused call leaves every line as it was. */
  lemma RefusedChangesNothing(staff: Directory, links: set<Link>, c: Call)
    requires match c
      case AssignCall(_, x, supervisor, actor, _) => CheckAssignment(staff, x, supervisor, actor).Refused?
      case TeamCall(lead, selected, actor) => CheckTeam(staff, lead, selected, actor).Refused?
      case ManagedCall(manager, selected, actor) => CheckManaged(staff, manager, selected, actor).Refused?
    ensures Step(staff, links, c) == links
  {
    hide CheckAssignment, CheckTeam, CheckManaged;
  }

  /** A team is accepted exactly when an Admin asks, for somebody there who is a lead, and every
   *  officer selected is there, is an officer and works in the lead's country. */
  lemma TeamIff(staff: Directory, lead: nat, selected: set<nat>, actor: Role)
    ensures var outcome := CheckTeam(staff, lead, selected, actor);
      && (outcome == Applied <==>
          && actor == Admin && Present(staff, lead) && (staff[lead].active == Lead || Lead in staff[lead].roles)
          && forall x :: x in selected ==>
            Present(staff, x) && (staff[x].active == Cceo || Cceo in staff[x].roles) && staff[x].country == staff[lead].country)
      && (outcome == Refused(Forbidden) <==> actor != Admin)
      && (outcome == Refused(NotFound) <==>
          actor == Admin && !(Present(staff, lead) && (staff[lead].active == Lead || Lead in staff[lead].roles)))
      && (outcome == Refused(WrongCountry) ==>
          forall x :: x in selected ==> Present(staff, x) && (staff[x].active == Cceo || Cceo in staff[x].roles))
      && (outcome.Refused? ==> outcome.why in {Forbidden, NotFound, Unavailable, WrongCountry})
  {
  }

  /** The role somebody manages in: the active one if it manages, else the first listed that does. */
  ghost predicate ManagesAs(p: Person, r: Role)
  {
    && r in {Lead, Director, ImpactAssessment, RegionalVicePresident}
    && (p.active in {Lead, Director, ImpactAssessment, RegionalVicePresident} ==> r == p.active)
    && (p.active !in {Lead, Director, ImpactAssessment, RegionalVicePresident} ==>
        exists i :: 0 <= i < |p.roles| && p.roles[i] == r &&
          forall j :: 0 <= j < i ==> p.roles[j] !in {Lead, Director, ImpactAssessment, RegionalVicePresident})
  }

  lemma {:induction false} FirstManagingIff(roles: seq<Role>, r: Role)
    ensures FirstManaging(roles) == Some(r) <==>
      exists i :: 0 <= i < |roles| && roles[i] == r && Manages(r) && forall j :: 0 <= j < i ==> !Manages(roles[j])
    decreases |roles|
  {
    if |roles| == 0 || Manages(roles[0]) {
      if FirstManaging(roles) == Some(r) {
        assert roles[0] == r;
      }
    } else {
      FirstManagingIff(roles[1..], r);
      if FirstManaging(roles) == Some(r) {
        var i :| 0 <= i < |roles[1..]| && roles[1..][i] == r && Manages(r) && forall j :: 0 <= j < i ==> !Manages(roles[1..][j]);
        assert forall j :: 0 < j < i + 1 ==> roles[j] == roles[1..][j - 1];
        assert roles[i + 1] == r;
      }
      if i :| 0 <= i < |roles| && roles[i] == r && Manages(r) && forall j :: 0 <= j < i ==> !Manages(roles[j]) {
        assert roles[1..][i - 1] == r;
        assert forall j :: 0 <= j < i - 1 ==> roles[1..][j] == roles[j + 1];
      }
    }
  }

  lemma ManagementRoleIff(p: Person, r: Role)
    ensures ManagementRole(p) == Some(r) <==> ManagesAs(p, r)
  {
    FirstManagingIff(p.roles, r);
    forall q ensures Manages(q) <==> q in {Lead, Director, ImpactAssessment, RegionalVicePresident} {
    }
  }

  /** Whom somebody may manage in a role: other staff of the same country with a live account, a
   *  lead officers only, the others anyone with a role inside the organisation. */
  ghost predicate MayBeManaged(staff: Directory, manager: nat, r: Role, x: nat)
  {
    && manager in staff && Present(staff, x) && staff[x].accountLive && x != manager && staff[x].country == staff[manager].country
    && (r == Lead ==> staff[x].active == Cceo || Cceo in staff[x].roles)
    && (r != Lead ==>
        || staff[x].active !in {Admin, PartnerAdmin, PartnerFieldOfficer}
        || exists q :: q in staff[x].roles && q !in {Admin, PartnerAdmin, PartnerFieldOfficer})
  }

  lemma ManageableIff(staff: Directory, manager: nat, r: Role, x: nat)
    requires manager in staff
    ensures Manageable(staff, manager, r, x) <==> MayBeManaged(staff, manager, r, x)
  {
    if Present(staff, x) {
      var roles := [staff[x].active] + staff[x].roles;
      forall q ensures q in roles <==> q == staff[x].active || q in staff[x].roles {
      }
      assert InternalRole(staff[x].active) <==> staff[x].active !in {Admin, PartnerAdmin, PartnerFieldOfficer};
      if q :| q in staff[x].roles && q !in {Admin, PartnerAdmin, PartnerFieldOfficer} {
        assert q in roles && InternalRole(q);
      }
      assert InternalRole(staff[x].active) ==> staff[x].active in roles;
    }
  }

  /** Managed people are accepted exactly when an Admin asks, for somebody there who manages in a
   *  role other than director, and everybody selected may be managed in it. */
  lemma ManagedIff(staff: Directory, manager: nat, selected: set<nat>, actor: Role, r: Role)
    requires Present(staff, manager) && ManagesAs(staff[manager], r)
    ensures CheckManaged(staff, manager, selected, actor) == Applied <==>
      actor == Admin && r != Director && forall x :: x in selected ==> MayBeManaged(staff, manager, r, x)
    ensures CheckManaged(staff, manager, selected, actor) == Refused(Forbidden) <==> actor != Admin
    ensures CheckManaged(staff, manager, selected, actor) == Refused(Automatic) <==> actor == Admin && r == Director
  {
    hide ManagesAs, MayBeManaged, Manageable, ManagementRole;
    ManagementRoleIff(staff[manager], r);
    forall x ensures Manageable(staff, manager, r, x) <==> MayBeManaged(staff, manager, r, x) {
      ManageableIff(staff, manager, r, x);
    }
  }

  lemma NobodyWhoManagesIsRefused(staff: Directory, manager: nat, selected: set<nat>, actor: Role)
    requires !Present(staff, manager) || forall r :: !ManagesAs(staff[manager], r)
    ensures CheckManaged(staff, manager, selected, actor) ==
      Refused(if actor != Admin then Forbidden else if !Present(staff, manager) then NotFound else NotAManager)
  {
    hide ManagesAs, ManagementRole;
    if Present(staff, manager) && ManagementRole(staff[manager]).Some? {
      ManagementRoleIff(staff[manager], ManagementRole(staff[manager]).value);
      assert false;
    }
  }

  /** Afterwards the manager's people are the selection. A manager who is not one as a lead takes
   *  nobody away from anybody else. */
  lemma ManagedIsTheSelection(staff: Directory, links: set<Link>, manager: nat, selected: set<nat>, actor: Role, l: Link)
    requires CheckManaged(staff, manager, selected, actor) == Applied
    ensures manager in staff
    ensures var after := ConfigureManaged(staff, links, manager, selected, actor).0;
      && (l.supervisor == manager ==> (l in after <==> l.supervisee in selected))
      && (l.supervisor != manager && !ManagesAs(staff[manager], Lead) ==> (l in after <==> l in links))
      && (l.supervisor != manager && ManagesAs(staff[manager], Lead) ==>
          (l in after <==> l in links && !(l.supervisee in selected && IsLead(staff, l.supervisor))))
  {
    hide ManagesAs, CheckTeam, ConfigureTeam, IsLead, ManagementRole;
    ManagerIsThere(staff, manager, selected, actor);
    ManagementRoleIff(staff[manager], Lead);
    if ManagementRole(staff[manager]) == Some(Lead) {
      LeadManagesAsATeam(staff, links, manager, selected, actor);
      TeamApplied(staff, links, manager, selected, actor);
      TeamIsTheSelection(staff, links, manager, selected, actor, l);
    }
  }

  lemma TeamApplied(staff: Directory, links: set<Link>, lead: nat, selected: set<nat>, actor: Role)
    requires CheckTeam(staff, lead, selected, actor) == Applied
    ensures ConfigureTeam(staff, links, lead, selected, actor).1 == Applied && lead in staff
  {
  }
}
