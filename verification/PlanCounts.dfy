/** The count on every tab of the people's calendar, in one pass over the activities.
 *
 *  A tab names the ids its person's work is written under; tabs may overlap. The rule each
 *  count must meet is the plan of those ids: the work they are responsible for, and the
 *  partner-delivered work they monitor. Blank ids never match that rule.
 */
module PlanCounts {
  import opened Basics

  datatype Id = Blank | Staff(key: nat)

  datatype Activity = Activity(responsible: Option<Id>, monitor: Option<Id>, partner: bool)

  type Tab = nat

  type Holders = map<Tab, set<Id>>

  predicate Names(id: Option<Id>, ids: set<Id>)
  {
    id.Some? && id.value in ids && id.value != Blank
  }

  /** The plan of the staff these ids name. */
  predicate OnPlan(a: Activity, ids: set<Id>)
  {
    Names(a.responsible, ids) || (a.partner && Names(a.monitor, ids))
  }

  function PlanCount(activities: seq<Activity>, ids: set<Id>): nat
  {
    if |activities| == 0 then 0
    else PlanCount(activities[..|activities| - 1], ids) + if OnPlan(activities[|activities| - 1], ids) then 1 else 0
  }

  function OrBlank(id: Option<Id>): Id
  {
    if id.Some? then id.value else Blank
  }

  /** What the index looks up. */
  predicate Looked(a: Activity, ids: set<Id>)
  {
    OrBlank(a.responsible) in ids || (a.partner && OrBlank(a.monitor) in ids)
  }

  function IdsOf(holders: Holders, tabs: set<Tab>): set<Id>
    requires tabs <= holders.Keys
  {
    set tab, id | tab in tabs && id in holders[tab] :: id
  }

  function AllIds(holders: Holders): set<Id>
  {
    IdsOf(holders, holders.Keys)
  }

  predicate Tallied(a: Activity, holders: Holders, tab: Tab)
    requires tab in holders
  {
    OnPlan(a, AllIds(holders)) && Looked(a, holders[tab])
  }

  function IndexedCount(activities: seq<Activity>, holders: Holders, tab: Tab): nat
    requires tab in holders
  {
    if |activities| == 0 then 0
    else
      IndexedCount(activities[..|activities| - 1], holders, tab)
      + if Tallied(activities[|activities| - 1], holders, tab) then 1 else 0
  }

  // ── The rule ────────────────────────────────────────────────────────────────

  /** A tab that holds the blank id holds every id any tab holds. */
  predicate BlankIsHarmless(holders: Holders)
  {
    forall tab :: tab in holders && Blank in holders[tab] ==> AllIds(holders) <= holders[tab]
  }

  lemma TalliedIsOnPlan(a: Activity, holders: Holders, tab: Tab)
    requires tab in holders && BlankIsHarmless(holders)
    ensures Tallied(a, holders, tab) <==> OnPlan(a, holders[tab])
  {
    forall id | id in holders[tab] ensures id in AllIds(holders) {
    }
  }

  lemma {:induction false} CountsAgree(activities: seq<Activity>, holders: Holders, tab: Tab)
    requires tab in holders && BlankIsHarmless(holders)
    ensures IndexedCount(activities, holders, tab) == PlanCount(activities, holders[tab])
  {
    if |activities| == 0 {
    } else {
      CountsAgree(activities[..|activities| - 1], holders, tab);
      TalliedIsOnPlan(activities[|activities| - 1], holders, tab);
    }
  }

  /** A partner's activity nobody monitors lands on the tab with the blank id. */
  lemma BlankMiscounts(holders: Holders, tab: Tab, id: Id)
    requires tab in holders && Blank in holders[tab] && id in AllIds(holders) && id !in holders[tab]
    ensures IndexedCount([Activity(Some(id), None, true)], holders, tab) == 1
    ensures PlanCount([Activity(Some(id), None, true)], holders[tab]) == 0
  {
    var a := Activity(Some(id), None, true);
    assert Tallied(a, holders, tab) && !OnPlan(a, holders[tab]);
    assert [a][..0] == [];
  }

  /** The one-pass counts are the plan counts for all activities exactly when the blank id is
   *  harmless; in particular whenever no tab holds it. */
  lemma OnePassIffHarmless(holders: Holders)
    ensures BlankIsHarmless(holders) <==>
      forall activities, tab :: tab in holders ==> IndexedCount(activities, holders, tab) == PlanCount(activities, holders[tab])
    ensures (forall tab :: tab in holders ==> Blank !in holders[tab]) ==> BlankIsHarmless(holders)
  {
    hide IndexedCount, PlanCount;
    if BlankIsHarmless(holders) {
      forall activities, tab | tab in holders ensures IndexedCount(activities, holders, tab) == PlanCount(activities, holders[tab]) {
        CountsAgree(activities, holders, tab);
      }
    } else {
      var tab :| tab in holders && Blank in holders[tab] && !(AllIds(holders) <= holders[tab]);
      var id :| id in AllIds(holders) && id !in holders[tab];
      BlankMiscounts(holders, tab, id);
    }
  }

  /** Somebody's work, or a partner's work they monitor; a blank or missing id is nobody's. */
  ghost predicate Theirs(a: Activity, ids: set<Id>)
  {
    || (exists key :: a.responsible == Some(Staff(key)) && Staff(key) in ids)
    || (a.partner && exists key :: a.monitor == Some(Staff(key)) && Staff(key) in ids)
  }

  lemma OnPlanIff(a: Activity, ids: set<Id>)
    ensures OnPlan(a, ids) <==> Theirs(a, ids)
  {
    if Names(a.responsible, ids) {
      assert a.responsible == Some(Staff(a.responsible.value.key));
    }
    if Names(a.monitor, ids) {
      assert a.monitor == Some(Staff(a.monitor.value.key));
    }
  }

  /** The plan count is how many activities are theirs, each counted once. */
  lemma {:induction false} PlanCountIs(activities: seq<Activity>, ids: set<Id>, n: nat)
    requires n <= |activities|
    ensures PlanCount(activities[..n], ids) == |set i | 0 <= i < n && Theirs(activities[i], ids)|
  {
    hide Theirs, OnPlan;
    if n == 0 {
    } else {
      PlanCountIs(activities, ids, n - 1);
      assert activities[..n][..n - 1] == activities[..n - 1];
      OnPlanIff(activities[n - 1], ids);
      var before := set i | 0 <= i < n - 1 && Theirs(activities[i], ids);
      assert (set i | 0 <= i < n && Theirs(activities[i], ids)) == before + if Theirs(activities[n - 1], ids) then {n - 1} else {};
    }
  }

  // ── The one pass ────────────────────────────────────────────────────────────

  function TabsAt(tabsOf: map<Id, set<Tab>>, id: Id): set<Tab>
  {
    if id in tabsOf then tabsOf[id] else {}
  }

  function Only(tab: Tab, present: bool): set<Tab>
  {
    if present then {tab} else {}
  }

  /** The tabs of a selection that hold an id. */
  function TabsHolding(holders: Holders, tabs: set<Tab>, id: Id): set<Tab>
    requires tabs <= holders.Keys
  {
    set tab | tab in tabs && id in holders[tab]
  }

  ghost predicate IsIndex(tabsOf: map<Id, set<Tab>>, holders: Holders, tabs: set<Tab>)
    requires tabs <= holders.Keys
  {
    && (forall id :: TabsAt(tabsOf, id) == TabsHolding(holders, tabs, id))
    && tabsOf.Keys == IdsOf(holders, tabs)
  }

  method IndexTabs(holders: Holders) returns (tabsOf: map<Id, set<Tab>>)
    ensures IsIndex(tabsOf, holders, holders.Keys)
  {
    tabsOf := map[];
    var left := holders.Keys;
    while left != {}
      invariant left <= holders.Keys && IsIndex(tabsOf, holders, holders.Keys - left)
      decreases |left|
    {
      var tab :| tab in left;
      ghost var before := left;
      left := left - {tab};
      tabsOf := IndexOne(tabsOf, tab, holders[tab]);
      forall id ensures TabsAt(tabsOf, id) == TabsHolding(holders, holders.Keys - left, id) {
        assert holders.Keys - left == holders.Keys - before + {tab};
        assert TabsHolding(holders, holders.Keys - left, id)
            == TabsHolding(holders, holders.Keys - before, id) + Only(tab, id in holders[tab]);
      }
    }
    assert holders.Keys - left == holders.Keys;
  }

  /** `after` is `before` with one tab filed under these ids too. */
  ghost predicate Filed(before: map<Id, set<Tab>>, after: map<Id, set<Tab>>, tab: Tab, ids: set<Id>)
  {
    && after.Keys == before.Keys + ids
    && forall id :: TabsAt(after, id) == TabsAt(before, id) + Only(tab, id in ids)
  }

  lemma FileNone(start: map<Id, set<Tab>>, tab: Tab)
    ensures Filed(start, start, tab, {})
  {
  }

  lemma FileOneMore(start: map<Id, set<Tab>>, before: map<Id, set<Tab>>, tab: Tab, ids: set<Id>, id: Id)
    requires Filed(start, before, tab, ids)
    ensures Filed(start, before[id := TabsAt(before, id) + {tab}], tab, ids + {id})
  {
    var after := before[id := TabsAt(before, id) + {tab}];
    forall other ensures TabsAt(after, other) == TabsAt(start, other) + Only(tab, other in ids + {id}) {
      assert TabsAt(before, other) == TabsAt(start, other) + Only(tab, other in ids);
    }
  }

  /** File one tab under each of its ids. */
  method IndexOne(tabsOf: map<Id, set<Tab>>, tab: Tab, ids: set<Id>) returns (filed: map<Id, set<Tab>>)
    ensures Filed(tabsOf, filed, tab, ids)
  {
    hide Filed, TabsAt;
    filed := tabsOf;
    FileNone(tabsOf, tab);
    ghost var filedIds: set<Id> := {};
    var left := ids;
    while left != {}
      invariant filedIds + left == ids && Filed(tabsOf, filed, tab, filedIds)
      decreases |left|
    {
      var id :| id in left;
      FileOneMore(tabsOf, filed, tab, filedIds, id);
      filed := filed[id := TabsAt(filed, id) + {tab}];
      filedIds := filedIds + {id};
      left := left - {id};
    }
  }

  /** One more for each of these tabs, once each. */
  method CountOn(counts: map<Tab, nat>, tabs: set<Tab>) returns (more: map<Tab, nat>)
    requires tabs <= counts.Keys
    ensures more.Keys == counts.Keys
    ensures forall tab :: tab in counts ==> more[tab] == counts[tab] + if tab in tabs then 1 else 0
  {
    more := counts;
    var left := tabs;
    while left != {}
      invariant left <= tabs && more.Keys == counts.Keys
      invariant forall tab :: tab in counts ==> more[tab] == counts[tab] + if tab in tabs && tab !in left then 1 else 0
      decreases |left|
    {
      var tab :| tab in left;
      left := left - {tab};
      more := more[tab := more[tab] + 1];
    }
  }

  /** Every tab's count, with each activity counted once on a tab however many of the tab's ids
   *  it names: the plan of the tab's ids, unless a tab holds the blank id. */
  method CountPlans(activities: seq<Activity>, holders: Holders) returns (counts: map<Tab, nat>)
    ensures counts.Keys == holders.Keys
    ensures forall tab :: tab in holders ==> counts[tab] == IndexedCount(activities, holders, tab)
    ensures BlankIsHarmless(holders) ==> forall tab :: tab in holders ==> counts[tab] == PlanCount(activities, holders[tab])
  {
    counts := map tab | tab in holders :: 0;
    var tabsOf := IndexTabs(holders);
    for i := 0 to |activities|
      invariant counts.Keys == holders.Keys
      invariant forall tab :: tab in holders ==> counts[tab] == IndexedCount(activities[..i], holders, tab)
    {
      assert activities[..i + 1][..i] == activities[..i];
      var a := activities[i];
      if OnPlan(a, tabsOf.Keys) {
        var tabs := TabsAt(tabsOf, OrBlank(a.responsible));
        if a.partner {
          tabs := tabs + TabsAt(tabsOf, OrBlank(a.monitor));
        }
        TabsAreLooked(tabsOf, holders, a, tabs);
        counts := CountOn(counts, tabs);
      }
    }
    assert activities[..|activities|] == activities;
    if BlankIsHarmless(holders) {
      forall tab | tab in holders ensures counts[tab] == PlanCount(activities, holders[tab]) {
        CountsAgree(activities, holders, tab);
      }
    }
  }

  lemma TabsAreLooked(tabsOf: map<Id, set<Tab>>, holders: Holders, a: Activity, tabs: set<Tab>)
    requires IsIndex(tabsOf, holders, holders.Keys)
    requires tabs == TabsAt(tabsOf, OrBlank(a.responsible)) + if a.partner then TabsAt(tabsOf, OrBlank(a.monitor)) else {}
    ensures tabs <= holders.Keys
    ensures forall tab :: tab in holders ==> (tab in tabs <==> Looked(a, holders[tab]))
  {
    assert TabsAt(tabsOf, OrBlank(a.responsible)) == TabsHolding(holders, holders.Keys, OrBlank(a.responsible));
    assert TabsAt(tabsOf, OrBlank(a.monitor)) == TabsHolding(holders, holders.Keys, OrBlank(a.monitor));
  }
}
