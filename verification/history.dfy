/** The history route of one process instance (the `instanceRouteHistory`
    plugin): the records fetched for the instance, the two lookup maps and
    the two orderings built from them, and the values the information panel
    shows. Fetching is not modelled: the fetched records are inputs. */
module History {
  import opened Optional
  import opened Strings
  import StableSort
  import Index
  import opened Routes

  /** The history record of the instance. Optional fields are None when the
      record carries null or omits them. */
  datatype ProcessInstance = ProcessInstance(
    id: string,
    businessKey: Option<string>,
    processDefinitionId: string,
    processDefinitionKey: string,
    processDefinitionName: string,
    processDefinitionVersion: int,
    tenantId: Option<string>,
    superProcessInstanceId: Option<string>,
    state: string)

  /** One step of the instance's activity trace. `endTime` is the parsed end
      timestamp in milliseconds, None while the activity is still running. */
  datatype ActivityInstance = ActivityInstance(id: string, activityId: string, endTime: Option<int>)

  /** One captured variable value; names repeat across the trace. */
  datatype VariableInstance = VariableInstance(name: string, value: string, activityInstanceId: Option<string>)

  /** One decision evaluation, linked to the activity that triggered it or not linked at all. */
  datatype DecisionInstance = DecisionInstance(id: string, activityInstanceId: Option<string>)

  // ---------------------------------------------------------------------
  // Activities, latest end first
  // ---------------------------------------------------------------------

  /** The time an activity is sorted by: its end time, or `now` while it runs. */
  function EffectiveEnd(a: ActivityInstance, now: int): (t: int)
    ensures a.endTime.Some? ==> t == a.endTime.value
    ensures a.endTime.None? ==> t == now
  {
    match a.endTime
    case Some(t) => t
    case None => now
  }

  /** The activity comparator: the later effective end comes first, equal
      effective ends tie. */
  function CompareByEndTime(now: int, a: ActivityInstance, b: ActivityInstance): (r: int)
    ensures r < 0 <==> EffectiveEnd(a, now) > EffectiveEnd(b, now)
    ensures r > 0 <==> EffectiveEnd(a, now) < EffectiveEnd(b, now)
    ensures r == 0 <==> EffectiveEnd(a, now) == EffectiveEnd(b, now)
    ensures -1 <= r <= 1
  {
    var ta := EffectiveEnd(a, now);
    var tb := EffectiveEnd(b, now);
    if ta > tb then -1 else if ta < tb then 1 else 0
  }

  function ActivityOrder(now: int): (ActivityInstance, ActivityInstance) -> int {
    (a: ActivityInstance, b: ActivityInstance) => CompareByEndTime(now, a, b)
  }

  lemma ActivityOrderConsistent(now: int)
    ensures StableSort.Consistent(ActivityOrder(now))
  {
    var cmp := ActivityOrder(now);
    forall a, b ensures StableSort.Compare(cmp, a, b) < 0 <==> cmp(b, a) > 0 {
    }
    forall a, b, c | StableSort.Compare(cmp, a, b) <= 0 && StableSort.Compare(cmp, b, c) <= 0
      ensures cmp(a, c) <= 0
    {
    }
    forall a, b, c | StableSort.Compare(cmp, a, b) == 0 && StableSort.Compare(cmp, b, c) == 0
      ensures cmp(a, c) == 0
    {
    }
  }

  /** The activities of `s` whose effective end is `t`, in their order in `s`. */
  function EndingAt(s: seq<ActivityInstance>, now: int, t: int): seq<ActivityInstance> {
    if s == [] then []
    else EndingAt(s[..|s| - 1], now, t) + (if EffectiveEnd(s[|s| - 1], now) == t then [s[|s| - 1]] else [])
  }

  /** The comparator's ties with `x` are the activities ending when `x` ends. */
  lemma {:induction false} TiesEndTogether(s: seq<ActivityInstance>, now: int, x: ActivityInstance)
    ensures StableSort.Ties(s, ActivityOrder(now), x) == EndingAt(s, now, EffectiveEnd(x, now))
    decreases |s|
  {
    if s != [] {
      TiesEndTogether(s[..|s| - 1], now, x);
    }
  }

  /** The activity trace as the route sorts it: the same activities, latest
      effective end first, and activities with the same effective end (two
      running ones among them) in their input order. */
  function SortActivities(activities: seq<ActivityInstance>, now: int): (r: seq<ActivityInstance>)
    ensures multiset(r) == multiset(activities)
    ensures forall i, j :: 0 <= i < j < |r| ==> EffectiveEnd(r[i], now) >= EffectiveEnd(r[j], now)
    ensures forall t :: EndingAt(r, now, t) == EndingAt(activities, now, t)
  {
    ActivityOrderConsistent(now);
    var r := StableSort.Sort(activities, ActivityOrder(now));
    SortedActivitiesFacts(activities, now, r);
    r
  }

  lemma SortedActivitiesFacts(activities: seq<ActivityInstance>, now: int, r: seq<ActivityInstance>)
    requires StableSort.Sorted(r, ActivityOrder(now))
    requires StableSort.Stable(activities, r, ActivityOrder(now))
    ensures forall i, j :: 0 <= i < j < |r| ==> EffectiveEnd(r[i], now) >= EffectiveEnd(r[j], now)
    ensures forall t :: EndingAt(r, now, t) == EndingAt(activities, now, t)
  {
    var cmp := ActivityOrder(now);
    forall i, j | 0 <= i < j < |r| ensures EffectiveEnd(r[i], now) >= EffectiveEnd(r[j], now) {
      assert cmp(r[i], r[j]) <= 0;
    }
    forall t ensures EndingAt(r, now, t) == EndingAt(activities, now, t) {
      var x := ActivityInstance("", "", Some(t));
      assert StableSort.Ties(r, cmp, x) == StableSort.Ties(activities, cmp, x);
      TiesEndTogether(r, now, x);
      TiesEndTogether(activities, now, x);
    }
  }

  /** The ordering and stability SortActivities promises pin its result down:
      any arrangement with both is the sorted trace, so no other stable sort
      could order the activities differently. */
  lemma ActivitySortIsDetermined(activities: seq<ActivityInstance>, now: int, r: seq<ActivityInstance>)
    requires forall i, j :: 0 <= i < j < |r| ==> EffectiveEnd(r[i], now) >= EffectiveEnd(r[j], now)
    requires forall t :: EndingAt(r, now, t) == EndingAt(activities, now, t)
    ensures r == SortActivities(activities, now)
  {
    ActivityOrderConsistent(now);
    var cmp := ActivityOrder(now);
    assert StableSort.Sorted(r, cmp);
    forall x ensures StableSort.Ties(r, cmp, x) == StableSort.Ties(activities, cmp, x) {
      TiesEndTogether(r, now, x);
      TiesEndTogether(activities, now, x);
    }
    StableSort.StableSortIsUnique(activities, r, cmp);
  }

  /** When every finished activity ended before `now`, the running ones come
      first in the sorted trace. */
  lemma RunningActivitiesFirst(activities: seq<ActivityInstance>, now: int)
    requires forall a :: a in activities && a.endTime.Some? ==> a.endTime.value < now
    ensures var r := SortActivities(activities, now);
            forall i, j :: 0 <= i < j < |r| && r[j].endTime.None? ==> r[i].endTime.None?
  {
    var r := SortActivities(activities, now);
    forall i, j | 0 <= i < j < |r| && r[j].endTime.None? ensures r[i].endTime.None? {
      assert r[i] in multiset(activities);
    }
  }

  // ---------------------------------------------------------------------
  // Variables, by name
  // ---------------------------------------------------------------------

  /** The variable comparator: ordinal order of the names, equal names tie. */
  function CompareByName(a: VariableInstance, b: VariableInstance): (r: int)
    ensures r < 0 <==> Less(a.name, b.name)
    ensures r > 0 <==> Less(b.name, a.name)
    ensures r == 0 <==> a.name == b.name
    ensures -1 <= r <= 1
  {
    LessAsymmetric(a.name, b.name);
    LessTotal(a.name, b.name);
    LessIrreflexive(a.name);
    if Less(b.name, a.name) then 1 else if Less(a.name, b.name) then -1 else 0
  }

  function VariableOrder(): (VariableInstance, VariableInstance) -> int {
    (a: VariableInstance, b: VariableInstance) => CompareByName(a, b)
  }

  lemma VariableOrderConsistent()
    ensures StableSort.Consistent(VariableOrder())
  {
    var cmp := VariableOrder();
    forall a, b ensures StableSort.Compare(cmp, a, b) < 0 <==> cmp(b, a) > 0 {
      LessAsymmetric(a.name, b.name);
    }
    forall a, b, c | StableSort.Compare(cmp, a, b) <= 0 && StableSort.Compare(cmp, b, c) <= 0
      ensures cmp(a, c) <= 0
    {
      LessTotal(a.name, b.name);
      LessTotal(b.name, c.name);
      LessAsymmetric(a.name, b.name);
      LessAsymmetric(b.name, c.name);
      if Less(c.name, a.name) {
        if Less(a.name, b.name) {
          LessTransitive(c.name, a.name, b.name);
        }
      }
    }
    forall a, b, c | StableSort.Compare(cmp, a, b) == 0 && StableSort.Compare(cmp, b, c) == 0
      ensures cmp(a, c) == 0
    {
      LessTotal(a.name, b.name);
      LessTotal(b.name, c.name);
      LessIrreflexive(a.name);
    }
  }

  /** The variables of `s` named `name`, in their order in `s`. */
  function Named(s: seq<VariableInstance>, name: string): seq<VariableInstance> {
    if s == [] then []
    else Named(s[..|s| - 1], name) + (if s[|s| - 1].name == name then [s[|s| - 1]] else [])
  }

  /** The comparator's ties with `x` are the variables sharing its name. */
  lemma {:induction false} TiesShareName(s: seq<VariableInstance>, x: VariableInstance)
    ensures StableSort.Ties(s, VariableOrder(), x) == Named(s, x.name)
    decreases |s|
  {
    if s != [] {
      TiesShareName(s[..|s| - 1], x);
      LessTotal(x.name, s[|s| - 1].name);
      LessIrreflexive(x.name);
    }
  }

  /** The variable trace as the route sorts it: the same variables, names
      ascending in ordinal order, and variables of the same name in their
      input order. */
  function SortVariables(variables: seq<VariableInstance>): (r: seq<VariableInstance>)
    ensures multiset(r) == multiset(variables)
    ensures forall i, j :: 0 <= i < j < |r| ==> r[i].name == r[j].name || Less(r[i].name, r[j].name)
    ensures forall name :: Named(r, name) == Named(variables, name)
  {
    VariableOrderConsistent();
    var r := StableSort.Sort(variables, VariableOrder());
    SortedVariablesFacts(variables, r);
    r
  }

  /** The ordering and stability SortVariables promises pin its result down. */
  lemma VariableSortIsDetermined(variables: seq<VariableInstance>, r: seq<VariableInstance>)
    requires forall i, j :: 0 <= i < j < |r| ==> r[i].name == r[j].name || Less(r[i].name, r[j].name)
    requires forall name :: Named(r, name) == Named(variables, name)
    ensures r == SortVariables(variables)
  {
    VariableOrderConsistent();
    var cmp := VariableOrder();
    forall i, j | 0 <= i < j < |r| ensures cmp(r[i], r[j]) <= 0 {
      LessAsymmetric(r[i].name, r[j].name);
      LessIrreflexive(r[i].name);
    }
    forall x ensures StableSort.Ties(r, cmp, x) == StableSort.Ties(variables, cmp, x) {
      TiesShareName(r, x);
      TiesShareName(variables, x);
    }
    StableSort.StableSortIsUnique(variables, r, cmp);
  }

  lemma SortedVariablesFacts(variables: seq<VariableInstance>, r: seq<VariableInstance>)
    requires StableSort.Sorted(r, VariableOrder())
    requires StableSort.Stable(variables, r, VariableOrder())
    ensures forall i, j :: 0 <= i < j < |r| ==> r[i].name == r[j].name || Less(r[i].name, r[j].name)
    ensures forall name :: Named(r, name) == Named(variables, name)
  {
    var cmp := VariableOrder();
    forall i, j | 0 <= i < j < |r| ensures r[i].name == r[j].name || Less(r[i].name, r[j].name) {
      assert cmp(r[i], r[j]) <= 0;
      LessTotal(r[i].name, r[j].name);
    }
    forall name ensures Named(r, name) == Named(variables, name) {
      var x := VariableInstance(name, "", None);
      assert StableSort.Ties(r, cmp, x) == StableSort.Ties(variables, cmp, x);
      TiesShareName(r, x);
      TiesShareName(variables, x);
    }
  }

  // ---------------------------------------------------------------------
  // Lookup maps
  // ---------------------------------------------------------------------

  /** The entries the route hands to `new Map` for the decisions: activity
      reference to decision id. An unlinked decision's key is None. */
  function DecisionEntries(decisions: seq<DecisionInstance>): (ps: seq<(Option<string>, string)>)
    ensures |ps| == |decisions|
    ensures forall i :: 0 <= i < |ps| ==> ps[i] == (decisions[i].activityInstanceId, decisions[i].id)
  {
    seq(|decisions|, i requires 0 <= i < |decisions| => (decisions[i].activityInstanceId, decisions[i].id))
  }

  /** No later decision refers to the activity decision `i` refers to. */
  predicate IsLastDecisionFor(decisions: seq<DecisionInstance>, i: int) {
    0 <= i < |decisions| &&
    forall j :: i < j < |decisions| ==> decisions[j].activityInstanceId != decisions[i].activityInstanceId
  }

  /** The decision-by-activity map: keyed by exactly the activity references
      that occur (None for unlinked decisions, which are not filtered out),
      each holding the id of the last decision with that reference. */
  function DecisionByActivity(decisions: seq<DecisionInstance>): (m: map<Option<string>, string>)
    ensures m.Keys == set d | d in decisions :: d.activityInstanceId
    ensures forall i :: IsLastDecisionFor(decisions, i) ==>
              decisions[i].activityInstanceId in m && m[decisions[i].activityInstanceId] == decisions[i].id
  {
    var ps := DecisionEntries(decisions);
    var m := Index.FromEntries(ps);
    Index.FromEntriesKeys(ps);
    assert Index.KeysOf(ps) == set d | d in decisions :: d.activityInstanceId by {
      forall k | k in Index.KeysOf(ps) ensures k in set d | d in decisions :: d.activityInstanceId {
        var i :| 0 <= i < |ps| && ps[i].0 == k;
        assert decisions[i] in decisions;
      }
      forall k | k in set d | d in decisions :: d.activityInstanceId ensures k in Index.KeysOf(ps) {
        var d :| d in decisions && d.activityInstanceId == k;
        var i :| 0 <= i < |decisions| && decisions[i] == d;
        assert ps[i].0 == k;
      }
    }
    forall i | IsLastDecisionFor(decisions, i)
      ensures decisions[i].activityInstanceId in m && m[decisions[i].activityInstanceId] == decisions[i].id
    {
      assert Index.IsLastForKey(ps, i);
      Index.FromEntriesLast(ps, i);
    }
    m
  }

  /** The entries the route hands to `new Map` for the activities: id to record. */
  function ActivityEntries(activities: seq<ActivityInstance>): (ps: seq<(string, ActivityInstance)>)
    ensures |ps| == |activities|
    ensures forall i :: 0 <= i < |ps| ==> ps[i] == (activities[i].id, activities[i])
  {
    seq(|activities|, i requires 0 <= i < |activities| => (activities[i].id, activities[i]))
  }

  /** No later activity has the id activity `i` has. */
  predicate IsLastActivityWithId(activities: seq<ActivityInstance>, i: int) {
    0 <= i < |activities| && forall j :: i < j < |activities| ==> activities[j].id != activities[i].id
  }

  /** The activity-by-id map: keyed by exactly the activity ids, each holding
      the last activity with that id. */
  function ActivityById(activities: seq<ActivityInstance>): (m: map<string, ActivityInstance>)
    ensures m.Keys == set a | a in activities :: a.id
    ensures forall i :: IsLastActivityWithId(activities, i) ==>
              activities[i].id in m && m[activities[i].id] == activities[i]
    ensures forall k :: k in m ==> m[k] in activities && m[k].id == k
  {
    var ps := ActivityEntries(activities);
    var m := Index.FromEntries(ps);
    Index.FromEntriesKeys(ps);
    assert Index.KeysOf(ps) == set a | a in activities :: a.id by {
      forall k | k in Index.KeysOf(ps) ensures k in set a | a in activities :: a.id {
        var i :| 0 <= i < |ps| && ps[i].0 == k;
        assert activities[i] in activities;
      }
      forall k | k in set a | a in activities :: a.id ensures k in Index.KeysOf(ps) {
        var a :| a in activities && a.id == k;
        var i :| 0 <= i < |activities| && activities[i] == a;
        assert ps[i].0 == k;
      }
    }
    forall i | IsLastActivityWithId(activities, i)
      ensures activities[i].id in m && m[activities[i].id] == activities[i]
    {
      assert Index.IsLastForKey(ps, i);
      Index.FromEntriesLast(ps, i);
    }
    forall k | k in m ensures m[k] in activities && m[k].id == k {
      Index.FromEntriesValues(ps, k);
      var i :| 0 <= i < |ps| && ps[i] == (k, m[k]);
      assert activities[i] == m[k];
    }
    m
  }

  /** Activity ids are unique within one instance's trace. */
  predicate UniqueIds(activities: seq<ActivityInstance>) {
    forall i, j :: 0 <= i < |activities| && 0 <= j < |activities| && activities[i].id == activities[j].id ==> i == j
  }

  /** With unique ids, every activity of the trace resolves to itself. */
  lemma ActivityByIdResolvesEach(activities: seq<ActivityInstance>)
    requires UniqueIds(activities)
    ensures forall a :: a in activities ==> a.id in ActivityById(activities) && ActivityById(activities)[a.id] == a
  {
    forall a | a in activities ensures a.id in ActivityById(activities) && ActivityById(activities)[a.id] == a {
      var i :| 0 <= i < |activities| && activities[i] == a;
      assert IsLastActivityWithId(activities, i);
    }
  }

  /** With unique ids the map does not depend on the order of the trace: the
      map the route builds before sorting equals the one built after. */
  lemma ActivityByIdIgnoresOrder(activities: seq<ActivityInstance>, reordered: seq<ActivityInstance>)
    requires UniqueIds(activities)
    requires multiset(reordered) == multiset(activities)
    ensures ActivityById(reordered) == ActivityById(activities)
  {
    var m := ActivityById(activities);
    var m' := ActivityById(reordered);
    assert m'.Keys == m.Keys by {
      forall a ensures a in reordered <==> a in activities {
        assert a in reordered <==> a in multiset(reordered);
        assert a in activities <==> a in multiset(activities);
      }
    }
    forall k | k in m' ensures m'[k] == m[k] {
      var a := m'[k];
      assert a in activities by {
        assert a in reordered && a in multiset(reordered);
      }
      ActivityByIdResolvesEach(activities);
    }
  }

  // ---------------------------------------------------------------------
  // What the page shows
  // ---------------------------------------------------------------------

  /** The version the page header shows when the version record has none. */
  const FallbackVersion: string := "7.15.0"

  /** The shown version: the fetched one when it is a non-empty string, the
      fallback otherwise, so never empty. */
  function DisplayVersion(version: Option<string>): (r: string)
    ensures r != []
    ensures Truthy(version) ==> r == version.value
    ensures !Truthy(version) ==> r == FallbackVersion
  {
    if Truthy(version) then version.value else FallbackVersion
  }

  /** An optional field as the panel prints it (`x || 'null'`): the value when
      it is a non-empty string, the text `null` otherwise, so never empty. */
  function OrNull(field: Option<string>): (r: string)
    ensures r != []
    ensures Truthy(field) ==> r == field.value
    ensures !Truthy(field) ==> r == "null"
  {
    if Truthy(field) then field.value else "null"
  }

  /** A panel cell: a link with its text, or plain text. */
  datatype Cell = Anchor(href: string, text: string) | Plain(text: string)

  /** The super-process-instance cell: a link to the super instance's history
      route when there is one, the text `null` otherwise. Following the link
      brings the history route back to the super instance. */
  function SuperInstanceCell(superId: Option<string>): (c: Cell)
    ensures c.Anchor? <==> Truthy(superId)
    ensures c.Anchor? ==> c.text == superId.value
    ensures c.Anchor? && '/' !in superId.value && '?' !in superId.value ==>
              ExtractInstanceId(c.href) == Some(superId.value)
    ensures c.Plain? ==> c.text == "null"
  {
    if !Truthy(superId) then Plain("null")
    else
      HistoryLinkParses(superId.value);
      Anchor(HistoryLink(superId.value), superId.value)
  }

  /** The process information panel, one value per line of it. */
  datatype InformationPanel = InformationPanel(
    instanceId: string,
    businessKey: string,
    definitionVersion: int,
    definitionId: string,
    definitionKey: string,
    definitionName: string,
    tenantId: string,
    superInstance: Cell,
    state: string)

  /** The panel for an instance: the record's fields as they are, with
      `null` shown for a missing business key, tenant id or super instance. */
  function Panel(instance: ProcessInstance): (p: InformationPanel)
    ensures p.businessKey != [] && p.tenantId != []
    ensures p.businessKey == OrNull(instance.businessKey)
    ensures p.tenantId == OrNull(instance.tenantId)
    ensures p.superInstance == SuperInstanceCell(instance.superProcessInstanceId)
    ensures p.instanceId == instance.id && p.state == instance.state
    ensures p.definitionId == instance.processDefinitionId
    ensures p.definitionKey == instance.processDefinitionKey
    ensures p.definitionName == instance.processDefinitionName
    ensures p.definitionVersion == instance.processDefinitionVersion
  {
    InformationPanel(
      instance.id,
      OrNull(instance.businessKey),
      instance.processDefinitionVersion,
      instance.processDefinitionId,
      instance.processDefinitionKey,
      instance.processDefinitionName,
      OrNull(instance.tenantId),
      SuperInstanceCell(instance.superProcessInstanceId),
      instance.state)
  }

  /** The diagram offers the switch to the runtime view only for an instance
      still in state ACTIVE. */
  function ShowRuntimeToggle(instance: ProcessInstance): (show: bool)
    ensures show ==> instance.state == "ACTIVE"
    ensures instance.state == "ACTIVE" ==> show
  {
    instance.state == "ACTIVE"
  }

  // ---------------------------------------------------------------------
  // The route
  // ---------------------------------------------------------------------

  /** What the six fetches of the route return: the instance record, the
      version record's `version`, the diagram XML of the instance's
      definition, and the activity, variable and decision traces. */
  datatype Fetched = Fetched(
    instance: ProcessInstance,
    version: Option<string>,
    diagramXml: string,
    activities: seq<ActivityInstance>,
    variables: seq<VariableInstance>,
    decisions: seq<DecisionInstance>)

  /** Everything the route renders for one instance. */
  datatype HistoryView = HistoryView(
    processInstanceId: string,
    version: string,
    panel: InformationPanel,
    diagramXml: string,
    showRuntimeToggle: bool,
    activities: seq<ActivityInstance>,
    variables: seq<VariableInstance>,
    decisionByActivity: map<Option<string>, string>,
    activityById: map<string, ActivityInstance>)

  /** The view built from the fetched records. The maps are built from the
      traces as fetched, before sorting; the audit log and diagram get the
      activities latest first, the variables table gets them by name. */
  function BuildView(processInstanceId: string, data: Fetched, now: int): (v: HistoryView)
    ensures v.processInstanceId == processInstanceId
    ensures v.version != [] && v.panel.businessKey != [] && v.panel.tenantId != []
    ensures v.showRuntimeToggle <==> data.instance.state == "ACTIVE"
    ensures multiset(v.activities) == multiset(data.activities)
    ensures multiset(v.variables) == multiset(data.variables)
    ensures forall i, j :: 0 <= i < j < |v.activities| ==>
              EffectiveEnd(v.activities[i], now) >= EffectiveEnd(v.activities[j], now)
    ensures forall i, j :: 0 <= i < j < |v.variables| ==>
              v.variables[i].name == v.variables[j].name || Less(v.variables[i].name, v.variables[j].name)
    ensures forall t :: EndingAt(v.activities, now, t) == EndingAt(data.activities, now, t)
    ensures forall name :: Named(v.variables, name) == Named(data.variables, name)
    ensures forall d :: d in data.decisions ==> d.activityInstanceId in v.decisionByActivity
    ensures UniqueIds(data.activities) ==>
              forall a :: a in v.activities ==> a.id in v.activityById && v.activityById[a.id] == a
    ensures v.version == DisplayVersion(data.version)
    ensures v.panel == Panel(data.instance)
    ensures v.diagramXml == data.diagramXml
    ensures v.activities == SortActivities(data.activities, now)
    ensures v.variables == SortVariables(data.variables)
    ensures v.decisionByActivity == DecisionByActivity(data.decisions)
    ensures v.activityById == ActivityById(data.activities)
  {
    var activities := SortActivities(data.activities, now);
    var byId := ActivityById(data.activities);
    var v := HistoryView(
      processInstanceId,
      DisplayVersion(data.version),
      Panel(data.instance),
      data.diagramXml,
      ShowRuntimeToggle(data.instance),
      activities,
      SortVariables(data.variables),
      DecisionByActivity(data.decisions),
      byId);
    SortedActivitiesResolve(data.activities, now);
    v
  }

  /** With unique ids, every activity of the sorted trace resolves to itself
      in the map built from the trace as fetched. */
  lemma SortedActivitiesResolve(activities: seq<ActivityInstance>, now: int)
    ensures UniqueIds(activities) ==>
              forall a :: a in SortActivities(activities, now) ==>
                a.id in ActivityById(activities) && ActivityById(activities)[a.id] == a
  {
    if UniqueIds(activities) {
      ActivityByIdResolvesEach(activities);
      var sorted := SortActivities(activities, now);
      assert forall a :: a in sorted ==> a in multiset(activities);
    }
  }

  /** The route's render: with no instance id in the hash nothing is fetched
      or rendered; otherwise the view of the instance the hash names, built
      from what `fetch` returns for that id. */
  function RenderRoute(hash: Option<string>, fetch: string -> Fetched, now: int): (r: Option<HistoryView>)
    ensures r.None? <==> RouteInstanceId(hash).None?
    ensures r.Some? ==>
              var id := r.value.processInstanceId;
              && RouteInstanceId(hash) == Some(id)
              && id != [] && '/' !in id && '?' !in id
              && r.value == BuildView(id, fetch(id), now)
  {
    match RouteInstanceId(hash)
    case None => None
    case Some(id) => Some(BuildView(id, fetch(id), now))
  }
}
