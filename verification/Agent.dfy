/**
  The whole agent: the watcher thread and the controller thread interleaved step by step.  Every
  locked call on the node map and every kernel operation is one step; between any two of them the
  other thread may run, and any operation may fail and end the attempt.
 */
module Agent {
  import opened Options
  import opened Nodes
  import opened NodeMaps
  import opened KernelTables
  import opened Watcher
  import IpsecPlanner
  import IpsecProvider
  import VxlanPlanner
  import Neighbours
  import Routes
  import XfrmStates
  import XfrmPolicies

  /** The provider in use. */
  datatype Provider = Ipsec(st: IpsecPlanner.Strategies) | Vxlan2

  datatype Kernel = Kernel(sad: XfrmStates.Sad, spd: XfrmPolicies.Spd, neigh: Neighbours.NeighTable, fib: Routes.Fib)

  /** A run of a reconciler: the table as it was listed, the operations, and how many are done. */
  datatype Run =
    | StateRun(sad: XfrmStates.Sad, stateOps: seq<XfrmStates.SadOp>, done: nat)
    | PolicyRun(spd: XfrmPolicies.Spd, policyOps: seq<XfrmPolicies.SpdOp>, done: nat)
    | NeighRun(neigh: Neighbours.NeighTable, neighOps: seq<Neighbours.NeighOp>, done: nat)
    | RouteRun(fib: Routes.Fib, fibOps: seq<Routes.FibOp>, done: nat)

  /** A snapshot and the order in which it lists the nodes. */
  datatype View = View(snap: Snapshot, list: seq<NodeValue>)

  datatype Control =
    | Waiting
    | Idle
    | Fetching
    | Planning(view: View)
    | Running(view: View, run: Run)

  /** `applied` is a history variable: the last view that was applied to the end. */
  datatype Agent = Agent(
    watch: WatchState, kernel: Kernel, control: Control, last: nat, link: Option<int>, mac: Option<Neighbours.Mac>,
      applied: Option<View>)

  datatype Action =
    | Watch(event: Event)
    | Wake
    | TakeFastPath
    | Check
    | Take(list: seq<NodeValue>)
    | FindLink(index: int)
    | PlanStates(stateOps: seq<XfrmStates.SadOp>)
    | PlanPolicies(policyOps: seq<XfrmPolicies.SpdOp>)
    | PlanNeighs(neighOps: seq<Neighbours.NeighOp>)
    | PlanRoutes(fibOps: seq<Routes.FibOp>)
    | Perform
    | Finish
    | Fail

  predicate FastPath(a: Agent) {
    a.last != 0 && a.watch.nodeMap.version == a.last
  }

  /** The guards after the snapshot: a local node with pod network and address. */
  predicate Usable(s: Snapshot) {
    s.Snapshot? && Planable(s.me)
  }

  function PeersOf(v: View): seq<NodeValue>
    requires v.snap.Snapshot?
  {
    Peers(v.snap.me, v.list)
  }

  /** The planner of the provider does not give up on this view. */
  ghost predicate Plannable(p: Provider, v: View) {
    Usable(v.snap) &&
    match p
    case Ipsec(_) => IpsecProvider.Numbered(v.snap.me, PeersOf(v))
    case Vxlan2 => VxlanPlanner.AllRoutable(PeersOf(v))
  }

  /** One operation of the current run, accepted by the kernel. */
  ghost predicate Performs(a: Agent, b: Agent) {
    a.control.Running? &&
    match a.control.run
    case StateRun(t, ops, n) =>
      n < |ops| && Enabled(a.kernel.sad, ops[n]) &&
      b == a.(kernel := a.kernel.(sad := Effect(a.kernel.sad, ops[n])),
              control := Running(a.control.view, StateRun(t, ops, n + 1)))
    case PolicyRun(t, ops, n) =>
      n < |ops| && Enabled(a.kernel.spd, ops[n]) &&
      b == a.(kernel := a.kernel.(spd := Effect(a.kernel.spd, ops[n])),
              control := Running(a.control.view, PolicyRun(t, ops, n + 1)))
    case NeighRun(t, ops, n) =>
      n < |ops| && Enabled(a.kernel.neigh, ops[n]) &&
      b == a.(kernel := a.kernel.(neigh := Effect(a.kernel.neigh, ops[n])),
              control := Running(a.control.view, NeighRun(t, ops, n + 1)))
    case RouteRun(t, ops, n) =>
      n < |ops| && Enabled(a.kernel.fib, ops[n]) &&
      b == a.(kernel := a.kernel.(fib := Effect(a.kernel.fib, ops[n])),
              control := Running(a.control.view, RouteRun(t, ops, n + 1)))
  }

  /** A state run; with two states of one SPI the process aborts instead. */
  ghost predicate PlansStates(p: Provider, v: View, t: XfrmStates.Sad, ops: seq<XfrmStates.SadOp>) {
    && p.Ipsec? && Plannable(p, v)
    && XfrmStates.DistinctSpiList(IpsecPlanner.StatePlan(p.st, v.snap.me, PeersOf(v)))
    && XfrmStates.Plan(t, IpsecPlanner.StatePlan(p.st, v.snap.me, PeersOf(v)), ops)
  }

  ghost predicate PlansPolicies(p: Provider, v: View, t: XfrmPolicies.Spd, ops: seq<XfrmPolicies.SpdOp>) {
    p.Ipsec? && Plannable(p, v) && XfrmPolicies.Plan(t, IpsecPlanner.PolicyPlan(v.snap.me, PeersOf(v)), ops)
  }

  ghost predicate PlansNeighs(p: Provider, v: View, link: Option<int>, t: Neighbours.NeighTable,
                              ops: seq<Neighbours.NeighOp>) {
    p.Vxlan2? && link.Some? && Plannable(p, v) &&
      Neighbours.Plan(t, VxlanPlanner.NeighPlan(link.value, PeersOf(v)), ops)
  }

  ghost predicate PlansRoutes(p: Provider, v: View, link: Option<int>, t: Routes.Fib, ops: seq<Routes.FibOp>) {
    p.Vxlan2? && link.Some? && Plannable(p, v) &&
      Routes.Plan(t, link, VxlanPlanner.RoutePlan(link.value, PeersOf(v)), true, ops)
  }

  ghost predicate Step(c: Config, p: Provider, a: Agent, e: Action, b: Agent) {
    match e
    case Watch(event) => Possible(a.watch, event) && b == a.(watch := Next(c, a.watch, event))
    case Wake => a.control.Waiting? && a.watch.nodeMap.ready && b == a.(control := Idle)
    case TakeFastPath => a.control.Idle? && FastPath(a) && b == a
    case Check => a.control.Idle? && !FastPath(a) && b == a.(control := Fetching)
    case Take(list) =>
      a.control.Fetching? && WellFormed(a.watch.nodeMap) && Usable(SnapshotOf(a.watch.nodeMap)) &&
        Enumerates(list, a.watch.nodeMap.nodes) &&
      b == a.(control := Planning(View(SnapshotOf(a.watch.nodeMap), list)))
    case FindLink(index) =>
      a.control.Planning? && p.Vxlan2? && a.link.None? && a.control.view.snap.Snapshot? &&
        VxlanPlanner.Routable(a.control.view.snap.me) &&
      b == a.(link := Some(index), mac := Some(VxlanPlanner.MacOf(a.control.view.snap.me)))
    case PlanStates(ops) =>
      a.control.Planning? && PlansStates(p, a.control.view, a.kernel.sad, ops) &&
      b == a.(control := Running(a.control.view, StateRun(a.kernel.sad, ops, 0)))
    case PlanPolicies(ops) =>
      a.control.Running? && a.control.run.StateRun? && a.control.run.done == |a.control.run.stateOps| &&
      PlansPolicies(p, a.control.view, a.kernel.spd, ops) &&
      b == a.(control := Running(a.control.view, PolicyRun(a.kernel.spd, ops, 0)))
    case PlanNeighs(ops) =>
      a.control.Planning? && PlansNeighs(p, a.control.view, a.link, a.kernel.neigh, ops) &&
      b == a.(control := Running(a.control.view, NeighRun(a.kernel.neigh, ops, 0)))
    case PlanRoutes(ops) =>
      a.control.Running? && a.control.run.NeighRun? && a.control.run.done == |a.control.run.neighOps| &&
      PlansRoutes(p, a.control.view, a.link, a.kernel.fib, ops) &&
      b == a.(control := Running(a.control.view, RouteRun(a.kernel.fib, ops, 0)))
    case Perform => Performs(a, b)
    case Finish =>
      a.control.Running? && Complete(a.control.run) && a.control.view.snap.Snapshot? &&
      b == a.(control := Idle, last := a.control.view.snap.version, applied := Some(a.control.view))
    case Fail => (a.control.Fetching? || a.control.Planning? || a.control.Running?) && b == a.(control := Idle)
  }

  /** The last table's run is at its end. */
  predicate Complete(r: Run) {
    (r.PolicyRun? && r.done == |r.policyOps|) || (r.RouteRun? && r.done == |r.fibOps|)
  }

  /** Each action leads from one state to the next. */
  ghost predicate Steps(c: Config, p: Provider, states: seq<Agent>, actions: seq<Action>) {
    |states| == |actions| + 1 && forall i :: 0 <= i < |actions| ==> Step(c, p, states[i], actions[i], states[i + 1])
  }

  ghost predicate Execution(c: Config, p: Provider, states: seq<Agent>, actions: seq<Action>) {
    Steps(c, p, states, actions) && Start(states[0])
  }

  /** Any kernel tables, nothing known and nothing applied. */
  predicate Start(a: Agent) {
    a.watch == INITIAL && a.control == Waiting && a.last == 0 && a.link == None && a.mac == None && a.applied == None
  }

  // ----- versions -----

  /** `s` is a snapshot that the map once showed; at equal versions it is what the map shows now. */
  ghost predicate Seen(s: Snapshot, m: MapState)
    requires WellFormed(m)
  {
    s.Snapshot? && m.ready && s.version <= m.version && (s.version == m.version ==> s == SnapshotOf(m))
  }

  /** While an attempt is under way, the recorded version is out of date. */
  ghost predicate Behind(a: Agent) {
    a.last == 0 || a.last < a.watch.nodeMap.version
  }

  ghost predicate InAttempt(k: Control) {
    k.Fetching? || k.Planning? || k.Running?
  }

  ghost predicate VersionInv(c: Config, a: Agent) {
    && Consistent(c, a.watch)
    && (if a.applied.None? then a.last == 0
        else Shown(a.applied.value, a.watch.nodeMap) && a.applied.value.snap.version == a.last)
    && (InAttempt(a.control) ==> Behind(a))
    && (a.control.Planning? || a.control.Running? ==> Shown(a.control.view, a.watch.nodeMap))
  }

  /** A view of a snapshot that the map once showed. */
  ghost predicate Shown(v: View, m: MapState)
    requires WellFormed(m)
  {
    Seen(v.snap, m) && Enumerates(v.list, v.snap.nodes)
  }

  lemma SeenFollows(s: Snapshot, m: MapState, n: MapState)
    requires WellFormed(m) && Seen(s, m) && Follows(m, n)
    ensures Seen(s, n)
  {
  }

  lemma StepKeepsVersions(c: Config, p: Provider, a: Agent, e: Action, b: Agent)
    requires VersionInv(c, a) && Step(c, p, a, e, b)
    ensures VersionInv(c, b)
  {
    hide Consistent, ProjectAll, Enumerates, PlansStates, PlansPolicies, PlansNeighs, PlansRoutes;
    match e
    case Watch(event) =>
      ConsistentIsWellFormed(c, a.watch);
      StepConsistent(c, a.watch, event);
      StepFollows(c, a.watch, event);
      if a.applied.Some? {
        SeenFollows(a.applied.value.snap, a.watch.nodeMap, b.watch.nodeMap);
      }
      if a.control.Planning? || a.control.Running? {
        SeenFollows(a.control.view.snap, a.watch.nodeMap, b.watch.nodeMap);
      }
    case Check =>
      ConsistentIsWellFormed(c, a.watch);
    case _ =>
      ConsistentIsWellFormed(c, a.watch);
  }

  lemma {:induction false} VersionsInExecution(c: Config, p: Provider, states: seq<Agent>, actions: seq<Action>, i: nat)
    requires Execution(c, p, states, actions) && i < |states|
    ensures VersionInv(c, states[i])
    decreases i
  {
    if i != 0 {
      VersionsInExecution(c, p, states, actions, i - 1);
      StepKeepsVersions(c, p, states[i - 1], actions[i - 1], states[i]);
    }
  }

  /**
    Whenever the version fast path is open, in any interleaving and after any failures, the view
    that was last applied to the end is the node map's current snapshot, and no attempt is under way.
   */
  lemma FastPathIsCurrent(c: Config, p: Provider, states: seq<Agent>, actions: seq<Action>, i: nat)
    requires Execution(c, p, states, actions) && i < |states| && FastPath(states[i])
    ensures WellFormed(states[i].watch.nodeMap)
    ensures states[i].applied.Some? && states[i].applied.value.snap == SnapshotOf(states[i].watch.nodeMap)
    ensures Enumerates(states[i].applied.value.list, states[i].watch.nodeMap.nodes)
    ensures !InAttempt(states[i].control)
  {
    VersionsInExecution(c, p, states, actions, i);
  }

  // ----- the MAC of the link -----

  /** Once the provider has its link, neither the link nor its MAC changes. */
  lemma {:induction false} LinkStays(c: Config, p: Provider, states: seq<Agent>, actions: seq<Action>, i: nat, j: nat)
    requires Execution(c, p, states, actions) && i <= j < |states| && states[i].link.Some?
    ensures states[j].link == states[i].link && states[j].mac == states[i].mac
    decreases j
  {
    hide PlansStates, PlansPolicies, PlansNeighs, PlansRoutes, Plannable;
    if i < j {
      LinkStays(c, p, states, actions, i, j - 1);
      assert Step(c, p, states[j - 1], actions[j - 1], states[j]);
    }
  }

  /** A link was configured at some step, for the local node of the view of that attempt. */
  lemma {:induction false} LinkHasOrigin(c: Config, p: Provider, states: seq<Agent>, actions: seq<Action>, j: nat)
    requires Execution(c, p, states, actions) && j < |states|
    ensures states[j].link.None? ==> states[j].mac == None
    ensures states[j].link.Some? ==> exists i :: 0 <= i < j && actions[i].FindLink?
    decreases j
  {
    hide PlansStates, PlansPolicies, PlansNeighs, PlansRoutes, Plannable;
    if 0 < j {
      LinkHasOrigin(c, p, states, actions, j - 1);
      assert Step(c, p, states[j - 1], actions[j - 1], states[j]);
      if states[j - 1].link.Some? {
        var i :| 0 <= i < j - 1 && actions[i].FindLink?;
        assert 0 <= i < j && actions[i].FindLink?;
      } else if states[j].link.Some? {
        assert actions[j - 1].FindLink?;
      }
    }
  }

  /**
    MAC agreement over runs: from the step that configures the link on, its MAC is that of the local node of
    that attempt's view, so what another node puts into its ARP and forwarding entries for value `v` of this
    node agrees with it if and only if `v` has the pod network base of that view.
   */
  lemma MacsAgreeIffBaseKept(c: Config, p: Provider, states: seq<Agent>, actions: seq<Action>, i: nat, j: nat,
                             v: NodeValue, remote: int)
    requires Execution(c, p, states, actions) && i < j < |states| && actions[i].FindLink? && VxlanPlanner.Routable(v)
    ensures states[i].control.Planning? && Usable(states[i].control.view.snap) &&
            VxlanPlanner.Routable(states[i].control.view.snap.me)
    ensures states[j].mac == Some(VxlanPlanner.MacOf(states[i].control.view.snap.me))
    ensures var arp, fdb := VxlanPlanner.ArpFor(remote, v), VxlanPlanner.FdbFor(remote, v);
            && arp.mac == fdb.mac
            && (VxlanPlanner.MacBytes(arp.mac) == VxlanPlanner.MacBytes(states[j].mac.value) <==>
                Cidr(v).ip == Cidr(states[i].control.view.snap.me).ip)
  {
    hide PlansStates, PlansPolicies, PlansNeighs, PlansRoutes, Plannable, VxlanPlanner.MacBytes;
    assert Step(c, p, states[i], actions[i], states[i + 1]);
    LinkStays(c, p, states, actions, i + 1, j);
    var me := states[i].control.view.snap.me;
    if VxlanPlanner.MacBytes(VxlanPlanner.MacOf(v)) == VxlanPlanner.MacBytes(VxlanPlanner.MacOf(me)) {
      VxlanPlanner.MacsInjective(Cidr(v).ip.addr, Cidr(me).ip.addr);
    }
  }
}
