/**
  What the agent's tables hold.  The invariant follows every run operation by operation, so that
  a recorded version always stands for tables that hold the plan of its snapshot, and applying
  that snapshot once more would change nothing.
 */
module AgentTables {
  import opened Options
  import opened Addresses
  import opened Nodes
  import opened Sequences
  import opened NodeMaps
  import opened KernelTables
  import opened Watcher
  import opened Agent
  import IpsecPlanner
  import IpsecMesh
  import IpsecProvider
  import VxlanPlanner
  import VxlanDelivery
  import Neighbours
  import Routes
  import Xfrm
  import XfrmStates
  import XfrmPolicies

  // ----- what is wanted -----

  ghost function StatesWanted(p: Provider, v: View): seq<Xfrm.State>
    requires p.Ipsec? && v.snap.Snapshot?
  {
    IpsecPlanner.StatePlan(p.st, v.snap.me, PeersOf(v))
  }

  ghost function PoliciesWanted(p: Provider, v: View): seq<Xfrm.Policy>
    requires p.Ipsec? && Plannable(p, v)
  {
    IpsecPlanner.PolicyPlan(v.snap.me, PeersOf(v))
  }

  ghost function NeighsWanted(p: Provider, v: View, link: int): seq<Neighbours.Neigh>
    requires p.Vxlan2? && Plannable(p, v)
  {
    VxlanPlanner.NeighPlan(link, PeersOf(v))
  }

  ghost function RoutesWanted(p: Provider, v: View, link: int): seq<Routes.Route>
    requires p.Vxlan2? && Plannable(p, v)
  {
    VxlanPlanner.RoutePlan(link, PeersOf(v))
  }

  /** The cluster of a view is one that the provider is meant for. */
  ghost predicate Sane(p: Provider, v: View) {
    Plannable(p, v) &&
    var all := [v.snap.me] + PeersOf(v);
    match p
    case Ipsec(_) => IpsecMesh.Mesh(all)
    case Vxlan2 => VxlanDelivery.Cluster(all) && VxlanDelivery.NoAddressIsBase(PeersOf(v))
  }

  lemma SaneVxlan(p: Provider, v: View, link: int)
    requires p.Vxlan2? && Sane(p, v)
    ensures Neighbours.DistinctEntries(NeighsWanted(p, v, link))
    ensures Routes.GoodExpected(RoutesWanted(p, v, link), Some(link))
  {
    hide VxlanDelivery.Cluster, VxlanDelivery.NoAddressIsBase, VxlanPlanner.NeighPlan, VxlanPlanner.RoutePlan;
    VxlanDelivery.NeighPlanDistinct(link, v.snap.me, PeersOf(v));
    VxlanDelivery.RoutePlanGood(link, v.snap.me, PeersOf(v));
  }

  // ----- what the tables hold -----

  ghost predicate HoldsStates(p: Provider, v: View, t: XfrmStates.Sad)
    requires p.Ipsec? && Plannable(p, v)
  {
    Exactly(t, StatesWanted(p, v), XfrmStates.KeyOf)
  }

  ghost predicate HoldsPolicies(p: Provider, v: View, t: XfrmPolicies.Spd)
    requires p.Ipsec? && Plannable(p, v)
  {
    XfrmPolicies.HoldsExactly(t, PoliciesWanted(p, v))
  }

  ghost predicate HoldsNeighs(p: Provider, v: View, link: int, t: Neighbours.NeighTable)
    requires p.Vxlan2? && Plannable(p, v)
  {
    forall e :: e in NeighsWanted(p, v, link) ==> Neighbours.KeyOf(e) in t && t[Neighbours.KeyOf(e)] == e
  }

  /** Besides routes without destination, the link carries exactly the wanted routes. */
  ghost predicate HoldsRoutes(p: Provider, v: View, link: int, t: Routes.Fib)
    requires p.Vxlan2? && Plannable(p, v)
  {
    Routes.LinkHolds(t, t, Some(link), RoutesWanted(p, v, link))
  }

  /** The tables hold the plan of the view; of all but the states this is claimed for supported clusters only. */
  ghost predicate Holds(p: Provider, v: View, link: Option<int>, k: Kernel) {
    Plannable(p, v) &&
    match p
    case Ipsec(_) => HoldsStates(p, v, k.sad) && (Sane(p, v) ==> HoldsPolicies(p, v, k.spd))
    case Vxlan2 =>
      && link.Some?
      && (Sane(p, v) ==> HoldsNeighs(p, v, link.value, k.neigh) && HoldsRoutes(p, v, link.value, k.fib))
  }

  // ----- the invariant -----

  ghost predicate GoodSad(t: XfrmStates.Sad) {
    XfrmStates.WellKeyed(t) && XfrmStates.DistinctSpis(t)
  }

  ghost predicate GoodSpd(t: XfrmPolicies.Spd) {
    XfrmPolicies.WellKeyed(t) && XfrmPolicies.Unmarked(t)
  }

  /** One route per destination on the provider's link, once it has one. */
  ghost predicate GoodFib(t: Routes.Fib, link: Option<int>) {
    Routes.WellKeyed(t) && (link.Some? ==> Routes.UniqueDsts(t, link))
  }

  ghost predicate GoodKernel(k: Kernel, link: Option<int>) {
    GoodSad(k.sad) && GoodSpd(k.spd) && Neighbours.WellKeyed(k.neigh) && GoodFib(k.fib, link)
  }

  /** The table of a run is the listed one with the performed operations, and finished tables hold what is wanted. */
  ghost predicate RunInv(p: Provider, link: Option<int>, k: Kernel, v: View, r: Run) {
    match r
    case StateRun(t, ops, n) => GoodSad(t) && PlansStates(p, v, t, ops) && Stopped(t, k.sad, ops, n)
    case PolicyRun(t, ops, n) =>
      GoodSpd(t) && PlansPolicies(p, v, t, ops) && Stopped(t, k.spd, ops, n) && HoldsStates(p, v, k.sad)
    case NeighRun(t, ops, n) => Neighbours.WellKeyed(t) && PlansNeighs(p, v, link, t, ops) &&
      Stopped(t, k.neigh, ops, n)
    case RouteRun(t, ops, n) =>
      && GoodFib(t, link) && PlansRoutes(p, v, link, t, ops) && Stopped(t, k.fib, ops, n)
      && (Sane(p, v) ==> HoldsNeighs(p, v, link.value, k.neigh))
  }

  /** Until the provider has its link, the forwarding table is as it was in the beginning. */
  ghost predicate TablesInv(p: Provider, a: Agent, fib: Routes.Fib) {
    && GoodKernel(a.kernel, a.link) && (a.link.None? ==> a.kernel.fib == fib)
    && (a.control.Running? ==> RunInv(p, a.link, a.kernel, a.control.view, a.control.run))
    && (FastPath(a) ==> a.applied.Some? && Holds(p, a.applied.value, a.link, a.kernel))
  }

  // ----- completed runs -----

  lemma StatesDone(p: Provider, v: View, t: XfrmStates.Sad, ops: seq<XfrmStates.SadOp>)
    requires GoodSad(t) && PlansStates(p, v, t, ops) && Accepted(t, ops)
    ensures HoldsStates(p, v, Exec(t, ops))
  {
    hide IpsecPlanner.StatePlan, Exactly, Exec, Accepted, XfrmStates.Plan;
    XfrmStates.Converges(t, StatesWanted(p, v), ops);
  }

  lemma PoliciesDone(p: Provider, v: View, t: XfrmPolicies.Spd, ops: seq<XfrmPolicies.SpdOp>)
    requires Sane(p, v) && GoodSpd(t) && PlansPolicies(p, v, t, ops)
    ensures HoldsPolicies(p, v, Exec(t, ops))
  {
    hide IpsecMesh.Mesh, IpsecPlanner.PolicyPlan, Exec, XfrmPolicies.Plan, XfrmPolicies.HoldsExactly;
    IpsecMesh.PolicyPlanDistinct(v.snap.me, PeersOf(v));
    XfrmPolicies.ConvergesIffMarksAgree(t, PoliciesWanted(p, v), ops);
  }

  lemma NeighsDone(p: Provider, v: View, link: Option<int>, t: Neighbours.NeighTable, ops: seq<Neighbours.NeighOp>)
    requires Sane(p, v) && PlansNeighs(p, v, link, t, ops)
    ensures HoldsNeighs(p, v, link.value, Exec(t, ops))
  {
    hide Sane, VxlanPlanner.NeighPlan, Exec, Neighbours.Plan;
    SaneVxlan(p, v, link.value);
    Neighbours.Converges(t, NeighsWanted(p, v, link.value), ops);
  }

  lemma RoutesDone(p: Provider, v: View, link: Option<int>, t: Routes.Fib, ops: seq<Routes.FibOp>)
    requires Sane(p, v) && GoodFib(t, link) && PlansRoutes(p, v, link, t, ops) && Accepted(t, ops)
    ensures HoldsRoutes(p, v, link.value, Exec(t, ops))
  {
    hide Sane, VxlanPlanner.RoutePlan, Exec, Accepted, Routes.Plan;
    SaneVxlan(p, v, link.value);
    Routes.ConvergesWithDeletion(t, link, RoutesWanted(p, v, link.value), ops);
  }

  // ----- one operation -----

  lemma OneMore<K, V>(t: map<K, V>, u: map<K, V>, ops: seq<Op<K, V>>, n: nat)
    requires Stopped(t, u, ops, n) && n < |ops| && Enabled(u, ops[n])
    ensures Stopped(t, Effect(u, ops[n]), ops, n + 1)
  {
    hide Accepted, Exec;
    assert ops[..n + 1] == ops[..n] + [ops[n]];
    AcceptedSnoc(t, ops[..n], ops[n]);
  }

  lemma PerformKeepsTables(p: Provider, a: Agent, b: Agent, fib: Routes.Fib)
    requires TablesInv(p, a, fib) && Performs(a, b) && !FastPath(a)
    ensures TablesInv(p, b, fib)
  {
    hide Sane, Plannable, Holds, Stopped, GoodSad, GoodSpd, GoodFib, HoldsStates, HoldsNeighs,
      PlansStates, PlansPolicies, PlansNeighs, PlansRoutes;
    var v := a.control.view;
    match a.control.run
    case StateRun(t, ops, n) =>
      OneMore(t, a.kernel.sad, ops, n);
      StatesStayGood(p, v, t, b.kernel.sad, ops, n + 1);
    case PolicyRun(t, ops, n) =>
      OneMore(t, a.kernel.spd, ops, n);
      PoliciesStayGood(p, v, t, b.kernel.spd, ops, n + 1);
    case NeighRun(t, ops, n) =>
      OneMore(t, a.kernel.neigh, ops, n);
      NeighsStayGood(p, v, a.link, t, b.kernel.neigh, ops, n + 1);
    case RouteRun(t, ops, n) =>
      RoutesNeedLink(p, v, a.link, t, ops);
      OneMore(t, a.kernel.fib, ops, n);
      RoutesStayGood(p, v, a.link, t, b.kernel.fib, ops, n + 1);
  }

  lemma RoutesNeedLink(p: Provider, v: View, link: Option<int>, t: Routes.Fib, ops: seq<Routes.FibOp>)
    requires PlansRoutes(p, v, link, t, ops)
    ensures link.Some?
  {
  }

  lemma StatesStayGood(p: Provider, v: View, t: XfrmStates.Sad, u: XfrmStates.Sad, ops: seq<XfrmStates.SadOp>, n: nat)
    requires GoodSad(t) && PlansStates(p, v, t, ops) && Stopped(t, u, ops, n)
    ensures GoodSad(u)
  {
    hide Accepted, Exec, XfrmStates.Plan, IpsecPlanner.StatePlan;
    XfrmStates.PartialRunKeepsInvariant(t, StatesWanted(p, v), ops, n);
  }

  lemma PoliciesStayGood(p: Provider, v: View, t: XfrmPolicies.Spd, u: XfrmPolicies.Spd,
                         ops: seq<XfrmPolicies.SpdOp>, n: nat)
    requires GoodSpd(t) && PlansPolicies(p, v, t, ops) && Stopped(t, u, ops, n)
    ensures GoodSpd(u)
  {
    hide Exec, Accepted, XfrmPolicies.Plan, IpsecPlanner.PolicyPlan;
    IpsecMesh.PolicyPlanUnmarked(v.snap.me, PeersOf(v));
    XfrmPolicies.PartialRunKeepsInvariant(t, PoliciesWanted(p, v), ops, n);
  }

  lemma NeighsStayGood(p: Provider, v: View, link: Option<int>, t: Neighbours.NeighTable, u: Neighbours.NeighTable,
                       ops: seq<Neighbours.NeighOp>, n: nat)
    requires Neighbours.WellKeyed(t) && PlansNeighs(p, v, link, t, ops) && Stopped(t, u, ops, n)
    ensures Neighbours.WellKeyed(u)
  {
    hide Exec, Accepted, Neighbours.Plan, VxlanPlanner.NeighPlan;
    Neighbours.PartialRunKeepsInvariant(t, NeighsWanted(p, v, link.value), ops, n);
  }

  lemma RoutesStayGood(p: Provider, v: View, link: Option<int>, t: Routes.Fib, u: Routes.Fib,
                       ops: seq<Routes.FibOp>, n: nat)
    requires GoodFib(t, link) && PlansRoutes(p, v, link, t, ops) && Stopped(t, u, ops, n)
    ensures GoodFib(u, link)
  {
    hide Exec, Accepted, Routes.Plan, VxlanPlanner.RoutePlan;
    VxlanDelivery.RoutePlanPlain(link.value, PeersOf(v));
    Routes.PartialRunKeepsInvariant(t, link, RoutesWanted(p, v, link.value), ops, n);
  }

  // ----- every step -----

  lemma StoppedAtEnd<K, V>(t: map<K, V>, u: map<K, V>, ops: seq<Op<K, V>>)
    ensures Stopped(t, u, ops, |ops|) <==> Accepted(t, ops) && u == Exec(t, ops)
    ensures u == t ==> Stopped(t, u, ops, 0)
  {
    assert ops[..|ops|] == ops && ops[..0] == [];
  }

  lemma PlanKeepsTables(c: Config, p: Provider, a: Agent, e: Action, b: Agent, fib: Routes.Fib)
    requires TablesInv(p, a, fib) && Step(c, p, a, e, b) && !FastPath(a)
    requires e.PlanStates? || e.PlanPolicies? || e.PlanNeighs? || e.PlanRoutes?
    ensures TablesInv(p, b, fib)
  {
    hide Sane, Plannable, Holds, Stopped, Accepted, Exec, GoodSad, GoodSpd, GoodFib, HoldsStates, HoldsNeighs,
      PlansStates, PlansPolicies, PlansNeighs, PlansRoutes;
    match e
    case PlanStates(ops) => StoppedAtEnd(a.kernel.sad, a.kernel.sad, ops);
    case PlanNeighs(ops) => StoppedAtEnd(a.kernel.neigh, a.kernel.neigh, ops);
    case PlanPolicies(ops) =>
      var r := a.control.run;
      StoppedAtEnd(a.kernel.spd, a.kernel.spd, ops);
      StoppedAtEnd(r.sad, a.kernel.sad, r.stateOps);
      StatesDone(p, a.control.view, r.sad, r.stateOps);
    case PlanRoutes(ops) =>
      var r := a.control.run;
      StoppedAtEnd(a.kernel.fib, a.kernel.fib, ops);
      StoppedAtEnd(r.neigh, a.kernel.neigh, r.neighOps);
      if Sane(p, a.control.view) {
        NeighsDone(p, a.control.view, a.link, r.neigh, r.neighOps);
      }
  }

  lemma FinishKeepsTables(p: Provider, a: Agent, b: Agent, fib: Routes.Fib)
    requires TablesInv(p, a, fib) && a.control.Running? && Complete(a.control.run) && a.control.view.snap.Snapshot?
    requires b == a.(control := Idle, last := a.control.view.snap.version, applied := Some(a.control.view))
    ensures TablesInv(p, b, fib)
  {
    hide Sane, Plannable, Stopped, Accepted, Exec, GoodSad, GoodSpd, HoldsStates, HoldsPolicies, HoldsNeighs,
      HoldsRoutes;
    var v := a.control.view;
    match a.control.run
    case PolicyRun(t, ops, n) =>
      StoppedAtEnd(t, a.kernel.spd, ops);
      if Sane(p, v) {
        PoliciesDone(p, v, t, ops);
      }
    case RouteRun(t, ops, n) =>
      StoppedAtEnd(t, a.kernel.fib, ops);
      if Sane(p, v) {
        RoutesDone(p, v, a.link, t, ops);
      }
  }

  lemma StepKeepsTables(c: Config, p: Provider, a: Agent, e: Action, b: Agent, fib: Routes.Fib)
    requires VersionInv(c, a) && TablesInv(p, a, fib) && Step(c, p, a, e, b)
    requires e.FindLink? ==> Routes.UniqueDsts(fib, Some(e.index))
    ensures TablesInv(p, b, fib)
  {
    hide Consistent, Plannable, Holds, RunInv, GoodSad, GoodSpd, PlansStates, PlansPolicies, PlansNeighs, PlansRoutes,
      Routes.WellKeyed, Routes.UniqueDsts, Neighbours.WellKeyed;
    ConsistentIsWellFormed(c, a.watch);
    match e
    case Watch(event) => StepFollows(c, a.watch, event);
    case Perform => PerformKeepsTables(p, a, b, fib);
    case Finish => FinishKeepsTables(p, a, b, fib);
    case PlanStates(_) => PlanKeepsTables(c, p, a, e, b, fib);
    case PlanPolicies(_) => PlanKeepsTables(c, p, a, e, b, fib);
    case PlanNeighs(_) => PlanKeepsTables(c, p, a, e, b, fib);
    case PlanRoutes(_) => PlanKeepsTables(c, p, a, e, b, fib);
    case _ =>
  }

  /** Sound starting tables; on the link that the provider gets, if it gets one, one route per destination. */
  ghost predicate StartsWell(states: seq<Agent>, actions: seq<Action>) {
    && states != [] && GoodKernel(states[0].kernel, None)
    && forall i :: 0 <= i < |actions| && actions[i].FindLink? ==>
         Routes.UniqueDsts(states[0].kernel.fib, Some(actions[i].index))
  }

  lemma {:induction false} TablesInExecution(c: Config, p: Provider, states: seq<Agent>, actions: seq<Action>, i: nat)
    requires Execution(c, p, states, actions) && StartsWell(states, actions) && i < |states|
    ensures VersionInv(c, states[i]) && TablesInv(p, states[i], states[0].kernel.fib)
    decreases i
  {
    hide GoodKernel, Step, VersionInv, Routes.UniqueDsts;
    VersionsInExecution(c, p, states, actions, i);
    if i != 0 {
      TablesInExecution(c, p, states, actions, i - 1);
      StepKeepsTables(c, p, states[i - 1], actions[i - 1], states[i], states[0].kernel.fib);
    }
  }

  /**
    Whenever the fast path is open, the tables hold the plan of the current snapshot, whatever clusters
    were planned for on the way.  A table that a failed attempt left half-way is therefore never taken
    for an applied one.
   */
  lemma FastPathMeansApplied(c: Config, p: Provider, states: seq<Agent>, actions: seq<Action>, i: nat)
    requires Execution(c, p, states, actions) && StartsWell(states, actions)
    requires i < |states| && FastPath(states[i])
    ensures WellFormed(states[i].watch.nodeMap) && states[i].applied.Some?
    ensures states[i].applied.value.snap == SnapshotOf(states[i].watch.nodeMap)
    ensures Holds(p, states[i].applied.value, states[i].link, states[i].kernel)
  {
    hide Holds, Execution, StartsWell;
    TablesInExecution(c, p, states, actions, i);
    FastPathIsCurrent(c, p, states, actions, i);
  }

  // ----- applying once more -----

  /** Two listings of one snapshot are permutations of each other. */
  lemma ListingsPermuted(v: View, w: View)
    requires v.snap.Snapshot? && w.snap == v.snap && Enumerates(v.list, v.snap.nodes) &&
             Enumerates(w.list, v.snap.nodes)
    ensures multiset(v.list) == multiset(w.list)
  {
    SameMembersPermuted(v.list, w.list);
  }

  lemma SamePeers(v: View, w: View)
    requires v.snap.Snapshot? && w.snap == v.snap && multiset(v.list) == multiset(w.list)
    ensures forall r :: r in PeersOf(v) <==> r in PeersOf(w)
    ensures multiset(PeersOf(v)) == multiset(PeersOf(w))
  {
    PeersPermuted(v.snap.me, v.list, w.list);
  }

  /**
    Whether the cluster of a view is one that the provider is meant for does not depend on the order of
    the listing.
   */
  lemma SaneInAnyOrder(p: Provider, v: View, w: View)
    requires Sane(p, v) && w.snap == v.snap && multiset(v.list) == multiset(w.list)
    ensures Sane(p, w)
  {
    hide IpsecMesh.Mesh, VxlanDelivery.Cluster, VxlanDelivery.NoAddressIsBase;
    SamePeers(v, w);
    match p
    case Ipsec(_) => IpsecMesh.MeshPermuted([v.snap.me] + PeersOf(v), [v.snap.me] + PeersOf(w));
    case Vxlan2 => VxlanDelivery.PeersStayFit(v.snap.me, v.list, w.list);
  }

  lemma StatesIdle(p: Provider, v: View, w: View, t: XfrmStates.Sad, ops: seq<XfrmStates.SadOp>)
    requires p.Ipsec? && Plannable(p, v) && w.snap == v.snap && forall r :: r in PeersOf(v) <==> r in PeersOf(w)
    requires HoldsStates(p, v, t) && PlansStates(p, w, t, ops)
    ensures ops == []
  {
    hide IpsecPlanner.StatePlan, IpsecPlanner.StatesFor, XfrmStates.Plan, XfrmStates.DistinctSpiList;
    IpsecMesh.StateMembers(p.st, v.snap.me, PeersOf(v));
    IpsecMesh.StateMembers(p.st, v.snap.me, PeersOf(w));
    XfrmStates.SecondRunIsIdle(t, StatesWanted(p, w), ops);
  }

  lemma PoliciesIdle(p: Provider, v: View, w: View, t: XfrmPolicies.Spd, ops: seq<XfrmPolicies.SpdOp>)
    requires p.Ipsec? && Plannable(p, v) && Sane(p, w) && w.snap == v.snap
    requires forall r :: r in PeersOf(v) <==> r in PeersOf(w)
    requires GoodSpd(t) && HoldsPolicies(p, v, t) && PlansPolicies(p, w, t, ops)
    ensures ops == []
  {
    hide IpsecMesh.Mesh, IpsecPlanner.PolicyPlan, XfrmPolicies.Plan;
    IpsecMesh.PolicyPlanDistinct(w.snap.me, PeersOf(w));
    IpsecMesh.SamePolicies(v.snap.me, PeersOf(v), PeersOf(w));
    XfrmPolicies.SecondRunIsIdle(t, PoliciesWanted(p, w), ops);
  }

  lemma NeighsIdle(p: Provider, v: View, w: View, link: Option<int>, t: Neighbours.NeighTable,
                   ops: seq<Neighbours.NeighOp>)
    requires p.Vxlan2? && Plannable(p, v) && Sane(p, w) && w.snap == v.snap
    requires forall r :: r in PeersOf(v) <==> r in PeersOf(w)
    requires link.Some? && HoldsNeighs(p, v, link.value, t) && PlansNeighs(p, w, link, t, ops)
    ensures Accepted(t, ops) && Exec(t, ops) == t
  {
    hide Sane, VxlanPlanner.NeighPlan, Neighbours.Plan, Accepted, Exec;
    SaneVxlan(p, w, link.value);
    VxlanPlanner.NeighMembers(link.value, PeersOf(v));
    VxlanPlanner.NeighMembers(link.value, PeersOf(w));
    Neighbours.Converges(t, NeighsWanted(p, w, link.value), ops);
    Neighbours.OverlaidUnique(Exec(t, ops), t, t, NeighsWanted(p, w, link.value), NeighsWanted(p, w, link.value));
  }

  lemma RoutesIdle(p: Provider, v: View, w: View, link: Option<int>, t: Routes.Fib, ops: seq<Routes.FibOp>)
    requires p.Vxlan2? && Plannable(p, v) && Sane(p, w) && w.snap == v.snap
    requires forall r :: r in PeersOf(v) <==> r in PeersOf(w)
    requires link.Some? && GoodFib(t, link) && HoldsRoutes(p, v, link.value, t) && PlansRoutes(p, w, link, t, ops)
    ensures ops == []
  {
    hide Sane, VxlanPlanner.RoutePlan, Routes.Plan;
    SaneVxlan(p, w, link.value);
    VxlanPlanner.RouteMembers(link.value, PeersOf(v));
    VxlanPlanner.RouteMembers(link.value, PeersOf(w));
    Routes.SecondRunIsIdle(t, t, link, RoutesWanted(p, w, link.value), ops);
  }

  /**
    The fast path agrees with applying everything every time: when it is open, a fresh attempt with
    the current snapshot, listed in any order, would plan no operation that changes a table.  For all
    tables but the states this needs a current cluster that the provider supports.
   */
  lemma FastPathSkipsOnlyIdleWork(c: Config, p: Provider, states: seq<Agent>, actions: seq<Action>, i: nat, w: View,
                                  stateOps: seq<XfrmStates.SadOp>, policyOps: seq<XfrmPolicies.SpdOp>,
                                  neighOps: seq<Neighbours.NeighOp>, fibOps: seq<Routes.FibOp>)
    requires Execution(c, p, states, actions) && StartsWell(states, actions)
    requires i < |states| && FastPath(states[i])
    requires WellFormed(states[i].watch.nodeMap) && w.snap == SnapshotOf(states[i].watch.nodeMap)
    requires Enumerates(w.list, states[i].watch.nodeMap.nodes)
    ensures var k, link := states[i].kernel, states[i].link;
            && (PlansStates(p, w, k.sad, stateOps) ==> stateOps == [])
            && (Sane(p, w) && PlansPolicies(p, w, k.spd, policyOps) ==> policyOps == [])
            && (Sane(p, w) && PlansNeighs(p, w, link, k.neigh, neighOps) ==>
                  Accepted(k.neigh, neighOps) && Exec(k.neigh, neighOps) == k.neigh)
            && (Sane(p, w) && PlansRoutes(p, w, link, k.fib, fibOps) ==> fibOps == [])
  {
    hide Sane, Execution, StartsWell, GoodSad, GoodSpd, GoodFib, PeersOf, HoldsStates, HoldsPolicies, HoldsNeighs,
      HoldsRoutes, Accepted, Exec, Enumerates;
    TablesInExecution(c, p, states, actions, i);
    FastPathIsCurrent(c, p, states, actions, i);
    var v, k, link := states[i].applied.value, states[i].kernel, states[i].link;
    ListingsPermuted(v, w);
    SamePeers(v, w);
    if PlansStates(p, w, k.sad, stateOps) {
      StatesIdle(p, v, w, k.sad, stateOps);
    }
    if Sane(p, w) {
      SaneInAnyOrder(p, w, v);
      if PlansPolicies(p, w, k.spd, policyOps) {
        PoliciesIdle(p, v, w, k.spd, policyOps);
      }
      if PlansNeighs(p, w, link, k.neigh, neighOps) {
        NeighsIdle(p, v, w, link, k.neigh, neighOps);
      }
      if PlansRoutes(p, w, link, k.fib, fibOps) {
        RoutesIdle(p, v, w, link, k.fib, fibOps);
      }
    }
  }

  // ----- what an up-to-date agent does with packets -----

  /** The current cluster, in some listing, is one that the provider is meant for. */
  ghost predicate SaneNow(p: Provider, m: MapState, list: seq<NodeValue>)
    requires WellFormed(m)
  {
    Enumerates(list, m.nodes) && Sane(p, View(SnapshotOf(m), list))
  }

  /** Then the applied view is sane, and the tables hold its plan. */
  lemma UpToDate(c: Config, p: Provider, states: seq<Agent>, actions: seq<Action>, i: nat, list: seq<NodeValue>)
    requires Execution(c, p, states, actions) && StartsWell(states, actions)
    requires i < |states| && FastPath(states[i]) && WellFormed(states[i].watch.nodeMap)
    requires SaneNow(p, states[i].watch.nodeMap, list)
    ensures states[i].applied.Some? && states[i].applied.value.snap == SnapshotOf(states[i].watch.nodeMap)
    ensures Enumerates(states[i].applied.value.list, states[i].watch.nodeMap.nodes)
    ensures GoodKernel(states[i].kernel, states[i].link)
    ensures Sane(p, states[i].applied.value) && Holds(p, states[i].applied.value, states[i].link, states[i].kernel)
  {
    hide Sane, Execution, StartsWell, Holds, GoodKernel, Enumerates;
    TablesInExecution(c, p, states, actions, i);
    FastPathIsCurrent(c, p, states, actions, i);
    var v, w := states[i].applied.value, View(SnapshotOf(states[i].watch.nodeMap), list);
    ListingsPermuted(v, w);
    SaneInAnyOrder(p, w, v);
  }

  /**
    End to end, over whole runs: whenever the vxlan2 agent considers itself up to date, every peer has a
    route that leads to the peer's address, and it is the one longest prefix match for a pod address of
    the peer if and only if no other link's route to the address is as specific.
   */
  lemma UpToDateAgentDelivers(c: Config, states: seq<Agent>, actions: seq<Action>, i: nat, list: seq<NodeValue>,
                              r: NodeValue, addr: bv32)
    requires Execution(c, Vxlan2, states, actions) && StartsWell(states, actions)
    requires i < |states| && FastPath(states[i]) && WellFormed(states[i].watch.nodeMap)
    requires SaneNow(Vxlan2, states[i].watch.nodeMap, list)
    requires r.name in states[i].watch.nodeMap.nodes && states[i].watch.nodeMap.nodes[r.name] == r
    requires r.name != MeOf(states[i].watch.nodeMap).name && r.address.Some? && r.podCIDR.Some?
    requires Contains(Cidr(r), addr)
    ensures states[i].link.Some? && VxlanPlanner.Routable(r)
    ensures var fib, neigh, link := states[i].kernel.fib, states[i].kernel.neigh, states[i].link.value;
            var k := Routes.FibKey(r.podCIDR, 0, 0);
            && k in fib && VxlanDelivery.Forward(fib[k], neigh) == r.address && VxlanDelivery.HasMac(link, r, neigh)
            && (VxlanDelivery.OnlyBest(fib, k, addr) <==> VxlanDelivery.OthersShorter(fib, link, r, addr))
  {
    hide Execution, StartsWell, SaneNow, GoodSad, GoodSpd, VxlanDelivery.Cluster, VxlanDelivery.OnlyBest,
      VxlanDelivery.Forward, VxlanDelivery.HasMac, VxlanDelivery.OthersShorter, Contains,
      VxlanPlanner.NeighPlan, VxlanPlanner.RoutePlan, Routes.LinkHolds, Routes.WellKeyed, Routes.UniqueDsts;
    UpToDate(c, Vxlan2, states, actions, i, list);
    var v, fib, neigh, link := states[i].applied.value, states[i].kernel.fib, states[i].kernel.neigh,
      states[i].link.value;
    PeersMembers(v.snap.me, v.list);
    var peers := PeersOf(v);
    assert r in v.list && r in peers;
    assert Neighbours.Overlaid(neigh, neigh, NeighsWanted(Vxlan2, v, link));
    VxlanDelivery.ForwardReaches(link, peers, r, neigh, neigh);
    VxlanDelivery.HeldRoute(link, peers, r, fib, fib);
    VxlanDelivery.OwnerIsBest(link, v.snap.me, peers, r, addr, fib, fib);
  }

  /** What a policy table that holds the plan does with a packet between this node's side and a peer's. */
  lemma TableTunnels(me: NodeValue, peers: seq<NodeValue>, t: XfrmPolicies.Spd, r: NodeValue,
                     dir: Xfrm.Dir, k: IpsecMesh.Packet)
    requires IpsecMesh.Mesh([me] + peers) && IpsecProvider.Numbered(me, peers) && r in peers
    requires me.address.value.V4? && (forall q :: q in peers ==> q.address.value.V4?)
    requires IpsecMesh.Travels(me, r, dir, k)
    requires XfrmPolicies.WellKeyed(t) && XfrmPolicies.HoldsExactly(t, IpsecPlanner.PolicyPlan(me, peers))
    ensures OneTunnel(me, r, t, dir, k, XfrmPolicies.KeyOf(IpsecMesh.PolicyNeeded(me, r, dir, k)))
  {
    hide IpsecMesh.Mesh, IpsecMesh.Travels, IpsecMesh.PolicyNeeded, IpsecPlanner.PolicyPlan, Contains;
    IpsecMesh.ExactlyOneTunnel(me, peers, r, dir, k);
    forall key | key in t
      ensures exists e ::
                e in IpsecPlanner.PolicyPlan(me, peers) && XfrmPolicies.KeyOf(e) == key && SameButIndex(t[key], e)
    {
      var e :| e in IpsecPlanner.PolicyPlan(me, peers) && XfrmPolicies.KeyOf(e) == key;
      assert t[key].(index := e.index) == e;
    }
    assert forall a, b :: SameButIndex(a, b) ==> (IpsecMesh.Selects(a, k) <==> IpsecMesh.Selects(b, k));
  }

  predicate SameButIndex(a: Xfrm.Policy, b: Xfrm.Policy) {
    a.(index := b.index) == b
  }

  /**
    The policy at `own` covers the packet and sends it through the tunnel between the two nodes; every other
    policy of the direction that covers it lets it pass at a worse priority.
   */
  ghost predicate OneTunnel(me: NodeValue, r: NodeValue, t: XfrmPolicies.Spd, dir: Xfrm.Dir, k: IpsecMesh.Packet,
                            own: XfrmPolicies.SpdKey) {
    && own in t && t[own].dir == dir && IpsecMesh.Selects(t[own], k)
    && t[own].tmpls == [if dir == Xfrm.Out then IpsecMesh.TunnelTmpl(me, r) else IpsecMesh.TunnelTmpl(r, me)]
    && forall key :: key in t && key != own && t[key].dir == dir && IpsecMesh.Selects(t[key], k) ==>
         t[key].tmpls == [] && t[own].priority < t[key].priority
  }

  /** The table has the ESP state from `a` to `b`, with the strategies' cipher and encapsulation. */
  ghost predicate EspInstalled(st: IpsecPlanner.Strategies, a: NodeValue, b: NodeValue, t: XfrmStates.Sad) {
    var key := XfrmStates.SadKey(b.address, 50, Xfrm.SPI(IpsecMesh.SpiBits(a, b, 1)));
    key in t && IpsecMesh.ProperEsp(st, a, b, t[key])
  }

  lemma TableHasEsp(st: IpsecPlanner.Strategies, me: NodeValue, peers: seq<NodeValue>, r: NodeValue, t: XfrmStates.Sad)
    requires IpsecMesh.Mesh([me] + peers) && r in peers && st.useESP
    requires Exactly(t, IpsecPlanner.StatePlan(st, me, peers), XfrmStates.KeyOf)
    ensures EspInstalled(st, me, r, t) && EspInstalled(st, r, me, t)
  {
    hide IpsecMesh.Mesh, IpsecPlanner.StatePlan, IpsecMesh.Proper, IpsecMesh.SpiBits;
    var out := IpsecMesh.EspExists(st, me, r);
    var back := IpsecMesh.EspExists(st, r, me);
    IpsecMesh.TunnelHasState(st, me, peers, r, out);
    IpsecMesh.TunnelHasState(st, me, peers, r, back);
  }

  /** An entry of the table between the two nodes is one that the strategies ask for. */
  lemma TableIsProper(st: IpsecPlanner.Strategies, me: NodeValue, peers: seq<NodeValue>, r: NodeValue,
                      t: XfrmStates.Sad,
                      key: XfrmStates.SadKey)
    requires IpsecMesh.Mesh([me] + peers) && r in peers
    requires Exactly(t, IpsecPlanner.StatePlan(st, me, peers), XfrmStates.KeyOf)
    ensures ProperBetween(st, me, r, t, key)
  {
    hide IpsecMesh.Mesh, IpsecPlanner.StatePlan, IpsecMesh.Proper;
    if key in t {
      IpsecMesh.TunnelHasState(st, me, peers, r, t[key]);
    }
  }

  ghost predicate ProperBetween(st: IpsecPlanner.Strategies, me: NodeValue, r: NodeValue, t: XfrmStates.Sad,
                                key: XfrmStates.SadKey) {
    && (key in t && t[key].src == me.address && t[key].dst == r.address ==> IpsecMesh.Proper(st, me, r, t[key]))
    && (key in t && t[key].src == r.address && t[key].dst == me.address ==> IpsecMesh.Proper(st, r, me, t[key]))
  }

  /**
    Whenever the IPsec agent considers itself up to date, a packet to a peer's side or from there is covered by
    exactly one tunnel policy of its direction, whose tunnel joins the two nodes; any other policy of the
    direction that covers it lets it pass at a worse priority; the tunnel has its ESP states, in both directions,
    and every state between the two nodes is one that the strategies ask for.
   */
  lemma UpToDateAgentTunnels(c: Config, p: Provider, states: seq<Agent>, actions: seq<Action>, i: nat,
                             list: seq<NodeValue>, r: NodeValue, dir: Xfrm.Dir, k: IpsecMesh.Packet,
                             stateKey: XfrmStates.SadKey)
    requires p.Ipsec? && p.st.useESP
    requires Execution(c, p, states, actions) && StartsWell(states, actions)
    requires i < |states| && FastPath(states[i]) && WellFormed(states[i].watch.nodeMap)
    requires SaneNow(p, states[i].watch.nodeMap, list)
    requires r.name in states[i].watch.nodeMap.nodes && states[i].watch.nodeMap.nodes[r.name] == r
    requires var me := MeOf(states[i].watch.nodeMap);
             && me.address.Some? && me.podCIDR.Some? && me.address.value.V4? && r.name != me.name
             && r.address.Some? && r.podCIDR.Some? && r.address.value.V4? && IpsecMesh.Travels(me, r, dir, k)
    ensures var me, spd, sad := MeOf(states[i].watch.nodeMap), states[i].kernel.spd, states[i].kernel.sad;
            && (exists own :: OneTunnel(me, r, spd, dir, k, own))
            && EspInstalled(p.st, me, r, sad) && EspInstalled(p.st, r, me, sad)
            && ProperBetween(p.st, me, r, sad, stateKey)
  {
    hide Execution, StartsWell, SaneNow, IpsecMesh.Travels, IpsecMesh.PolicyNeeded, OneTunnel, EspInstalled,
      ProperBetween, IpsecPlanner.PolicyPlan, IpsecPlanner.StatePlan, XfrmPolicies.HoldsExactly, Exactly;
    UpToDate(c, p, states, actions, i, list);
    var v := states[i].applied.value;
    PeersMembers(v.snap.me, v.list);
    var peers := PeersOf(v);
    assert r in v.list && r in peers;
    MeshAddresses(v.snap.me, peers);
    TableTunnels(v.snap.me, peers, states[i].kernel.spd, r, dir, k);
    TableHasEsp(p.st, v.snap.me, peers, r, states[i].kernel.sad);
    TableIsProper(p.st, v.snap.me, peers, r, states[i].kernel.sad, stateKey);
  }

  lemma MeshAddresses(me: NodeValue, peers: seq<NodeValue>)
    requires IpsecMesh.Mesh([me] + peers) && IpsecProvider.Numbered(me, peers)
    ensures forall q :: q in peers ==> q.address.value.V4?
  {
    forall q | q in peers ensures q.address.value.V4? {
      assert q in [me] + peers;
    }
  }
}
