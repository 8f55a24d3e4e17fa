/**
  What the provider objects do in one call is a sequence of steps of the agent: `EnsureCIDRs`, completed or
  failed, takes the step system from one idle state to another without a step of the watcher in between.
 */
module AgentAttempts {
  import opened Options
  import opened Nodes
  import opened NodeMaps
  import opened KernelTables
  import opened Watcher
  import opened Agent
  import IpsecPlanner
  import IpsecProvider
  import VxlanPlanner
  import VxlanProvider
  import Neighbours
  import Routes
  import XfrmStates
  import XfrmPolicies

  /** `b` can be reached from `a` by steps of the controller alone. */
  ghost predicate Reaches(c: Config, p: Provider, a: Agent, b: Agent) {
    exists states: seq<Agent>, actions: seq<Action> ::
      && Steps(c, p, states, actions) && states[0] == a && states[|states| - 1] == b
      && forall i :: 0 <= i < |actions| ==> !actions[i].Watch?
  }

  lemma ReachesSelf(c: Config, p: Provider, a: Agent)
    ensures Reaches(c, p, a, a)
  {
    assert Steps(c, p, [a], []);
  }

  lemma ReachesStep(c: Config, p: Provider, a: Agent, m: Agent, e: Action, b: Agent)
    requires Reaches(c, p, a, m) && Step(c, p, m, e, b) && !e.Watch?
    ensures Reaches(c, p, a, b)
  {
    hide Step;
    var states: seq<Agent>, actions: seq<Action> :|
      && Steps(c, p, states, actions) && states[0] == a && states[|states| - 1] == m
      && forall i :: 0 <= i < |actions| ==> !actions[i].Watch?;
    assert Steps(c, p, states + [b], actions + [e]);
  }

  // ----- runs, operation by operation -----

  lemma NextOp<K, V>(t: map<K, V>, ops: seq<Op<K, V>>, n: nat)
    requires 0 < n <= |ops| && Accepted(t, ops[..n])
    ensures Accepted(t, ops[..n - 1]) && Enabled(Exec(t, ops[..n - 1]), ops[n - 1])
    ensures Exec(t, ops[..n]) == Effect(Exec(t, ops[..n - 1]), ops[n - 1])
  {
    assert ops[..n] == ops[..n - 1] + [ops[n - 1]];
    AcceptedSnoc(t, ops[..n - 1], ops[n - 1]);
  }

  lemma {:induction false} PerformStates(c: Config, p: Provider, a: Agent, m: Agent, ops: seq<XfrmStates.SadOp>, n: nat)
    requires Reaches(c, p, a, m) && m.control.Running? && m.control.run == StateRun(m.kernel.sad, ops, 0)
    requires n <= |ops| && Accepted(m.kernel.sad, ops[..n])
    ensures Reaches(c, p, a, m.(kernel := m.kernel.(sad := Exec(m.kernel.sad, ops[..n])),
                                control := Running(m.control.view, StateRun(m.kernel.sad, ops, n))))
    decreases n
  {
    hide Reaches, Accepted;
    if n != 0 {
      NextOp(m.kernel.sad, ops, n);
      PerformStates(c, p, a, m, ops, n - 1);
      var x := m.(kernel := m.kernel.(sad := Exec(m.kernel.sad, ops[..n - 1])),
                  control := Running(m.control.view, StateRun(m.kernel.sad, ops, n - 1)));
      var y := m.(kernel := m.kernel.(sad := Exec(m.kernel.sad, ops[..n])),
                  control := Running(m.control.view, StateRun(m.kernel.sad, ops, n)));
      assert Step(c, p, x, Perform, y);
      ReachesStep(c, p, a, x, Perform, y);
    }
  }

  lemma {:induction false} PerformPolicies(c: Config, p: Provider, a: Agent, m: Agent, ops: seq<XfrmPolicies.SpdOp>,
                                           n: nat)
    requires Reaches(c, p, a, m) && m.control.Running? && m.control.run == PolicyRun(m.kernel.spd, ops, 0)
    requires n <= |ops| && Accepted(m.kernel.spd, ops[..n])
    ensures Reaches(c, p, a, m.(kernel := m.kernel.(spd := Exec(m.kernel.spd, ops[..n])),
                                control := Running(m.control.view, PolicyRun(m.kernel.spd, ops, n))))
    decreases n
  {
    hide Reaches, Accepted;
    if n != 0 {
      NextOp(m.kernel.spd, ops, n);
      PerformPolicies(c, p, a, m, ops, n - 1);
      var x := m.(kernel := m.kernel.(spd := Exec(m.kernel.spd, ops[..n - 1])),
                  control := Running(m.control.view, PolicyRun(m.kernel.spd, ops, n - 1)));
      var y := m.(kernel := m.kernel.(spd := Exec(m.kernel.spd, ops[..n])),
                  control := Running(m.control.view, PolicyRun(m.kernel.spd, ops, n)));
      assert Step(c, p, x, Perform, y);
      ReachesStep(c, p, a, x, Perform, y);
    }
  }

  lemma {:induction false} PerformNeighs(c: Config, p: Provider, a: Agent, m: Agent, ops: seq<Neighbours.NeighOp>,
                                         n: nat)
    requires Reaches(c, p, a, m) && m.control.Running? && m.control.run == NeighRun(m.kernel.neigh, ops, 0)
    requires n <= |ops| && Accepted(m.kernel.neigh, ops[..n])
    ensures Reaches(c, p, a, m.(kernel := m.kernel.(neigh := Exec(m.kernel.neigh, ops[..n])),
                                control := Running(m.control.view, NeighRun(m.kernel.neigh, ops, n))))
    decreases n
  {
    hide Reaches, Accepted;
    if n != 0 {
      NextOp(m.kernel.neigh, ops, n);
      PerformNeighs(c, p, a, m, ops, n - 1);
      var x := m.(kernel := m.kernel.(neigh := Exec(m.kernel.neigh, ops[..n - 1])),
                  control := Running(m.control.view, NeighRun(m.kernel.neigh, ops, n - 1)));
      var y := m.(kernel := m.kernel.(neigh := Exec(m.kernel.neigh, ops[..n])),
                  control := Running(m.control.view, NeighRun(m.kernel.neigh, ops, n)));
      assert Step(c, p, x, Perform, y);
      ReachesStep(c, p, a, x, Perform, y);
    }
  }

  lemma {:induction false} PerformRoutes(c: Config, p: Provider, a: Agent, m: Agent, ops: seq<Routes.FibOp>, n: nat)
    requires Reaches(c, p, a, m) && m.control.Running? && m.control.run == RouteRun(m.kernel.fib, ops, 0)
    requires n <= |ops| && Accepted(m.kernel.fib, ops[..n])
    ensures Reaches(c, p, a, m.(kernel := m.kernel.(fib := Exec(m.kernel.fib, ops[..n])),
                                control := Running(m.control.view, RouteRun(m.kernel.fib, ops, n))))
    decreases n
  {
    hide Reaches, Accepted;
    if n != 0 {
      NextOp(m.kernel.fib, ops, n);
      PerformRoutes(c, p, a, m, ops, n - 1);
      var x := m.(kernel := m.kernel.(fib := Exec(m.kernel.fib, ops[..n - 1])),
                  control := Running(m.control.view, RouteRun(m.kernel.fib, ops, n - 1)));
      var y := m.(kernel := m.kernel.(fib := Exec(m.kernel.fib, ops[..n])),
                  control := Running(m.control.view, RouteRun(m.kernel.fib, ops, n)));
      assert Step(c, p, x, Perform, y);
      ReachesStep(c, p, a, x, Perform, y);
    }
  }

  // ----- one call -----

  /** The version check fails and the snapshot is taken. */
  lemma BeginAttempt(c: Config, p: Provider, a: Agent, list: seq<NodeValue>)
    requires a.control.Idle? && !FastPath(a) && WellFormed(a.watch.nodeMap)
    requires Usable(SnapshotOf(a.watch.nodeMap)) && Enumerates(list, a.watch.nodeMap.nodes)
    ensures Reaches(c, p, a, a.(control := Planning(View(SnapshotOf(a.watch.nodeMap), list))))
  {
    hide Reaches, WellFormed, Enumerates;
    ReachesSelf(c, p, a);
    var b := a.(control := Fetching);
    ReachesStep(c, p, a, a, Check, b);
    ReachesStep(c, p, a, b, Take(list), a.(control := Planning(View(SnapshotOf(a.watch.nodeMap), list))));
  }

  // ----- the IPsec provider -----

  /** The agent in an IPsec attempt for view `v` that has got as far as `run` says. */
  function IpsecAt(a: Agent, v: View, run: IpsecProvider.Performed, sad: XfrmStates.Sad, spd: XfrmPolicies.Spd): Agent {
    a.(kernel := a.kernel.(sad := sad, spd := spd),
       control := Running(v, if run.stateDone < |run.stateOps|
                             then StateRun(a.kernel.sad, run.stateOps, run.stateDone)
                             else PolicyRun(a.kernel.spd, run.policyOps, run.policyDone)))
  }

  lemma IpsecProgress(c: Config, p: Provider, a: Agent, list: seq<NodeValue>, run: IpsecProvider.Performed,
                      sad: XfrmStates.Sad, spd: XfrmPolicies.Spd)
    requires p.Ipsec? && a.control.Idle? && !FastPath(a) && a.watch.nodeMap.ready
    requires WellFormed(a.watch.nodeMap) && Enumerates(list, a.watch.nodeMap.nodes)
    requires var me := MeOf(a.watch.nodeMap);
             IpsecProvider.Attempted(p.st, me, Peers(me, list), run, a.kernel.sad, sad, a.kernel.spd, spd)
    ensures Reaches(c, p, a, IpsecAt(a, View(SnapshotOf(a.watch.nodeMap), list), run, sad, spd))
  {
    hide Reaches, WellFormed, Enumerates, Accepted, Exec, XfrmStates.Plan, XfrmPolicies.Plan,
      XfrmStates.DistinctSpiList, IpsecPlanner.StatePlan, IpsecPlanner.PolicyPlan, Peers;
    var v := View(SnapshotOf(a.watch.nodeMap), list);
    BeginAttempt(c, p, a, list);
    var x := a.(control := Planning(v));
    var y := a.(control := Running(v, StateRun(a.kernel.sad, run.stateOps, 0)));
    ReachesStep(c, p, a, x, PlanStates(run.stateOps), y);
    PerformStates(c, p, a, y, run.stateOps, run.stateDone);
    if run.stateDone == |run.stateOps| {
      var mid := a.(kernel := a.kernel.(sad := sad),
                    control := Running(v, StateRun(a.kernel.sad, run.stateOps, run.stateDone)));
      var z := mid.(control := Running(v, PolicyRun(a.kernel.spd, run.policyOps, 0)));
      ReachesStep(c, p, a, mid, PlanPolicies(run.policyOps), z);
      PerformPolicies(c, p, a, z, run.policyOps, run.policyDone);
    }
  }

  /** A completed call, as the contract of the IPsec provider describes it, is a sequence of controller steps. */
  lemma IpsecCallIsSteps(c: Config, p: Provider, a: Agent, list: seq<NodeValue>, run: IpsecProvider.Performed,
                         sad: XfrmStates.Sad, spd: XfrmPolicies.Spd)
    requires p.Ipsec? && a.control.Idle? && !FastPath(a) && a.watch.nodeMap.ready
    requires WellFormed(a.watch.nodeMap) && Enumerates(list, a.watch.nodeMap.nodes) && IpsecProvider.Complete(run)
    requires var me := MeOf(a.watch.nodeMap);
             IpsecProvider.Attempted(p.st, me, Peers(me, list), run, a.kernel.sad, sad, a.kernel.spd, spd)
    ensures var v := View(SnapshotOf(a.watch.nodeMap), list);
            Reaches(c, p, a, a.(kernel := a.kernel.(sad := sad, spd := spd),
                                last := v.snap.version, applied := Some(v)))
  {
    hide Reaches, WellFormed, Enumerates, IpsecProvider.Attempted;
    var v := View(SnapshotOf(a.watch.nodeMap), list);
    IpsecProgress(c, p, a, list, run, sad, spd);
    ReachesStep(c, p, a, IpsecAt(a, v, run, sad, spd), Finish,
                a.(kernel := a.kernel.(sad := sad, spd := spd), last := v.snap.version, applied := Some(v)));
  }

  /** So is a failed call, which ends in the step that gives up, with the tables wherever it left them. */
  lemma IpsecFailureIsSteps(c: Config, p: Provider, a: Agent, list: seq<NodeValue>, run: IpsecProvider.Performed,
                            sad: XfrmStates.Sad, spd: XfrmPolicies.Spd)
    requires p.Ipsec? && a.control.Idle? && !FastPath(a) && WellFormed(a.watch.nodeMap)
    requires var me := MeOf(a.watch.nodeMap);
             if a.watch.nodeMap.ready && IpsecProvider.Numbered(me, Peers(me, list)) then
               && Enumerates(list, a.watch.nodeMap.nodes) && !IpsecProvider.Complete(run)
               && IpsecProvider.Attempted(p.st, me, Peers(me, list), run, a.kernel.sad, sad, a.kernel.spd, spd)
             else sad == a.kernel.sad && spd == a.kernel.spd
    ensures ReachesBy(c, p, a, Fail, a.(kernel := a.kernel.(sad := sad, spd := spd)))
  {
    hide Reaches, WellFormed, Enumerates, IpsecProvider.Attempted, IpsecProvider.Numbered, Step;
    var b, me := a.(kernel := a.kernel.(sad := sad, spd := spd)), MeOf(a.watch.nodeMap);
    if a.watch.nodeMap.ready && IpsecProvider.Numbered(me, Peers(me, list)) {
      IpsecProgress(c, p, a, list, run, sad, spd);
      EndByFailing(c, p, a, IpsecAt(a, View(SnapshotOf(a.watch.nodeMap), list), run, sad, spd), b);
    } else {
      FailEarly(c, p, a);
    }
  }

  /** The last of the steps from `a` to `b` is `e`. */
  ghost predicate ReachesBy(c: Config, p: Provider, a: Agent, e: Action, b: Agent) {
    exists m :: Reaches(c, p, a, m) && Step(c, p, m, e, b)
  }

  lemma EndByFailing(c: Config, p: Provider, a: Agent, m: Agent, b: Agent)
    requires Reaches(c, p, a, m) && InAttempt(m.control) && b == m.(control := Idle)
    ensures ReachesBy(c, p, a, Fail, b)
  {
    hide Reaches;
    assert Step(c, p, m, Fail, b);
  }

  /** The version check fails, and then the snapshot or the plan is of no use. */
  lemma FailEarly(c: Config, p: Provider, a: Agent)
    requires a.control.Idle? && !FastPath(a)
    ensures ReachesBy(c, p, a, Fail, a)
  {
    hide Reaches;
    ReachesSelf(c, p, a);
    var b := a.(control := Fetching);
    ReachesStep(c, p, a, a, Check, b);
    EndByFailing(c, p, a, b, a);
  }

  // ----- the vxlan2 provider -----

  /** The agent once the provider has its link; on the first call this also fixes the MAC. */
  function WithLink(a: Agent, me: NodeValue, index: int): Agent
    requires a.link.None? ==> VxlanPlanner.Routable(me)
  {
    if a.link.Some? then a else a.(link := Some(index), mac := Some(VxlanPlanner.MacOf(me)))
  }

  /** The agent in a vxlan2 attempt for view `v` that has got as far as `run` says. */
  function VxlanAt(a: Agent, v: View, run: VxlanProvider.Performed, neigh: Neighbours.NeighTable,
                   fib: Routes.Fib): Agent {
    a.(kernel := a.kernel.(neigh := neigh, fib := fib),
       control := Running(v, if run.neighDone < |run.neighOps|
                             then NeighRun(a.kernel.neigh, run.neighOps, run.neighDone)
                             else RouteRun(a.kernel.fib, run.fibOps, run.fibDone)))
  }

  lemma FindLinkFirst(c: Config, a: Agent, v: View, index: int)
    requires Reaches(c, Vxlan2, a, a.(control := Planning(v))) && v.snap.Snapshot?
    requires if a.link.Some? then a.link.value == index else VxlanPlanner.Routable(v.snap.me)
    ensures Reaches(c, Vxlan2, a, WithLink(a, v.snap.me, index).(control := Planning(v)))
  {
    hide Reaches;
    if a.link.None? {
      ReachesStep(c, Vxlan2, a, a.(control := Planning(v)), FindLink(index),
                  WithLink(a, v.snap.me, index).(control := Planning(v)));
    }
  }

  lemma VxlanProgress(c: Config, a: Agent, list: seq<NodeValue>, index: int, run: VxlanProvider.Performed,
                      neigh: Neighbours.NeighTable, fib: Routes.Fib)
    requires a.control.Idle? && !FastPath(a) && a.watch.nodeMap.ready
    requires WellFormed(a.watch.nodeMap) && Enumerates(list, a.watch.nodeMap.nodes) && Planable(MeOf(a.watch.nodeMap))
    requires if a.link.Some? then a.link.value == index else VxlanPlanner.Routable(MeOf(a.watch.nodeMap))
    requires var me := MeOf(a.watch.nodeMap);
             VxlanProvider.Attempted(index, Peers(me, list), run, a.kernel.neigh, neigh, a.kernel.fib, fib)
    ensures var me, v := MeOf(a.watch.nodeMap), View(SnapshotOf(a.watch.nodeMap), list);
            Reaches(c, Vxlan2, a, VxlanAt(WithLink(a, me, index), v, run, neigh, fib))
  {
    hide Reaches, WellFormed, Enumerates, Accepted, Exec, Neighbours.Plan, Routes.Plan,
      VxlanPlanner.NeighPlan, VxlanPlanner.RoutePlan, Peers;
    var v := View(SnapshotOf(a.watch.nodeMap), list);
    BeginAttempt(c, Vxlan2, a, list);
    FindLinkFirst(c, a, v, index);
    var x := WithLink(a, v.snap.me, index).(control := Planning(v));
    ApplyNeighs(c, a, x, run.neighOps, run.neighDone);
    if run.neighDone == |run.neighOps| {
      var mid := x.(kernel := x.kernel.(neigh := neigh),
                    control := Running(v, NeighRun(x.kernel.neigh, run.neighOps, run.neighDone)));
      ApplyRoutes(c, a, mid, run.fibOps, run.fibDone);
    }
  }

  lemma ApplyNeighs(c: Config, a: Agent, x: Agent, ops: seq<Neighbours.NeighOp>, n: nat)
    requires Reaches(c, Vxlan2, a, x) && x.control.Planning? && n <= |ops| && Accepted(x.kernel.neigh, ops[..n])
    requires PlansNeighs(Vxlan2, x.control.view, x.link, x.kernel.neigh, ops)
    ensures Reaches(c, Vxlan2, a, x.(kernel := x.kernel.(neigh := Exec(x.kernel.neigh, ops[..n])),
                                     control := Running(x.control.view, NeighRun(x.kernel.neigh, ops, n))))
  {
    hide Reaches, Accepted, Exec, PlansNeighs;
    var y := x.(control := Running(x.control.view, NeighRun(x.kernel.neigh, ops, 0)));
    ReachesStep(c, Vxlan2, a, x, PlanNeighs(ops), y);
    PerformNeighs(c, Vxlan2, a, y, ops, n);
  }

  lemma ApplyRoutes(c: Config, a: Agent, x: Agent, ops: seq<Routes.FibOp>, n: nat)
    requires Reaches(c, Vxlan2, a, x) && x.control.Running? && n <= |ops| && Accepted(x.kernel.fib, ops[..n])
    requires x.control.run.NeighRun? && x.control.run.done == |x.control.run.neighOps|
    requires PlansRoutes(Vxlan2, x.control.view, x.link, x.kernel.fib, ops)
    ensures Reaches(c, Vxlan2, a, x.(kernel := x.kernel.(fib := Exec(x.kernel.fib, ops[..n])),
                                     control := Running(x.control.view, RouteRun(x.kernel.fib, ops, n))))
  {
    hide Reaches, Accepted, Exec, PlansRoutes;
    var y := x.(control := Running(x.control.view, RouteRun(x.kernel.fib, ops, 0)));
    ReachesStep(c, Vxlan2, a, x, PlanRoutes(ops), y);
    PerformRoutes(c, Vxlan2, a, y, ops, n);
  }

  /** A completed call, as the contract of the vxlan2 provider describes it, is a sequence of controller steps. */
  lemma VxlanCallIsSteps(c: Config, a: Agent, list: seq<NodeValue>, index: int, run: VxlanProvider.Performed,
                         neigh: Neighbours.NeighTable, fib: Routes.Fib)
    requires a.control.Idle? && !FastPath(a) && a.watch.nodeMap.ready
    requires WellFormed(a.watch.nodeMap) && Enumerates(list, a.watch.nodeMap.nodes) && Planable(MeOf(a.watch.nodeMap))
    requires if a.link.Some? then a.link.value == index else VxlanPlanner.Routable(MeOf(a.watch.nodeMap))
    requires VxlanProvider.Complete(run)
    requires var me := MeOf(a.watch.nodeMap);
             VxlanProvider.Attempted(index, Peers(me, list), run, a.kernel.neigh, neigh, a.kernel.fib, fib)
    ensures var me, v := MeOf(a.watch.nodeMap), View(SnapshotOf(a.watch.nodeMap), list);
            Reaches(c, Vxlan2, a, WithLink(a, me, index).(kernel := a.kernel.(neigh := neigh, fib := fib),
                                                          last := v.snap.version, applied := Some(v)))
  {
    hide Reaches, WellFormed, Enumerates, VxlanProvider.Attempted;
    var me, v := MeOf(a.watch.nodeMap), View(SnapshotOf(a.watch.nodeMap), list);
    VxlanProgress(c, a, list, index, run, neigh, fib);
    ReachesStep(c, Vxlan2, a, VxlanAt(WithLink(a, me, index), v, run, neigh, fib), Finish,
                WithLink(a, me, index).(kernel := a.kernel.(neigh := neigh, fib := fib),
                                        last := v.snap.version, applied := Some(v)));
  }

  /** So is a call that fails with the link in place. */
  lemma VxlanFailureIsSteps(c: Config, a: Agent, list: seq<NodeValue>, index: int, run: VxlanProvider.Performed,
                            neigh: Neighbours.NeighTable, fib: Routes.Fib)
    requires a.control.Idle? && !FastPath(a) && a.watch.nodeMap.ready
    requires WellFormed(a.watch.nodeMap) && Enumerates(list, a.watch.nodeMap.nodes) && Planable(MeOf(a.watch.nodeMap))
    requires if a.link.Some? then a.link.value == index else VxlanPlanner.Routable(MeOf(a.watch.nodeMap))
    requires var me := MeOf(a.watch.nodeMap);
             VxlanProvider.Attempted(index, Peers(me, list), run, a.kernel.neigh, neigh, a.kernel.fib, fib)
    ensures var me := MeOf(a.watch.nodeMap);
            ReachesBy(c, Vxlan2, a, Fail, WithLink(a, me, index).(kernel := a.kernel.(neigh := neigh, fib := fib)))
  {
    hide Reaches, WellFormed, Enumerates, VxlanProvider.Attempted;
    var me, v := MeOf(a.watch.nodeMap), View(SnapshotOf(a.watch.nodeMap), list);
    VxlanProgress(c, a, list, index, run, neigh, fib);
    EndByFailing(c, Vxlan2, a, VxlanAt(WithLink(a, me, index), v, run, neigh, fib),
                 WithLink(a, me, index).(kernel := a.kernel.(neigh := neigh, fib := fib)));
  }
}
