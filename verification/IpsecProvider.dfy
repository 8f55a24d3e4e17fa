/** The IPsec provider object: it applies states and then policies for every new version of the node map. */
module IpsecProvider {
  import opened Options
  import opened Addresses
  import opened Nodes
  import opened NodeMaps
  import opened KernelTables
  import opened Xfrm
  import opened IpsecPlanner
  import IpsecMesh
  import XfrmStates
  import XfrmPolicies

  datatype Outcome = Done | Failed | Fatal

  /** Every peer has an IPv4 pod network, and so has the local node. */
  ghost predicate Numbered(me: NodeValue, peers: seq<NodeValue>) {
    && Planable(me) && me.podCIDR.value.ip.V4?
    && forall r :: r in peers ==> Planable(r) && r.podCIDR.value.ip.V4?
  }

  /** Two nodes share a numeral, so that planned states would share an SPI. */
  ghost predicate Colliding(st: Strategies, me: NodeValue, peers: seq<NodeValue>) {
    (st.useAH || st.useESP) && !IpsecMesh.NumeralsApart([me] + peers)
  }

  /** The two runs of a call, and how many operations of each were performed. */
  datatype Performed = Performed(
    stateOps: seq<XfrmStates.SadOp>, stateDone: nat, policyOps: seq<XfrmPolicies.SpdOp>, policyDone: nat)

  const NOTHING := Performed([], 0, [], 0)

  ghost predicate Complete(run: Performed) {
    run.stateDone == |run.stateOps| && run.policyDone == |run.policyOps|
  }

  /** The tables after a call that got as far as `run` says; policies are planned once all states are done. */
  ghost predicate Attempted(st: Strategies, me: NodeValue, peers: seq<NodeValue>, run: Performed,
                            sad: XfrmStates.Sad, sad': XfrmStates.Sad,
                            spd: XfrmPolicies.Spd, spd': XfrmPolicies.Spd) {
    && Numbered(me, peers) && XfrmStates.DistinctSpiList(StatePlan(st, me, peers))
    && XfrmStates.Plan(sad, StatePlan(st, me, peers), run.stateOps)
    && Stopped(sad, sad', run.stateOps, run.stateDone)
    && if run.stateDone < |run.stateOps| then spd' == spd && run.policyOps == [] else
         XfrmPolicies.Plan(spd, PolicyPlan(me, peers), run.policyOps) &&
           Stopped(spd, spd', run.policyOps, run.policyDone)
  }

  /** The kernel refuses an operation of the first or of the second run. */
  ghost predicate Blocked(run: Performed, sad: XfrmStates.Sad, spd: XfrmPolicies.Spd) {
    !Accepted(sad, run.stateOps) || !Accepted(spd, run.policyOps)
  }

  class IpsecProvider {
    const strategies: Strategies
    var lastVersionApplied: nat
    const states: Table<XfrmStates.SadKey, State>
    const policies: Table<XfrmPolicies.SpdKey, Policy>

    constructor (strategies: Strategies, states: Table<XfrmStates.SadKey, State>,
                 policies: Table<XfrmPolicies.SpdKey, Policy>)
      ensures this.strategies == strategies && lastVersionApplied == 0
      ensures this.states == states && this.policies == policies
    {
      this.strategies, this.states, this.policies := strategies, states, policies;
      lastVersionApplied := 0;
    }

    /** Both tables, states first. */
    method ApplyTables(me: NodeValue, nodes: seq<NodeValue>) returns (outcome: Outcome, ghost run: Performed)
      requires Planable(me) && XfrmStates.WellKeyed(states.entries) && XfrmPolicies.WellKeyed(policies.entries)
      modifies states, policies
      ensures outcome == Fatal <==> Numbered(me, Peers(me, nodes)) && Colliding(strategies, me, Peers(me, nodes))
      ensures Numbered(me, Peers(me, nodes)) <==>
                && me.podCIDR.value.ip.V4?
                && forall r :: r in nodes && r.name != me.name && r.address.Some? && r.podCIDR.Some? ==>
                     r.podCIDR.value.ip.V4?
      ensures outcome == Fatal || !Numbered(me, Peers(me, nodes)) ==>
                outcome != Done && states.entries == old(states.entries) && policies.entries == old(policies.entries)
      ensures outcome != Fatal && Numbered(me, Peers(me, nodes)) ==>
                && Attempted(strategies, me, Peers(me, nodes), run,
                             old(states.entries), states.entries, old(policies.entries), policies.entries)
                && (outcome == Done <==> Complete(run))
      ensures outcome == Failed && Numbered(me, Peers(me, nodes)) && states.reliable && policies.reliable ==>
                Blocked(run, old(states.entries), old(policies.entries))
    {
      run := NOTHING;
      PeersMembers(me, nodes);
      var ok, expected := BuildStates(strategies, me, nodes);
      if !ok {
        return Failed, run;
      }
      IpsecMesh.StatePlanDistinct(strategies, me, Peers(me, nodes));
      var result, sops, n := XfrmStates.Ensure(states, expected);
      if result == XfrmStates.Fatal {
        return Fatal, run;
      }
      run := Performed(sops, n, [], 0);
      if result == XfrmStates.Failed {
        return Failed, run;
      }
      var wanted := BuildPolicies(me, nodes);
      var applied, pops, m := XfrmPolicies.Ensure(policies, wanted);
      run := Performed(sops, n, pops, m);
      return if applied then Done else Failed, run;
    }

    /**
      The fast path changes nothing.  Otherwise the version is recorded exactly on success, after complete
      runs for the peers of the snapshot; a failed call leaves the tables untouched or part of the way.
     */
    method EnsureCIDRs(nodeMap: NodeMap)
      returns (outcome: Outcome, ghost list: seq<NodeValue>, ghost run: Performed)
      requires nodeMap.Valid() && XfrmStates.WellKeyed(states.entries) && XfrmPolicies.WellKeyed(policies.entries)
      modifies this, states, policies
      ensures nodeMap.state == old(nodeMap.state) && WellFormed(nodeMap.state)
      ensures old(lastVersionApplied) != 0 && nodeMap.state.version == old(lastVersionApplied) ==>
                outcome == Done && unchanged(this) && unchanged(states) && unchanged(policies)
      ensures outcome != Done ==> lastVersionApplied == old(lastVersionApplied)
      ensures outcome == Done && (old(lastVersionApplied) == 0 || nodeMap.state.version != old(lastVersionApplied)) ==>
                && nodeMap.state.ready && Enumerates(list, nodeMap.state.nodes) && Complete(run)
                && Attempted(strategies, MeOf(nodeMap.state), Peers(MeOf(nodeMap.state), list), run,
                             old(states.entries), states.entries, old(policies.entries), policies.entries)
                && lastVersionApplied == nodeMap.state.version
      ensures outcome == Fatal ==>
                && Numbered(MeOf(nodeMap.state), Peers(MeOf(nodeMap.state), list))
                && Colliding(strategies, MeOf(nodeMap.state), Peers(MeOf(nodeMap.state), list))
      ensures outcome == Failed ==>
                var me := MeOf(nodeMap.state);
                if nodeMap.state.ready && Numbered(me, Peers(me, list)) then
                  && Enumerates(list, nodeMap.state.nodes) && !Complete(run)
                  && Attempted(strategies, me, Peers(me, list), run,
                               old(states.entries), states.entries, old(policies.entries), policies.entries)
                  && (states.reliable && policies.reliable ==> Blocked(run, old(states.entries), old(policies.entries)))
                else states.entries == old(states.entries) && policies.entries == old(policies.entries)
    {
      hide NodeMap.Valid, WellFormed, Enumerates, Attempted, Blocked, Colliding, Complete, Peers, StatePlan,
        XfrmStates.WellKeyed, XfrmPolicies.WellKeyed;
      nodeMap.ValidIsWellFormed();
      list, run := [], NOTHING;
      if lastVersionApplied != 0 {
        var same := nodeMap.IsVersion(lastVersionApplied);
        if same {
          return Done, list, run;
        }
      }
      var present, me, nodes, version := nodeMap.TakeSnapshot();
      if !present || me.podCIDR.None? || me.address.None? {
        return Failed, list, run;
      }
      list := nodes;
      outcome, run := ApplyTables(me, nodes);
      if outcome == Done {
        lastVersionApplied := version;
      }
    }
  }
}
