/**
  The watcher thread: list all nodes, mark the map ready, then follow watch events until an
  error starts it over.  Each locked call on the node map is one step.
 */
module Watcher {
  import opened Options
  import opened Nodes
  import opened NodeMaps
  import opened Diffs

  datatype Pc = Listing | Replaced | Marked | Watching

  /** `observed` is the API server's node set as the watcher last saw it. */
  datatype WatchState = WatchState(pc: Pc, nodeMap: MapState, observed: Option<map<string, ApiNode>>)

  datatype Event =
    | ListFailed
    | Listed(list: seq<ApiNode>)
    | MarkedReady
    | WatchFailed
    | WatchStarted
    | NodeSeen(node: ApiNode)
    | NodeDeleted(name: string)
    | BookmarkSeen
    | WatchEnded

  const INITIAL := WatchState(Listing, EMPTY_MAP, None)

  /** Which events the loop can meet at which point. */
  predicate Possible(s: WatchState, e: Event) {
    match e
    case ListFailed => s.pc == Listing
    case Listed(_) => s.pc == Listing
    case MarkedReady => s.pc == Replaced
    case WatchFailed => s.pc == Marked
    case WatchStarted => s.pc == Marked
    case NodeSeen(_) => s.pc == Watching
    case NodeDeleted(_) => s.pc == Watching
    case BookmarkSeen => s.pc == Watching
    case WatchEnded => s.pc == Watching
  }

  /** The listed nodes by name; a repeated name keeps its last node. */
  function ByName(list: seq<ApiNode>): map<string, ApiNode> {
    IndexBy(list, NameOf)
  }

  function NameOf(n: ApiNode): string {
    n.name
  }

  function Next(c: Config, s: WatchState, e: Event): WatchState {
    match e
    case ListFailed => s
    case Listed(list) => WatchState(Replaced, ReplaceAllNodes(c, s.nodeMap, list), Some(ByName(list)))
    case MarkedReady => WatchState(Marked, MarkReady(s.nodeMap), s.observed)
    case WatchFailed => s.(pc := Listing)
    case WatchStarted => s.(pc := Watching)
    case NodeSeen(n) =>
      WatchState(s.pc, UpdateNode(c, s.nodeMap, n),
                 if s.observed.Some? then Some(s.observed.value[n.name := n]) else None)
    case NodeDeleted(n) =>
      WatchState(s.pc, RemoveNode(s.nodeMap, n),
                 if s.observed.Some? then Some(s.observed.value - {n}) else None)
    case BookmarkSeen => s
    case WatchEnded => s.(pc := Listing)
  }

  /** The states of a run: the start and the state after each event. */
  ghost predicate Run(c: Config, states: seq<WatchState>, events: seq<Event>) {
    && |states| == |events| + 1
    && (forall i :: 0 <= i < |events| ==>
         Possible(states[i], events[i]) && states[i + 1] == Next(c, states[i], events[i]))
  }

  function ProjectAll(p: Parsers, nodes: map<string, ApiNode>): map<string, NodeValue> {
    map n | n in nodes :: Project(p, nodes[n])
  }

  // ----- the loop on the object -----

  /** The state after all of `events`. */
  function After(c: Config, s: WatchState, events: seq<Event>): WatchState {
    if events == [] then s else Next(c, After(c, s, events[..|events| - 1]), events[|events| - 1])
  }

  /** One turn of the loop on the shared node map. */
  method Handle(nodeMap: NodeMap, e: Event)
    requires nodeMap.Valid()
    modifies nodeMap, nodeMap.entries
    ensures nodeMap.Valid() && fresh(nodeMap.entries - old(nodeMap.entries))
    ensures forall w: WatchState :: w.nodeMap == old(nodeMap.state) ==>
            nodeMap.state == Next(nodeMap.config, w, e).nodeMap
    ensures old(nodeMap.me) != null ==> nodeMap.me == old(nodeMap.me)
  {
    match e
    case Listed(list) => var _ := nodeMap.ReplaceAll(list);
    case MarkedReady => nodeMap.SetReady();
    case NodeSeen(n) => var _ := nodeMap.Update(n);
    case NodeDeleted(name) => nodeMap.Remove(name);
    case ListFailed =>
    case WatchFailed =>
    case WatchStarted =>
    case BookmarkSeen =>
    case WatchEnded =>
  }

  /**
    The watcher thread on its own: the object's state is the step system's, and a `me` once set stays
    the same object.
   */
  method RunWatcher(nodeMap: NodeMap, ghost w: WatchState, events: seq<Event>)
    requires nodeMap.Valid() && nodeMap.state == w.nodeMap
    modifies nodeMap, nodeMap.entries
    ensures nodeMap.Valid() && nodeMap.state == After(nodeMap.config, w, events).nodeMap
    ensures old(nodeMap.me) != null ==> nodeMap.me == old(nodeMap.me)
  {
    hide NodeMap.Valid, Next;
    for i := 0 to |events|
      invariant nodeMap.Valid() && fresh(nodeMap.entries - old(nodeMap.entries))
      invariant nodeMap.state == After(nodeMap.config, w, events[..i]).nodeMap
      invariant old(nodeMap.me) != null ==> nodeMap.me == old(nodeMap.me)
    {
      assert events[..i + 1][..i] == events[..i];
      Handle(nodeMap, events[i]);
    }
    assert events[..|events|] == events;
  }

  // ----- one operation of the map at a time -----

  lemma {:induction false} ByNameKeys(list: seq<ApiNode>)
    ensures ByName(list).Keys == NamesOf(list)
    decreases |list|
  {
    if list != [] {
      var init, last := list[..|list| - 1], list[|list| - 1];
      assert list == init + [last];
      ByNameKeys(init);
      assert NamesOf(list) == NamesOf(init) + {last.name};
    }
  }

  lemma {:induction false} UpdateAllNodes(c: Config, s: MapState, list: seq<ApiNode>)
    ensures var u := UpdateAll(c, s, list);
            && u.nodes.Keys == s.nodes.Keys + ByName(list).Keys
            && (forall n :: n in ByName(list) ==> u.nodes[n] == Project(c.parsers, ByName(list)[n]))
    decreases |list|
  {
    if list != [] {
      UpdateAllNodes(c, s, list[..|list| - 1]);
    }
  }

  /** A re-list makes the map the projection of the list, whatever the map held before. */
  lemma ReplaceProjects(c: Config, s: MapState, list: seq<ApiNode>)
    ensures ReplaceAllNodes(c, s, list).nodes == ProjectAll(c.parsers, ByName(list))
  {
    hide Project, UpdateAll, ByName, NamesOf;
    UpdateAllNodes(c, s, list);
    ByNameKeys(list);
    var u, part := UpdateAll(c, s, list), ProjectAll(c.parsers, ByName(list));
    Restricted(u.nodes, part);
    assert part.Keys == NamesOf(list);
  }

  lemma ListOne(c: Config, n: ApiNode)
    ensures var m := ReplaceAllNodes(c, EMPTY_MAP, [n]);
            WellFormed(m) && m.nodes == map[n.name := Project(c.parsers, n)]
  {
    hide Project, ByName, ReplaceAllNodes, UpdateAll;
    StepFollows(c, INITIAL, Listed([n]));
    ReplaceProjects(c, EMPTY_MAP, [n]);
    ByNameOne(n);
  }

  lemma ByNameOne(n: ApiNode)
    ensures ByName([n]) == map[n.name := n]
  {
    assert [n][..0] == [] && IndexBy<string, ApiNode>([], NameOf) == map[];
  }

  lemma Restricted<K, V>(m: map<K, V>, part: map<K, V>)
    requires part.Keys <= m.Keys && forall k :: k in part ==> m[k] == part[k]
    ensures m - (m.Keys - part.Keys) == part
  {
  }

  /** How the local node may develop: it is found once and keeps its name, and an orphan never changes. */
  ghost predicate SelfMonotone(s: MapState, t: MapState) {
    match s.self
    case Unknown => true
    case Live(n) => t.self == Live(n) || (t.self.Orphan? && t.self.value.name == n)
    case Orphan(v) => t.self == Orphan(v)
  }

  /** Content that did not change may keep its version; content that did may not. */
  ghost predicate VersionTracks(s: MapState, t: MapState) {
    && s.version <= t.version
    && (s.version == t.version ==> s.nodes == t.nodes && s.self == t.self)
  }

  ghost predicate Follows(s: MapState, t: MapState) {
    WellFormed(t) && SelfMonotone(s, t) && VersionTracks(s, t) && (s.ready ==> t.ready)
  }

  lemma UpdateFollows(c: Config, s: MapState, src: ApiNode)
    requires WellFormed(s)
    ensures Follows(s, UpdateNode(c, s, src)) && (s.self.Live? ==> UpdateNode(c, s, src).self == s.self)
  {
  }

  /** An update leaves the version alone if and only if it changes neither an entry nor the local node. */
  lemma UpdateIsSilentIffSame(c: Config, s: MapState, src: ApiNode)
    ensures var t := UpdateNode(c, s, src);
            && (t.version == s.version <==> t.nodes == s.nodes && t.self == s.self)
            && t.version <= s.version + 1
  {
    hide Project;
    var t := UpdateNode(c, s, src);
    if src.name in s.nodes && s.nodes[src.name] == Project(c.parsers, src) {
      assert t.nodes == s.nodes;
    } else {
      assert src.name !in s.nodes || t.nodes[src.name] != s.nodes[src.name];
    }
  }

  /** A re-list that shows what the map already holds changes nothing, so that no provider has to apply it again. */
  lemma RelistOfSameIsSilent(c: Config, s: MapState, list: seq<ApiNode>)
    requires !s.self.Unknown? && forall n :: n in s.nodes ==> n in NamesOf(list)
    requires forall src :: src in list ==> src.name in s.nodes && s.nodes[src.name] == Project(c.parsers, src)
    ensures ReplaceAllNodes(c, s, list) == s
  {
    hide Project;
    UpdateAllSilent(c, s, list);
    assert s.nodes.Keys - NamesOf(list) == {};
    RemoveAllNone(s, s.nodes.Keys - NamesOf(list));
  }

  lemma {:induction false} UpdateAllSilent(c: Config, s: MapState, list: seq<ApiNode>)
    requires !s.self.Unknown?
    requires forall src :: src in list ==> src.name in s.nodes && s.nodes[src.name] == Project(c.parsers, src)
    ensures UpdateAll(c, s, list) == s
    decreases |list|
  {
    hide Project;
    if list != [] {
      var init, last := list[..|list| - 1], list[|list| - 1];
      assert list == init + [last];
      UpdateAllSilent(c, s, init);
      assert s.nodes[last.name := Project(c.parsers, last)] == s.nodes;
    }
  }

  lemma RemoveFollows(s: MapState, gone: set<string>)
    requires WellFormed(s) && gone <= s.nodes.Keys
    ensures Follows(s, RemoveAll(s, gone))
  {
    if |gone| == 0 {
      assert s.nodes - gone == s.nodes;
    }
  }

  lemma FollowsTransitive(s: MapState, t: MapState, u: MapState)
    requires Follows(s, t) && Follows(t, u)
    ensures Follows(s, u)
  {
  }

  lemma {:induction false} UpdateAllFollows(c: Config, s: MapState, list: seq<ApiNode>)
    requires WellFormed(s)
    ensures Follows(s, UpdateAll(c, s, list)) && (s.self.Live? ==> UpdateAll(c, s, list).self == s.self)
    decreases |list|
  {
    if list != [] {
      var init, last := list[..|list| - 1], list[|list| - 1];
      UpdateAllFollows(c, s, init);
      UpdateFollows(c, UpdateAll(c, s, init), last);
      FollowsTransitive(s, UpdateAll(c, s, init), UpdateAll(c, s, list));
    }
  }

  /** Every step of the watcher keeps the map well formed, its version honest and its local node stable. */
  lemma StepFollows(c: Config, s: WatchState, e: Event)
    requires WellFormed(s.nodeMap)
    ensures Follows(s.nodeMap, Next(c, s, e).nodeMap)
  {
    match e
    case Listed(list) =>
      var u := UpdateAll(c, s.nodeMap, list);
      UpdateAllFollows(c, s.nodeMap, list);
      RemoveFollows(u, u.nodes.Keys - NamesOf(list));
      FollowsTransitive(s.nodeMap, u, ReplaceAllNodes(c, s.nodeMap, list));
    case NodeSeen(n) => UpdateFollows(c, s.nodeMap, n);
    case _ =>
  }

  // ----- whole runs -----

  /** The map shows what was observed, and nothing is shown before the first complete list. */
  ghost predicate Consistent(c: Config, s: WatchState) {
    && WellFormed(s.nodeMap)
    && (s.observed.Some? ==> s.nodeMap.nodes == ProjectAll(c.parsers, s.observed.value))
    && (s.pc != Listing ==> s.observed.Some?)
    && (s.nodeMap.ready ==> s.observed.Some?)
  }

  lemma ConsistentIsWellFormed(c: Config, s: WatchState)
    requires Consistent(c, s)
    ensures WellFormed(s.nodeMap)
  {
  }

  lemma StepConsistent(c: Config, s: WatchState, e: Event)
    requires Consistent(c, s) && Possible(s, e)
    ensures Consistent(c, Next(c, s, e))
  {
    hide ProjectAll, Project, WellFormed, ReplaceAllNodes;
    StepFollows(c, s, e);
    match e
    case Listed(list) => ReplaceProjects(c, s.nodeMap, list);
    case NodeSeen(n) => ProjectUpdated(c.parsers, s.observed.value, n);
    case NodeDeleted(n) => ProjectRemoved(c.parsers, s.observed.value, n);
    case _ =>
  }

  lemma ProjectUpdated(p: Parsers, nodes: map<string, ApiNode>, n: ApiNode)
    ensures ProjectAll(p, nodes[n.name := n]) == ProjectAll(p, nodes)[n.name := Project(p, n)]
  {
    hide Project;
  }

  lemma ProjectRemoved(p: Parsers, nodes: map<string, ApiNode>, n: string)
    ensures ProjectAll(p, nodes - {n}) == ProjectAll(p, nodes) - {n}
  {
    hide Project;
  }

  /** In every state of every run the map equals the projection of the API nodes as last observed. */
  lemma {:induction false} RunConsistent(c: Config, states: seq<WatchState>, events: seq<Event>, i: nat)
    requires Run(c, states, events) && states[0] == INITIAL && i < |states|
    ensures Consistent(c, states[i])
    ensures states[i].observed.Some? ==> AllReflect(c.parsers, states[i].observed.value, states[i].nodeMap.nodes)
    decreases i
  {
    if i != 0 {
      RunConsistent(c, states, events, i - 1);
      StepConsistent(c, states[i - 1], events[i - 1]);
    }
    if states[i].observed.Some? {
      ProjectionsReflect(c.parsers, states[i].observed.value);
    }
  }

  /** There is a value for every node, and it says what the node reports. */
  ghost predicate AllReflect(p: Parsers, nodes: map<string, ApiNode>, values: map<string, NodeValue>) {
    values.Keys == nodes.Keys && forall n :: n in nodes && n in values ==> Reflects(p, nodes[n], values[n])
  }

  lemma ProjectionsReflect(p: Parsers, nodes: map<string, ApiNode>)
    ensures AllReflect(p, nodes, ProjectAll(p, nodes))
  {
    hide Project, Reflects;
    forall n | n in nodes ensures Reflects(p, nodes[n], ProjectAll(p, nodes)[n]) {
      ProjectReflects(p, nodes[n], Project(p, nodes[n]));
    }
  }

  /** The last node of the list with that name. */
  function LastIn(list: seq<ApiNode>, name: string): Option<ApiNode> {
    if list == [] then None
    else if list[|list| - 1].name == name then Some(list[|list| - 1])
    else LastIn(list[..|list| - 1], name)
  }

  /** What the events last said of the node called `name`: a list says it of every name. */
  function LastWord(events: seq<Event>, name: string): Option<ApiNode> {
    if events == [] then None else
      var init, last := events[..|events| - 1], events[|events| - 1];
      match last
      case Listed(list) => LastIn(list, name)
      case NodeSeen(n) => if n.name == name then Some(n) else LastWord(init, name)
      case NodeDeleted(n) => if n == name then None else LastWord(init, name)
      case _ => LastWord(init, name)
  }

  lemma {:induction false} LastInIsLookup(list: seq<ApiNode>, name: string)
    ensures LastIn(list, name).Some? <==> name in ByName(list)
    ensures LastIn(list, name).Some? ==> LastIn(list, name).value == ByName(list)[name]
    decreases |list|
  {
    if list != [] {
      LastInIsLookup(list[..|list| - 1], name);
    }
  }

  /**
    In every state of every run, the map has an entry for exactly the nodes that the events last reported
    as existing, and it says what was reported.
   */
  lemma {:induction false} RunShowsLastWord(c: Config, states: seq<WatchState>, events: seq<Event>, i: nat,
                                            name: string)
    requires Run(c, states, events) && states[0] == INITIAL && i < |states|
    ensures |states| == |events| + 1
    ensures name in states[i].nodeMap.nodes <==> LastWord(events[..i], name).Some?
    ensures name in states[i].nodeMap.nodes ==>
              Reflects(c.parsers, LastWord(events[..i], name).value, states[i].nodeMap.nodes[name])
    decreases i
  {
    hide Run, Reflects, Project, ReplaceAllNodes, LastIn;
    RunStep(c, states, events, i);
    if i != 0 {
      RunShowsLastWord(c, states, events, i - 1, name);
      RunStep(c, states, events, i - 1);
      assert events[..i][..i - 1] == events[..i - 1];
      match events[i - 1]
      case Listed(list) =>
        ReplaceProjects(c, states[i - 1].nodeMap, list);
        LastInIsLookup(list, name);
        if name in ByName(list) {
          ProjectReflects(c.parsers, ByName(list)[name], Project(c.parsers, ByName(list)[name]));
        }
      case NodeSeen(n) => ProjectReflects(c.parsers, n, Project(c.parsers, n));
      case _ =>
    }
  }

  /** A snapshot, once there is one, shows exactly the projected nodes of the last observation. */
  lemma SnapshotsShowObservation(c: Config, states: seq<WatchState>, events: seq<Event>, i: nat)
    requires Run(c, states, events) && states[0] == INITIAL && i < |states|
    ensures WellFormed(states[i].nodeMap) && |states| == |events| + 1
    ensures SnapshotOf(states[i].nodeMap) != NoSnapshot ==>
              && states[i].observed.Some?
              && AllReflect(c.parsers, states[i].observed.value, SnapshotOf(states[i].nodeMap).nodes)
              && forall name :: name in SnapshotOf(states[i].nodeMap).nodes <==> LastWord(events[..i], name).Some?
  {
    hide Run, AllReflect, LastWord, Reflects;
    RunConsistent(c, states, events, i);
    RunStep(c, states, events, i);
    forall name ensures name in states[i].nodeMap.nodes <==> LastWord(events[..i], name).Some? {
      RunShowsLastWord(c, states, events, i, name);
    }
  }

  /** Later states of a run follow earlier ones. */
  lemma {:induction false} RunFollows(c: Config, states: seq<WatchState>, events: seq<Event>, i: nat, j: nat)
    requires Run(c, states, events) && WellFormed(states[0].nodeMap) && i <= j < |states|
    ensures WellFormed(states[i].nodeMap) && Follows(states[i].nodeMap, states[j].nodeMap)
    decreases j
  {
    if i < j {
      RunFollows(c, states, events, i, j - 1);
      StepFollows(c, states[j - 1], events[j - 1]);
      FollowsTransitive(states[i].nodeMap, states[j - 1].nodeMap, states[j].nodeMap);
    } else if 0 < i {
      RunFollows(c, states, events, 0, i - 1);
      StepFollows(c, states[i - 1], events[i - 1]);
    }
  }

  /** Equal versions anywhere in a run mean equal content. */
  lemma SameVersionSameContent(c: Config, states: seq<WatchState>, events: seq<Event>, i: nat, j: nat)
    requires Run(c, states, events) && WellFormed(states[0].nodeMap) && i <= j < |states|
    requires states[i].nodeMap.version == states[j].nodeMap.version
    ensures states[i].nodeMap.nodes == states[j].nodeMap.nodes && states[i].nodeMap.self == states[j].nodeMap.self
  {
    RunFollows(c, states, events, i, j);
  }

  /** Once known, the local node is known for ever, under one name; once orphaned, its value is frozen. */
  lemma SelfIsStable(c: Config, states: seq<WatchState>, events: seq<Event>, i: nat, j: nat)
    requires Run(c, states, events) && WellFormed(states[0].nodeMap) && i <= j < |states|
    requires !states[i].nodeMap.self.Unknown?
    ensures WellFormed(states[i].nodeMap) && WellFormed(states[j].nodeMap)
    ensures !states[j].nodeMap.self.Unknown? && MeOf(states[j].nodeMap).name == MeOf(states[i].nodeMap).name
    ensures states[i].nodeMap.self.Orphan? ==> MeOf(states[j].nodeMap) == MeOf(states[i].nodeMap)
  {
    RunFollows(c, states, events, i, j);
  }

  /** While the local node is live, a snapshot's `me` is exactly one of its nodes. */
  lemma LiveSelfIsListed(s: MapState, list: seq<NodeValue>)
    requires WellFormed(s) && s.self.Live? && Enumerates(list, s.nodes)
    ensures MeOf(s) in list
    ensures forall v :: v in list && v.name == MeOf(s).name ==> v == MeOf(s)
    ensures forall i, j :: 0 <= i < j < |list| ==> !(list[i] == MeOf(s) && list[j] == MeOf(s))
  {
    assert MeOf(s) in list;
  }

  /** The event takes the live local node out of the map. */
  ghost predicate RemovesSelf(s: MapState, e: Event) {
    s.self.Live? && (e == NodeDeleted(s.self.name) || (e.Listed? && s.self.name !in NamesOf(e.list)))
  }

  /** The local node is orphaned by the removal of its entry and by nothing else. */
  lemma OrphanedIffRemoved(c: Config, s: WatchState, e: Event)
    requires WellFormed(s.nodeMap) && !s.nodeMap.self.Orphan?
    ensures Next(c, s, e).nodeMap.self.Orphan? <==> RemovesSelf(s.nodeMap, e)
  {
    match e
    case Listed(list) =>
      UpdateAllFollows(c, s.nodeMap, list);
      if s.nodeMap.self.Unknown? {
        UpdateAllFinds(c, s.nodeMap, list);
      }
    case _ =>
  }

  /** A local node found during a re-list is one of the listed nodes. */
  lemma {:induction false} UpdateAllFinds(c: Config, s: MapState, list: seq<ApiNode>)
    requires s.self.Unknown?
    ensures UpdateAll(c, s, list).self.Unknown? ||
            (UpdateAll(c, s, list).self.Live? && UpdateAll(c, s, list).self.name in NamesOf(list))
    decreases |list|
  {
    if list != [] {
      var init, last := list[..|list| - 1], list[|list| - 1];
      assert list == init + [last];
      assert NamesOf(list) == NamesOf(init) + {last.name};
      UpdateAllFinds(c, s, init);
    }
  }

  /** A step leads to an orphan exactly from an orphan or by the removal of the entry. */
  lemma OrphanStep(c: Config, s: WatchState, e: Event)
    requires WellFormed(s.nodeMap)
    ensures Next(c, s, e).nodeMap.self.Orphan? <==> s.nodeMap.self.Orphan? || RemovesSelf(s.nodeMap, e)
  {
    hide Next, RemovesSelf;
    StepFollows(c, s, e);
    if !s.nodeMap.self.Orphan? {
      OrphanedIffRemoved(c, s, e);
    }
  }

  /** In a run, the local node is orphaned if and only if its entry was removed at some point. */
  lemma {:induction false} OrphanOnlyByRemoval(c: Config, states: seq<WatchState>, events: seq<Event>, j: nat)
    requires Run(c, states, events) && states[0] == INITIAL && j < |states|
    ensures |states| == |events| + 1 && (states[j].nodeMap.self.Orphan? <==> RemovedBefore(states, events, j))
    decreases j
  {
    hide Run, RemovesSelf, WellFormed, Follows, Next, RemovedBefore;
    RunStep(c, states, events, j);
    if j == 0 {
      NothingRemovedAtFirst(states, events);
    } else {
      OrphanOnlyByRemoval(c, states, events, j - 1);
      InitialIsWellFormed();
      RunFollows(c, states, events, j - 1, j - 1);
      RunStep(c, states, events, j - 1);
      OrphanStep(c, states[j - 1], events[j - 1]);
      RemovedSnoc(states, events, j);
    }
  }

  lemma InitialIsWellFormed()
    ensures WellFormed(INITIAL.nodeMap)
  {
  }

  /** The entry of the local node was removed by one of the first `j` events. */
  ghost predicate RemovedBefore(states: seq<WatchState>, events: seq<Event>, j: nat)
    requires j <= |events| < |states|
  {
    exists i :: 0 <= i < j && RemovesSelf(states[i].nodeMap, events[i])
  }

  lemma NothingRemovedAtFirst(states: seq<WatchState>, events: seq<Event>)
    requires |events| < |states|
    ensures !RemovedBefore(states, events, 0)
  {
  }

  lemma RemovedSnoc(states: seq<WatchState>, events: seq<Event>, j: nat)
    requires 0 < j <= |events| < |states|
    ensures RemovedBefore(states, events, j) <==>
              RemovedBefore(states, events, j - 1) || RemovesSelf(states[j - 1].nodeMap, events[j - 1])
  {
    hide RemovesSelf;
  }

  lemma RunStep(c: Config, states: seq<WatchState>, events: seq<Event>, i: nat)
    requires Run(c, states, events) && i < |states|
    ensures |states| == |events| + 1
    ensures i < |events| ==> Possible(states[i], events[i]) && states[i + 1] == Next(c, states[i], events[i])
  {
  }

  /** A local node that is deleted and added again stays orphaned: its snapshot keeps the old value. */
  lemma ReaddedSelfIsStale(c: Config, s: MapState, again: ApiNode)
    requires WellFormed(s) && s.self == Live(again.name)
    requires Project(c.parsers, again) != s.nodes[again.name]
    ensures var t := UpdateNode(c, RemoveNode(s, again.name), again);
            WellFormed(t) && t.nodes[again.name] == Project(c.parsers, again) && MeOf(t) != t.nodes[again.name]
  {
  }

  // ----- until the local node is identified -----

  /** The event shows the node. */
  predicate Carries(e: Event, n: ApiNode) {
    (e.NodeSeen? && e.node == n) || (e.Listed? && n in e.list)
  }

  /** The event shows a node that the predicate takes for the local one. */
  ghost predicate Identifies(c: Config, e: Event) {
    exists n :: Carries(e, n) && c.isMe(n)
  }

  /** Of the nodes that the event shows, the predicate accepts at most those called `local`. */
  ghost predicate AcceptsOnly(c: Config, e: Event, local: string) {
    forall n :: Carries(e, n) && c.isMe(n) ==> n.name == local
  }

  lemma {:induction false} UpdateAllIdentifies(c: Config, s: MapState, list: seq<ApiNode>)
    ensures UpdateAll(c, s, list).self.Unknown? <==> s.self.Unknown? && forall n :: n in list ==> !c.isMe(n)
    decreases |list|
  {
    if list != [] {
      var init, last := list[..|list| - 1], list[|list| - 1];
      assert list == init + [last];
      UpdateAllIdentifies(c, s, init);
    }
  }

  lemma StepIdentifies(c: Config, s: WatchState, e: Event)
    requires WellFormed(s.nodeMap)
    ensures Next(c, s, e).nodeMap.self.Unknown? <==> s.nodeMap.self.Unknown? && !Identifies(c, e)
  {
    match e
    case Listed(list) =>
      UpdateAllIdentifies(c, s.nodeMap, list);
      assert forall n :: n in list <==> Carries(e, n);
    case NodeSeen(n) =>
      assert Carries(e, n);
    case _ =>
  }

  /** In a run, the local node is unknown exactly as long as no event has shown a node that the predicate accepts. */
  lemma {:induction false} UnknownIffNotShown(c: Config, states: seq<WatchState>, events: seq<Event>, j: nat)
    requires Run(c, states, events) && states[0] == INITIAL && j < |states|
    ensures states[j].nodeMap.self.Unknown? <==> forall i :: 0 <= i < j ==> !Identifies(c, events[i])
    decreases j
  {
    hide Run, Consistent, AllReflect, Identifies, Next;
    if j != 0 {
      UnknownIffNotShown(c, states, events, j - 1);
      RunConsistent(c, states, events, j - 1);
      ConsistentIsWellFormed(c, states[j - 1]);
      RunStep(c, states, events, j - 1);
      StepIdentifies(c, states[j - 1], events[j - 1]);
    }
  }

  /** While the local node is unknown, the predicate rejects every node as last observed. */
  ghost predicate RejectsObserved(c: Config, s: WatchState) {
    s.nodeMap.self.Unknown? && s.observed.Some? ==> forall n :: n in s.observed.value ==> !c.isMe(s.observed.value[n])
  }

  lemma {:induction false} UnknownSelfRejectsObserved(c: Config, states: seq<WatchState>, events: seq<Event>, j: nat)
    requires Run(c, states, events) && states[0] == INITIAL && j < |states|
    ensures RejectsObserved(c, states[j])
    decreases j
  {
    hide Run, RejectsObserved, Consistent, AllReflect, Identifies;
    if j == 0 {
      NothingObservedAtFirst(c);
    } else {
      UnknownSelfRejectsObserved(c, states, events, j - 1);
      RunConsistent(c, states, events, j - 1);
      ConsistentIsWellFormed(c, states[j - 1]);
      RunStep(c, states, events, j - 1);
      StepRejects(c, states[j - 1], events[j - 1]);
    }
  }

  lemma NothingObservedAtFirst(c: Config)
    ensures RejectsObserved(c, INITIAL)
  {
  }

  lemma StepRejects(c: Config, s: WatchState, e: Event)
    requires WellFormed(s.nodeMap) && RejectsObserved(c, s)
    ensures RejectsObserved(c, Next(c, s, e))
  {
    StepIdentifies(c, s, e);
    match e
    case Listed(list) =>
      IndexByMembers(list, NameOf);
      assert forall n :: n in list ==> Carries(e, n);
    case NodeSeen(n) => assert Carries(e, n);
    case _ =>
  }

  /** Snapshots are visible exactly from the first mark on, which follows a complete list. */
  lemma {:induction false} ReadyIffMarked(c: Config, states: seq<WatchState>, events: seq<Event>, j: nat)
    requires Run(c, states, events) && states[0] == INITIAL && j < |states|
    ensures |states| == |events| + 1
    ensures states[j].nodeMap.ready <==> exists i :: 0 <= i < j && events[i].MarkedReady?
    decreases j
  {
    hide Run;
    RunStep(c, states, events, j);
    if j != 0 {
      ReadyIffMarked(c, states, events, j - 1);
      RunStep(c, states, events, j - 1);
      StepReady(c, states[j - 1], events[j - 1]);
      if i :| 0 <= i < j - 1 && events[i].MarkedReady? {
        assert 0 <= i < j && events[i].MarkedReady?;
      }
    }
  }

  lemma StepReady(c: Config, s: WatchState, e: Event)
    ensures Next(c, s, e).nodeMap.ready <==> s.nodeMap.ready || e.MarkedReady?
  {
    if e.Listed? {
      UpdateAllReady(c, s.nodeMap, e.list);
    }
  }

  lemma {:induction false} UpdateAllReady(c: Config, s: MapState, list: seq<ApiNode>)
    ensures UpdateAll(c, s, list).ready == s.ready
    decreases |list|
  {
    if list != [] {
      UpdateAllReady(c, s, list[..|list| - 1]);
    }
  }

  /** The local node of the map, if known, is called `local`. */
  ghost predicate SelfCalled(m: MapState, local: string) {
    match m.self
    case Unknown => true
    case Live(n) => n == local
    case Orphan(v) => v.name == local
  }

  /** When the predicate accepts, of the nodes shown so far, only those called `local`, it identifies no other node. */
  lemma {:induction false} SelfNeverMistaken(c: Config, states: seq<WatchState>, events: seq<Event>, j: nat,
                                             local: string)
    requires Run(c, states, events) && states[0] == INITIAL && j < |states|
    requires forall i :: 0 <= i < |events| && i < j ==> AcceptsOnly(c, events[i], local)
    ensures WellFormed(states[j].nodeMap) && SelfCalled(states[j].nodeMap, local)
    decreases j
  {
    hide Consistent, WellFormed;
    RunConsistent(c, states, events, j);
    ConsistentIsWellFormed(c, states[j]);
    if j != 0 {
      SelfNeverMistaken(c, states, events, j - 1, local);
      StepCalled(c, states[j - 1], events[j - 1], local);
    }
  }

  lemma StepCalled(c: Config, s: WatchState, e: Event, local: string)
    requires WellFormed(s.nodeMap) && SelfCalled(s.nodeMap, local) && AcceptsOnly(c, e, local)
    ensures SelfCalled(Next(c, s, e).nodeMap, local)
  {
    match e
    case Listed(list) =>
      assert forall n :: n in list ==> Carries(e, n);
      UpdateAllCalled(c, s.nodeMap, list, local);
    case NodeSeen(n) =>
      assert Carries(e, n);
    case _ =>
  }

  lemma {:induction false} UpdateAllCalled(c: Config, s: MapState, list: seq<ApiNode>, local: string)
    requires WellFormed(s) && SelfCalled(s, local) && forall n :: n in list && c.isMe(n) ==> n.name == local
    ensures WellFormed(UpdateAll(c, s, list)) && SelfCalled(UpdateAll(c, s, list), local)
    decreases |list|
  {
    if list != [] {
      var init, last := list[..|list| - 1], list[|list| - 1];
      assert list == init + [last];
      UpdateAllCalled(c, s, init, local);
    }
  }
}
