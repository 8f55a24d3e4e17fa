/**
  The versioned node map.  `MapState` is its abstract state; class `NodeMap` is the object,
  with real aliasing between `me` and an entry of the map.
 */
module NodeMaps {
  import opened Options
  import opened Nodes
  import opened KernelTables

  /**
    How the map knows the local node: not yet; as the entry called `name`; or, when that entry
    was removed, as an object that is in the map no more and keeps its last value.
   */
  datatype Self = Unknown | Live(name: string) | Orphan(value: NodeValue)

  datatype MapState = MapState(nodes: map<string, NodeValue>, version: nat, self: Self, ready: bool)

  const EMPTY_MAP := MapState(map[], 0, Unknown, false)

  /** The parsers of the `net` package and the test for the local node. */
  datatype Config = Config(parsers: Parsers, isMe: ApiNode -> bool)

  /** Entries carry their own name, and a live local node is in the map. */
  ghost predicate WellFormed(s: MapState) {
    && (forall n :: n in s.nodes ==> s.nodes[n].name == n)
    && (s.self.Live? ==> s.self.name in s.nodes)
  }

  /** Whether `updateNode` reports a change. */
  function Changes(c: Config, s: MapState, src: ApiNode): bool {
    || src.name !in s.nodes
    || s.nodes[src.name] != Project(c.parsers, src)
    || (s.self.Unknown? && c.isMe(src))
  }

  function UpdateNode(c: Config, s: MapState, src: ApiNode): MapState {
    MapState(
      s.nodes[src.name := Project(c.parsers, src)],
      if Changes(c, s, src) then s.version + 1 else s.version,
      if s.self.Unknown? && c.isMe(src) then Live(src.name) else s.self,
      s.ready)
  }

  /** The local node after the entries of `gone` are removed. */
  function SelfWithout(s: MapState, gone: set<string>): Self {
    if s.self.Live? && s.self.name in gone && s.self.name in s.nodes then Orphan(s.nodes[s.self.name]) else s.self
  }

  function RemoveNode(s: MapState, name: string): MapState {
    MapState(s.nodes - {name}, s.version + 1, SelfWithout(s, {name}), s.ready)
  }

  function UpdateAll(c: Config, s: MapState, list: seq<ApiNode>): MapState {
    if list == [] then s else UpdateNode(c, UpdateAll(c, s, list[..|list| - 1]), list[|list| - 1])
  }

  function NamesOf(list: seq<ApiNode>): set<string> {
    set src | src in list :: src.name
  }

  function RemoveAll(s: MapState, gone: set<string>): MapState
    requires gone <= s.nodes.Keys
  {
    MapState(s.nodes - gone, s.version + |gone|, SelfWithout(s, gone), s.ready)
  }

  function ReplaceAllNodes(c: Config, s: MapState, list: seq<ApiNode>): MapState {
    var u := UpdateAll(c, s, list);
    RemoveAll(u, u.nodes.Keys - NamesOf(list))
  }

  function MarkReady(s: MapState): MapState {
    s.(ready := true)
  }

  // ----- snapshots -----

  datatype Snapshot = NoSnapshot | Snapshot(me: NodeValue, nodes: map<string, NodeValue>, version: nat)

  /** The local node as a snapshot shows it: the zero value until it is known. */
  function MeOf(s: MapState): NodeValue
    requires WellFormed(s)
  {
    match s.self
    case Unknown => ZERO_NODE
    case Live(n) => s.nodes[n]
    case Orphan(v) => v
  }

  function SnapshotOf(s: MapState): Snapshot
    requires WellFormed(s)
  {
    if s.ready then Snapshot(MeOf(s), s.nodes, s.version) else NoSnapshot
  }

  /** `list` is the map's values in some order, one per name. */
  ghost predicate Enumerates(list: seq<NodeValue>, nodes: map<string, NodeValue>) {
    && (forall i, j :: 0 <= i < j < |list| ==> list[i].name != list[j].name)
    && (forall v :: v in list <==> v.name in nodes && nodes[v.name] == v)
  }

  // ----- the object -----

  class NodeMap {
    const config: Config
    var ready: bool
    var nodes: map<string, NodeInfo>
    var version: nat
    var me: NodeInfo?

    /** The abstract state that the fields represent, and the objects that are entries of the map. */
    ghost var state: MapState
    ghost var entries: set<NodeInfo>

    /** Entries hold the values of the abstract state; `me` aliases its entry exactly while it is live. */
    ghost predicate Valid()
      reads this, entries, me
    {
      && (forall n :: n in nodes ==> nodes[n] in entries)
      && (forall o :: o in entries ==> o.name in nodes && nodes[o.name] == o)
      && version == state.version && ready == state.ready
      && nodes.Keys == state.nodes.Keys
      && (forall n :: n in nodes ==> nodes[n].name == n && nodes[n].Value() == state.nodes[n])
      && match state.self
         case Unknown => me == null
         case Live(n) => n in nodes && me == nodes[n]
         case Orphan(v) => me != null && me !in entries && me.Value() == v
    }

    lemma ValidIsWellFormed()
      requires Valid()
      ensures WellFormed(state) && nodes.Keys == state.nodes.Keys
    {
      forall n | n in state.nodes ensures state.nodes[n].name == n {
        assert n in nodes;
      }
    }

    constructor (config: Config)
      ensures Valid() && state == EMPTY_MAP && this.config == config
    {
      this.config := config;
      nodes, version, me, ready := map[], 0, null, false;
      state, entries := EMPTY_MAP, {};
    }

    method IsVersion(v: nat) returns (r: bool)
      requires Valid()
      ensures r == (state.version == v)
    {
      r := version == v;
    }

    method SetReady()
      requires Valid()
      modifies this
      ensures Valid() && state == MarkReady(old(state)) == old(state).(ready := true)
      ensures me == old(me) && entries == old(entries)
    {
      ready := true;
      state := MarkReady(state);
    }

    /** Copies the values out, in an order of the runtime's choosing. */
    method TakeSnapshot() returns (present: bool, self: NodeValue, list: seq<NodeValue>, v: nat)
      requires Valid()
      ensures present == state.ready
      ensures present ==>
                && WellFormed(state) && self == MeOf(state) && v == state.version
                && self == (if me == null then NodeValue("", None, None, false) else me.Value())
                && Enumerates(list, state.nodes)
    {
      if !ready {
        return false, ZERO_NODE, [], 0;
      }
      ValidIsWellFormed();
      list := [];
      var todo := nodes.Keys;
      while todo != {}
        invariant todo <= nodes.Keys
        invariant forall i, j :: 0 <= i < j < |list| ==> list[i].name != list[j].name
        invariant forall v :: v in list <==> v.name in nodes && v.name !in todo && state.nodes[v.name] == v
      {
        var n :| n in todo;
        forall i | 0 <= i < |list| ensures list[i].name != n {
          assert list[i] in list;
        }
        list := list + [nodes[n].Value()];
        todo := todo - {n};
      }
      self := if me != null then me.Value() else ZERO_NODE;
      return true, self, list, version;
    }

    method Remove(name: string)
      requires Valid()
      modifies this
      ensures Valid() && me == old(me) && entries <= old(entries)
      ensures nodes == old(nodes) - {name}
      ensures state == RemoveNode(old(state), name) && state.version == old(state).version + 1
    {
      entries := if name in nodes then entries - {nodes[name]} else entries;
      nodes := nodes - {name};
      version := version + 1;
      state := RemoveNode(state, name);
    }

    /** The entry called `name`, created when missing. */
    method Entry(name: string) returns (node: NodeInfo, created: bool)
      requires Valid()
      modifies this`nodes, this`state, this`entries
      ensures Valid() && name in nodes && nodes[name] == node
      ensures created == (name !in old(state).nodes)
      ensures created ==> fresh(node) && nodes == old(nodes)[name := node]
      ensures !created ==> node in old(entries) && nodes == old(nodes) && state == old(state)
      ensures entries == old(entries) + {node}
      ensures created ==> state == old(state).(nodes := old(state).nodes[name := node.Value()])
    {
      created := false;
      if name !in nodes {
        var n := new NodeInfo(name);
        nodes := nodes[name := n];
        entries := entries + {n};
        created := true;
        state := state.(nodes := state.nodes[name := n.Value()]);
      }
      node := nodes[name];
    }

    /** Brings the entry of `src` up to date; what `me` stands for is not affected. */
    method Refresh(src: ApiNode) returns (node: NodeInfo, changed: bool)
      requires Valid()
      modifies this`nodes, this`state, this`entries, entries
      ensures Valid() && src.name in nodes && nodes[src.name] == node
      ensures state == old(state).(nodes := old(state).nodes[src.name := Project(config.parsers, src)])
      ensures changed == (src.name !in old(state).nodes || old(state).nodes[src.name] != Project(config.parsers, src))
      ensures fresh(entries - old(entries))
    {
      hide Project, Reflects, Valid;
      var created: bool;
      node, created := Entry(src.name);
      var updated := Rewrite(node, src);
      changed := created || updated;
    }

    /** Updates an entry in place: every other entry is another object. */
    method Rewrite(node: NodeInfo, src: ApiNode) returns (updated: bool)
      requires Valid() && src.name in nodes && nodes[src.name] == node
      modifies this`state, node
      ensures Valid()
      ensures state == old(state).(nodes := old(state).nodes[src.name := Project(config.parsers, src)])
      ensures updated == (old(state).nodes[src.name] != Project(config.parsers, src))
    {
      hide Project, Reflects;
      assert forall n :: n in nodes && n != src.name ==> nodes[n] != node;
      updated := node.Update(config.parsers, src);
      state := state.(nodes := state.nodes[src.name := Project(config.parsers, src)]);
    }

    /** A `me` that is set stays the same object; only the entry of `src` changes. */
    method Update(src: ApiNode) returns (changed: bool)
      requires Valid()
      modifies this, entries
      ensures Valid()
      ensures state == UpdateNode(config, old(state), src)
      ensures changed == Changes(config, old(state), src) == (state.version != old(state).version)
      ensures state.version == old(state).version + (if changed then 1 else 0)
      ensures fresh(entries - old(entries))
      ensures old(me) != null ==> me == old(me)
    {
      var node;
      node, changed := Refresh(src);
      if me == null && config.isMe(src) {
        me := node;
        changed := true;
      }
      if changed {
        version := version + 1;
      }
      state := UpdateNode(config, old(state), src);
    }

    method UpdateList(list: seq<ApiNode>) returns (names: set<string>, changed: bool)
      requires Valid()
      modifies this, entries
      ensures Valid()
      ensures state == UpdateAll(config, old(state), list) && names == NamesOf(list)
      ensures changed == (state.version != old(state).version) && old(state).version <= state.version
      ensures fresh(entries - old(entries))
      ensures old(me) != null ==> me == old(me)
    {
      hide Valid, UpdateNode, Changes;
      names, changed := {}, false;
      for i := 0 to |list|
        invariant Valid()
        invariant fresh(entries - old(entries))
        invariant names == NamesOf(list[..i])
        invariant state == UpdateAll(config, old(state), list[..i])
        invariant changed == (state.version != old(state).version) && old(state).version <= state.version
        invariant old(me) != null ==> me == old(me)
      {
        assert list[..i + 1][..i] == list[..i];
        assert list[..i + 1] == list[..i] + [list[i]];
        names := names + {list[i].name};
        var c := Update(list[i]);
        changed := changed || c;
      }
      assert list[..|list|] == list;
    }

    method RemoveMissing(names: set<string>) returns (changed: bool)
      requires Valid()
      modifies this
      ensures Valid() && me == old(me) && entries <= old(entries)
      ensures state == RemoveAll(old(state), old(state).nodes.Keys - names)
      ensures changed == (state.version != old(state).version)
    {
      hide Valid, RemoveAll, RemoveNode;
      ghost var s := state;
      ValidIsWellFormed();
      var gone := nodes.Keys - names;
      var todo := gone;
      RemoveAllNone(s, gone - todo);
      changed := false;
      while todo != {}
        invariant Valid() && me == old(me) && entries <= old(entries)
        invariant changed == (todo != gone)
        invariant todo <= gone <= s.nodes.Keys
        invariant state == RemoveAll(s, gone - todo)
      {
        var k :| k in todo;
        Remove(k);
        RemoveAllStep(s, gone, todo, k);
        todo := todo - {k};
        changed := true;
      }
      assert gone - todo == gone;
      RemoveAllCounts(s, gone);
    }

    /** Updates every listed node, then removes the entries that the list does not name. */
    method ReplaceAll(list: seq<ApiNode>) returns (changed: bool)
      requires Valid()
      modifies this, entries
      ensures Valid()
      ensures state == ReplaceAllNodes(config, old(state), list)
      ensures changed == (state.version != old(state).version)
      ensures fresh(entries - old(entries))
      ensures old(me) != null ==> me == old(me)
    {
      var names, updated := UpdateList(list);
      var removed := RemoveMissing(names);
      changed := updated || removed;
    }
  }

  lemma RemoveAllNone(s: MapState, gone: set<string>)
    requires gone == {}
    ensures RemoveAll(s, gone) == s
  {
    assert s.nodes - gone == s.nodes;
  }

  lemma RemoveAllCounts(s: MapState, gone: set<string>)
    requires gone <= s.nodes.Keys
    ensures RemoveAll(s, gone).version != s.version <==> gone != {}
  {
  }

  lemma RemoveAllStep(s: MapState, gone: set<string>, todo: set<string>, k: string)
    requires todo <= gone <= s.nodes.Keys && k in todo
    ensures RemoveNode(RemoveAll(s, gone - todo), k) == RemoveAll(s, gone - (todo - {k}))
  {
    assert gone - (todo - {k}) == gone - todo + {k};
    assert s.nodes - (gone - todo) - {k} == s.nodes - (gone - todo + {k});
  }
}
