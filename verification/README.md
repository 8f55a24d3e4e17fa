# A model of the route agent

This project models the Kubernetes route agent of `kope.io/networking` in Dafny and proves what
its control loop and its data plane achieve.

* **Node map and threads.** `Nodes` and `NodeMaps` hold the objects that the watcher thread updates
  in place (`NodeInfo`, `NodeMap`, with the aliasing of `me`), each proved against a value-level
  specification. `Watcher` is the list/watch loop as a step system. `Agent` interleaves it with the
  controller thread, where the version check, the snapshot, every single kernel operation and the
  recording of the version are separate steps and any operation may fail. `AgentTables` carries the
  contents of the kernel tables through such runs, and `AgentAttempts` shows that a call of a provider
  object, completed or failed, is a sequence of these steps.
* **Reconcilers.** `XfrmStates`, `XfrmPolicies`, `Routes`, `Neighbours`, `Links` and `LinkAddresses`
  diff a kernel table against the desired entries. `KernelTables` is the kernel: a map from the key
  the kernel uses to the entry, with operations that fail on a present or absent key, and that may
  fail for reasons of their own. For each reconciler the method is tied to a predicate `Plan` that
  describes every run it may perform (Go's map order and the kernel's listing order are free), and
  lemmas say when such a run is accepted and what it leaves.
* **Planners.** `IpsecPlanner` and `IpsecMesh` cover SPI packing, node numerals and the mesh of
  states and policies; `VxlanPlanner` and `VxlanDelivery` the chain route, gateway, ARP, MAC,
  forwarding entry; `LegacyVxlan` the older provider's ARP monitor; `Gre` the tunnels.
  `IpsecProvider`, `VxlanProvider` and `Gre` hold the provider objects with `EnsureCIDRs`.
* **Representation.** `Addresses` keeps IPs as canonical values and masks as the pair that
  `net.IPMask.Size` reports. `IpBytes` shows that the comparison functions, on nil slices and byte
  slices of any length, are exactly equality of such canonical forms.

Properties that the code does not have in general are stated with the exact condition under which
they hold:

* `XfrmStates.AcceptedIffCompatible`: states are indexed by SPI alone, so a run gets through exactly
  when a state with an expected SPI also has its destination and protocol.  For the table that the
  agent itself left, `IpsecMesh.NextViewAcceptedIffKept` puts this in terms of nodes: the run for a new
  view is accepted exactly when nodes with equal numerals kept their addresses.  A peer that gets a new
  address and keeps its pod network blocks the table for good (`IpsecMesh.NewAddressBlocks`).
* `IpsecMesh.StatePlanDistinct`: the abort on a duplicate SPI is out of reach exactly when the numerals
  of the local node and its peers are pairwise different; in one supernet at most 14 bits shorter that
  is when their pod networks are (`IpsecMesh.ApartIffNetworksDiffer`).
* `XfrmPolicies.ConvergesIffMarksAgree`: policies are matched without their mark, so a policy with an
  expected selector and another mark survives.
* `Routes.ConvergesWithDeletion`, `Routes.ReachesWithoutDeletion`: a route of another link at an
  expected key, or without deletion any differing route, blocks the run.
* `LinkAddresses.ConvergesIffUnobstructed`: creation precedes removal, so an address with an expected
  network and another label, flags or scope makes every run fail.
* `Links.AcceptedIffNamesFree`, `Gre.TunnelReachesIffNotStale`: existing links are never modified, so
  a tunnel whose peer got a new address keeps the old one.
* `VxlanDelivery.ReachesAllIffNoAddressIsBase`: ARP and forwarding entries are indexed together by
  IP, so a node address that is the base of a pod network loses a peer.
* `VxlanDelivery.OwnerIsBest`: the reconciler looks at its own link only, so a peer's route is the one
  longest prefix match for a pod address exactly when no other link's route to it is as specific.
* `Neighbours.IdleAfterRunIff`: entries are listed by link and indexed by IP and never deleted, so runs
  after a completed one set nothing, whatever the order of the listing, exactly when the listing hides
  no expected entry and shows no other one with an expected IP.  A peer whose pod network moved leaves
  such an entry (`VxlanDelivery.MovedNetworkIsSetAgain`), and a listing without forwarding entries hides
  some (`VxlanDelivery.HiddenForwardingIsSetAgain`).
* `Agent.MacsAgreeIffBaseKept`, `VxlanProvider.MacsAgreeIffBaseUnchanged`: the link is configured once,
  so its MAC is right exactly while the pod network keeps its base address.
* `Gre.SelfTunnelIffNotIdentified`: the GRE provider does not wait for the local node to be identified,
  so it wants a tunnel to the local node itself exactly until an event shows a node that the predicate
  accepts, as with a machine ID that is not reported yet (`Gre.SelfTunnelUntilIdReported`,
  `Gre.EarlyListTunnelsToSelf`).
* `LegacyVxlan.AnswersRightIffStartsA24`: the monitor takes every pod network for a /24.
* `IpsecPlanner.NumeralsCollideBeyond14Bits`: beyond 14 bits of networks the numeral is not injective.
* `Watcher.ReaddedSelfIsStale`: a local node that is deleted and added again stays orphaned.

## Model

| member | source | states |
|---|---|---|
| `AgentTables.FastPathMeansApplied` | pkg/routing/vxlan2/vxlan2routing.go:160-259 | in every interleaving, with failures anywhere and whatever clusters were planned for on the way, an open fast path means that the last applied view is the map's current snapshot and the tables hold its plan (all but the states: if the current cluster is a supported one) |
| `AgentTables.FastPathSkipsOnlyIdleWork` | pkg/routing/ipsec/ipsecrouting.go:126-408 | when the fast path is open, applying the current snapshot again, in any node order, would change no table (all but the states: if the current cluster is a supported one) |
| `AgentTables.UpToDateAgentDelivers` | pkg/routing/vxlan2/vxlan2routing.go:159-262 | in every reachable up-to-date state whose current cluster is supported, every other node with address and pod network has a usable route to its pods that leads over permanent ARP and forwarding entries and the right MAC to its address, and for a pod address it is the one longest prefix match if and only if no other link's route to it is as specific |
| `AgentTables.UpToDateAgentTunnels` | pkg/routing/ipsec/ipsecrouting.go:125-411 | in every reachable up-to-date state whose current cluster is supported, an outbound, inbound or forwarded packet between the local side and another node's is covered by one tunnel policy of its direction, joining the two nodes; the ESP states of both directions are installed with the strategies' cipher and encapsulation, and every state between the two nodes is one that the strategies ask for |
| `AgentTables.TablesInExecution` | pkg/routing/providercontroller.go:43-96 | the table invariant holds in every state of every run, also half-way through an application and through plans for unsupported clusters |
| `AgentTables.StepKeepsTables` | pkg/routing/providercontroller.go:52-65 | each watcher or controller step, and each single kernel operation, keeps the table invariant |
| `Agent.FastPathIsCurrent` | pkg/routing/nodes.go:25-56 | in any run, if the recorded version is the map's version then the last fully applied snapshot is the current one and no attempt is under way |
| `Agent.StepKeepsVersions` | pkg/routing/ipsec/ipsecrouting.go:126-142 | recorded versions belong to snapshots the map showed; during an attempt the recorded version is out of date |
| `Agent.LinkStays` | pkg/routing/vxlan2/vxlan2routing.go:178-190 | in any run, once the provider has its link, neither link nor MAC changes |
| `Agent.LinkHasOrigin` | pkg/routing/vxlan2/vxlan2routing.go:178-190 | a link was configured by some earlier attempt of the run |
| `Agent.MacsAgreeIffBaseKept` | pkg/routing/vxlan2/vxlan2routing.go:73-122 | from its configuration on, the link has the MAC of that attempt's local node; others' entries for a value of this node agree with it if and only if the value has that base address |
| `AgentAttempts.IpsecCallIsSteps` | pkg/routing/ipsec/ipsecrouting.go:125-411 | a completed IPsec call, as its contract describes it, is a sequence of controller steps |
| `AgentAttempts.IpsecFailureIsSteps` | pkg/routing/ipsec/ipsecrouting.go:132-406 | so is a failed one, wherever it stopped, ending in the step that gives up |
| `AgentAttempts.VxlanCallIsSteps` | pkg/routing/vxlan2/vxlan2routing.go:159-262 | the same for a completed vxlan2 call, including the first one |
| `AgentAttempts.VxlanFailureIsSteps` | pkg/routing/vxlan2/vxlan2routing.go:192-257 | and for one that fails with the link in place |
| `AgentAttempts.FailEarly` | pkg/routing/vxlan2/vxlan2routing.go:166-190 | and for one that fails before it touches a table |
| `Nodes.NodeInfo.Update` | pkg/routing/nodes.go:162-248 | the new value reflects the source node alone: its parsed pod network, its parsed least internal IP, and availability by its last decisive condition; the result tells exactly whether the value changed |
| `Nodes.ProjectReflects` | pkg/routing/nodes.go:162-248 | the projection is the one value that reflects the node |
| `Nodes.LeqIsLexicographic` | pkg/routing/nodes.go:206 | the order of the sorted IPs is the lexicographic one |
| `Nodes.AvailableByDefault` | pkg/routing/nodes.go:224-240 | without a decisive condition the network is available |
| `Nodes.PeersMembers` | pkg/routing/vxlan2/vxlan2routing.go:197-211 | the planners skip exactly the local name and nodes without address or pod network |
| `Nodes.AddressOrderIrrelevant` | pkg/routing/nodes.go:190-221 | any reordering of a node's addresses gives the same address |
| `Nodes.Choose` | pkg/routing/nodes.go:204-209 | the first of the sorted internal IPs is the least one |
| `Nodes.SortStrings` | pkg/routing/nodes.go:206 | sorted, and a permutation |
| `Nodes.Smallest` | pkg/routing/nodes.go:204-209 | a member that is least in Go's string order |
| `Nodes.AvailableByLastDecisive` | pkg/routing/nodes.go:224-240 | the last condition that is plainly true or false decides |
| `NodeMaps.NodeMap.TakeSnapshot` | pkg/routing/nodes.go:39-56 | nothing before the map is ready; then a copy of every node once, `me` or the zero node, and the version |
| `NodeMaps.NodeMap.IsVersion` | pkg/routing/nodes.go:25-30 | compares with the version of the abstract state |
| `NodeMaps.NodeMap.SetReady` | pkg/routing/nodes.go:58-63 | the map is ready, and nothing else changes |
| `NodeMaps.NodeMap.Remove` | pkg/routing/nodes.go:73-77 | the entry goes, the version grows, `me` stays the same object and turns orphan if it was that entry |
| `NodeMaps.NodeMap.Update` | pkg/routing/nodes.go:88-116 | only the source's entry changes, also through aliases; a set `me` stays; the version grows exactly when a change is reported |
| `NodeMaps.NodeMap.Rewrite` | pkg/routing/nodes.go:98-100 | updating one entry in place leaves every other entry and an orphaned `me` alone |
| `NodeMaps.NodeMap.ReplaceAll` | pkg/routing/nodes.go:120-144 | the state after updating all listed and removing all other nodes; reports whether the version changed |
| `Watcher.Handle` | pkg/watchers/nodecontroller.go:55-105 | one turn of the loop on the shared object is one step of the step system |
| `Watcher.RunWatcher` | pkg/watchers/nodecontroller.go:51-107 | from any state the object follows the step system over any sequence of events, and a set `me` stays the same object |
| `Watcher.ReplaceProjects` | pkg/routing/nodes.go:120-144 | a re-list makes the map the projection of the list, whatever it held before |
| `Watcher.StepFollows` | pkg/routing/nodes.go:65-144 | every step keeps the map well formed; content changes only with the version; `me` is found once and keeps its name |
| `Watcher.RunConsistent` | pkg/watchers/nodecontroller.go:51-107 | in every state of every run the map's entries reflect the API nodes as last observed, one each |
| `Watcher.RunShowsLastWord` | pkg/watchers/nodecontroller.go:51-107 | in every state of every run the map has an entry for exactly the nodes that the events last reported as existing, and it reflects what was reported |
| `Watcher.ReadyIffMarked` | pkg/watchers/nodecontroller.go:55-56 | snapshots are visible exactly from the first mark on, which follows a complete list |
| `Watcher.UpdateIsSilentIffSame` | pkg/routing/nodes.go:88-116 | an update leaves the version alone if and only if it changes neither an entry nor the local node |
| `Watcher.RelistOfSameIsSilent` | pkg/routing/nodes.go:120-144 | a re-list that shows what the map holds changes nothing, the version included |
| `Watcher.SnapshotsShowObservation` | pkg/routing/nodes.go:39-63 | no snapshot before the first complete list; every snapshot has exactly the nodes last reported as existing and reflects them |
| `Watcher.SameVersionSameContent` | pkg/routing/nodes.go:73-116 | equal versions anywhere in a run mean equal content |
| `Watcher.SelfIsStable` | pkg/routing/nodes.go:102-108 | a known local node stays known under one name; an orphan is never changed |
| `Watcher.LiveSelfIsListed` | pkg/routing/nodes.go:47-55 | while live, the snapshot's `me` equals exactly one listed node |
| `Watcher.OrphanOnlyByRemoval` | pkg/routing/nodes.go:73-77 | the local node is orphaned at some point if and only if its entry was removed before |
| `Watcher.OrphanedIffRemoved` | pkg/routing/nodes.go:73-77 | a step orphans the local node exactly when it removes its entry |
| `Watcher.ReaddedSelfIsStale` | pkg/routing/nodes.go:73-108 | a local node removed and added with another value leaves `me` with the old value |
| `Watcher.UnknownIffNotShown` | pkg/routing/nodes.go:102-108 | in a run the local node is unknown exactly as long as no event has shown a node that the predicate accepts |
| `Watcher.UnknownSelfRejectsObserved` | pkg/routing/nodes.go:102-108 | while the local node is unknown, the predicate rejects every node as last observed |
| `Watcher.SelfNeverMistaken` | pkg/routing/nodes.go:102-108 | when the predicate accepts, of the nodes shown so far, only those of one name, no other node is identified |
| `XfrmStates.Ensure` | pkg/routing/netutil/xfrm_state_table.go:19-99 | aborts exactly on a repeated expected SPI; otherwise performs a prefix of a plan, all of it on success |
| `XfrmStates.IndexExpected` | pkg/routing/netutil/xfrm_state_table.go:32-38 | the abort happens if and only if two expected states share an SPI |
| `XfrmStates.PlanTouchesDistinctKeys` | pkg/routing/netutil/xfrm_state_table.go:46-96 | creates, updates and removals are on pairwise different SPIs and keys |
| `XfrmStates.AcceptedIffCompatible` | pkg/routing/netutil/xfrm_state_table.go:25-96 | no operation is refused if and only if states with an expected SPI have its destination and protocol |
| `XfrmStates.Converges` | pkg/routing/netutil/xfrm_state_table.go:69-96 | a completed run leaves exactly the expected states |
| `XfrmStates.SecondRunIsIdle` | pkg/routing/netutil/xfrm_state_table.go:46-67 | from the expected states a run performs no operation |
| `XfrmStates.PartialRunKeepsInvariant` | pkg/routing/netutil/xfrm_state_table.go:69-96 | however far a run gets, one state per SPI remains |
| `XfrmStates.BlockedForGood` | pkg/routing/netutil/xfrm_state_table.go:46-96 | no attempt repairs an incompatible table, however far it gets |
| `XfrmPolicies.Diff` | pkg/routing/netutil/xfrm_policy_table.go:28-65 | the nested loop with its flag array computes creations, updates and removals entry by entry |
| `XfrmPolicies.FindMatch` | pkg/routing/netutil/xfrm_policy_table.go:34-45 | the last match, and every match flagged |
| `XfrmPolicies.LastMatch` | pkg/routing/netutil/xfrm_policy_table.go:36-45 | a match is found if and only if one is listed, and it is one |
| `XfrmPolicies.LastMatchIsLookup` | pkg/routing/netutil/xfrm_policy_table.go:34-45 | the inner loop is a lookup in the map of listed policies keyed by selector |
| `XfrmPolicies.DiffSplits` | pkg/routing/netutil/xfrm_policy_table.go:33-65 | the quadratic diff is the diff of two maps keyed by selector: created exactly when the key is new, updated exactly when the entry differs, removed exactly when the key is not expected |
| `XfrmPolicies.RunDetermined` | pkg/routing/netutil/xfrm_policy_table.go:28-95 | whatever the marks, what a completed run leaves at each key |
| `XfrmPolicies.SameMembersSameResult` | pkg/routing/netutil/xfrm_policy_table.go:28-95 | runs for the same expected policies in any order leave the same table up to kernel index |
| `XfrmPolicies.Ensure` | pkg/routing/netutil/xfrm_policy_table.go:18-98 | performs a prefix of a plan, all of it on success |
| `XfrmPolicies.AlwaysAccepted` | pkg/routing/netutil/xfrm_policy_table.go:67-95 | no operation of a plan is refused for its key |
| `XfrmPolicies.ConvergesIffMarksAgree` | pkg/routing/netutil/xfrm_policy_table.go:28-95 | a completed run leaves exactly the expected policies, up to kernel index, if and only if no selector is present under another mark |
| `XfrmPolicies.StaleMarkSurvives` | pkg/routing/netutil/xfrm_policy_table.go:173-193 | a policy with an expected selector and another mark is neither replaced nor removed |
| `XfrmPolicies.SecondRunIsIdle` | pkg/routing/netutil/xfrm_policy_table.go:52-65 | from the expected policies, whatever their indexes, a run performs no operation |
| `XfrmPolicies.PartialRunKeepsInvariant` | pkg/routing/netutil/xfrm_policy_table.go:67-95 | however far a run of unmarked policies gets, even of clashing ones, the table stays unmarked and well keyed |
| `Routes.Diff` | pkg/routing/netutil/route_table.go:35-62 | fails exactly on an expected route without destination; otherwise the creations and replaced routes in order |
| `Routes.Extras` | pkg/routing/netutil/route_table.go:65-72 | exactly the listed routes to destinations that nobody expects, once each |
| `Routes.Ensure` | pkg/routing/netutil/route_table.go:14-97 | performs a prefix of a plan, deletions first, all of it on success; nothing on a malformed expectation |
| `Routes.ConvergesWithDeletion` | pkg/routing/netutil/route_table.go:64-94 | accepted if and only if no other link's route holds an expected key; then the link has exactly the expected routes and its old ones without destination, and other links are untouched |
| `Routes.ReachesWithoutDeletion` | pkg/routing/netutil/route_table.go:57-94 | with at most one listed route to each expected destination: only additions; accepted if and only if no differing route holds an expected key; everything else stays |
| `Routes.SecondRunIsIdle` | pkg/routing/netutil/route_table.go:40-83 | from the converged table a run with deletion performs no operation |
| `Routes.PartialRunKeepsInvariant` | pkg/routing/netutil/route_table.go:74-94 | however far a run gets, one route per destination remains on the link, even if expected destinations repeat |
| `Routes.HoldsUnique` | pkg/routing/netutil/route_table.go:40-94 | the final table is determined by the set of expected routes |
| `Neighbours.Ensure` | pkg/routing/netutil/neigh_table.go:21-106 | performs a prefix of a plan, all of it on success |
| `Neighbours.Upserts` | pkg/routing/netutil/neigh_table.go:56-70 | exactly the expected entries whose IP is missing or differs, in any order; never refused |
| `Neighbours.Converges` | pkg/routing/netutil/neigh_table.go:56-103 | from any table and any sound listing, a completed run sets exactly the expected entries and keeps all others |
| `Neighbours.ListLink` | pkg/routing/netutil/neigh_table.go:26-42 | every entry of the link that the call shows, once, in any order |
| `Neighbours.IdleIffShownAndUnrivalled` | pkg/routing/netutil/neigh_table.go:31-70 | with the expected entries in place, every listing order leads to an idle run if and only if none is hidden and no other listed entry has an expected IP |
| `Neighbours.IdleAfterRunIff` | pkg/routing/netutil/neigh_table.go:31-103 | the same for the table that a completed run leaves, in terms of the entries from before it |
| `Neighbours.PartialRunKeepsInvariant` | pkg/routing/netutil/neigh_table.go:94-103 | however far a run gets, and whatever it is for, the table stays well keyed |
| `Neighbours.OverlaidUnique` | pkg/routing/netutil/neigh_table.go:44-103 | the final table is determined by the set of expected entries |
| `Links.Ensure` | pkg/routing/netutil/links.go:17-99 | performs a prefix of a plan; on success the returned map has exactly the expected names, each as it is in the kernel |
| `Links.AcceptedIffNamesFree` | pkg/routing/netutil/links.go:26-94 | accepted if and only if no link without the prefix holds an expected name |
| `Links.Converges` | pkg/routing/netutil/links.go:48-94 | the prefixed links are exactly the expected names, existing ones unmodified, new ones as expected, all other links untouched |
| `Links.SecondRunIsIdle` | pkg/routing/netutil/links.go:48-73 | with the names in place a run performs no operation |
| `LinkAddresses.Ensure` | pkg/routing/netutil/link_addresses.go:11-93 | performs a prefix of a plan, creations first, all of it on success |
| `LinkAddresses.ConvergesIffUnobstructed` | pkg/routing/netutil/link_addresses.go:45-90 | accepted if and only if nothing else sits at an expected network; then expected plus the link-local addresses |
| `LinkAddresses.SecondRunIsIdle` | pkg/routing/netutil/link_addresses.go:48-70 | from the converged addresses a run performs no operation |
| `LinkAddresses.ChangedAddressFails` | pkg/routing/netutil/link_addresses.go:56-90 | an address with the expected network and another label makes every run fail |
| `LinkAddresses.LinkLocalBytes` | pkg/routing/netutil/link_addresses.go:24-27 | the addresses left alone are those of 169.254.0.0/16 and fe80::/10, byte by byte |
| `IpsecPlanner.PackInjective` | pkg/routing/ipsec/ipsecrouting.go:192-243 | SPIs agree exactly when source, destination and tag agree, and none is reserved |
| `IpsecPlanner.PackFields` | pkg/routing/ipsec/ipsecrouting.go:192-243 | the three fields can be read back from an SPI |
| `IpsecPlanner.NumeralReadsBack` | pkg/routing/ipsec/ipsecrouting.go:420-435 | shifted back, the numeral is the 14 address bits above the host bits, none lost |
| `IpsecPlanner.NumeralInjective` | pkg/routing/ipsec/ipsecrouting.go:420-435 | inside a supernet at most 14 bits shorter, equal numerals mean equal networks |
| `IpsecPlanner.NumeralsCollideBeyond14Bits` | pkg/routing/ipsec/ipsecrouting.go:429-431 | with 15 bits or more, every supernet holds two networks of one numeral |
| `IpsecPlanner.BuildStates` | pkg/routing/ipsec/ipsecrouting.go:144-251 | fails exactly when the local or an eligible pod network is not IPv4; otherwise the state plan of the eligible nodes |
| `IpsecPlanner.AppendStates` | pkg/routing/ipsec/ipsecrouting.go:175-250 | the loop over directions gives the states of both directions |
| `IpsecPlanner.BuildPolicies` | pkg/routing/ipsec/ipsecrouting.go:260-400 | the bypass and socket policies and nine tunnel policies per eligible node |
| `IpsecPlanner.AppendGroup` | pkg/routing/ipsec/ipsecrouting.go:303-333 | the loop over directions gives the three policies of one pair of networks |
| `IpsecMesh.NumeralsDistinct` | pkg/routing/ipsec/ipsecrouting.go:420-435 | different aligned networks of one length in one supernet at most 14 bits shorter have different numerals |
| `IpsecMesh.ApartIffNetworksDiffer` | pkg/routing/ipsec/ipsecrouting.go:420-435 | there, numerals are pairwise different if and only if the pod networks are |
| `IpsecMesh.MeshNumerals` | pkg/routing/ipsec/ipsecrouting.go:420-435 | so a mesh in one such supernet has pairwise different numerals |
| `IpsecMesh.NoReservedSpi` | pkg/routing/ipsec/ipsecrouting.go:192-243 | no planned SPI is a reserved one |
| `IpsecMesh.StateCount` | pkg/routing/ipsec/ipsecrouting.go:151-251 | two states per peer and header in use, so four with AH and ESP |
| `IpsecMesh.StatePlanDistinct` | pkg/routing/ipsec/ipsecrouting.go:151-251 | planned SPIs are pairwise different, so that the abort on a duplicate is out of reach, if and only if the numerals of the local node and its peers are, whatever the addresses |
| `IpsecMesh.StatesMirror` | pkg/routing/ipsec/ipsecrouting.go:175-250 | a state from A to B is in A's plan if and only if it is in B's |
| `IpsecMesh.PoliciesMirror` | pkg/routing/ipsec/ipsecrouting.go:303-399 | A's outbound policies into the tunnel to B are exactly B's inbound ones, the groups crossing over |
| `IpsecMesh.ExactlyOneTunnel` | pkg/routing/ipsec/ipsecrouting.go:260-400 | one tunnel policy of its direction covers a packet between the local side and a peer's, outbound, inbound or forwarded; its tunnel joins the two nodes, and it beats the bypass |
| `IpsecMesh.PlannedStates` | pkg/routing/ipsec/ipsecrouting.go:151-251 | the plan holds exactly the AH and ESP states in use of both directions with each peer, every field given: ends, tunnel mode, SPI, no limits, and the strategies' authentication, cipher and encapsulation |
| `IpsecMesh.TunnelHasState` | pkg/routing/ipsec/ipsecrouting.go:175-250 | between the local address and a peer's, in either direction, those are the only planned states |
| `IpsecMesh.TunnellingDoesNotRecurse` | pkg/routing/ipsec/ipsecrouting.go:303-399 | no tunnel policy covers a packet between two node addresses |
| `IpsecMesh.OuterPacketsPass` | pkg/routing/ipsec/ipsecrouting.go:262-273 | such a packet is covered, in each direction, by the bypass if it is UDP to port 4500, and by nothing else |
| `IpsecMesh.SocketsPassAll` | pkg/routing/ipsec/ipsecrouting.go:275-284 | the one socket policy of each direction covers every packet and lets it pass |
| `IpsecMesh.PolicyPlanDistinct` | pkg/routing/ipsec/ipsecrouting.go:260-400 | planned selectors are pairwise different and unmarked |
| `IpsecMesh.PolicyPlanUnmarked` | pkg/routing/ipsec/ipsecrouting.go:260-400 | whatever the nodes are like, no planned policy carries a mark |
| `IpsecMesh.IpsecConverges` | pkg/routing/ipsec/ipsecrouting.go:253-406 | planners and reconcilers together: both tables end as planned, exactly under the two table conditions |
| `IpsecMesh.NextViewAcceptedIffKept` | pkg/routing/ipsec/ipsecrouting.go:175-253 | the table left for an earlier view accepts the run for a new view if and only if nodes with equal numerals kept their addresses |
| `IpsecMesh.ChangedAddressBlocks` | pkg/routing/ipsec/ipsecrouting.go:175-253 | otherwise the run is refused, and the table stays incompatible however far it gets |
| `IpsecMesh.NewAddressBlocks` | pkg/routing/ipsec/ipsecrouting.go:188-243 | a peer with a new address and an unchanged pod network is such a case |
| `IpsecMesh.MeshPermuted` | pkg/routing/nodes.go:47-50 | what the plans need of the nodes does not depend on their order |
| `IpsecMesh.IpsecOrderIrrelevant` | pkg/routing/ipsec/ipsecrouting.go:153-253 | state runs for two permutations of the node list, from the same table, are both accepted or both refused, and leave the same table |
| `IpsecMesh.PolicyOrderIrrelevant` | pkg/routing/ipsec/ipsecrouting.go:286-402 | policy runs for two permutations of the node list, from the same table, are accepted and leave the same table up to kernel index |
| `IpsecProvider.IpsecProvider.ApplyTables` | pkg/routing/ipsec/ipsecrouting.go:144-406 | aborts untouched exactly when two of the nodes share a numeral, fails untouched on a pod network that is not IPv4; otherwise the tables are as far as the performed operations say, and it succeeds exactly when both runs were complete |
| `IpsecProvider.IpsecProvider.EnsureCIDRs` | pkg/routing/ipsec/ipsecrouting.go:125-411 | the fast path changes nothing; otherwise the version is recorded on success only, after complete runs for the snapshot; it aborts only on colliding numerals; a failed call leaves the tables untouched or part of the way, and on reliable tables only because a run is refused |
| `VxlanPlanner.FillMac` | pkg/routing/vxlan2/vxlan2routing.go:264-282 | the buffer holds 00:53 and the four address bytes |
| `VxlanPlanner.MacsInjective` | pkg/routing/vxlan2/vxlan2routing.go:264-282 | different base addresses give different MAC bytes |
| `VxlanPlanner.BuildPlan` | pkg/routing/vxlan2/vxlan2routing.go:194-245 | stops exactly on a node, other than the local one, whose pod network is not IPv4; otherwise the plans of the peers |
| `VxlanDelivery.Delivery` | pkg/routing/vxlan2/vxlan2routing.go:197-259 | from any neighbour table and any table with one route per destination on the link: each peer's route is a unicast on-link route of the main table that leads over permanent ARP and forwarding entries to the peer, and it is the one longest prefix match for a pod address if and only if no other link's route to it is as specific |
| `VxlanDelivery.OwnerIsBest` | pkg/routing/netutil/route_table.go:64-94 | the owner's route is the only longest prefix match if and only if the other links' routes to the address are shorter |
| `VxlanDelivery.ForwardReaches` | pkg/routing/vxlan2/vxlan2routing.go:213-244 | route, gateway, ARP entry, MAC and forwarding entry of a peer, each of the kind the kernel uses, lead to its address |
| `VxlanDelivery.LocalPodsUntouched` | pkg/routing/vxlan2/vxlan2routing.go:247-257 | no route with a destination that is left on the link overlaps the local pod network |
| `VxlanDelivery.NeighPlanDistinct` | pkg/routing/vxlan2/vxlan2routing.go:213-232 | planned entries differ in IP and in kernel key |
| `VxlanDelivery.RoutePlanGood` | pkg/routing/vxlan2/vxlan2routing.go:234-244 | planned routes are on the link and have different destinations |
| `VxlanDelivery.ReachesAllIffNoAddressIsBase` | pkg/routing/netutil/neigh_table.go:44-70 | on a fresh link every peer is reached if and only if no peer's address is the base of a peer's pod network |
| `VxlanDelivery.ClusterPermuted` | pkg/routing/nodes.go:47-50 | what the plans need of the nodes does not depend on their order |
| `VxlanDelivery.OrderIrrelevant` | pkg/routing/vxlan2/vxlan2routing.go:197-257 | runs for two permutations of the node list, from the same tables, are both accepted or both refused, and leave the same tables |
| `VxlanDelivery.MovedNetworkIsSetAgain` | pkg/routing/netutil/neigh_table.go:72-92 | after a peer's pod network moved, its stale forwarding entry can make every later run set the new one again |
| `VxlanDelivery.HiddenForwardingIsSetAgain` | pkg/routing/netutil/neigh_table.go:26-70 | so does a listing without forwarding entries, whenever there is a peer |
| `VxlanProvider.Vxlan2Provider.EnsureLink` | pkg/routing/vxlan2/vxlan2routing.go:70-157 | on success the link has the MAC of the pod network, the MTU, the /32 address next to link-local ones, and is up, and a new one has the local node as source; always, other links and the unmanaged attributes are as before and the addresses are untouched or on the way; on reliable tables it fails only when another address sits at the link's network |
| `VxlanProvider.Vxlan2Provider.FindLink` | pkg/routing/vxlan2/vxlan2routing.go:178-190 | the link is configured on the first success and never again |
| `VxlanProvider.Vxlan2Provider.ApplyTables` | pkg/routing/vxlan2/vxlan2routing.go:192-257 | neighbours, then routes, each as far as the performed operations say; it succeeds exactly when both runs were complete and aborts exactly on a pod network that is not IPv4 |
| `VxlanProvider.Vxlan2Provider.Apply` | pkg/routing/vxlan2/vxlan2routing.go:178-257 | the link on the first call, then both tables, with the reasons to abort and to fail |
| `VxlanProvider.Vxlan2Provider.EnsureCIDRs` | pkg/routing/vxlan2/vxlan2routing.go:159-262 | the fast path changes nothing; otherwise the version is recorded on success only, after complete runs for the snapshot; the reasons to abort are listed; a failed call leaves the tables untouched or part of the way, and on reliable tables only because an address is taken or a route run is refused |
| `VxlanProvider.MacsAgreeIffBaseUnchanged` | pkg/routing/vxlan2/vxlan2routing.go:73-122 | the MAC others use for a node is the one on the provider's link if and only if its base address is the one the link was configured for, which no later call changes |
| `LegacyVxlan.Watch` | pkg/routing/vxlan/netlink_monitor.go:38-128 | a batch of messages writes exactly the answers of the requests that pass the filter |
| `LegacyVxlan.AnsweredEntries` | pkg/routing/vxlan/netlink_monitor.go:47-125 | for every request on the link for an IPv4 address without MAC that is not reachable, the address has a reachable entry with the MAC of its /24; all others stay |
| `LegacyVxlan.AnswersRightIffStartsA24` | pkg/routing/vxlan/netlink_monitor.go:107-109 | all pod addresses of a network get its MAC if and only if the network lies in one /24 and starts it |
| `LegacyVxlan.Slash24Starts` | pkg/routing/vxlan/netlink_monitor.go:107-109 | every /24 pod network does |
| `LegacyVxlan.BuildPlan` | pkg/routing/vxlan/vxlanrouting.go:192-242 | stops exactly on a node, other than the local one, whose pod network is not IPv4; otherwise one forwarding entry per peer |
| `LegacyVxlan.FdbPlanDistinct` | pkg/routing/vxlan/vxlanrouting.go:224-242 | planned forwarding entries differ in IP and in MAC |
| `LegacyVxlan.AnswerLeadsToOwner` | pkg/routing/vxlan/vxlanrouting.go:222-245 | after a completed run from any table, an answered request for a pod address leads to the owning node |
| `Gre.TunnelName` | pkg/routing/gre/provider.go:44-56 | 15 characters with the prefix for IPv4, empty exactly otherwise |
| `Gre.TunnelNameInjective` | pkg/routing/gre/provider.go:44-56 | different addresses have different names |
| `Gre.NameSpellsAddress` | pkg/routing/gre/provider.go:50 | the name spells the four bytes in order, with dashes |
| `Gre.HexDigits` | pkg/routing/gre/provider.go:19 | in lower-case hexadecimal digits |
| `Gre.HexByteReadsBack` | pkg/routing/gre/provider.go:19 | two digits per byte, the high half first |
| `Gre.TunnelMembers` | pkg/routing/gre/provider.go:71-105 | tunnels are planned for exactly the nodes of another name with address and IPv4 pod network |
| `Gre.BuildTunnels` | pkg/routing/gre/provider.go:69-105 | one tunnel per eligible node with IPv4 pods |
| `Gre.BuildRoutes` | pkg/routing/gre/provider.go:127-167 | fails exactly when a tunnel is missing; otherwise one route per tunnel |
| `Gre.TunnelReachesIffNotStale` | pkg/routing/netutil/links.go:48-94 | every other node with address and IPv4 pod network has its tunnel, a new one with both ends and the TTL, and it ends at the node if and only if no older tunnel of that name ended elsewhere |
| `Gre.RoutesReach` | pkg/routing/gre/provider.go:127-172 | with at most one route to each wanted destination: a completed run leaves a unicast route of the main table through its tunnel to the pods of every other node with address and IPv4 pod network, and removes none |
| `Gre.SelfTunnelIffNotIdentified` | pkg/routing/gre/provider.go:64-105 | when the predicate accepts no other node among those shown so far, the provider wants a tunnel to the local node if and only if no event so far has shown a node that the predicate accepts |
| `Gre.SelfTunnelUntilIdReported` | cmd/networking-agent/main.go:102-174 | with a match on a machine ID that only the local node reports, that is exactly until the ID is reported |
| `Gre.EarlyListTunnelsToSelf` | cmd/networking-agent/main.go:102-174 | a first list that shows the local node before the predicate accepts it leads there |
| `Gre.GreProvider.BringUp` | pkg/routing/gre/provider.go:113-123 | every returned link is up, and only that flag changes |
| `Gre.GreProvider.EnsureCIDRs` | pkg/routing/gre/provider.go:58-177 | the fast path changes nothing, "tunnel not found" never happens, the version is recorded on success only, and on reliable tables it fails only before the map is ready or when a route is refused |
| `IpBytes.GoEqualIsFormEquality` | pkg/routing/netutil/helpers.go:31 | the address comparison is equality of canonical forms, for slices of every length |
| `IpBytes.IpEqualIsFormEquality` | pkg/routing/netutil/helpers.go:24-32 | `ipEqual` is equality of canonical forms, nil included, hence an equivalence |
| `IpBytes.IpnetEqualIsFormEquality` | pkg/routing/netutil/helpers.go:8-22 | `ipnetEqual` is equality of canonical forms, hence an equivalence |
| `IpBytes.MaskBytesInjective` | pkg/routing/netutil/helpers.go:15-17 | masks have equal bytes only if they have equal sizes |
| `IpBytes.TmplsEqual` | pkg/routing/netutil/xfrm_policy_table.go:129-136 | the template loop compares canonical forms in order |
| `IpBytes.TmplEqualIsFormEquality` | pkg/routing/netutil/xfrm_policy_table.go:148-171 | template comparison is equality of canonical forms |
| `IpBytes.PolicyEqual` | pkg/routing/netutil/xfrm_policy_table.go:100-139 | `xfrmPolicyEqual` is equality of canonical forms, hence an equivalence |
| `IpBytes.MatchesIsSelectorEquality` | pkg/routing/netutil/xfrm_policy_table.go:173-193 | `xfrmPolicyMatches` is equality of canonical selectors, hence an equivalence |
| `IpBytes.EqualPoliciesMatch` | pkg/routing/netutil/xfrm_policy_table.go:100-193 | equal policies match |
| `IpBytes.StateEqualIsFormEquality` | pkg/routing/netutil/xfrm_state_table.go:101-183 | `xfrmStateEqual` is equality of canonical forms, hence an equivalence |

## Left out

- Netlink, sysctl, modprobe, sockets and their errors are the abstract tables of `KernelTables`; the kernel's keys are assumptions of the model (states by destination, protocol and SPI; policies by selector and mark; routes by destination, type of service and priority; forwarding entries by MAC; links by name; addresses by network), and the tables are changed by nobody else.
- Errors while listing a table are not told apart from failures of the first operation.
- Routing tables other than the one that a listing shows, and multipath resolution.
- The Kubernetes client, options, flags, signals, logging, JSON, sleeps, CNI configuration and the node condition patch; a watch error, an unexpected object and a closed channel are one event, and the fatal exit on an unknown event type is not modelled.
- `net.ParseCIDR` and `net.ParseIP` are parameters; map keys that the code makes with `String()` are the canonical values themselves.
- The version is an unbounded natural, so wrap-around after 2^64 changes is not modelled.
- The unlocked reads of `me` in the provider controller.
- The authentication, encryption and encapsulation strategies are arbitrary functions of source and destination node; nothing is said about key quality.
- The layer2 provider is a simpler instance of the vxlan2 planner; PF_KEY encoding and the operator are not modelled.
- The link set-up, overlay route and ARP sysctl of the older vxlan provider; of its monitor, one received batch at a time.
- The GRE provider in the interleaved step system: `EnsureCIDRs` of `Gre` is proved for one call.
- Pod networks and addresses are values in the model, so snapshots already taken cannot change. Go's snapshot is a shallow copy that shares the network pointer and the address slice; that it is unaffected too rests on `update` replacing them and never writing through them (pkg/routing/nodes.go:182-218).
- AgentTables.FastPathMeansApplied: assumes starting tables with one state per SPI, unmarked policies and, on the link that the provider gets, one route per destination; for a current cluster that the provider does not support it speaks of the state table only.
