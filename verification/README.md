# Terragraph models in Dafny

Machine-checked models of six components of the Terragraph distribution, and of how three of them work together.

- **Hop-by-hop SSH** (`HopByHop.dfy`, `HopByHopRun.dfy`): a search for a path of live links. It takes a path of the links believed to be up, probes the nodes along it, deletes the links a probed node does not see, and tries again. What a probe answers and which path the graph library returns are parameters, constrained only by "it is a path that visits no node twice, and `None` means there is none".
- **VPP route programming** (`VppPaths.dfy`, `VppRoutes.dfy`): clients state the whole set of next hops of a prefix; VPP is told single paths to add and delete; a cache remembers what was stated last. VPP itself is a table from preference and prefix to a set of paths, with a history of all the states it went through.
- **BGP-learnt routes** (`Announcer.dfy`, `BgpLedger.dfy`, `BgpRuns.dfy`, `BgpRecovery.dfy`, `BgpFib.dfy`, `OpenrPrefixMgr.dfy`): tracking which peers announce a prefix, programming all of them through the route service above, and redistributing the prefix into Open/R while at least one peer announces it. How each remote call ends is a parameter: delivered, refused with the typed error, or lost on the way there or back, where a lost call counts as success in the code.
- **Four-band queueing discipline** (`PfifofcSpec.dfy`, `PfifofcLaws.dfy`, `Pfifofc.dfy`): strict priority with two levels of flow control and hysteresis.
- **Struct layout checker** (`StructAst.dfy`, `StructPadding.dfy`, `StructAlignment.dfy`, `StructLayout.dfy`, `StructRepair.dfy`, `StructSorted.dfy`, `StructResort.dfy`, `StructMeaning.dfy`, `StructUnit.dfy`, `StructHeader.dfy`, `StructEnums.dfy`, `StructExamples.dfy`): measuring nested C structs, unions and arrays, and inserting padding. The results are compared with a memory layout that is defined on its own; the lengths of arrays, which both take from one function, have laws of their own.
- **Sub-prefix allocator** (`Bits.dfy`, `SubPrefix.dfy`, `PrefixPartition.dfy`): the n-th sub-prefix of a seed prefix, by editing bits of the address bytes in 32-bit unsigned arithmetic.

`dafny verify dfyconfig.toml` checks everything.

## Main results

- `HopByHop.HBH.FindPaths`: the search ends within one round more than there are links, probes no node twice, never takes either of its own "aborting" exits, opens every SSH session under a configuration that leads where it should, returns only paths whose every hop was discovered together with a configuration that reaches each hop at the address it replied from, and finds one whenever the two nodes are joined by links that both ends see, where the target itself need not see its neighbour. `HopByHopRun.FindRoute` states this of the whole program, from a topology file's nodes and links to the configuration, in terms of these and of the replies alone. `OneWaySightIsNotEnough` is a search that ends without a path although a chain of links seen from one end joins the two.
- `VppRoutes.VppClient.Serve`: over any run of proper update, delete and synchronise requests the forwarding table holds exactly what the requests say when read as plain assignments. `UpdateExact`, `FlushExact` and `RepairExact` give the exact conditions under which one update, a flush of a dumped table, and a repair after a failed update come out right; `SyncRoutes` says for each route exactly when a synchronisation brings it out right, and exactly when it leaves VPP alone. `ReportedExactly` says which next hops a dump gives back as they were stated; for these, `Resync` talks to VPP exactly if the request differs from what is programmed.
- `BgpFib.Run`: from BGP commands to the forwarding table, whatever becomes of the calls. The paths of each prefix are exactly the peers that were announced when the last push of it to arrive was made; when all calls arrive, exactly the peers whose latest command is an accepted announcement. Throughout a run only prefixes whose latest push did not arrive differ from what is announced, if and only if no loss of a peer leaves a prefix behind. `LosePeer` says, in any state and for any outcome of the pushes, exactly which prefixes still have a path through a lost peer and exactly which differ; `RepeatedRemoval` that repeating a failed removal with all pushes arriving clears the peer.
- `PfifofcLaws.LevelIsTwoSwitches`: over any history of a band, its level is that of two independent switches with hysteresis, one for red packets and one for all. `PfifofcSpec.EveryRun`, `SignalsMoveByOne`, `BoundIsTight`: first in first out, conservation, the ranges of each flow-control level, and an amortised bound on signals that runs of every configuration attain.
- `StructUnit.UnitFits`, `StructRepair.DetectIffUnchanged`, `StructRepair.FixIdempotent`, `StructPadding.PaddedIsMinimal`: an accepted or repaired header has every scalar aligned at any depth, given that its arrays of arrays and of pointers are of those that are measured right; detecting is finding nothing to repair; repairing twice is repairing once, for declarations and for whole headers, and for a sorted repair exactly when `StructResort.Settles` holds of the declaration or, in `StructHeader.UnitSortedExactly`, of each definition of the header; and no smaller padding would do. `StructMeaning.DeclKept`, `StructEnums.UnitKept`: a repair keeps every definition and every member at all depths, with name and type and, unless sorted, in order, and adds nothing but pads.
- `PrefixPartition.AllocationsPartition`: as numbers in network byte order, the allocated sub-prefixes partition the seed exactly when the two prefix lengths are at most 32 apart.

## Where the code falls short

- A two-dimensional array is measured without its inner dimension and an array of pointers as an array of what they point to (`NestedArrayMeasured` and `PointerArrayMeasured` say exactly when size and alignment are right all the same; `MisalignedHeaderAccepted` and `MisplacedHeaderAccepted` are headers of either kind that pass with a misaligned member).
- A sorted repair is not idempotent (`SortedFixNotIdempotent`, `SortedFixIdempotentExactly`). The tool's help text says that sorting leaves members in order of decreasing alignment; the code puts unions and empty members last.
- Two next hops of one route that encode to the same path lose it when one of them is withdrawn (`SharedPathIsLost`).
- An `addRoute` that fails on an unknown interface leaves the cache behind the table; a later update of the same prefix need not repair it (`RetryLosesRoute`, with the exact condition in `UpdateAfterFailure`).
- A synchronisation that asks for a route just as it was dumped leaves it wrong when VPP held a path that the encoding cannot give back (`SyncKeepsWrong`).
- When a peer is lost, a rejected push leaves the prefixes behind it on the list with paths through that peer, although no push of them failed (`RejectedRemoval`, `FailuresExplainExactly`).
- The loss of a peer is reported as done when all requests for it were lost and every route through it is still there (`LostRemovalReported`).
- A reset of the queue does not tell the device that flow control is off (`ResetCutsOff`, with the exact condition in `DeviceKnowsExactly`).
- A comment in the BGP code says that client id 0 maps to preference 20; the route service maps it to 0, and so does the model. Open/R and client id 10 share a preference (`SharedPreference`).

## Model

| member | source | states |
|---|---|---|
| `HopByHop.NodeOf` | utils/hbhssh/hbhssh.py:133-138 | a machine's name is that of its first interface known to the topology; there is none exactly when no interface is known |
| `HopByHop.BuildMacTable` | utils/hbhssh/hbhssh.py:115-124 | the loop over the nodes and their addresses builds the table that `MacTableIs` describes |
| `HopByHop.MacTableIs` | utils/hbhssh/hbhssh.py:115-124 | an address is known exactly if some node has it, among its radio addresses or else as its own, under the name of the last node that does |
| `HopByHop.HBH.Build` | utils/hbhssh/hbhssh.py:110-131 | fails exactly when the target is not a topology node; otherwise two nodes are linked exactly if a link of the topology joins them, all that was given is kept, and the search invariant holds |
| `HopByHop.HBH.Neighbors` | utils/hbhssh/hbhssh.py:237 | exactly the nodes linked to a node, in either direction |
| `HopByHop.NamedIsUnique` | utils/hbhssh/hbhssh.py:172-180 | a neighbour list with one entry per name has exactly one entry for each of its names |
| `HopByHop.HBH.WriteSshConfig` | utils/hbhssh/hbhssh.py:143-200 | fails exactly when some hop lacks a unique neighbour entry; otherwise each host is reached by jumping through all the nodes before it, at the address the previous node discovered |
| `HopByHop.HBH.RecordReplies` | utils/hbhssh/hbhssh.py:212-233 | the recorded neighbours are exactly the nodes seen, once each, at the address of their first reply; new nodes get the interfaces of that reply; other nodes are untouched |
| `HopByHop.HBH.RemoveUnseen` | utils/hbhssh/hbhssh.py:235-241 | exactly the links of the node to nodes it did not see are deleted |
| `HopByHop.HBH.ProbeIsSound` | utils/hbhssh/hbhssh.py:235-241 | a probe keeps the invariant: the graph is the topology without exactly the links that a probed end does not see |
| `HopByHop.HBH.DiscoverNeighbors` | utils/hbhssh/hbhssh.py:204-241 | never takes the "need 1" exit, keeps the invariant, probes a node at most once, and deletes exactly its unseen links |
| `HopByHop.HBH.ProbeLast` | utils/hbhssh/hbhssh.py:209-217 | a probe opens one session to the node and one to each machine that answers its ping, in order, each under a configuration with an entry that reaches it |
| `HopByHop.HBH.VerifiedIsUnique` | utils/hbhssh/hbhssh.py:170-180 | on a path of discovered hops each hop has exactly one neighbour entry |
| `HopByHop.HBH.ConfigReaches` | utils/hbhssh/hbhssh.py:170-189 | the configuration of a verified path jumps, for each hop, through all nodes before it to the address at which the hop first replied to its predecessor's probe |
| `HopByHop.HBH.UsablePathSurvives` | utils/hbhssh/hbhssh.py:235-241 | a path of usable links, seen from both ends other than the target, is a path of the graph as long as the target is not probed |
| `HopByHop.HBH.Walk` | utils/hbhssh/hbhssh.py:280-307 | the walk along a path reaches its end with every hop discovered, or stops at a hop that is not seen and has then deleted a link; it probes exactly up to there, and never the target |
| `HopByHop.HBH.TryPath` | utils/hbhssh/hbhssh.py:279-316 | a round either succeeds on the given path or has deleted at least one link |
| `HopByHop.HBH.Round` | utils/hbhssh/hbhssh.py:259-316 | a round keeps what holds of the search so far: the links left, the probes made, the paths tried and what their walks have learnt |
| `HopByHop.HBH.Start` | utils/hbhssh/hbhssh.py:243-255 | the first session asks the given address under an empty configuration; if the machine is known it is recorded with its interfaces, and the configuration reaches it |
| `HopByHop.HBH.FindPaths` | utils/hbhssh/hbhssh.py:243-316 | soundness (of the path and of the SSH configuration left behind), completeness for usable links, which paths are tried (each respects what the walks along those before it have learnt, and all but the last have a hop that is not seen), the bound on rounds, at most one probe per node, that the abort exits are unreachable, and that the sessions are the first one to the given address and then those of the probes in order, each under a configuration that leads there |
| `HopByHop.OneWaySightIsNotEnough` | utils/hbhssh/hbhssh.py:235-241 | a search that ends without a path, although each link of a chain to the target is seen by the node before it |
| `HopByHop.LinkedIsJoined` | utils/hbhssh/hbhssh.py:125-126 | the graph of a list of links joins two nodes exactly if a link names them, in either order |
| `HopByHopRun.NodeOfIs` | utils/hbhssh/hbhssh.py:115-138 | a machine is named by its first interface whose address the topology knows under a name, read off the topology's nodes |
| `HopByHopRun.FindRoute` | utils/hbhssh/hbhssh.py:110-316 | the whole program: it fails exactly when the target is not listed; what it finds starts at the machine with the given address and reaches each further node of the path over a link of the topology, through the nodes before it, at the address of its first reply; it finds a path whenever a chain of links seen from both ends leads to the target |
| `VppPaths.LoopbackAddress` | src/vpp_plugins/openr-fib-vpp/VppClient.cpp:226-249 | only the first digit of the last group changes, to zero; unchanged exactly when it was zero |
| `VppPaths.EncodeKeeps` | src/vpp_plugins/openr-fib-vpp/VppClient.cpp:302-342 | the path has the next hop's address up to the one digit, which is cleared over the uplink tap only, its interface, and its weight modulo 256 |
| `VppPaths.ReportedExactly` | src/vpp_plugins/openr-fib-vpp/VppClient.cpp:170-189 | a programmed next hop is reported as it was stated if and only if its weight is a byte, its interface carries the name it is reported under and its address is not rewritten |
| `VppPaths.ReportedBack` | src/vpp_plugins/openr-fib-vpp/VppClient.cpp:170-189 | a set of such next hops comes back from a dump of its paths |
| `VppPaths.CanonicalExactly` | src/vpp_plugins/openr-fib-vpp/VppClient.cpp:172-188 | which dumped paths encode back to themselves |
| `VppPaths.EncodeDecodeIdempotent` | src/vpp_plugins/openr-fib-vpp/VppClient.cpp:302-342 | encoding a dumped path gives one that dumps and encodes to itself |
| `VppPaths.EncodeIsCanonical` | src/vpp_plugins/openr-fib-vpp/VppClient.cpp:302-342 | programmed paths survive a dump when the interface carries its reported name |
| `VppPaths.EncodeStable` | src/vpp_plugins/openr-fib-vpp/VppClient.cpp:533-540 | learning more interfaces changes no path of a known next hop |
| `VppPaths.DecodedCanonical` | src/vpp_plugins/openr-fib-vpp/VppClient.cpp:170-189 | a dump of canonical paths encodes back to exactly those paths, without ambiguity |
| `VppPaths.UpdateExact` | src/vpp_plugins/openr-fib-vpp/VppClient.cpp:355-381 | deleting the old and adding the new next hops leaves exactly the new paths if and only if each path shared by a kept and a removed next hop is also that of an added one |
| `VppPaths.UpdateUnambiguous` | src/vpp_plugins/openr-fib-vpp/VppClient.cpp:355-381 | in particular when the old next hops have different paths |
| `VppPaths.SharedPathIsLost` | src/vpp_plugins/openr-fib-vpp/VppClient.cpp:341-367 | two next hops that differ by 256 in weight share a path, and withdrawing one loses it |
| `VppPaths.FlushExact` | src/vpp_plugins/openr-fib-vpp/VppClient.cpp:131-140 | flushing a dumped route removes all its paths if and only if all are canonical |
| `VppPaths.RepairExact` | src/vpp_plugins/openr-fib-vpp/VppClient.cpp:355-391 | after a failed update, a later one repairs the route if and only if it drops what the first withdrew and keeps what the first added |
| `VppPaths.ResidueStays` | src/vpp_plugins/openr-fib-vpp/VppClient.cpp:355-381 | an update deletes no path that is not canonical, when the cached next hops encode to canonical ones |
| `VppPaths.KeptRouteIsWrong` | src/vpp_plugins/openr-fib-vpp/VppClient.cpp:123-129 | a route requested as it was dumped keeps its path when that is not canonical, although another is wanted |
| `VppRoutes.VppClient.LearnInterfaces` | src/vpp_plugins/openr-fib-vpp/VppClient.cpp:474-524 | routes in sync stay in sync when interfaces are learnt, also when an index gets another name |
| `VppRoutes.VppClient.AddDelNextHop` | src/vpp_plugins/openr-fib-vpp/VppClient.cpp:269-353 | changes one path of one route, or nothing when the interface is unknown |
| `VppRoutes.VppClient.DeleteOldNextHops` | src/vpp_plugins/openr-fib-vpp/VppClient.cpp:355-367 | the paths of cached next hops no longer wanted are gone, and at every step kept ones stay |
| `VppRoutes.VppClient.AddNewNextHops` | src/vpp_plugins/openr-fib-vpp/VppClient.cpp:369-381 | the paths of wanted next hops are there up to the first unknown interface |
| `VppRoutes.VppClient.AddRoute` | src/vpp_plugins/openr-fib-vpp/VppClient.cpp:251-392 | the whole new state on success and on failure; at every intermediate step kept next hops stay programmed and no other route changes; VPP is told nothing exactly when the next hops are those cached; a route in sync stays in sync |
| `VppRoutes.VppClient.DeleteRoute` | src/vpp_plugins/openr-fib-vpp/VppClient.cpp:394-404 | removes all that the cache knows of the route and nothing else |
| `VppRoutes.VppClient.AddRoutes` | src/vpp_plugins/openr-fib-vpp/VppFibHandler.cpp:115-153 | succeeds exactly when all interfaces are known; the last route for a prefix wins; unambiguous routes keep what is in sync; all else is untouched; on failure the routes before the first with an unknown interface are updated, that one is programmed up to its first unknown next hop with its cache entry as before, and those behind are untouched |
| `VppRoutes.VppClient.DeleteRoutes` | src/vpp_plugins/openr-fib-vpp/VppFibHandler.cpp:155-188 | removes exactly what the cache knows of the named routes, from cache and table, and keeps all in sync |
| `VppRoutes.VppClient.GetRoutes` | src/vpp_plugins/openr-fib-vpp/VppClient.cpp:143-199 | lists each prefix with paths of the preference once, with exactly the next hops of those paths; fails exactly when an interface has no known name |
| `VppRoutes.VppClient.LoadCache` | src/vpp_plugins/openr-fib-vpp/VppClient.cpp:112-121 | the cache of the preference becomes the dump, whatever it was, and other preferences keep theirs |
| `VppRoutes.VppClient.RemoveOldRoutes` | src/vpp_plugins/openr-fib-vpp/VppClient.cpp:131-140 | exactly the dumped and not requested routes are deleted |
| `VppRoutes.VppClient.SyncRoutes` | src/vpp_plugins/openr-fib-vpp/VppClient.cpp:106-141 | when it succeeds and what a failed dump leaves; on an unknown interface the updates stop as in `AddRoutes`, from a cache that is the dump, and nothing is removed; on success the cache holds exactly the requested routes of the preference, whatever it held before; for proper requests each route of the table is right if and only if all its old paths were canonical; other preferences are untouched; VPP is told nothing exactly when the request is what the dump reports |
| `VppRoutes.VppClient.DumpIsCache` | src/vpp_plugins/openr-fib-vpp/VppClient.cpp:143-199 | when the programmed next hops can all be reported, a dump lists exactly the cached ones, each prefix once |
| `VppRoutes.VppClient.DumpCached` | src/vpp_plugins/openr-fib-vpp/VppClient.cpp:143-199 | a call of the dump that gives them back |
| `VppRoutes.VppClient.Resync` | src/vpp_plugins/openr-fib-vpp/VppClient.cpp:106-141 | a synchronisation then succeeds, and tells VPP something exactly if the request differs from what is programmed |
| `VppRoutes.SyncKeepsWrong` | src/vpp_plugins/openr-fib-vpp/VppClient.cpp:106-141 | a synchronisation with a table and a request that leaves the requested route wrong |
| `VppRoutes.UpdateAfterFailure` | src/vpp_plugins/openr-fib-vpp/VppClient.cpp:355-391 | two calls: a failed update of a route in sync and a later one that goes through leave the paths of the later one if and only if it drops what the first withdrew and keeps what the first added |
| `VppRoutes.RetryLosesRoute` | src/vpp_plugins/openr-fib-vpp/VppClient.cpp:355-391 | a failed update followed by one back to the old next hop leaves the route without paths, with the cache saying otherwise |
| `VppRoutes.VppClient.CleanIsCanonical` | src/vpp_plugins/openr-fib-vpp/VppClient.cpp:160-199 | a table programmed by proper requests can be dumped and reconciled exactly |
| `VppRoutes.VppClient.Serve` | src/vpp_plugins/openr-fib-vpp/VppFibHandler.cpp:115-221 | over any run of proper requests the table equals the plain assignments the requests stand for |
| `VppRoutes.RequestedSource` | src/vpp_plugins/openr-fib-vpp/VppClient.cpp:123-129 | the requested next hops of a prefix are those of the last route of the list for it, or none |
| `BgpFib.BgpHopsEncode` | src/exabgp_to_openr/exabgp_to_openr/fibs.py:320-325 | BGP next hops name no interface, so they always encode, each to its own path |
| `BgpLedger.BgpComesFirst` | src/vpp_plugins/openr-fib-vpp/VppFibHandler.cpp:33-53 | BGP's client id has the preference of the model, which beats that of every other client |
| `BgpLedger.SharedPreference` | src/vpp_plugins/openr-fib-vpp/VppFibHandler.cpp:33-53 | two clients have one preference exactly if they are Open/R and client id 10 |
| `Announcer.DefaultIsEverything` | src/exabgp_to_openr/exabgp_to_openr/fibs.py:37-39 | the default prefix is the one without host bits that covers every address |
| `BgpLedger.EventKeepsShown` | src/exabgp_to_openr/exabgp_to_openr/fibs.py:231-271 | tracking an event changes nothing in the table |
| `BgpLedger.PushShows` | src/exabgp_to_openr/exabgp_to_openr/fibs.py:332-346 | a push that arrives makes its prefix agree with the announced peers and changes no other; one that does not arrive changes nothing |
| `BgpLedger.LastArrivedSince` | src/exabgp_to_openr/exabgp_to_openr/fibs.py:401-439 | the last push of a prefix to arrive is one of this call if any of them arrived, and the former one otherwise |
| `BgpLedger.RemovalExact` | src/exabgp_to_openr/exabgp_to_openr/fibs.py:392-439 | in any state, the loss of a peer leaves exactly those prefixes differing of which no push arrived and that had a path through it or differed in another path |
| `BgpLedger.RemovalVia` | src/exabgp_to_openr/exabgp_to_openr/fibs.py:392-439 | in any state, a prefix still has a path through the lost peer exactly if it had one and no push of it arrived |
| `BgpLedger.CleanRemovalExact` | src/exabgp_to_openr/exabgp_to_openr/fibs.py:392-439 | from a table that agrees everywhere, exactly the prefixes with a path through the peer differ of which no push arrived |
| `BgpLedger.FailuresExplainExactly` | src/exabgp_to_openr/exabgp_to_openr/fibs.py:401-439 | from a table that agrees everywhere, only prefixes whose push failed in this call differ if and only if no push but the last of the list is rejected; `RemovalExplains` is the form for any earlier failures |
| `BgpRecovery.RemovalExplains` | src/exabgp_to_openr/exabgp_to_openr/fibs.py:371-441 | if a prefix differed only because its latest push did not arrive, so it is after the loss of a peer, exactly unless it has a path through the peer, its latest push had arrived, and it is not pushed now |
| `BgpRecovery.StepExplains` | src/exabgp_to_openr/exabgp_to_openr/fibs.py:296-487 | a command, with any outcome of its calls, keeps all differences down to pushes that did not arrive exactly if it leaves no prefix behind |
| `BgpRecovery.RunExplained` | src/exabgp_to_openr/exabgp_to_openr/fibs.py:296-487 | over any run, throughout only prefixes whose latest push did not arrive differ, if and only if no loss of a peer leaves a prefix behind |
| `BgpRecovery.UnrejectedRun` | src/exabgp_to_openr/exabgp_to_openr/fibs.py:296-487 | in particular over runs from a table in order in which no push for a lost peer is rejected, with any other outcome of any call |
| `BgpRecovery.RemovedExactly` | src/exabgp_to_openr/exabgp_to_openr/fibs.py:371-441 | in any state, the loss of a peer leaves no route through it if and only if a push of each listed prefix arrived; in particular when all pushes do |
| `BgpRuns.ArrivingRun` | src/exabgp_to_openr/exabgp_to_openr/fibs.py:296-487 | end to end, when calls arrive: the table shows exactly the peers whose latest command is an accepted announcement |
| `BgpFib.TracksStep` | src/exabgp_to_openr/exabgp_to_openr/fibs.py:231-271 | each tracked event keeps the learnt peers equal to those whose latest event is an announcement, and the tracked prefixes to those ever announced |
| `BgpFib.PlatformFib.TrackAdd` | src/exabgp_to_openr/exabgp_to_openr/fibs.py:231-244 | an announcement is recorded; one without a next hop is ignored |
| `BgpFib.PlatformFib.TrackRemove` | src/exabgp_to_openr/exabgp_to_openr/fibs.py:246-261 | raises exactly when a prefix that was ever announced does not have the peer, and then changes nothing |
| `BgpFib.PlatformFib.TrackRemoveAll` | src/exabgp_to_openr/exabgp_to_openr/fibs.py:263-271 | the peer is gone from every prefix |
| `BgpFib.PlatformFib.PushRoute` | src/exabgp_to_openr/exabgp_to_openr/fibs.py:332-346 | a push that arrives makes the table agree with the learnt peers whatever was there; one that does not leaves the table alone; only a refusal is reported; the ledger of pushes is kept |
| `BgpFib.PlatformFib.AddRoute` | src/exabgp_to_openr/exabgp_to_openr/fibs.py:296-346 | an announcement not accepted changes nothing; an accepted one is tracked and pushed; a refused push is reported, or raises without a next hop |
| `BgpFib.PlatformFib.DelRoute` | src/exabgp_to_openr/exabgp_to_openr/fibs.py:443-487 | when it raises, and otherwise that the peer is withdrawn and the rest pushed |
| `BgpFib.MatchingPrefixes` | src/exabgp_to_openr/exabgp_to_openr/fibs.py:380-386 | exactly the prefixes of the dump with a next hop at the address, once each if no route has two such |
| `BgpFib.PlatformFib.PushAll` | src/exabgp_to_openr/exabgp_to_openr/fibs.py:401-441 | pushes the list in order up to the first refusal and stops there; the table shows the ledger throughout, so which prefixes agree is known after any outcome |
| `BgpFib.PlatformFib.RemovePeer` | src/exabgp_to_openr/exabgp_to_openr/fibs.py:392-441 | the peer is forgotten at once, and the routes that have it are pushed in turn up to a refusal |
| `BgpFib.PlatformFib.DelAllRoutes` | src/exabgp_to_openr/exabgp_to_openr/fibs.py:371-441 | does nothing without a dump that shows the peer; otherwise forgets it and pushes in turn the routes that have it, each once when the table agreed before; what the result tells |
| `BgpFib.PlatformFib.AgreesMeans` | src/exabgp_to_openr/exabgp_to_openr/fibs.py:277-278 | that the ledger agrees for a prefix means that the paths of the prefix are the learnt peers |
| `BgpFib.LosePeer` | src/exabgp_to_openr/exabgp_to_openr/fibs.py:371-441 | in any state, for any outcome of the pushes: the listed prefixes are those with a path through the peer, and exactly those keep one of which no push arrived, none when all pushes arrive; exactly which prefixes differ; that the result is true exactly if there were routes and no push was rejected, arrived or not; from a table in order, only prefixes whose push failed differ if and only if no push but the last of the list is rejected |
| `BgpFib.RepeatedRemoval` | src/exabgp_to_openr/exabgp_to_openr/fibs.py:371-441 | after a removal that went wrong in any way, a second one with all pushes arriving leaves no route through the peer |
| `BgpFib.LostRemovalReported` | src/exabgp_to_openr/exabgp_to_openr/fibs.py:512-537 | when all requests are lost the removal is reported as done and the routes through the peer are still there |
| `BgpFib.RejectedRemoval` | src/exabgp_to_openr/exabgp_to_openr/fibs.py:392-439 | a refused first push leaves both of two prefixes differing, although not both had a push that failed |
| `BgpRuns.NoPathNoPeer` | src/exabgp_to_openr/exabgp_to_openr/fibs.py:383-390 | when the table agrees everywhere, a peer on no path is announced for no prefix, so skipping it is right |
| `BgpFib.Run` | src/exabgp_to_openr/exabgp_to_openr/fibs.py:296-487 | over any run, with any outcome of any call: the paths of each prefix are exactly the peers announced when the last push of it to arrive was made, and the ledger evolves step by step as the commands say; other preferences are untouched; when all calls arrive, the paths are the announced peers; throughout only prefixes whose latest push did not arrive differ, if and only if no loss of a peer leaves a prefix behind |
| `OpenrPrefixMgr.PrefixMgr.AddRoute` | src/exabgp_to_openr/exabgp_to_openr/fibs.py:56-97 | the new state for every outcome; consistency is kept unless the request is lost, and then exactly when the prefix was already advertised |
| `OpenrPrefixMgr.PrefixMgr.DelRoute` | src/exabgp_to_openr/exabgp_to_openr/fibs.py:138-177 | the peer alone is removed, and the result says whether it was there; the prefix is withdrawn only together with its last peer; a refused withdrawal changes nothing |
| `OpenrPrefixMgr.PrefixMgr.DelAllRoutes` | src/exabgp_to_openr/exabgp_to_openr/fibs.py:179-195 | the peer, and no other, leaves every prefix except those it was the last of and whose withdrawal was refused; exactly those prefixes leave Open/R of which it was the last and whose request arrived; the result says whether any was left |
| `OpenrPrefixMgr.PrefixMgr.CheckForRoute` | src/exabgp_to_openr/exabgp_to_openr/fibs.py:99-136 | when it raises; which peers it adds and drops; that it keeps consistency when answered, and repairs a prefix that Open/R lost exactly at its last peer |
| `OpenrPrefixMgr.Run` | src/exabgp_to_openr/exabgp_to_openr/fibs.py:56-195 | over any run, with any calls refused or lost: each prefix of which no call was lost is advertised exactly when some peer is recorded for it; the peers recorded for a prefix that is neither refused nor checked are exactly those whose latest command is an accepted announcement |
| `PfifofcSpec.FirstBusy` | recipes-radio/qdisc-mod/files/src/fb_qdisc_pfifofc.c:169-172 | the lowest-numbered band that has packets |
| `PfifofcSpec.RunProjects` | recipes-radio/qdisc-mod/files/src/fb_qdisc_pfifofc.c:132-219 | each band of a run is the result of its own history |
| `PfifofcSpec.Fifo` | recipes-radio/qdisc-mod/files/src/fb_qdisc_pfifofc.c:132-219 | per band, what was accepted since the last reset is what was delivered followed by what is queued; the queue stays within its limit |
| `PfifofcSpec.Conservation` | recipes-radio/qdisc-mod/files/src/fb_qdisc_pfifofc.c:153-159 | accepted packets are delivered, queued or flushed, and the statistics count accepted and dropped ones |
| `PfifofcSpec.LevelInRange` | recipes-radio/qdisc-mod/files/src/fb_qdisc_pfifofc.c:141-188 | the queue lengths at which each flow-control level can occur, and that the highest level is not reached when its threshold is the queue limit |
| `PfifofcSpec.SignalsMoveByOne` | recipes-radio/qdisc-mod/files/src/fb_qdisc_pfifofc.c:120-188 | between resets signals move by one level at a time, never repeat, and the last one is the current level |
| `PfifofcSpec.CreditStep` | recipes-radio/qdisc-mod/files/src/fb_qdisc_pfifofc.c:141-188 | an operation earns at most one unit of credit, a signal uses up a whole gap and one more |
| `PfifofcSpec.SignalsArePaidFor` | recipes-radio/qdisc-mod/files/src/fb_qdisc_pfifofc.c:132-219 | signals times the smaller effective hysteresis gap plus one never exceed accepted plus delivered packets |
| `PfifofcSpec.BoundIsTight` | recipes-radio/qdisc-mod/files/src/fb_qdisc_pfifofc.c:132-191 | for every configuration and every band there are runs of the queue with any number of signals that do no more work than that bound, up to filling the queue once |
| `PfifofcSpec.DeviceKnowsExactly` | recipes-radio/qdisc-mod/files/src/fb_qdisc_pfifofc.c:207-219 | the last level told is the level of the band if and only if no reset has found another level than off without a signal since |
| `PfifofcSpec.ResetCutsOff` | recipes-radio/qdisc-mod/files/src/fb_qdisc_pfifofc.c:207-219 | for every configuration and band a run that ends with a reset, after which the device was last told to hold back red packets and the level of the band is off |
| `PfifofcSpec.Totals` | recipes-radio/qdisc-mod/files/src/fb_qdisc_pfifofc.c:132-219 | total length and backlog are the sums over the bands |
| `PfifofcSpec.DeliversOldest` | recipes-radio/qdisc-mod/files/src/fb_qdisc_pfifofc.c:162-191 | a dequeue delivers the oldest undelivered packet of the first band that has any, all earlier bands having delivered theirs |
| `PfifofcSpec.EveryRun` | recipes-radio/qdisc-mod/files/src/fb_qdisc_pfifofc.c:132-219 | all of these for each band of any run |
| `PfifofcSpec.DefaultBound` | recipes-radio/qdisc-mod/files/src/fb_qdisc_pfifofc.c:32-43 | at the default thresholds, 81 packets per signal |
| `PfifofcLaws.LevelIsTwoSwitches` | recipes-radio/qdisc-mod/files/src/fb_qdisc_pfifofc.c:57-188 | the level over any history is that of two switches that know nothing of each other, each going on above its upper and off at its lower threshold |
| `PfifofcLaws.DefaultLevels` | recipes-radio/qdisc-mod/files/src/fb_qdisc_pfifofc.c:32-43 | the same with the default thresholds in numbers, and the default limit of the queue |
| `PfifofcLaws.SentAreCounted` | recipes-radio/qdisc-mod/files/src/fb_qdisc_pfifofc.c:132-160 | each packet sent to a band is counted once, as accepted or as dropped |
| `PfifofcLaws.AcceptedInOrder` | recipes-radio/qdisc-mod/files/src/fb_qdisc_pfifofc.c:132-160 | the accepted packets are some of those sent to the band, in that order |
| `PfifofcLaws.DroppedExactly` | recipes-radio/qdisc-mod/files/src/fb_qdisc_pfifofc.c:132-160 | a packet is dropped exactly if its band is full |
| `PfifofcLaws.BandIsClass` | recipes-radio/qdisc-mod/files/src/fb_qdisc_pfifofc.c:45-51 | which priorities share a band, and in which order the bands come |
| `PfifofcLaws.DeliversBestClass` | recipes-radio/qdisc-mod/files/src/fb_qdisc_pfifofc.c:162-191 | a dequeue delivers a packet of the best class of all that are queued, and one whenever any is |
| `Pfifofc.Qdisc.constructor` | recipes-radio/qdisc-mod/files/src/fb_qdisc_pfifofc.c:239-267 | empty bands, all levels off, thresholds by default or cut to 16 bits |
| `Pfifofc.Qdisc.SignalFc` | recipes-radio/qdisc-mod/files/src/fb_qdisc_pfifofc.c:120-130 | sets the level of one band and tells the device the level, the constant drop probability and the priority of the packet |
| `Pfifofc.Qdisc.Enqueue` | recipes-radio/qdisc-mod/files/src/fb_qdisc_pfifofc.c:132-160 | is a step of the specification, with its signals and its verdict on the packet |
| `Pfifofc.Qdisc.Dequeue` | recipes-radio/qdisc-mod/files/src/fb_qdisc_pfifofc.c:162-191 | delivers what a peek shows, and is a step of the specification with its signals |
| `Pfifofc.Qdisc.Peek` | recipes-radio/qdisc-mod/files/src/fb_qdisc_pfifofc.c:193-205 | shows the packet that a dequeue would deliver |
| `Pfifofc.Qdisc.Reset` | recipes-radio/qdisc-mod/files/src/fb_qdisc_pfifofc.c:207-219 | is a step of the specification, without signals |
| `Pfifofc.RunOps` | recipes-radio/qdisc-mod/files/src/fb_qdisc_pfifofc.c:132-219 | any run of operations is a run of the specification, and the device has received for each band exactly its signals in order |
| `Pfifofc.DeviceBound` | recipes-radio/qdisc-mod/files/src/fb_qdisc_pfifofc.c:120-130 | the amortised bound for the signals the device received |
| `Pfifofc.DeviceKnows` | recipes-radio/qdisc-mod/files/src/fb_qdisc_pfifofc.c:207-219 | the same for the signals that the device received |
| `PfifofcSpec.RunOwnPackets` | recipes-radio/qdisc-mod/files/src/fb_qdisc_pfifofc.c:135-137 | each band holds packets of its own priorities only, so that the priority told to the device stands for the band |
| `StructPadding.Gap` | utils/custom_analyzer/struct_alignment.py:131-132 | less than the alignment, and leads to a multiple of it |
| `StructPadding.PaddedIsPlaced` | utils/custom_analyzer/struct_alignment.py:122-160 | after padding each member starts at its alignment, the alignment of the struct is unchanged and divides its size |
| `StructPadding.PaddedUnchanged` | utils/custom_analyzer/struct_alignment.py:129-158 | nothing is inserted exactly when all is in place already |
| `StructPadding.PaddedIdempotent` | utils/custom_analyzer/struct_alignment.py:122-160 | padding twice is padding once |
| `StructPadding.BodyContents` | utils/custom_analyzer/struct_alignment.py:129-145 | up to the trailing pad, the struct holds its members and the inserted pads and nothing else |
| `StructPadding.PadResultContents` | utils/custom_analyzer/struct_alignment.py:122-160 | in every mode, the whole result with its trailing pad holds the given members, pads numbered in order from zero, and nothing else; in detect mode the members as they are |
| `StructPadding.PadResultInOrder` | utils/custom_analyzer/struct_alignment.py:122-160 | the members keep the order in which they are laid out, with the pads among them in theirs |
| `StructPadding.InsertedArePads` | utils/custom_analyzer/struct_alignment.py:139-142 | the pads have one to three bytes and are numbered in order |
| `StructPadding.DigitsRead` | utils/custom_analyzer/struct_alignment.py:34-36 | the number in a pad's name is its decimal representation |
| `StructPadding.InsertedNamesDiffer` | utils/custom_analyzer/struct_alignment.py:24-37 | the pads inserted into a struct have different names |
| `StructPadding.PaddedIsMinimal` | utils/custom_analyzer/struct_alignment.py:129-158 | no placement of the members in this order that respects all alignments is shorter |
| `StructPadding.SortedIsStable` | utils/custom_analyzer/struct_alignment.py:112-128 | sorting gives descending keys and keeps the order of equal ones |
| `StructPadding.SortedIsBuckets` | utils/custom_analyzer/struct_alignment.py:112-128 | sorting is: the members by descending alignment, each group in its own order, and behind them the unions and those without a size |
| `StructPadding.Sorted` | utils/custom_analyzer/struct_alignment.py:127-128 | a permutation of the members |
| `StructPadding.SortedNeedsNoPads` | utils/custom_analyzer/struct_alignment.py:127-145 | after sorting no pad comes before any member other than a union or an empty one |
| `StructPadding.PadStruct` | utils/custom_analyzer/struct_alignment.py:122-160 | the padding pass: fails in detect mode exactly when a pad is needed, otherwise returns the padded members |
| `StructAlignment.Lookup` | utils/custom_analyzer/struct_alignment.py:54-64 | the entry of the first of the names that is known; none exactly when none is known |
| `StructLayout.ConstantDimension` | utils/custom_analyzer/struct_alignment.py:82-83 | an array of no elements has no size, and each element adds its own |
| `StructLayout.ProductDimension` | utils/custom_analyzer/struct_alignment.py:87-88 | a product of dimensions has the size of an array of arrays |
| `StructLayout.SumDimension` | utils/custom_analyzer/struct_alignment.py:89-92 | a sum has the size of two arrays, a difference with its second part that of the first |
| `StructLayout.NamedDimension` | utils/custom_analyzer/struct_alignment.py:84-85 | an enumeration constant stands for its value |
| `StructLayout.RefusedDimension` | utils/custom_analyzer/struct_alignment.py:82-98 | which dimensions are refused |
| `StructLayout.ArrayFits` | utils/custom_analyzer/struct_alignment.py:99-103 | arrays of aligned elements are aligned at every index |
| `StructLayout.PointersFit` | utils/custom_analyzer/struct_alignment.py:99-103 | exactly when an array of pointers fits what an array of what they point to measures as |
| `StructLayout.NestedFit` | utils/custom_analyzer/struct_alignment.py:99-103 | exactly when an array of arrays fits what it measures as without its inner dimension |
| `StructLayout.StructFits` | utils/custom_analyzer/struct_alignment.py:163-175 | the measured size of the padded struct is its real size, and all its members are aligned |
| `StructLayout.UnionFits` | utils/custom_analyzer/struct_alignment.py:178-192 | the same for unions |
| `StructLayout.DeclFits` | utils/custom_analyzer/struct_alignment.py:75-108 | in every mode, for every nesting: measured size is real size, and at a multiple of the alignment every scalar inside is aligned, when the arrays of arrays and of pointers inside are of those measured right |
| `StructLayout.TypeFits` | utils/custom_analyzer/struct_alignment.py:195-213 | the same for types |
| `StructRepair.DetectIffUnchanged` | utils/custom_analyzer/struct_alignment.py:122-192 | detect mode accepts exactly what a repair would leave as it is, at all depths, with the same measures |
| `StructRepair.FixIdempotent` | utils/custom_analyzer/struct_alignment.py:122-192 | a repaired declaration measures the same and is not changed again |
| `StructRepair.FixIsAccepted` | utils/custom_analyzer/struct_alignment.py:122-192 | the output of a repair, sorted or not, passes detect mode with the same measures |
| `StructMeaning.DeclKept` | utils/custom_analyzer/struct_alignment.py:75-213 | at all depths, a measured declaration keeps every member with its name and type, in order unless a struct is sorted, and has nothing but pads added; in detect mode nothing |
| `StructRepair.NestedArrayMeasured` | utils/custom_analyzer/struct_alignment.py:99-103 | a two-dimensional array is measured right, in size and alignment, if and only if its number of rows is zero, or its inner dimension is one or its elements are empty and (for empty rows) aligned to four |
| `StructRepair.PointerArrayMeasured` | utils/custom_analyzer/struct_alignment.py:99-103 | an array of pointers is measured right, in size and alignment, if and only if it is empty or what they point to is as large and as aligned as a pointer |
| `StructSorted.SortedListExactly` | utils/custom_analyzer/struct_alignment.py:127-158 | the same for one list of members, as a condition on sizes and alignments |
| `StructResort.DeclGrows` | utils/custom_analyzer/struct_alignment.py:122-192 | a sorted repair never loses a declaration, and one that adds none is not changed by a second |
| `StructResort.SortedFixNotIdempotent` | utils/custom_analyzer/struct_alignment.py:127-158 | a declaration that a second sorted repair changes |
| `StructResort.SortedFixIdempotentExactly` | utils/custom_analyzer/struct_alignment.py:127-158 | a second sorted repair of a declaration changes nothing if and only if in each of its structs, at all depths, the unions and empty members sorted last fit together and to the end without pads |
| `StructUnit.Analyze` | utils/custom_analyzer/struct_alignment.py:254-267 | the loop over a header computes the measures and the rewritten definitions in order, and fails where one of them fails |
| `StructUnit.UnitDetectIffUnchanged` | utils/custom_analyzer/struct_alignment.py:254-267 | detect mode accepts a header exactly if a repair would leave it as it is, with the same measures |
| `StructUnit.UnitFixIsAccepted` | utils/custom_analyzer/struct_alignment.py:254-267 | the output of a repair of a header, sorted or not, passes detect mode |
| `StructUnit.UnitFixIdempotent` | utils/custom_analyzer/struct_alignment.py:254-267 | repairing a header twice is repairing it once |
| `StructHeader.UnitSortedExactly` | utils/custom_analyzer/struct_alignment.py:254-267 | a second sorted repair of a header changes nothing if and only if each of its definitions settles, in what is known at its turn |
| `StructEnums.UnitKept` | utils/custom_analyzer/struct_alignment.py:254-267 | a processed header has the same definitions in the same order, each with nothing but pads added |
| `StructEnums.EnumsAreRefused` | utils/custom_analyzer/struct_alignment.py:195-267 | a header that uses an enumeration after its definition is refused in every mode, unless behind a pointer |
| `StructEnums.EnumNames` | utils/custom_analyzer/struct_alignment.py:254-267 | the names not to be used are exactly those defined as enumerations |
| `StructExamples.MisalignedHeaderAccepted` | utils/custom_analyzer/struct_alignment.py:99-103 | a header that detect mode accepts although a pointer in it is not aligned |
| `StructExamples.MisplacedHeaderAccepted` | utils/custom_analyzer/struct_alignment.py:99-103 | a header with a two-dimensional array that detect mode accepts although the member behind it is not aligned |
| `StructUnit.UnitFits` | utils/custom_analyzer/struct_alignment.py:254-267 | after a whole header, every type name's recorded size is real and its alignment sufficient, through all nesting and all type names; each definition is judged by what is known when its turn comes |
| `StructUnit.HeaderFits` | utils/custom_analyzer/struct_alignment.py:14-21 | the same from the tool's own start, in every mode |
| `StructUnit.ByteKnownInTime` | utils/custom_analyzer/struct_alignment.py:24-37 | a header that defines `uint8_t` first has the byte type known wherever pads may be needed |
| `SubPrefix.EditByteBits` | src/vpp_plugins/vpp-chaperone/NetUtils.cpp:301-310 | setting or clearing a bit of a byte affects that bit alone |
| `SubPrefix.ByteValue` | src/vpp_plugins/vpp-chaperone/NetUtils.cpp:301-310 | the bits of a byte, least significant first, are those of its value |
| `SubPrefix.AddressBitsValue` | src/vpp_plugins/vpp-chaperone/NetUtils.cpp:291-311 | the bits of an address are those of its number in network byte order |
| `SubPrefix.ByteIndexIs` | src/vpp_plugins/vpp-chaperone/NetUtils.cpp:295-300 | for a prefix within the address the unsigned byte index is the byte of the bit; for a longer one the first byte index is out of range |
| `SubPrefix.FieldBits` | src/vpp_plugins/vpp-chaperone/NetUtils.cpp:273-285 | the number of index bits; negative exactly when the allocated prefix is the larger one, or its length is 2 to the 31 beyond |
| `SubPrefix.WriteField` | src/vpp_plugins/vpp-chaperone/NetUtils.cpp:291-311 | the loop writes exactly the field and no other bit, or fails when a byte is out of range |
| `SubPrefix.GetNthPrefix` | src/vpp_plugins/vpp-chaperone/NetUtils.cpp:263-318 | each error exactly characterised; otherwise the seed's bits with the field replaced by the index |
| `PrefixPartition.ReplacedIsNth` | src/vpp_plugins/vpp-chaperone/NetUtils.cpp:291-311 | replacing bits is gluing the low bits of the seed, the index and the high bits of the seed |
| `PrefixPartition.NthIs` | src/vpp_plugins/vpp-chaperone/NetUtils.cpp:291-311 | the allocated address as an arithmetic formula |
| `PrefixPartition.AllocatedValue` | src/vpp_plugins/vpp-chaperone/NetUtils.cpp:263-318 | the allocated address as a number in network byte order: the host bits of the seed, the index above them, and the bits of the seed above those; and that it lies in the seed prefix |
| `PrefixPartition.InPrefixIs` | src/vpp_plugins/vpp-chaperone/NetUtils.cpp:263-318 | an address is in a prefix exactly if it has the same quotient by the size of the prefix |
| `PrefixPartition.Disjoint` | src/vpp_plugins/vpp-chaperone/NetUtils.cpp:291-311 | different indices give disjoint sub-prefixes, for any gap |
| `PrefixPartition.Uncovered` | src/vpp_plugins/vpp-chaperone/NetUtils.cpp:280-281 | with more than 32 bits between the lengths some addresses of the seed are in no sub-prefix |
| `PrefixPartition.PartitionExactly` | src/vpp_plugins/vpp-chaperone/NetUtils.cpp:275-311 | the sub-prefixes lie inside the seed, and each of its addresses is in exactly one of them if and only if the lengths are at most 32 apart |
| `PrefixPartition.AllocationsPartition` | src/vpp_plugins/vpp-chaperone/NetUtils.cpp:263-318 | the prefixes that the allocator can return for the indices in range lie inside the seed, and each address of the seed is in exactly one of them if and only if the lengths are at most 32 apart |

## Left out

- What goes on in an SSH session (ping, the parsing of its output, upper and lower case of addresses, which interfaces are pinged, timeouts) and the configuration file's text: the search takes what a probe yields as a parameter. A parameter that depends on the node only is no restriction, because no node is asked twice in a search.
- The shortness of the paths the graph library returns: nothing proved needs it.
- VPP, Thrift and the event loop: VPP is a table of path sets, its own treatment of path weights is not modelled, the connection is up, and calls are not interleaved.
- IPv4 routes: the dump covers IPv6 only.
- Interface names that lose their index: `LearnInterfaces` keeps those that are known. The order in which a dump lists routes and next hops is arbitrary.
- Client identifiers outside the range of the route service, for which its code reads past its table.
- `check_for_route` of the platform FIB, and the base class of the announcer, which is a parameter.
- Changing the thresholds of a queue that is in use, the netlink interface, and a device that registers late: signals are counted from the start. Threshold settings that are not in the order of the defaults: the flow-control lemmas ask for it.
- DeclFits: asks that arrays of arrays and of pointers are of those that are measured right, because it is false of others; whole declarations can also come out right by errors that cancel, so that this is not necessary for them. In the repair modes it also asks that `uint8_t` is known as one byte, since that is the type of the pads.
- TypeFits: the same conditions.
- UnitFits: the same conditions; the one on `uint8_t` only for definitions with a struct or a union, at their turn.
- HeaderFits: the same conditions.
- FixIdempotent: asks that `uint8_t` is known as one byte, since inserted pads are measured again; so do FixIsAccepted, SortedFixIdempotentExactly and, for its definitions with a struct or a union, UnitSortedExactly.
- FailuresExplainExactly: starts from a table that agrees everywhere; RemovalExplains and RunExplained are for tables with earlier failures.
- UpdateAfterFailure: asks that the next hops concerned have different paths; UpdateExact says what shared paths do.
- Serve: asks for proper requests (known interfaces under their reported names, no two next hops of a route with one path); UpdateExact, FlushExact and RepairExact say what happens otherwise.
- OpenrPrefixMgr.Run: says nothing of a prefix with a lost call, for which the correspondence can break; the contracts of AddRoute, DelRoute, DelAllRoutes and CheckForRoute say what a lost call does.
- FindPaths: links seen from both ends (other than the target) are sufficient and links seen from the near end are necessary for a path to be found; what happens between the two depends on the answers of the graph library.
- Enumeration constants: taken from a table that is complete from the start, so that using a constant before its definition is not an error in the model.
- The C parser, the code generator and the command line of the struct checker; names of pads that clash with names of members.
- The text form of the allocated prefix, and the other address helpers next to the allocator.
