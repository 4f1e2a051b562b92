# data-rings in Dafny

A model of the hard parts of data-rings, a Chord DHT with per-ring replicated block
storage, and proofs about it: the ring protocol, block placement, multi-ring storage
accounts and garbage collection, the concurrent DAG fetch, optimistic group records,
versioned and expiring records, the block cache and the local collector.
`dafny verify dfyconfig.toml` checks everything.

## How it is put together

**The circle.** `Ids` has the 160-bit identifiers. `Gap(a, b)` is the clockwise way from
a to b, a full turn when they coincide; both interval tests of the program turn out to be
comparisons of gaps, which is what every later proof works with. `Ring` defines the ideal
ring of a member set: next and previous member, owner of a position, and how they change
when a member comes or goes. `Topology` models the program's own brute-force specification,
which sorts the identifiers, and proves it computes exactly this ideal ring.

**The protocol.** A network is a map from identifier to node state; a node answers calls
exactly when it is in the map. `Network` has the steps of one node as functions on networks,
`Lookup` the iterative search with its hop limit, `Fingers` the repair of finger tables,
`Membership` join and leave with the blocks they move, `Handover` the same on rings of any shape,
`Placement` replica windows. The class
`NodeOperations.Overlay` performs the same operations step by step, with the program's loops
and updates in place, and each method is proved to have the effect of its function.
`Routes` follows the way a search takes, relay by relay, and so decides exactly when a lookup
finds the owner; what joins, puts and finger repairs achieve is stated in its terms.
On top of these are the theorems about whole runs: `Recovery` (failures), `Convergence`
(no failures), `Refresh` (successor lists), `Restoration` (from failures to exact lookups),
`StrayJoins` (joins through a lookup that gave up), `Membership` and `Placement`.

**The store.** `StoreContents` describes what a network block store holds: blocks, per-ring
reverse index, root records, known rings, limits; every operation is a function on it and
byte totals are sums over it. `BlockStore.NetworkBlockStore` has the running counters, and
its methods are proved to keep every counter equal to its sum. `Reservation` takes the same
operations apart into atomic accesses and interleaves any number of threads. `StoreInputs` has
runs that break the accounts where the program lets them break. `Cache` and
`LocalGC` model the block cache and the local collector.

**The rest.** `Fetch` is the DAG fetch pipeline as a system of interleaved steps, `GroupRecord`
the read-modify-write loops on a group's member record, `ProviderRecords` and `SignedRecords`
the two kinds of record a node keeps.

## What the proofs found

* An ideal ring with exact fingers does not make lookups exact. A relay whose list still names a
  dead node sends the search there; the searcher evicts the node from its own tables, where it is
  not, and comes back to the same relay until the 160 hops are used up, and the node it stands at is
  returned as the owner. `Routes.StaleRelayMisleads` gives the input, `Routes.LookupIffReaches` the
  exact condition: a lookup is right if and only if its way meets no dead entry that the searcher
  does not know itself, and arrives within the hop limit.
* A join answered by such a lookup takes the blocks of a node that still owns them
  (`Membership.JoinMisplacesBlock`); `Membership.StrayJoinPlaces` says exactly when the blocks end
  up misplaced, `Membership.StrayJoinCloses` when the ring closes all the same, and
  `Placement.SinglePutIff` when a put with single copies goes astray. Rounds of stabilization bring
  such a joiner home if and only if the node it was given is alive (`StrayJoins.StrayJoinConverges`).
* A node that still remembers a dead predecessor between a joiner's neighbours hands the joiner too
  little, or blocks it owns itself. On a ring of any shape every block is with its owner after a join
  and the joiner's first stabilization, whatever was stored, if and only if there is no such memory
  (`Handover.JoinKeepsCover`, `Handover.ShadowedJoinUncovers`).
* A fetch cancelled from outside can return without error and without its blocks
  (`Fetch.CancelledReturnsNil`); what decides is whether a block was let go (`Fetch.UndroppedFetch`).
* After simultaneous failures every schedule of two stabilizations per survivor repairs the ring if
  and only if every survivor has a live node within its list, or is alone, or is one of two that
  were neighbours (`Recovery.RepairedIffRepairable`).
* `GC` does not keep a block for an index entry whose root is live only in another ring when the
  entry's own ring holds an expired record of that root. `StoreContents.LiveElsewhereIsNotEnough`
  gives the input, `StoreContents.CollectionIsExact` the exact condition.
* `GC` that fails to delete a block after it has deleted others leaves the aggregate counters
  wrong, and the block that stays has lost its index entries (`BlockStore.NetworkBlockStore.GC`).
  `StoreInputs.CollectPastFailure` is such a run; by `BlockStore.ExactInEveryOrderIff` the
  counters survive every order of visits if and only if no garbage block fails to be deleted or all
  of them do.
* Empty blocks upset the ring counters in `DropBlock` and `AddBlockRootIndex`; deleting an indexed
  block, indexing a missing one, and putting a stored block with data of another length upset
  them too. Each method states its exact condition, and `StoreInputs` has a run for each.
* `AddBlockRootIndex` can take a ring past its quota: `StoreContents.ApplyKeepsQuota` says when,
  `StoreInputs.IndexPastQuota` does it.
* `BlockHasLiveRoot` and `HasRootStr` disagree on exactly the records with a negative expiry that
  has passed (`StoreContents.LiveRecordIffHasRoot`, `StoreContents.NegativeExpiryDisagrees`).
* `PruneOutOfWindowBlocks` never drops anything with replication 1, so a block left behind on a
  former owner stays there (`Placement.PruneDropsNonReplicas` has the exact condition).
* Without expiry no group update is ever lost. Once a record expires, an accepted update can drop a
  member: `GroupRecord.ExpiryLosesUpdates` is a run that does, and by `GroupRecord.AfterExpiry` the
  new record loses nothing if and only if the updates after the version it builds on change the
  membership of nobody but the publisher.
* A version can go down in exactly the cases of `SignedRecords.WhenVersionDrops`;
  `SignedRecords.ExpiryDropsVersion` is one.

## Model

| member | source | states |
|---|---|---|
| `Ids.BetweenExclusive` | dht/chord.go:115-126 | the open interval test, wrap-around and equal ends included, holds exactly when id is nearer to lo, clockwise, than hi is |
| `Ids.BetweenRightInclusive` | dht/chord.go:128-130 | the half-open test holds exactly when id is no further from lo than hi is |
| `Ids.Less` | dht/chord.go:106-113 | byte-wise comparison is the order of the numbers the identifiers denote |
| `Ids.ValueInjective` | dht/chord.go:102-104 | two 20-byte identifiers are equal exactly when they denote the same number |
| `Ids.FingerStartBytes` | dht/chord.go:132-145 | the byte computation gives id + 2^i modulo 2^160 for every finger; the result always fits the 20 bytes |
| `Ids.FingerStartIsModulo` | dht/chord.go:132-145 | a finger's start is id + 2^i modulo 2^160 |
| `Ids.FingerStartGap` | dht/chord.go:132-145 | finger i starts exactly 2^i clockwise of its node |
| `Topology.SortSorts` | testrig/identities.go:145-149 | sorting distinct identifiers gives a strictly increasing list of the same identifiers |
| `Topology.WrapIsModulo` | testrig/identities.go:162-163 | the index arithmetic used here is the modulo of the program |
| `Topology.SortedNextN` | testrig/identities.go:161-178 | walking the sorted list with wrap-around is walking the ideal ring |
| `Topology.FindSuccessorOnRing` | testrig/identities.go:103-111 | the linear scan over the sorted list returns the owner of the position on the ideal ring |
| `Topology.ListFor` | testrig/identities.go:168-178 | the computed successor list is the next members in ring order |
| `Topology.FingersFor` | testrig/identities.go:180-194 | the computed fingers are the owners of the finger starts |
| `Topology.UniqueOf` | testrig/identities.go:195-200 | the different fingers in strictly increasing order |
| `Topology.ComputeTopology` | testrig/identities.go:144-204 | successors, predecessors, lists, fingers and distinct fingers of the computed topology are those of the ideal ring, for every member |
| `Topology.ReplicaNodes` | testrig/identities.go:206-232 | the replicas of a key are its owner and the members after it, min(k, n) in all |
| `NodeOperations.Overlay.TransferKeysRange` | dht/node.go:815-826 | block by block, the target holds what it held and what the source holds in the half-open range; nobody else changes |
| `NodeOperations.Overlay.AcceptPredecessor` | dht/node.go:769-813 | the caller becomes predecessor and, if it is another live node and new, ends with what it had and exactly the blocks from the old predecessor, or from the node itself when there was none, up to the caller; nobody else changes |
| `NodeOperations.Overlay.Notify` | dht/node.go:731-767 | a caller is accepted exactly when there is no predecessor, the predecessor is dead, or the caller is closer |
| `NodeOperations.Overlay.CheckPredecessor` | dht/stabilize.go:295-314 | a dead predecessor is forgotten, a live one kept, nothing else changes |
| `NodeOperations.Overlay.HandleSuccessorFailure` | dht/stabilize.go:171-211 | the first live list entry becomes successor and the list is cut to start with it; with none the node points at itself and heads its old list |
| `NodeOperations.Overlay.TryReconnect` | dht/stabilize.go:213-258 | the first live entry of the list becomes the successor and the whole list; without one nothing changes |
| `NodeOperations.Overlay.RefreshPredecessorList` | dht/node.go:1257-1297 | the predecessor list follows predecessor pointers, without repeating itself or coming back, as far as they go or the length limit allows; it is empty without a predecessor |
| `Network.PredWalkIsChain` | dht/node.go:1257-1297 | in any network the walk is the longest chain of predecessor pointers from its start, without repetition, that the length limit allows |
| `NodeOperations.Overlay.RefreshSuccessorList` | dht/stabilize.go:148-169 | the new list is the successor followed by the first entries of the successor's own list, as many as fit the size |
| `NodeOperations.Overlay.Stabilize` | dht/stabilize.go:99-146 | one stabilization, failover, adoption, notification and refresh included, has the effect of the step function on network and blocks |
| `Network.StabilizedTables` | dht/stabilize.go:99-169 | in any network a stabilization after which a node has another node for successor, whether it failed over, adopted one or kept its own, leaves it with successor and predecessor lists refreshed from that one |
| `NodeOperations.Overlay.ClosestPrecedingNode` | dht/node.go:677-701 | the two scans return the specified closest known node before the position |
| `NodeOperations.Overlay.EvictNode` | dht/node.go:703-729 | exactly the fingers naming the dead node are reset and it leaves the successor list, the others in order |
| `NodeOperations.Overlay.FindSuccessor` | dht/node.go:628-675 | the hop loop ends where the specified search ends and leaves the same network; next to the position it answers with the successor, and with up to 160 entries before the position, all dead, with the node itself, which has evicted exactly those |
| `NodeOperations.Overlay.FixFinger` | dht/stabilize.go:260-293 | one finger is set to what the search finds and the cursor moves on |
| `NodeOperations.Overlay.FixAllFingers` | dht/stabilize.go:318-322 | a full pass repairs all 160 fingers in turn |
| `NodeOperations.Overlay.TransferKeys` | dht/rpc.go:488-522 | exactly the blocks in the range are handed over and forgotten |
| `NodeOperations.Overlay.Join` | dht/node.go:263-314 | a join through a live node adds the joiner with the found successor and nothing else in its tables and takes over its blocks; it fails without a live bootstrap |
| `NodeOperations.Overlay.HandleNotifyLeave` | dht/node.go:402-447 | how a neighbour's successor, list and predecessor change when told of a leave |
| `Membership.CappedIsPrefix` | dht/node.go:402-447 | the neighbour keeps the first entries of its list other than leaver and new successor, in order, up to the size |
| `NodeOperations.Overlay.Leave` | dht/node.go:316-400 | blocks go to the successor, if it is another live node, both neighbours are told, the node is gone; nobody else's blocks change |
| `NodeOperations.Overlay.Replicate` | dht/node.go:1141-1186 | node by node, the block is added at exactly the other live nodes with room among the first replication-1 list entries |
| `NodeOperations.Overlay.Put` | dht/node.go:465-528 | node by node, the block lands on the node found and the live nodes with room among the first replication-1 entries of its list; the put fails, and changes no blocks, exactly when the node found is dead or has no room |
| `NodeOperations.Overlay.PruneOutOfWindowBlocks` | dht/node.go:1299-1341 | exactly the blocks outside the window behind the replication-th predecessor are dropped, and how many; none with replication 1, without a predecessor or with too short a list |
| `Lookup.ClosestInArc` | dht/node.go:677-701 | the closest preceding node lies strictly between n and id whenever any known node does |
| `Lookup.LookupNeverWrong` | dht/node.go:628-729 | on an ideal ring, whatever the fingers hold, dead nodes included, a search that stays within its hops ends at the owner and leaves the ring ideal |
| `Routes.SearchOutcome` | dht/node.go:638-675 | from any relay on its way a search uses up its hops exactly when the rest of the way is blocked or longer than the hops left |
| `Routes.LookupIffReaches` | dht/node.go:628-675 | on an ideal ring, whatever stale entries the tables hold, a lookup returns the owner if and only if its way arrives within the hop limit; otherwise it runs out of hops and returns another node |
| `Routes.CappedIsShort` | dht/node.go:672-675 | a search that runs out of hops returns a node strictly between the searcher and the position |
| `Routes.LookupGivesUpAt` | dht/node.go:643-675 | a lookup whose way does not arrive in time returns the node its way stands at after 160 hops, computed from the tables alone: a leg the searcher cannot mend is walked over and over |
| `Routes.LiveRelaysArrive` | dht/node.go:649-671 | if no member between the searcher and the position names a dead node the way arrives, however many dead entries the searcher holds itself |
| `Routes.TripWalks` | dht/node.go:649-671 | a way that arrives takes at most one walk over the members ahead, and one more with each dead entry of the searcher |
| `Routes.BudgetFits` | dht/node.go:628-643 | that bound fits the 160 hops exactly when (dead entries + 1) times members is at most 161 |
| `Routes.RouteHalves` | dht/node.go:649-671 | with exact fingers every live hop lowers the bit length of the distance left; lists may hold dead entries |
| `Routes.LookupIsExact` | dht/node.go:628-701 | on an ideal ring with exact fingers a searcher without dead entries of its own gets the owner, changes nothing and never reaches the 160-hop limit if no relay on the way names a dead node; if one does, the lookup runs out of hops and the answer is wrong |
| `Routes.LookupBesideDead` | dht/node.go:628-729 | the same if and only if for a searcher with dead entries, as long as one descent per dead entry fits the hop limit |
| `Routes.SmallNeverCapped` | dht/node.go:628-675 | when one walk over the members ahead per dead entry of the searcher fits the hop limit, as it does for up to 161 nodes without dead entries, ordered in a ring or not, a lookup runs out of hops if and only if its way is blocked by a dead entry the searcher does not know |
| `Routes.LookupSmallRing` | dht/node.go:628-701 | under the same bound on an ideal ring a lookup returns the owner if and only if its way is not blocked, whatever the fingers hold |
| `Routes.KnowingAllArrives` | dht/node.go:677-701 | a searcher whose list names all other members arrives after at most one eviction per dead entry, whatever the tables of the others hold |
| `Routes.RoutableReaches` | dht/node.go:628-701 | with no dead entry in any table, and exact fingers or at most 161 members, every lookup on an ideal ring returns the owner and changes nothing |
| `Routes.StaleRelayMisleads` | dht/node.go:649-675 | an ideal ring of three with exact fingers in which one dead entry in a relay's list makes a lookup run out of hops and return the wrong node |
| `Routes.LookupFindsNobody` | dht/node.go:638-660 | in any network a searcher whose entries before the position are all dead, at most 160 of them, gets itself as the answer, and exactly those entries have left its tables |
| `Routes.LastOneAnswers` | dht/node.go:656-658 | the survivor of a ring of two answers for a position past its dead successor |
| `Routes.LookupGoesOn` | dht/node.go:643-671 | in any network, successor dead or not, with a live entry before the position and fewer than 160 dead ones the search evicts dead entries only and goes on, a hop less for each, from a live entry no live list entry is closer than; if that one is next to the position or knows nobody closer, its successor is the answer |
| `Lookup.FindKeepsLists` | dht/node.go:703-729 | a lookup evicts dead nodes only: a list of live nodes is unchanged |
| `Fingers.FindTidies` | dht/node.go:703-729 | a lookup changes nothing but dead entries of the node that runs it |
| `Fingers.FixOneIff` | dht/stabilize.go:260-293 | on an ideal ring one repair writes the owner of the finger's start if and only if the way of its lookup arrives within the hop limit; otherwise it writes a node short of the start |
| `Fingers.FixOne` | dht/stabilize.go:260-293 | for a node that knows everybody and has fewer than 160 dead entries, or whose relays name no dead nodes and either (dead entries + 1) times members is at most 161 or it has no dead entries and all fingers are exact, one repair writes the owner of the finger's start; elsewhere it can only drop dead entries of that node, and its lookups stay exact |
| `Fingers.FullPassIsExact` | dht/stabilize.go:318-322 | for a node within the same bounds a full pass leaves every finger exact, wherever the cursor stood and whatever the fingers held, dead nodes included |
| `Recovery.FailoverTarget` | dht/stabilize.go:171-211 | the first live entry of an exact list is the next survivor |
| `Recovery.FailuresAreRepaired` | dht/stabilize.go:99-211 | after any failures without a full list's length in a row, every schedule that stabilizes each survivor twice ends in the ideal ring of the survivors |
| `Recovery.TwoRoundsRepair` | dht/stabilize.go:99-211 | two rounds, each in any order, repair the ring |
| `Recovery.UnbridgedTurnsBack` | dht/stabilize.go:99-211 | a survivor followed by as many failures as its list is long points at itself after its first stabilization and at its old predecessor, if that one is alive, after its second |
| `Recovery.RepairableRepairs` | dht/stabilize.go:99-211 | every schedule with two stabilizations each also repairs a lone survivor and two survivors that were neighbours, bridged or not |
| `Recovery.UnrepairableFails` | dht/stabilize.go:99-211 | in all other cases with an unbridged survivor some such schedule does not |
| `Recovery.RepairedIffRepairable` | dht/stabilize.go:99-211 | so every such schedule ends in the ideal ring if and only if all survivors are bridged, or there is one, or there are two and one followed the other |
| `Convergence.StepShrinks` | dht/stabilize.go:99-146 | without failures a pointer stays or moves strictly closer |
| `Convergence.ChangeLowersMeasure` | dht/node.go:731-772 | every stabilization that changes a pointer lowers a measure of the whole network |
| `Convergence.ChangesAreBounded` | dht/stabilize.go:99-146 | over any run the steps that change a pointer and the measure left add up to at most the measure at the start, so N nodes allow at most N(2N+1) changes |
| `Convergence.SettledIsMutual` | dht/stabilize.go:99-146 | in a settled network every node is its successor's predecessor |
| `Convergence.SortedIffOneTurn` | dht/stabilize.go:99-146 | successors are those of the sorted ring exactly when their gaps total one turn |
| `Convergence.SettledIsIdeal` | dht/stabilize.go:99-146 | a settled network in which one member is never passed over is the ideal ring |
| `Convergence.RoundsConverge` | dht/stabilize.go:99-146 | more than N(2N+1) rounds, each in any order, reach the ideal ring from there |
| `Convergence.ReachingGrowthConverges` | dht/node.go:263-314 | a ring grown from one node by any history of joins and stabilizations without failures becomes ideal once enough rounds follow the last join, if the way of every join's lookup stays within the hop limit |
| `Convergence.FewJoinsReach` | dht/node.go:628-675 | histories of up to 160 joins keep every way that short |
| `Convergence.GrowthConverges` | dht/node.go:263-314 | so every history of up to 160 joins becomes ideal once enough rounds follow the last join |
| `Refresh.PrependedPrefix` | dht/stabilize.go:148-164 | prepending the successor to its list extends the exact prefix by one |
| `Refresh.ListsBecomeExact` | dht/stabilize.go:148-164 | after r rounds the first min(r, size) entries of every list are the next members, whatever the lists held |
| `Refresh.RoundsFillLists` | dht/stabilize.go:148-164 | as many rounds as lists are long give the exact lists that recovery starts from |
| `Restoration.PassesMakeExact` | dht/stabilize.go:260-322 | once every node has passed over its fingers every lookup is exact, from lists that name everybody and fewer than 160 dead fingers each, or from live tables and at most 161 nodes |
| `Restoration.FailuresToExactLookups` | dht/stabilize.go:99-322 | failures, two stabilizations each in any schedule, as many rounds as lists are long and one finger pass per survivor leave every lookup exact, if two or more survive, the failures are repairable, and either lists reach around the ring and fewer than 160 nodes failed or no finger names a failed node and at most 161 survive |
| `Membership.JoinPlacesBlocks` | dht/node.go:263-314 | a join whose lookup reaches the owner takes over exactly the joiner's blocks: every block is on its new owner only, none lost or duplicated |
| `Membership.StrayJoinPlaces` | dht/node.go:263-314 | a join whose lookup gives up leaves the blocks placed if and only if the node its way stands at after 160 hops held none and the owner held none of the joiner's |
| `Membership.JoinMisplacesBlock` | dht/node.go:263-314 | a ring of three in which a join takes a block from its owner |
| `Membership.JoinRestoresRing` | dht/stabilize.go:99-138 | a join whose lookup reaches the owner, stabilize at the joiner, stabilize at its predecessor give the ideal ring with the joiner, one-member rings included |
| `Membership.StrayJoinCloses` | dht/stabilize.go:99-138 | after a join whose lookup gives up the same two stabilizations close the ring if and only if its way stood at the member just after the owner |
| `StrayJoins.StrayJoinConverges` | dht/stabilize.go:99-258 | as many rounds as there are members, each in any order, bring such a joiner into the ideal ring if the node its lookup gave up at is alive; if it is dead no number of rounds does |
| `Membership.JoinKeepsSingleCopies` | dht/node.go:731-826 | after a join whose lookup reaches the owner the hand-overs of those two stabilizations move no block away from its owner |
| `Handover.HandedOver` | dht/node.go:731-826 | block by block, what an accepted caller and everybody else hold after the hand-over |
| `Handover.StabilizeHandsOver` | dht/stabilize.go:99-146 | block by block, the hand-over a stabilization sets off in any network: from the adopted or the old successor, or none |
| `Handover.JoinKeepsCover` | dht/node.go:263-314 | on a ring of any shape, if every block is with its owner, the lookup found the joiner's successor and that one remembers no predecessor between the joiner's neighbours, the join and one stabilization at the joiner leave every block with its new owner and lose none |
| `Handover.ShadowedJoinUncovers` | dht/node.go:275-278 | if it does remember one, a single block suffices to end up without a copy at its owner |
| `Handover.LoneJoin` | dht/node.go:786-824 | a lone node without predecessor hands a joiner exactly the blocks the joiner owns at the joiner's first stabilization and keeps its copies |
| `Membership.LeaveRestoresRing` | dht/node.go:387-447 | the two leave notices give the ideal ring without the leaver, two-member rings included |
| `Membership.LeavePlacesBlocks` | dht/node.go:316-400 | a leave leaves every block on its new owner only, none lost or duplicated |
| `Placement.PutLandsOnReplicas` | dht/node.go:1141-1186 | an undropped put whose lookup reaches an owner with an exact list lands on exactly the key's replica nodes with room, or nowhere if the owner has none |
| `Placement.SinglePutIff` | dht/node.go:465-528 | with single copies a put lands on the owner alone if and only if its lookup reaches the owner |
| `Placement.WalkIsExact` | dht/node.go:1257-1297 | on an ideal ring the predecessor walk lists the previous members in order |
| `Placement.RefreshedPredecessors` | dht/node.go:1257-1297 | after a refresh a node's predecessor list is exact and long enough or complete |
| `Placement.ReplicaIffWindow` | testrig/identities.go:206-232 | a node is a replica of a key exactly when the key lies in the window behind its k-th predecessor |
| `Placement.PruneDropsNonReplicas` | dht/node.go:1299-1341 | for every replication of at least 2 pruning drops a block at a node exactly when the node is not one of the block's replica nodes; with replication 1 it drops nothing |
| `StoreContents.CollectionIsExact` | store/network_block_store.go:1193-1304 | GC removes a stored block exactly when none of its entries has, in its own ring, no expired record of a root that is live in a known ring |
| `StoreContents.CollectionTakes` | store/network_block_store.go:1193-1275 | GC takes exactly the expired records of known rings, the entries those held and the entries, in known rings, of the blocks it deletes |
| `StoreContents.CollectionSparesLive` | store/network_block_store.go:893-914 | GC never removes a block for which BlockHasLiveRootAnyRing holds |
| `StoreContents.LiveElsewhereIsNotEnough` | store/network_block_store.go:1193-1207 | an entry to a root live in another ring does not save its block when its own ring's record has expired |
| `StoreContents.LiveRecordIffHasRoot` | store/network_block_store.go:893-914 | BlockHasLiveRoot and HasRootStr agree on a record except when its expiry is negative and has passed |
| `StoreContents.NegativeExpiryDisagrees` | store/network_block_store.go:587-601 | a record on which they disagree |
| `StoreContents.CollectionIsIdempotent` | store/network_block_store.go:1193-1250 | a second GC at the same clock value changes nothing |
| `StoreContents.PruneTakes` | store/network_block_store.go:667-692 | pruning takes exactly the expired records of the rings and the entries those held |
| `StoreContents.PutSurvives` | store/network_block_store.go:751-765 | a block put under a root survives any sequence of collections while the record the put left or found lasts |
| `StoreContents.RemovedRootFrees` | store/network_block_store.go:576-581 | removing the only root a block is filed under gives it up at the next collection |
| `StoreContents.ApplyKeepsMax` | store/network_block_store.go:95-109 | no operation takes the stored bytes past the maximum |
| `StoreContents.ApplyKeepsQuota` | store/network_block_store.go:189-203 | a ring stays within its quota, except through AddBlockRootIndex, and there exactly when the block was in the ring or fits |
| `StoreContents.ApplyKeepsSound` | store/network_block_store.go:694-830 | every admissible operation keeps indexed blocks stored and sizes content-addressed |
| `StoreContents.RunIsSafe` | store/network_block_store.go:694-830 | over every admissible run indexed blocks are stored and the maximum holds |
| `StoreContents.RunKeepsQuota` | store/network_block_store.go:694-767 | over every admissible run that indexes through PutWithRoot only, ring quotas hold |
| `BlockStore.NetworkBlockStore.constructor` | store/network_block_store.go:214-251 | an empty store has exact counters |
| `BlockStore.NetworkBlockStore.ReserveAggBytes` | store/network_block_store.go:95-109 | bytes are reserved exactly when they fit under the maximum |
| `BlockStore.NetworkBlockStore.AddAggDelta` | store/network_block_store.go:111-131 | counters move by their deltas and never below zero |
| `BlockStore.NetworkBlockStore.Put` | store/network_block_store.go:365-394 | nothing changes for a stored block; otherwise refused exactly when the used bytes plus size exceed a positive maximum, and a failed write leaves everything as it was; counters stay exact |
| `BlockStore.NetworkBlockStore.Delete` | store/network_block_store.go:404-421 | the block, and no other, goes unless the block layer refuses, and then nothing changes; after a deletion the accounts are exact exactly when no ring indexes the block |
| `BlockStore.NetworkBlockStore.ReserveRingBytes` | store/network_block_store.go:189-203 | ring bytes are reserved exactly when they fit under the quota |
| `BlockStore.NetworkBlockStore.PutWithRoot` | store/network_block_store.go:694-767 | outcome, new blocks, entries and records, and roll-backs in every case; the accounts stay exact except for a stored block put under a new entry with another length |
| `BlockStore.NetworkBlockStore.ByCounters` | store/network_block_store.go:694-735 | with exact counters that outcome is read off them: full exactly when a missing block does not fit under the maximum or one new to the ring does not fit under its quota |
| `BlockStore.NetworkBlockStore.DropBlock` | store/network_block_store.go:769-803 | exactly the ring's entries of the block go and the ring no longer has it; a non-empty block takes its bytes and its one off the ring's counters, other rings' counters stay; the accounts stay exact unless the block is empty |
| `BlockStore.NetworkBlockStore.AddBlockRootIndex` | store/network_block_store.go:805-830 | the entry is added; the accounts stay exact exactly when the block is stored and not an empty one new to the ring |
| `BlockStore.NetworkBlockStore.AddRootWithExpiry` | store/network_block_store.go:545-558 | the record is written and its ring known; the accounts are untouched |
| `BlockStore.NetworkBlockStore.RemoveRootStr` | store/network_block_store.go:576-581 | exactly the record and the entries of the root go, with its counter, and every counter stays exact |
| `BlockStore.NetworkBlockStore.RemoveBlockRootEntries` | store/network_block_store.go:976-1010 | with indexed blocks stored, exactly the root's entries go and the ring gives up a block with its last entry |
| `BlockStore.NetworkBlockStore.SetQuota` | store/network_block_store.go:1024-1040 | refused, with nothing changed, exactly for a negative quota or a positive one below the ring's bytes |
| `BlockStore.NetworkBlockStore.HasRootStr` | store/network_block_store.go:587-601 | true exactly for an unexpired record |
| `BlockStore.NetworkBlockStore.PruneRing` | store/network_block_store.go:667-692 | exactly the expired records and their entries go, their number is returned, counters stay exact |
| `BlockStore.NetworkBlockStore.PruneExpiredRoots` | store/network_block_store.go:1090-1096 | the same for all known rings together |
| `BlockStore.NetworkBlockStore.ListRoots` | store/network_block_store.go:603-634 | exactly the ring's unexpired roots |
| `BlockStore.NetworkBlockStore.LiveRoots` | store/network_block_store.go:1200-1206 | exactly the roots unexpired in some known ring |
| `BlockStore.NetworkBlockStore.BlockHasLiveRootInSet` | store/network_block_store.go:1277-1304 | true exactly when some ring has an entry of the block to a live root |
| `BlockStore.NetworkBlockStore.BlockHasLiveRoot` | store/network_block_store.go:893-914 | true exactly when the ring files the block under a root with a live record there |
| `BlockStore.NetworkBlockStore.BlockHasLiveRootAnyRing` | store/network_block_store.go:1081-1088 | the same for some known ring |
| `BlockStore.NetworkBlockStore.CleanupRingBlockIndex` | store/network_block_store.go:1252-1275 | the block leaves the ring and the ring's and roots' counters stay exact |
| `BlockStore.NetworkBlockStore.GC` | store/network_block_store.go:1193-1250 | keeps exactly the specified blocks, removed + kept is the number before, counters stay exact; at the first failing deletion the block stays stored without its entries in known rings, and the accounts are exact exactly when no garbage came before it in the order of visits |
| `BlockStore.ExactInEveryOrderIff` | store/network_block_store.go:1209-1243 | a collection leaves the accounts exact in every order of visits if and only if no garbage block fails to be deleted or all of them do |
| `BlockStore.FailureStrandsCounters` | store/network_block_store.go:1232-1243 | two blocks and an order in which a failing deletion comes after a successful one |
| `StoreInputs.CollectPastFailure` | store/network_block_store.go:1193-1250 | a new store, two puts and a collection that fails at the second block: one block is left and the counters count two |
| `StoreInputs.DropEmptyBlock` | store/network_block_store.go:769-803 | a new store whose accounts a dropped empty block upsets |
| `StoreInputs.IndexEmptyBlock` | store/network_block_store.go:805-830 | one whose accounts an indexed empty block upsets |
| `StoreInputs.IndexMissingBlock` | store/network_block_store.go:805-830 | one whose accounts the entry of a missing block upsets |
| `StoreInputs.DeleteIndexedBlock` | store/network_block_store.go:404-421 | one whose accounts the deletion of an indexed block upsets |
| `StoreInputs.PutAnotherLength` | store/network_block_store.go:694-767 | one whose accounts a stored block put again with another length upsets |
| `StoreInputs.IndexPastQuota` | store/network_block_store.go:805-830 | one with exact accounts in which a ring with a quota of two bytes holds three |
| `BlockStore.NetworkBlockStore.PerformAll` | store/network_block_store.go:365-1275 | over every admissible run each counter equals the sum over stored, ring-indexed and root-indexed blocks, and the contents are those specified |
| `Reservation.ActBalances` | store/network_block_store.go:95-131 | each atomic step moves the aggregate counter by exactly what it moves between storage and flight, and never past the maximum |
| `Reservation.ActBalancesRing` | store/network_block_store.go:189-212 | the same for every ring counter and its quota |
| `Reservation.DistinctBlocks` | store/network_block_store.go:76-80 | the shard locks keep threads on distinct blocks |
| `Reservation.CountIsPositive` | store/network_block_store.go:111-131 | the block counter is never zero when a deletion is counted, so it is never clamped |
| `Reservation.StepKeepsInv` | store/network_block_store.go:365-421 | every step of every thread, failing writes and deletions included, keeps all accounts |
| `Reservation.InterleavingsKeepAccounts` | store/network_block_store.go:76-131 | in every interleaving of puts and deletes used bytes are stored plus in-flight bytes and at most the maximum; so for every ring |
| `Reservation.QuiescentIsExact` | store/network_block_store.go:365-421 | when all calls have returned the counters are exactly the sums |
| `Reservation.ReturnedCall` | store/network_block_store.go:365-421 | in every interleaving a call that found room whenever it looked, and whose write or deletion did not fail, returns with its block stored and filed, or with it gone |
| `Reservation.DeterredRetreats` | store/network_block_store.go:365-421 | a call that finds no room, or whose write or deletion fails, changes nothing at that step and from then on only gives its reservations back |
| `Reservation.RestIsBalanced` | store/network_block_store.go:365-421 | a store at rest with exact counters satisfies the invariant |
| `Fetch.StepKeepsInv` | dht/fetch.go:191-334 | every step of every goroutine keeps the pipeline's invariant |
| `Fetch.StartsInv` | dht/fetch.go:199-259 | the pipeline starts in it |
| `Fetch.CounterIsExact` | dht/fetch.go:219-252 | the in-flight counter is always pending senders + queued blocks + blocks with a worker |
| `Fetch.NothingAfterClose` | dht/fetch.go:256-259 | once the closer has woken nobody can send, the queue is empty and no worker is busy |
| `Fetch.ClosedOnce` | dht/fetch.go:256-259 | no run closes the queue twice |
| `Fetch.ProcessedOnce` | dht/fetch.go:221-234 | no run hands a block to workers twice |
| `Fetch.FetchIsComplete` | dht/fetch.go:191-334 | every run that returns without error and was not cancelled from outside leaves exactly the initial blocks and all those reachable from the root |
| `Fetch.NeverStuck` | dht/fetch.go:221-261 | until the pipeline returns, some goroutine can make a step |
| `Fetch.FetchTerminates` | dht/fetch.go:191-334 | on a finite link graph every run is shorter than a bound computed from its start |
| `Fetch.ErrorIffFault` | dht/fetch.go:199-212 | every run that returns, in any interleaving, returns an error if and only if looking up, fetching or storing some block failed on the way; without such a fault only an outside caller cancels |
| `Fetch.ErrorCancels` | dht/fetch.go:203-212 | every run that returns an error has cancelled the pipeline |
| `Fetch.FaultFreeFetch` | dht/fetch.go:191-334 | every interleaving carried to its end without fault or cancellation from outside returns without error and has stored every block reachable from the root |
| `Fetch.CanReturn` | dht/fetch.go:221-265 | on a finite link graph the pipeline can be carried to its return from wherever it is |
| `Fetch.UndroppedFetch` | dht/fetch.go:226-246 | a run that returns without error and let go of no block is complete, also if it was cancelled from outside |
| `Fetch.CancelledReturnsNil` | dht/fetch.go:226-265 | a run cancelled from outside that returns without error and without the root |
| `Fetch.CancelStopsStoring` | dht/fetch.go:237-246 | once cancelled the pipeline stores no block but those that were in a worker's hands |
| `GroupRecord.BuildMembers` | dht/private.go:190-196 | the loop returns the old members without the publisher, plus the publisher when adding |
| `GroupRecord.RebuiltIsExact` | dht/private.go:236-241 | the new list is the old set plus or minus exactly the publisher, without duplicates |
| `GroupRecord.BuiltOnStored` | dht/node.go:1574-1594 | before any expiry a record that passes the version check was built on the stored one, also when it came from a cache |
| `GroupRecord.AcceptedIsExact` | dht/private.go:164-252 | before any expiry each accepted record is the stored members plus or minus its publisher |
| `GroupRecord.StepKeepsInv` | dht/private.go:164-252 | every step, lost answers, failed lookups and expiry included, keeps every record what its own past of updates builds; until a record replaces an expired one all pasts begin the log of accepted updates |
| `GroupRecord.RestsOnlyWhenDone` | dht/private.go:164-252 | in every interleaving an agent that began an update, loses no message, is not aborted and, when removing, finds the record, rests again only once the update was accepted, exactly once, or after five refusals in a row |
| `GroupRecord.UndisturbedTryAccepts` | dht/private.go:176-199 | a look and a publication with nobody in between are accepted, built on the stored record, or for an addition on the cached one or none, unless the version wraps |
| `GroupRecord.RefusedTriesAgain` | dht/private.go:210-216 | a refused agent looks again, unless it was the fifth time, and undisturbed that try is accepted |
| `GroupRecord.NoLostUpdates` | dht/private.go:164-252 | in every interleaving without expiry the members are exactly the peers whose last accepted update was an addition, each once |
| `GroupRecord.StoredReplays` | dht/private.go:164-252 | in every interleaving with any expiries the stored members are those of the stored record's own past |
| `GroupRecord.AcceptedReplays` | dht/node.go:1574-1594 | in every interleaving an accepted record is the replay of its base's past and the update, and loses nothing if and only if that past and the log agree on everyone but the publisher |
| `GroupRecord.AfterExpiry` | dht/node.go:1580-1593 | the first record accepted in place of an expired one is the replay of the log up to its base's version and the update, and loses nothing if and only if that part of the log and all of it agree on everyone but the publisher |
| `GroupRecord.ExpiryLosesUpdates` | dht/node.go:1580-1593 | a run from an empty store with one expiry that loses an accepted addition |
| `ProviderRecords.ProviderTable.StoreProviderRecord` | dht/node.go:1499-1549 | rejected exactly for a foreign caller; otherwise the provider's entry is replaced, expired ones dropped, its time set |
| `ProviderRecords.AnnouncedIs` | dht/node.go:1516-1549 | entry by entry, what an announcement replaces, drops and keeps, for every key |
| `ProviderRecords.ProviderTable.LocalRecordGet` | dht/node.go:1715-1751 | returns the entries announced within the time to live, or nothing |
| `ProviderRecords.ProviderTable.PurgeExpiredRecords` | dht/node.go:1770-1800 | every key keeps exactly its fresh entry times and their records, and goes with the last one |
| `ProviderRecords.PurgedIs` | dht/node.go:1770-1800 | entry by entry, what a purge drops and keeps, for every key |
| `ProviderRecords.PurgeIsInvisible` | dht/node.go:1753-1801 | a purge never changes a later read |
| `ProviderRecords.ReadsAreExact` | dht/node.go:1715-1751 | after any history a read yields exactly the last announcements within the time to live, each provider once |
| `ProviderRecords.PurgesDoNotMatter` | dht/node.go:1753-1801 | leaving a purge out of a history changes no later read's providers |
| `SignedRecords.SignedTable.StoreSignedRecord` | dht/node.go:1551-1595 | stored, in conflict or rejected, exactly as the version check and the signature say; other keys untouched |
| `SignedRecords.SignedTable.LocalRecordPut` | dht/node.go:1660-1685 | a push is dropped exactly when it has a version and an unexpired record of at least that version is stored |
| `SignedRecords.SignedTable.PurgeExpiredRecords` | dht/node.go:1753-1768 | exactly the expired records go |
| `SignedRecords.WhenVersionDrops` | dht/node.go:1574-1594 | the exact condition under which a write lowers the stored version |
| `SignedRecords.HighestWins` | dht/node.go:1551-1685 | any sequence of writes before expiry leaves the highest version written |
| `SignedRecords.VersionsNeverDrop` | dht/node.go:1551-1685 | the stored version never decreases on the way |
| `SignedRecords.OrderDoesNotMatter` | dht/node.go:1551-1685 | the same records in any order, with any repetition, published or pushed, leave the same record |
| `SignedRecords.PurgeIsInvisible` | dht/node.go:1753-1768 | a purge is not seen by any sequence of later writes and the reads after them |
| `SignedRecords.ExpiryDropsVersion` | dht/node.go:1574-1594 | a write that replaces an expired record by one of a lower version |
| `Cache.FittingIs` | store/cache.go:140-148 | the evicted suffix is the shortest one that makes the rest fit |
| `Cache.NewEntryStays` | store/cache.go:101-129 | a put never evicts the new entry |
| `Cache.KeepsMostRecent` | store/cache.go:101-148 | what a put keeps is the longest run of most recent items that fits, the new one first |
| `Cache.CachedBlockStore.constructor` | store/cache.go:38-48 | an empty cache; a maximum of zero or less means 64 MiB |
| `Cache.CachedBlockStore.EvictLocked` | store/cache.go:140-154 | leaves exactly the longest recent prefix that fits, items and list in bijection, byte count exact |
| `Cache.CachedBlockStore.CachePut` | store/cache.go:101-129 | the block becomes most recent and the oldest go until the rest fits; too big a block changes nothing |
| `Cache.CachedBlockStore.Evict` | store/cache.go:131-138 | exactly that item goes |
| `Cache.CachedBlockStore.Get` | store/cache.go:50-71 | returns what the inner store holds; a hit becomes most recent, a miss is cached |
| `Cache.CachedBlockStore.Put` | store/cache.go:73-79 | writes through; cache and store still agree exactly when the block is too big to cache, new, or the same |
| `Cache.CachedBlockStore.Delete` | store/cache.go:81-84 | the block leaves the cache in any case and the inner store unless that refuses; the two still agree |
| `Cache.CachedBlockStore.Has` | store/cache.go:86-95 | true exactly when the inner store has the block |
| `Cache.CachedBlockStore.Run` | store/cache.go:50-154 | every content-addressed run, refused writes and deletions included, answers what the inner store alone would answer |
| `LocalGC.Walker.Walk` | store/gc.go:18-38 | terminates on every finite link graph; marks the block and only blocks reachable from it, and all links of what it marked |
| `LocalGC.Walker.WalkAll` | store/store.go:141-146 | marks exactly the hashes reachable from a root through present blocks |
| `LocalGC.LocalStore.GcLocal` | store/store.go:140-166 | keeps exactly the stored blocks reachable from a root, with exact counts; a failing deletion never costs a reachable block |

## Left out

- Transport, connection pools, timeouts, jitter, metrics and the event log: a call is atomic and fails exactly when its target is dead.
- Partitions and addresses that differ between nodes: a live node is reachable from everyone.
- Hashes, signatures and encodings: positions are arbitrary numbers below 2^160, records are decoded values with a validity flag.
- The prefix scans of the datastore: an index entry is a triple of ring, hash and root rather than a string key.
- 64-bit overflow of byte counters: counters are unbounded integers. Group record versions do wrap at 2^64.
- Closing and reopening a store, which writes the counters out and reads them back.
- `ForgetRing`: it does not reset the ring's counters in memory.
- Per-root usage and per-ring block counts under concurrency: `Reservation` covers aggregate bytes, aggregate block count and ring bytes.
- GC, root removal and index drops running concurrently with puts.
- Record transfer between neighbours and re-replication to new successors on list changes.
- Replication pushes dropped because the replication queue is full.
- Provider records pushed to replicas as single records: provider reads are claimed for the node that took the announcements.
- Concurrent joins mixed with failures: the ring theorems start from the states they name.
- `idLessOrEqual` on bytes, which is `Ids.Less` again.
- Sharing a DAG, deleting a DAG across the ring, vaults, configuration, the HTTP interface, FUSE and the command line.
- NodeOperations.Overlay.TryReconnect: does not ask the address refresher, because a live node has one address, known to all.
- NodeOperations.Overlay.RefreshSuccessorList: does not replicate blocks to nodes new in the list.
- NodeOperations.Overlay.EvictNode: does not replicate blocks when the list gets shorter.
- Membership.JoinKeepsSingleCopies: says nothing of joins whose lookup gives up, beyond what `Membership.StrayJoinPlaces` says of the join itself.
- Placement.PutLandsOnReplicas: says nothing of puts whose lookup gives up when there are several copies; they can still reach some replica nodes.
- Fingers.FullPassIsExact: says nothing of nodes beyond the bounds of its row, that is with 160 or more dead entries, with relays that name dead nodes while they know only part of the ring, or on rings too large to walk whose fingers are not exact yet; their repairs can write wrong fingers, exactly when `Fingers.FixOneIff` says.
- Fetch.FetchIsComplete: says nothing of runs cancelled from outside; `Fetch.UndroppedFetch` covers those that let go of no block.
- Cache.CachedBlockStore.Put: the inner store is taken to keep a block it already has, as the block stores here do.
- Routes.LookupGoesOn: follows the search in an unordered network to its first live relay only; beyond it `Routes.SearchOutcome` needs live successors that head their lists.
- Handover.JoinKeepsCover: says nothing of joins whose lookup does not find the joiner's successor.
- Reservation.ReturnedCall: says nothing of calls that met a full counter or a failed write; `Reservation.DeterredRetreats` does. What a call reports to its caller is not part of this model.
- Reservation.InterleavingsKeepAccounts: a compare-and-swap loop is modelled as load and swap steps; that it stops is left to the scheduler.
- LocalGC.Walker.Walk: each multihash has one codec, so a hash stands for one block.
