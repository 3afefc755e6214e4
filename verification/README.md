# A Dafny model of auth-kademlia-rs

The repository is a Kademlia distributed hash table for signed records. This
project models the parts that decide what the network keeps and proves what they
guarantee over every input and every run:

- **Routing table** (`XorMetric`, `Selection`, `Buckets`, `Tables`, `TableRuns`,
  `Neighbors`; objects in `KBuckets`, `RoutingTables`): k-buckets that split
  recursively, replacement lists, failure state with backoff, and the selection of
  neighbours under the XOR distance.
- **Lookups and what is decided on them** (`NodeHeaps`, `Crawls`, `LookupRuns`,
  `NodeLookups`, `ValueSearches`, `StoreChecks`, `Replicas`, `QuorumReads`,
  `Publications`, `Updates`, `UpdateChains`): iterative lookups against peers that may be silent, lie or invent
  nodes, the check of an empty replica before it stores a record, the quorum read of
  the Status List, publication and update.
- **Lossy transport** (`Wire`, `Fragments`, `Reassembly`, `Delivery`, `Messages`,
  `Resends`, `RoundTrips`): fragments in any order, resent requests with receipts,
  and the integer round-trip estimate of RFC 6298.
- **Storage budget** (`Storage`, `ForgetfulStorages`): a byte counter that is raised
  and lowered separately from the records it counts, under concurrent tasks.

What the source changes in place is a class whose methods are proved to follow a
function on values; the theorems about whole runs are proved of those functions, so
they hold of the objects. `Sums` and `Nodes` hold what several modules share.

## How the world is modelled

- An id is a natural number below 2^160, the value of its 20 bytes; the exclusive or
  is defined on binary digits.
- Time is a natural number of nanoseconds and enters as a parameter. The jitter of a
  backoff is any amount up to a quarter of it.
- A peer answers by an arbitrary function of its id (no lookup asks a peer twice), and
  the answers of a round are picked up in an order nothing is assumed about. What a
  node knows of failing peers may differ at every answer it processes.
- The record hash, the binding of a record to its key and all signature checks are
  arbitrary functions. Only `StoreChecks.NoOtherRecordBehind` assumes the hash is
  injective.
- The messages and answers of an update each get through or do not, and other tasks
  may turn a replica's records into anything before, while and after a handler works.
- The bucket size k and the lookup parallelism alpha are at least one.

## Where the code does less than one might expect

- The sender admits messages of up to 262,144 bytes, but the receiver's size test
  multiplies the number of fragments by their full length. Delivery works exactly up
  to 261,800 bytes (`Delivery.DeliverableIff`, `Delivery.OversizeIsDropped`).
- Nothing is remembered of a delivered message. A second full copy under the same
  fragment id is delivered again (`Delivery.SecondCopyDelivers`); after a delivery a
  message comes out once more exactly when the fragments since then cover all of it
  (`Delivery.YieldsAgainIff`).
- The order in which the answers of a round are processed can decide which node is
  taken, if what the node knows of failing peers changes during the round
  (`LookupRuns.OrderMatters` is an input, `LookupRuns.OrderIff` says exactly when,
  `LookupRuns.OrderFree` that it plays no part otherwise). The address kept for an id
  depends on it too: the first sighting wins (`NodeHeaps.BatchOrder` says exactly when,
  for any number of answers, `NodeHeaps.AddressFollowsOrder` gives an input).
- A node cut from the shortlist by a closer one that then fails is missing from the
  result unless it is reported again. Whatever happens, the result has every one of
  the k closest nodes heard of that answered and was not left out
  (`NodeLookups.FindLookupNodes`). `LookupRuns.MissingIff` says which nodes are missing
  after any run of rounds, `LookupRuns.ExactIff` when the result is exact, and
  `LookupRuns.CutByFailed` and `LookupRuns.UnseenWasLeftOut` what must have happened
  when it is not. It is exact whenever none of the k closest failed or nobody else is
  left (`NodeLookups.ExactUnderFailures`); for failures among the k closest, no weaker
  condition on what was heard and who failed guarantees that
  (`LookupRuns.LostInMute`). `NodeLookups.LookupLosesNode` gives an input.
- The selection of neighbours leaves out the contact whose id is the target.
- With a minimum of zero lookup contacts, a table without healthy contacts would
  offer nobody (`Neighbors.FindNeighborsNonEmpty`).
- An UPDATE is checked against the record that was read and written over whatever is
  there afterwards. `Replicas.UnreadRecordReplaced` is an input where that is a record
  which does not authorise the new one; `UpdateChains.HandlerIff` says of the handler,
  and `UpdateChains.ChainIff` of every run of handlers and of updates begun on the node
  itself, exactly when every record replaced authorises its replacement.
  `UpdateChains.SerialHistoryIsChain` says that the history of a key is a chain if no
  other write falls between a read and its write.
- A replica that acknowledged an update may be overwritten before the update returns.
  `Updates.UpdateDigest` speaks of what each member of the majority held when it
  acknowledged.

## Model

| member | source | states |
|---|---|---|
| XorMetric.XorIsBitwise | src/node.rs:48-55 | the distance is the exclusive or of the ids, binary digit by binary digit |
| XorMetric.XorSymmetric | src/node.rs:48-55 | the distance is symmetric |
| XorMetric.XorZero | src/node.rs:48-55 | the distance is zero exactly between equal ids |
| XorMetric.XorInjective | src/node.rs:48-55 | two different ids are never at the same distance from a target |
| XorMetric.SharedPrefixIsDistance | src/node.rs:48-55 | two ids agree on all but their w lowest digits exactly when their distance is below 2^w |
| XorMetric.XorBounded | src/node.rs:48-55 | the distance of two w-digit ids has w digits |
| XorMetric.KeySpaceIsPow2 | src/routing.rs:65-67 | the key space has 2^160 ids |
| XorMetric.WholeSpaceIsBlock | src/routing.rs:65-67 | the whole space is an aligned block |
| XorMetric.BlockMembers | src/routing.rs:65-67 | the ids of an aligned block are exactly those with its leading digits |
| XorMetric.AlignedIsMultiple | src/routing.rs:65-67 | alignment is divisibility by the size of the block |
| XorMetric.HalvesAreBlocks | src/routing.rs:158-166 | the midpoint cuts an aligned block of at least two ids into two aligned blocks |
| XorMetric.InsideIsCloser | src/routing.rs:158-166 | for a target in an aligned block, every id inside is closer than every id outside |
| Selection.NearestSpec | src/routing.rs:441-467 | the selection lists ids of the pool, strictly by distance, as many as k and the pool allow, and leaves out only ids farther than all of them |
| Selection.NearestUnique | src/routing.rs:441-467 | only one list satisfies that description |
| Selection.SortSelectsNearest | src/routing.rs:441-467 | sorting nodes of distinct ids by distance and truncating gives exactly that list |
| Selection.SortSorts | src/routing.rs:441-467 | the sort orders by distance |
| Selection.SelectedFromPart | src/node.rs:127-141 | an id selected from a pool is selected from every part that contains it |
| Selection.MergeNearest | src/node.rs:127-141 | truncating to k between two additions does not change the final selection |
| Buckets.AddNodeOk | src/routing.rs:115-135 | keeps the bucket invariant; says which list the node is on afterwards and that nobody else leaves the primary list |
| Buckets.AddNodeOrder | src/routing.rs:115-135 | the node goes to the end, the others keep their order, and the oldest replacements are the ones dropped |
| KBuckets.KBucket.AddNode | src/routing.rs:115-135 | the object ends in the state the function describes and returns its verdict |
| KBuckets.KBucket.TrimWaiting | src/routing.rs:115-135 | the loop keeps exactly the latest 5k replacements |
| KBuckets.KBucket.constructor | src/routing.rs:89-98 | an empty bucket over the given block |
| Buckets.RemoveNodeOk | src/routing.rs:141-149 | keeps the bucket invariant; the latest replacement takes the freed place, otherwise the list shrinks by one |
| Buckets.RemoveNodeRemoves | src/routing.rs:141-149 | the id is on neither list afterwards |
| Buckets.RemoveNodeOrder | src/routing.rs:141-149 | the other contacts keep their order and the promoted one comes last |
| KBuckets.KBucket.RemoveNode | src/routing.rs:141-149 | the object ends in the state the function describes |
| Buckets.SplitOk | src/routing.rs:158-176 | both halves are good buckets, hold together exactly the contacts of the whole, and no primary contact is demoted |
| Buckets.SplitHalves | src/routing.rs:158-176 | each half holds exactly the contacts of its side of the midpoint |
| Buckets.FillStep | src/routing.rs:158-176 | adding distinct contacts one by one fills the primary list first and then the replacements |
| KBuckets.KBucket.Split | src/routing.rs:158-176 | the loop over both lists builds the two halves the function describes |
| KBuckets.KBucket.SplitAt | src/routing.rs:158-176 | the same for any cut inside the block |
| Buckets.DepthIsLongestPrefix | src/routing.rs:180-202 | the depth is the length of the longest prefix all primary contacts share |
| Buckets.ShareOneMore | src/routing.rs:180-202 | one more digit is shared exactly when all agree with the first contact on it |
| KBuckets.KBucket.Depth | src/routing.rs:180-202 | the nested loops over digits and contacts compute that depth |
| KBuckets.KBucket.AgreeAt | src/routing.rs:180-202 | the inner loop decides whether all contacts agree on a digit |
| Tables.IndexForUnique | src/routing.rs:482-487 | every id is covered by exactly one bucket, the one the search finds |
| RoutingTables.RoutingTable.BucketIndexFor | src/routing.rs:482-487 | the search returns that index |
| Tables.NewTableOk | src/routing.rs:249-258 | a new table satisfies the table invariant |
| RoutingTables.RoutingTable.constructor | src/routing.rs:249-258 | a new object is that table |
| Tables.RemoveContactOk | src/routing.rs:309-313 | keeps the table invariant |
| RoutingTables.RoutingTable.RemoveContact | src/routing.rs:309-313 | the object ends in the state the function describes |
| Tables.ReplaceStaleOk | src/routing.rs:294-307 | keeps the invariant; afterwards the bucket has room, or holds the node, or has no stale contact |
| Tables.StaleRemoval | src/routing.rs:294-307 | removing a stale contact frees a place, because no replacement was waiting |
| RoutingTables.RoutingTable.ReplaceStaleIfFull | src/routing.rs:294-307 | the object ends in the state the function describes |
| Tables.SplitBucketOk | src/routing.rs:475-480 | splitting a bucket keeps the table invariant |
| Tables.HalvesFit | src/routing.rs:475-480 | a contact that becomes primary by a split has no failure state, so no half has both a stale contact and a waiting one |
| RoutingTables.RoutingTable.SplitBucket | src/routing.rs:475-480 | the object ends in the state the function describes, with two new buckets |
| Tables.OfferOk | src/routing.rs:276-291 | after the offer the invariant holds; the node is primary, or waits in a full bucket of at least two ids |
| Tables.RefusalSpans | src/routing.rs:276-291 | a bucket that refuses a node spans at least two ids |
| Tables.SplitShrinks | src/routing.rs:276-291 | a split strictly shrinks the block around the node: the recursion terminates |
| Tables.InsertOk | src/routing.rs:276-291 | insertion terminates, keeps the invariant, and returns no contact exactly when the node is primary afterwards |
| RoutingTables.RoutingTable.Insert | src/routing.rs:276-291 | the recursive method computes that table and that contact |
| RoutingTables.RoutingTable.SplitRule | src/routing.rs:276-291 | a full bucket splits if it covers the local id or its depth is no multiple of five |
| TableRuns.InsertKeepsPrimary | src/routing.rs:276-291 | with all its splits, an insertion takes the place of no primary contact that is not stale |
| TableRuns.SplitKeepsPrimary | src/routing.rs:276-291 | a split leaves every primary contact primary |
| TableRuns.InsertHealth | src/routing.rs:276-291 | an insertion never adds or changes failure state |
| TableRuns.ResponderReplacesStale | src/routing.rs:269-307 | a new node that meets a full bucket with a stale contact becomes primary at once and that contact is gone |
| TableRuns.OfferKeepsPrimary | src/routing.rs:269-307 | making room and adding demotes no contact that is not stale |
| RoutingTables.RoutingTable.AddContact | src/routing.rs:269-274 | the object keeps its invariant and ends in the state the function describes; the local node is never added |
| TableRuns.Backoff | src/routing.rs:38-45 | the delay is between the base delay and a quarter more, and from 5 to 375 seconds |
| TableRuns.FourBackoffs | src/routing.rs:38-45 | four delays take at least 75 seconds |
| TableRuns.RecordFailureOk | src/routing.rs:322-350 | keeps the table invariant |
| TableRuns.FailureKeepsCounts | src/routing.rs:322-350 | changes the number of primary contacts of no bucket |
| TableRuns.FailureKeepsTimes | src/routing.rs:322-350 | keeps the bound between the number of counted failures and the time they took |
| TableRuns.StaleTakes75Seconds | src/routing.rs:322-350 | a stale contact has been failing for at least 75 seconds |
| TableRuns.StaleAfterRun | src/routing.rs:322-350 | in every run with a clock that does not go back, a stale contact was reported failing at least 75 seconds ago and has neither responded nor been removed since |
| TableRuns.RunFailures | src/routing.rs:322-350 | in every run, the first failure on record is a reported failure since which the contact neither responded nor was removed |
| RoutingTables.RoutingTable.CountFailure | src/routing.rs:322-350 | a failure inside the backoff of the last one is not counted |
| RoutingTables.RoutingTable.RecordFailureAt | src/routing.rs:322-350 | the object keeps its invariant and ends in the state the function describes |
| TableRuns.RecordSuccessOk | src/routing.rs:354-358 | keeps the table invariant |
| RoutingTables.RoutingTable.RecordSuccess | src/routing.rs:354-358 | forgets the failures of the contact and reports since when it had been failing |
| TableRuns.ReachableTable | src/routing.rs:248-358 | after any sequence of operations: aligned buckets in order covering all 2^160 ids, every contact in its block, every id once in the whole table, never the local id, the size limits, replacements only behind a full list without stale contacts, failure state only for primary contacts |
| TableRuns.OneBucketPerId | src/routing.rs:248-358 | no id is in two buckets |
| TableRuns.RunOk | src/routing.rs:248-358 | every run keeps the table invariant and the identity of the table |
| Neighbors.ClosestIsNearest | src/routing.rs:441-467 | the contacts selected are exactly the k closest eligible primary contacts of the whole table |
| Neighbors.FindNeighborsIsNearest | src/routing.rs:423-435 | the neighbours are exactly the k closest of the tier that applies, closest first |
| Neighbors.FindNeighborsNonEmpty | src/routing.rs:423-435 | nobody is found exactly when only the target and the excluded node are known or, with a minimum of zero, nobody healthy is |
| Neighbors.OwnBucketIsCloser | src/routing.rs:423-435 | every id of the target's bucket is closer than every id of another bucket |
| Neighbors.OwnBucketFirst | src/routing.rs:423-435 | a contact of another bucket is listed only after every usable contact of the target's bucket |
| NodeHeaps.PushedIsNearest | src/node.rs:127-141 | the shortlist after a batch is exactly the k nearest of what was there and what the batch brings |
| NodeHeaps.PushedAllIsNearest | src/node.rs:127-141 | any number of batches leave exactly the k nearest of all ids sighted |
| NodeHeaps.FirstSightings | src/node.rs:127-141 | each node kept is the first sighting of its id over all batches |
| NodeHeaps.BatchOrder | src/node.rs:127-141 | any number of batches in any two orders leave the same ids, and the same nodes exactly when every selected id was first sighted under the same address in both orders |
| NodeHeaps.AddressFollowsOrder | src/node.rs:127-141 | an input where the order of two batches decides which address is kept |
| NodeHeaps.NodeHeap.Push | src/node.rs:127-141 | the loop, sort and truncation leave that shortlist |
| NodeHeaps.NodeHeap.Remove | src/node.rs:148-154 | exactly the given ids leave, the order stays |
| NodeHeaps.NodeHeap.MarkContacted | src/node.rs:198-207 | the id joins the contacted ones |
| NodeHeaps.NodeHeap.ContactedAllIds | src/node.rs:179-181 | the test holds exactly when every id of the shortlist was contacted |
| Crawls.RoundOrderIrrelevant | src/crawling.rs:166-174 | merging the reports of a round in any order, cut to k after each, leaves the same ids |
| Crawls.SpiderCrawl.MergeReport | src/crawling.rs:166-174 | the shortlist becomes the nearest of itself and the report without failed and known-failing ids |
| Crawls.SpiderCrawl.AddReported | src/crawling.rs:166-174 | keeps the lookup invariant; the peer is accounted for as having answered |
| Crawls.ReportKeepsShortlist | src/crawling.rs:166-174 | the shortlist stays within what was heard, free of failed ids, and keeps every one of the k nearest of all ids heard that neither failed nor was left out |
| Crawls.NobodyMissing | src/crawling.rs:166-174 | with nobody failed or left out, it is exactly the k nearest of all ids heard |
| Crawls.SpiderCrawl.constructor | src/crawling.rs:141-161 | the lookup starts from the nearest of the peers given |
| Crawls.SpiderCrawl.RemoveFailed | src/crawling.rs:178-181 | silent peers leave the shortlist and are on record as failed for the rest of the lookup |
| Crawls.SpiderCrawl.NextPeers | src/crawling.rs:233-258 | the peers chosen are the closest not asked before, each asked once, at least one while any is left; with the flag set, all of them |
| NodeLookups.ProcessRound | src/crawling.rs:566-590 | whatever the order of the answers and whatever changes meanwhile, after a round the shortlist is that function of the peers asked and the moments their answers were processed; every peer is processed during the round |
| LookupRuns.OrderIff | src/crawling.rs:566-590 | the order of the answers of a round plays no part if and only if every id selected under the one order was on the shortlist or usable under the other |
| LookupRuns.OrderFree | src/crawling.rs:566-590 | it plays no part in a round during which what the node knows of failing peers does not change |
| LookupRuns.OrderMatters | src/crawling.rs:566-590 | an input: a node known to fail until the first answer is processed is taken or not, depending on the order |
| NodeLookups.ExactUnderFailures | src/crawling.rs:566-590 | the result is exactly the k closest nodes that did not fail whenever none of the k closest failed, or nobody else is left |
| LookupRuns.ExactIff | src/crawling.rs:566-590 | after every run of rounds, the shortlist is exactly the k closest of the nodes that did not fail if and only if each of those has been selected from and none was cut when it was last sighted |
| LookupRuns.MissingIff | src/crawling.rs:566-590 | a node that did not fail is missing exactly when it was never selected from or was cut when it was last sighted, over every run of rounds |
| LookupRuns.CutByFailed | src/crawling.rs:566-590 | one of the k closest nodes that did not fail can only have been cut by a closer one that failed |
| LookupRuns.UnseenWasLeftOut | src/crawling.rs:566-590 | one that was never selected from was reported only when this node knew that it was not responding |
| LookupRuns.HeardBySame | src/crawling.rs:566-590 | what a lookup heard is what the peers it asked report, in terms of the set of them |
| LookupRuns.LostInMute | src/crawling.rs:566-590 | for failures among the k closest, no weaker condition on what was heard and who failed guarantees an exact result: there is a network in which every lookup is exact only under it |
| LookupRuns.DropFromNearest | src/crawling.rs:566-590 | dropping failed ids leaves the k nearest of the others exactly under that condition |
| NodeLookups.LookupLosesNode | src/crawling.rs:566-590 | an input: a lookup from two peers with room for one, the closer silent, returns nobody although the other did not fail |
| LookupRuns.CutNodeIsLost | src/crawling.rs:566-590 | the same for every schedule of that lookup |
| NodeLookups.CollectAnswers | src/crawling.rs:566-590 | the loop over the answers, in any order, collects exactly the silent peers |
| Crawls.HeardSame | src/crawling.rs:566-590 | what a lookup hears depends on which peers answered, not on the order |
| Crawls.SpiderCrawl.ClosedWhenAllAsked | src/crawling.rs:566-590 | whoever failed, a lookup that has asked its whole shortlist has asked all of the k closest nodes it was told of, but for those it left out as known not to respond |
| NodeLookups.AskRound | src/crawling.rs:566-590 | each round asks somebody new or everybody has been asked |
| NodeLookups.FindLookupNodes | src/crawling.rs:566-590 | against any peers the lookup ends, asks each at most once and only nodes it started with or was told of, returns only peers that answered, counts those that did not, and returns every one of the k closest nodes it was told of that answered and was not left out; it always goes through a run of rounds that LookupRuns describes |
| ValueSearches.HandleAnswer | src/crawling.rs:413-491 | one answer: an approved value ends the search, any other is discarded, nodes are merged, silence is noted |
| ValueSearches.AwaitAnswers | src/crawling.rs:413-491 | one round, answers in any order, the deadline looked at before each |
| ValueSearches.AwaitRound | src/crawling.rs:413-491 | silent peers of the round are on record as failed |
| ValueSearches.SearchRound | src/crawling.rs:413-491 | a round asks somebody new and keeps what the search knows |
| ValueSearches.Search | src/crawling.rs:413-491 | the search ends against any peers; nothing found means every peer asked answered without an approved value, that nobody closer was left to ask but nodes known not to respond and, when it asks everyone, that every peer it started with was asked; incomplete means silence or a passed deadline |
| StoreChecks.AmongClosestMeaning | src/protocol/store_check.rs:156-209 | the test holds exactly when the node is one of the k nearest among itself and the neighbours found |
| StoreChecks.HealthyFit | src/protocol/store_check.rs:156-209 | all healthy neighbours fit on the shortlist the check starts from |
| StoreChecks.StartCheck | src/protocol/store_check.rs:156-209 | the check starts with exactly the healthy neighbours on its shortlist |
| StoreChecks.CheckNetwork | src/protocol/store_check.rs:156-209 | a passed check means: healthy neighbours exist, every peer asked answered with no record or the same hash, nobody closer was left to ask but nodes known not to respond and, for a replica among the closest, every healthy neighbour was asked |
| StoreChecks.NoOtherRecordBehind | src/protocol/handlers.rs:216-261 | after a passed check, an honest peer that was asked and holds a record bound to the key holds this very record |
| Replicas.Replica.RpcStore | src/protocol/store_check.rs:64-141 | an acknowledgement means the replica holds exactly these bytes; an empty replica stores only a bound, verified record after a passed check; nothing but an absent key is ever written; every refusal has its reason |
| Replicas.Replica.InsertIfAbsent | src/storage.rs:193-217 | the statuses of the store, as the handlers see them on live records |
| Replicas.Replica.Set | src/storage.rs:175-191 | refused exactly when the bytes are not held already and do not fit; the contents change only when they are stored |
| Replicas.Replica.RpcUpdate | src/protocol/handlers.rs:111-159 | accepted exactly when the record read is this one, or authorises it and it fits; an acknowledgement means the replica holds exactly these bytes; the write replaces whatever the records have become |
| Replicas.UnreadRecordReplaced | src/protocol/handlers.rs:111-159 | an input: an update authorised by the record read, [1], replaces [2], which was written meanwhile and does not authorise it |
| UpdateChains.HandlerIsReadThenWrite | src/protocol/handlers.rs:111-159 | the handler is a read step and a write step with other tasks in between |
| UpdateChains.WritesAuthorised | src/protocol/handlers.rs:111-159 | in every interleaving of handled updates, updates begun here, stores and expiry, a write is authorised by the record that was read for it, or is that record |
| UpdateChains.SerialHistoryIsChain | src/protocol/handlers.rs:111-159 | in every run in which no other write falls between a read and its write, the history of the key is a chain of authorisations |
| UpdateChains.ChainIff | src/protocol/handlers.rs:111-159 | for every run: every record replaced authorises its replacement, whatever the signature scheme under which these steps lead to these writes, if and only if every update replaced nothing, its own bytes, or what it or an equal update had read |
| UpdateChains.WeakestRun | src/protocol/handlers.rs:111-159 | under the weakest scheme that authorises the writes of a run, the same steps lead to the same records and writes |
| UpdateChains.HandlerIff | src/protocol/handlers.rs:111-159 | for the handler: whatever the signature scheme, an update it accepts replaces a record that authorises it if and only if the record at the write is gone, the one read, or the new one already |
| Replicas.Replica.RpcUpdateStatusList | src/protocol/handlers.rs:163-199 | accepted exactly for a held Status List and bytes signed by the issuer that fit; an acknowledgement means the replica holds them |
| QuorumReads.StrictQuorumValue | src/crawling.rs:273-294 | returns a value exactly when some value has a strict quorum, and then that value |
| QuorumReads.OneQuorum | src/crawling.rs:273-294 | at most one value has a strict quorum |
| QuorumReads.CountValues | src/crawling.rs:273-294 | counts every value |
| QuorumReads.HighestCount | src/crawling.rs:273-294 | finds the highest count |
| QuorumReads.FindQuorum | src/crawling.rs:498-545 | at most the maximum of votes, each remote one from a different peer, every value heard counted; the result is the value with a strict quorum of them, if any; giving up early means that nobody closer was left to ask but nodes known not to respond |
| QuorumReads.CollectRound | src/crawling.rs:498-545 | the answers of a round, in any order, add exactly their values |
| QuorumReads.VoteRound | src/crawling.rs:498-545 | a round adds no more votes than are left and asks somebody new |
| QuorumReads.ElectionIsFinal | src/network/read.rs:71-74 | with the quorum of a Status List read, a value once elected stays the only one elected by every continuation up to the maximum |
| Publications.SelectResponsibleNodes | src/network/publish.rs:82-96 | the responsible nodes are exactly the k closest of the nodes found and the local node, the local one reported apart |
| Publications.DedupIds | src/network/publish.rs:82-96 | dropping neighbours of equal id from a list sorted by distance drops every duplicate |
| Publications.EqualIdsAdjacent | src/network/publish.rs:82-96 | equal ids stand together, because the distance is injective |
| Publications.RecordAllCounts | src/network/publish.rs:34-43 | every answer is counted once, in its own column |
| Publications.CompleteMeansAll | src/network/publish.rs:98-131 | complete exactly when there are responsible nodes, all acknowledged, and the node is not cut off |
| Publications.DegradedMeansSome | src/network/publish.rs:98-131 | degraded exactly when somebody acknowledged, nobody found fault, and it is not complete |
| Publications.ConflictRejects | src/network/publish.rs:98-131 | one conflicting or invalid answer rejects |
| Publications.SetDigestDetailed | src/network/publish.rs:277-319 | complete exactly when the local node, if responsible, holds the record, every other responsible node acknowledged, and the node is not cut off; local records change at most by this one |
| Updates.UpdateReplica | src/network/update.rs:86-116 | a counted acknowledgement means the replica holds exactly the new bytes; a replica that accepts and is heard is counted |
| Updates.UpdateStatusReplica | src/network/update.rs:86-116 | the same for the Status List, with no STORE to fall back on |
| Updates.VisitReplica | src/network/update.rs:86-116 | other tasks may change the records before, during and after; a replica that acknowledges held exactly the new bytes when it did, in the content just before the last change by others |
| Updates.UpdateAll | src/network/update.rs:86-116 | one result per replica, in order; each true result is a replica that held the new bytes when it acknowledged |
| Updates.Tally | src/network/update.rs:121-137 | the quorum test is exactly a strict majority of the consistency group |
| Updates.CollectVotes | src/network/update.rs:121-137 | every member of the group that accepts and is heard is counted, and each one counted held the new bytes when it acknowledged |
| UpdateChains.UpdateIsPublishThenWrite | src/network/update.rs:22-57 | an update begun here goes ahead exactly if the record read, this node's own or else one found, is the new one or authorises it; its commit is the same write step, over what the records have become, refused exactly for want of room |
| Updates.PrimaryOf | src/network/update.rs:81-158 | the first of the nodes selected are exactly those nearest to the key among the responsible other than this one |
| Updates.UpdateResponsible | src/network/update.rs:81-158 | from the nodes found by the lookup: the group is this node, if responsible, and exactly the nearest of the other responsible nodes, alpha in all; success exactly with a strict majority of it and room for a local commit |
| Updates.UpdateDigest | src/network/update.rs:86-158 | success exactly when a strict majority of the group acknowledged, each member holding exactly the new bytes at that moment, and the local store, if it belongs to the group, has room; then the local node holds them; without success the update leaves the local records alone |
| Updates.TwoUpdates | src/network/update.rs:86-158 | two successful updates over one group share an acknowledging member |
| Fragments.EncodeFragments | src/fragmentation.rs:91-115 | the loop produces the datagrams of the message in order |
| Fragments.JoinedAll | src/fragmentation.rs:91-115 | the chunks put together are the payload |
| Fragments.EncodeFrame | src/protocol/transport.rs:124-155 | a message over 262,144 bytes is refused, any other is cut into its fragments |
| Fragments.ParseFragment | src/fragmentation.rs:127-149 | what is read back is well formed: index below total, a chunk within its size |
| Fragments.ParseDatagram | src/fragmentation.rs:127-149 | reading back a datagram gives its fields |
| Fragments.DeliveredLimit | src/protocol/transport.rs:306-327 | the projected-size test of the receiver admits a message exactly up to 261,800 bytes |
| Delivery.OversizeIsDropped | src/protocol/transport.rs:306-327 | a longer message that the sender admits: each of its fragments is dropped |
| Delivery.SingleFragment | src/protocol/transport.rs:306-327 | a message of one fragment is delivered by its datagram |
| Delivery.DeliverableIff | src/protocol/transport.rs:306-327 | a message the sender admits reaches a receiver exactly when it has at most 261,800 bytes |
| Reassembly.ReceiveOk | src/protocol/transport.rs:306-327 | whatever datagram arrives, the buffers keep their bounds |
| Reassembly.Buffers.HandleDatagram | src/protocol/transport.rs:306-327 | the object sweeps at most buffers that are too old and then ends in the state the function describes |
| Delivery.DeliveredWhenComplete | src/fragmentation.rs:157-240 | in any order, with duplicates, resent copies and other traffic, the payload comes out byte for byte when its last missing fragment arrives, not before, and its buffer is gone |
| Delivery.YieldsAgainIff | src/fragmentation.rs:157-240 | after a delivery, a later event yields the message again exactly when the fragments since then cover all of it |
| Delivery.SecondCopyDelivers | src/fragmentation.rs:157-240 | two copies of a message under one fragment id: it is delivered twice |
| Delivery.CopyDelivers | src/fragmentation.rs:157-240 | a copy that meets room for it is delivered with its last fragment and leaves the buffers as they were |
| Delivery.NeverOtherBytes | src/fragmentation.rs:157-240 | under every order, eviction and limit, a key yields its payload or nothing |
| Delivery.CollectsArrived | src/fragmentation.rs:157-240 | while chunks are missing, the buffer holds exactly those that arrived |
| Reassembly.AcceptOk | src/fragmentation.rs:157-240 | keeps the bounds, and a message declared complete is always assembled |
| Reassembly.StreamBounds | src/fragmentation.rs:157-240 | over every stream of datagrams and evictions: at most 64 entries, 8 per peer, less than 16 MiB |
| Reassembly.HeldBytesBounded | src/fragmentation.rs:157-240 | such buffers hold less than 16 MiB of payload |
| Reassembly.Buffers.AcceptFragment | src/fragmentation.rs:157-240 | the object ends in the state the function describes, and each buffer keeps the time it was begun |
| Reassembly.InsertOk | src/fragmentation.rs:66-84 | the count equals the filled slots, and it is complete exactly when the message can be assembled |
| Reassembly.FullAssembles | src/fragmentation.rs:66-84 | a message can be assembled exactly when all slots are filled |
| Reassembly.Buffers.Assemble | src/fragmentation.rs:66-84 | the loop concatenates the chunks, or fails at an empty slot |
| Reassembly.Buffers.Collect | src/protocol/transport.rs:109-121 | at most once a second, exactly the buffers begun ten seconds ago or earlier are removed; the bounds are kept |
| Messages.ReceiptsCoincide | src/protocol/messages.rs:158-209 | a receipt is expected exactly for the requests that carry a record, it is never an answer, and no answer is itself a request |
| Resends.EveryRunOk | src/protocol/transport.rs:197-288 | in every interleaving of answers, receipts and timers: at most three copies, at least 20 ms apart, none at or after the deadline, at most one sample, taken while one copy was out |
| Resends.StepOk | src/protocol/transport.rs:197-288 | each turn of the loop keeps that |
| Resends.CopiesSpread | src/protocol/transport.rs:197-288 | without receipts the waits between copies double |
| Resends.OneSampleIff | src/protocol/transport.rs:197-288 | what if: a call adds at most one sample in every run exactly if it does not both get receipts and measure its answer; no request begins such a call |
| Resends.ResendLoop.OnAnswer | src/protocol/transport.rs:197-288 | the answer ends the call, and is measured only if nothing was resent and no record was carried |
| Resends.ResendLoop.OnReceipt | src/protocol/transport.rs:197-288 | the first receipt is measured unless a copy was resent, and every receipt moves the timer |
| Resends.ResendLoop.OnTimer | src/protocol/transport.rs:197-288 | the timer resends, gives up resending, or ends the call at the deadline |
| Resends.RunCall | src/protocol/transport.rs:197-288 | the loop over any events follows the step function |
| RoundTrips.EstimateIsClose | src/retransmit.rs:74-100 | for every sequence of samples the truncated estimate stays within 14 ns of the exact smoothed value and 20 ns of the exact variation |
| RoundTrips.EstimateInRange | src/retransmit.rs:74-100 | samples within [m, M] keep the smoothed value within [m - 14, M] |
| RoundTrips.RoundTripTable.Record | src/retransmit.rs:74-100 | the estimate moves by the filter; a full table forgets only peers not heard from for ten minutes, or leaves the new peer out |
| RoundTrips.WaitFor | src/retransmit.rs:57-66 | every wait is between 20 ms and 1 s |
| RoundTrips.WaitIsClose | src/retransmit.rs:57-66 | truncation moves the wait by less than a tenth of a microsecond |
| RoundTrips.RoundTripTable.ResendAfter | src/retransmit.rs:57-66 | every wait of the table is between 20 ms and 1 s |
| Storage.EveryRunOk | src/storage.rs:95-217 | under every interleaving of set, insert_if_absent, prune_expired and time: the counter is the bytes stored plus reservations not yet inserted plus bytes not yet released, and never exceeds the budget |
| Storage.StepOk | src/storage.rs:95-217 | each atomic step keeps that |
| Storage.StepExclusive | src/storage.rs:95-217 | no two tasks hold one key |
| Storage.StatusMeaning | src/storage.rs:95-217 | a write that ends as stored or already stored leaves exactly its bytes; any other ending changed no value |
| Storage.NoUnderflow | src/storage.rs:109-117 | what a task has still to release is always covered by the counter |
| Storage.LiveRecordsChange | src/storage.rs:193-217 | a live record gets another value only by a set, and only expiry removes one |
| ForgetfulStorages.ForgetfulStorage.InsertIfAbsent | src/storage.rs:193-217 | run by itself, the method has the outcome of its steps and keeps the counter exact |
| ForgetfulStorages.FinishIsWritten | src/storage.rs:175-191 | the steps of one write, run without interruption, have the stated outcome |
| ForgetfulStorages.ForgetfulStorage.Set | src/storage.rs:175-191 | run by itself, the method has the outcome of its steps and keeps the counter exact |
| ForgetfulStorages.ForgetfulStorage.ReplaceValue | src/storage.rs:119-141 | the outcome of replacing a value |
| ForgetfulStorages.ForgetfulStorage.ReserveBytes | src/storage.rs:95-107 | succeeds exactly when the budget allows, and then raises the counter |
| ForgetfulStorages.ForgetfulStorage.PruneExpired | src/storage.rs:154-171 | exactly the expired records go, their number is returned, and the counter is exact again |

## Left out

- Cryptography, JSON, base64, UUIDs and key files: the checks are arbitrary functions.
- Frame serialization: payloads are bytes; undecodable payloads, ids and frames are not modelled.
- UDP sockets, tasks, channels and locks: only the steps and interleavings they allow.
- Matching of answers to pending calls by message id and sender, and suppression of duplicate requests in progress: the resend loop starts from the answers and receipts that belong to it.
- The limit on STOREs waiting for a lookup at once: a dropped STORE is a message that did not arrive.
- Last-use times and refresh of lonely buckets, probing of failing contacts, the count of live contacts, the contact lookup by id.
- The plain value lookup that caches what it finds, and noting silent peers of a search in the routing table.
- The state checks and the discovery lookup before a publication: `Publications.SetDigestDetailed` and `Updates.UpdateResponsible` start from the lookup result.
- The welcome messages to new nodes, maintenance, republication, counters, saved state, logging, the signature cache and the language bindings: they add calls to the parts above or have no effect on decisions.
- Crawls.SpiderCrawl: a peer is asked by its id; which address the question goes to is stated of the shortlist only (the first one sighted).
- Reassembly.Buffers.AcceptFragment: an entry is a value that is put back, not an object changed behind a lock; the theorems about streams allow any removal of buffers, of which the sweep of old ones is a case.
- Replicas.Replica.InsertIfAbsent: works on live records only; expiry and the byte budget of the store are in `Storage`, here the budget is whether the bytes fit.
- Replicas.Replica.Set: the same.
- UpdateChains.ChainIff: the runs are of one key that is not the Status List, on one replica; a read of a record that fails verification begins no task.
- Storage.Step: the steps are functions on a state; the memory order of the atomic counter and the sharding of the map are not modelled, and a 64-bit counter cannot overflow below the budget.
- Storage.StatusMeaning: reading an expired record is not modelled beyond insert_if_absent, which treats it as absent.
- TableRuns.Counted: the failure counter is unbounded; the source's 32-bit counter would need centuries of counted failures to wrap.
- RoundTrips.RoundTripTable.Record: durations are whole nanoseconds without an upper limit.
