# Constell edge-partitioning ingress, modelled in Dafny

This project models the streaming edge partitioner of GraphLab's
`distributed_constell_ingress`. It covers what one machine of the cluster does when edges
and vertices are loaded, and then what happens during `finalize`:

* **Ingest routing** (`add_edge`, `add_vertex`). Each edge goes to the hash owner of its
  source and to the hash owner of its target. When the two owners differ, each copy gets a
  flag (1 for the source-side copy, 2 for the target-side copy). Each vertex payload goes
  to its hash owner.
* **Degree exchange.** A machine counts the degree of every endpoint in the edges it
  received. For each flagged copy it sends, unrequested, the degree of the endpoint it owns to
  the owner of the other endpoint. Received degrees overwrite its local counts. The model proves that the
  degree a machine then holds for each endpoint of each received edge is the vertex's
  global degree in the submitted graph.
* **De-duplication and regrouping.** After the degree exchange, exactly one copy of every
  submitted edge survives the flag filter across the cluster (`Degrees.ExchangeKeepsEachEdgeOnce`). The survivors are regrouped into one contiguous bucket per source vertex,
  as a permutation of the kept edges.
* **Greedy assignment** (`edge_to_proc_degree`, `sync_assign`). Every kept edge is assigned
  to a machine. The chosen machine scores best on replica presence plus load balance; ties
  among the top scores are broken by `hash_edge` of the ordered endpoint pair. The mirror
  hash table (`mht`) records which machines hold a replica of each vertex. Mirror
  announcements go to every other machine and are drained every `interval` edges and once
  at the end.
* **Master election.** For each vertex in `mht`, the master is one of its replicas, picked
  by `hash_vertex` among the ascending candidate list.
* **Local graph construction.** Each machine gives local ids (lvids) to vertices new to it,
  consecutively from `lvid_start`, and marks known vertices as updated. It stores vertex
  payloads, and names each new vertex's owner in its record. It sends a handshake to the
  vertex's master. The master records the mirror, or numbers a never-seen "flying" vertex.
  Finally the buffer of new ids is merged into `vid2lvid`.
* **`finalize_apply`**, which writes the gathered metadata into a vertex record.

Source file: `src/graphlab/graph/ingress/distributed_constell_ingress.hpp`.

Where the code is loop-based, the model is too: the ingress object (`Ingress.ConstellIngress`)
and the local-graph state (`Builder.LocalGraphBuilder`) are classes whose methods update
their fields. Each method is proved against a value-level specification function
(`Assign.AssignAll`, `LocalIds.ResolveAll`, `Partition.ReceiveAll`, …). The properties the
code relies on are lemmas about those functions.

Message passing is modelled as outboxes. A send appends `Send(dest, record)` to a sequence,
and `Degrees.Inbox` is what one machine receives. The cluster-wide lemmas in `Degrees` take
the sequence of all submitted edges and quantify over all machines.

**Which copy survives de-duplication.** The filter (line 523) keeps the copy whose flag
equals `(deg(source) >= deg(target)) + 1`. The source-side copy survives only when
`deg(source) < deg(target)`; otherwise, ties included, the target-side copy survives
(`Degrees.Passes`, `Degrees.PassesByFlag`).

## Model

| member | source | states |
|---|---|---|
| Routing.Owner | src/graphlab/graph/ingress/distributed_constell_ingress.hpp:176-181 | the first-pass owner is a valid machine, and machine 0 in standalone mode |
| Routing.RouteEdgeRecords | src/graphlab/graph/ingress/distributed_constell_ingress.hpp:183-193 | every routed copy carries the edge's endpoints and data; flag 0 goes to the common owner, flag 1 to the source owner, flag 2 to the target owner, and copies are flagged only when the owners differ |
| Routing.RouteEdgeCopies | src/graphlab/graph/ingress/distributed_constell_ingress.hpp:183-193 | one unflagged copy when the owners coincide, two otherwise; each owner gets a copy and no machine gets two |
| Routing.StandaloneRouting | src/graphlab/graph/ingress/distributed_constell_ingress.hpp:176-186 | with one machine every edge is a single unflagged record to machine 0 |
| Ingress.ConstellIngress.constructor | src/graphlab/graph/ingress/distributed_constell_ingress.hpp:156-165 | empty outboxes and table; `standalone` holds exactly when there is one machine |
| Ingress.ConstellIngress.AddEdge | src/graphlab/graph/ingress/distributed_constell_ingress.hpp:170-194 | the edge outbox grows by exactly the routed copies of the edge, addressed to the hash owners; nothing else changes |
| Ingress.ConstellIngress.AddVertex | src/graphlab/graph/ingress/distributed_constell_ingress.hpp:197-204 | the vertex outbox grows by one payload record addressed to the vertex's owner; nothing else changes |
| Ingress.ConstellIngress.BroadcastMirror | src/graphlab/graph/ingress/distributed_constell_ingress.hpp:282-290 | the local bit is set and one announcement is queued for every other machine |
| Ingress.ConstellIngress.DrainMirrors | src/graphlab/graph/ingress/distributed_constell_ingress.hpp:333-345 | the table becomes the old table with every received announcement's bit set (entries created as needed); outboxes unchanged |
| Ingress.ConstellIngress.MarkReplica | src/graphlab/graph/ingress/distributed_constell_ingress.hpp:281-303 | the replica bit is set, and announcements are queued only when the bit was not already set |
| Ingress.ConstellIngress.AssignOne | src/graphlab/graph/ingress/distributed_constell_ingress.hpp:270-305 | one edge: the chooser sees the table before the edge, the edge is sent to the chosen machine, both endpoints record it as a replica, its load grows by one, and the announcements are exactly those for newly set bits |
| Ingress.ConstellIngress.AssignStep | src/graphlab/graph/ingress/distributed_constell_ingress.hpp:270-349 | one loop iteration, including the drain on every `interval`-th edge, equals `Assign.Step` |
| Ingress.ConstellIngress.AssignLoop | src/graphlab/graph/ingress/distributed_constell_ingress.hpp:270-349 | the edge loop equals `Assign.AssignAll` over the whole buffer |
| Ingress.ConstellIngress.SyncAssign | src/graphlab/graph/ingress/distributed_constell_ingress.hpp:260-376 | greedy assignment plus the final drain equals `Assign.SyncAssignResult`, and the table stays well formed so the election can run |
| Mirrors.Touch | src/graphlab/graph/ingress/distributed_constell_ingress.hpp:271-274 | the vertex gets an entry that is empty if it was absent; other entries are unchanged |
| Mirrors.SetBit | src/graphlab/graph/ingress/distributed_constell_ingress.hpp:339-341 | exactly the one bit is added to the vertex's entry; other entries are unchanged |
| Mirrors.ApplyNoticesExact | src/graphlab/graph/ingress/distributed_constell_ingress.hpp:333-345 | after a drain a vertex has an entry iff it had one or was announced, and bit p is set iff it was set or (v, p) was announced |
| Mirrors.ApplyNoticesWellFormed | src/graphlab/graph/ingress/distributed_constell_ingress.hpp:333-345 | draining announcements of valid machines keeps every entry non-empty and within the cluster |
| Mirrors.NoticesReachOthers | src/graphlab/graph/ingress/distributed_constell_ingress.hpp:283-289 | an announcement goes to every machine except this one, exactly once each |
| Mirrors.NoticesAscending | src/graphlab/graph/ingress/distributed_constell_ingress.hpp:283-289 | announcements are queued in ascending machine order |
| Mirrors.Candidates | src/graphlab/graph/ingress/distributed_constell_ingress.hpp:554-558 | the candidates are exactly the set bits below `nprocs`, in ascending order |
| Mirrors.CollectCandidates | src/graphlab/graph/ingress/distributed_constell_ingress.hpp:554-558 | the candidate loop builds exactly `Candidates` |
| Mirrors.ElectMaster | src/graphlab/graph/ingress/distributed_constell_ingress.hpp:553-560 | the elected master is one of the vertex's replicas and a valid machine |
| Mirrors.ElectFromCandidates | src/graphlab/graph/ingress/distributed_constell_ingress.hpp:560 | the candidate list is non-empty, and the master is its entry at `hash_vertex(v) % size` |
| Mirrors.SoleReplicaIsMaster | src/graphlab/graph/ingress/distributed_constell_ingress.hpp:553-560 | a vertex with one replica has that machine as master |
| Mirrors.ElectionIgnoresHighBits | src/graphlab/graph/ingress/distributed_constell_ingress.hpp:555-558 | bits at or above `nprocs` do not affect the election |
| Mirrors.CandidatesIgnoreHighBits | src/graphlab/graph/ingress/distributed_constell_ingress.hpp:555-558 | bits at or above `nprocs` never become candidates |
| Mirrors.EntryHasCandidate | src/graphlab/graph/ingress/distributed_constell_ingress.hpp:560 | every entry of a well-formed table has a candidate, so the modulo never divides by zero |
| Mirrors.ElectAll | src/graphlab/graph/ingress/distributed_constell_ingress.hpp:553-564 | the master map covers exactly the table's vertices, and each master is a replica of its vertex |
| Mirrors.ElectOne | src/graphlab/graph/ingress/distributed_constell_ingress.hpp:553-560 | the per-vertex loop elects `ElectMaster` |
| Mirrors.ElectMasters | src/graphlab/graph/ingress/distributed_constell_ingress.hpp:553-564 | the election loop over the table builds `ElectAll` |
| Greedy.MinOf | src/graphlab/graph/ingress/distributed_constell_ingress.hpp:224 | the least load, attained by some machine |
| Greedy.MaxOf | src/graphlab/graph/ingress/distributed_constell_ingress.hpp:225 | the greatest load, attained by some machine |
| Greedy.MirrorBonus | src/graphlab/graph/ingress/distributed_constell_ingress.hpp:231-242 | the replica part of a score is at most 3, and 0 exactly when the machine holds neither endpoint |
| Greedy.Spread | src/graphlab/graph/ingress/distributed_constell_ingress.hpp:236 | the balance denominator `1 + max - min` is at least 1 |
| Greedy.BalanceBounds | src/graphlab/graph/ingress/distributed_constell_ingress.hpp:236 | the balance term lies in [0, 1) and is 0 on a most-loaded machine |
| Greedy.BalanceMonotone | src/graphlab/graph/ingress/distributed_constell_ingress.hpp:236 | a less loaded machine never gets a smaller balance term, and a least-loaded machine gets the largest |
| Greedy.MaxReal | src/graphlab/graph/ingress/distributed_constell_ingress.hpp:244 | the top score bounds every score and is attained |
| Greedy.TopProcs | src/graphlab/graph/ingress/distributed_constell_ingress.hpp:246-249 | the top list holds exactly the machines within tolerance of the maximum, in ascending order |
| Greedy.TopNonEmpty | src/graphlab/graph/ingress/distributed_constell_ingress.hpp:246-255 | the top list is never empty, so the pick is defined |
| Greedy.EdgeToProcDegree | src/graphlab/graph/ingress/distributed_constell_ingress.hpp:211-258 | the chosen machine is valid and within tolerance of the best score |
| Greedy.ScoreIsNumeratorOverSpread | src/graphlab/graph/ingress/distributed_constell_ingress.hpp:233-242 | each score equals an integer numerator over the common denominator `1 + max - min` |
| Greedy.NearAgrees | src/graphlab/graph/ingress/distributed_constell_ingress.hpp:248 | the `1e-5` tolerance test on scores is the same as an integer test on numerators |
| Greedy.MaxScoreIsMaxNumerator | src/graphlab/graph/ingress/distributed_constell_ingress.hpp:244 | the top score is the top numerator over the denominator |
| Greedy.TopMatchesScores | src/graphlab/graph/ingress/distributed_constell_ingress.hpp:246-249 | a machine is in the top list by the real-valued test iff it is by the integer test |
| Greedy.TopListsAgree | src/graphlab/graph/ingress/distributed_constell_ingress.hpp:246-249 | the candidate list built on integer numerators equals, element for element, the ascending list of machines whose real score is within 1e-5 of the best |
| Greedy.EdgeToProcIsSourcePick | src/graphlab/graph/ingress/distributed_constell_ingress.hpp:246-255 | the chosen machine is the entry of the real-valued top list at `hash_edge(min, max) % size`, and that list is never empty |
| Greedy.ToleranceIsExact | src/graphlab/graph/ingress/distributed_constell_ingress.hpp:248 | when the load spread is below 99999, "within tolerance" means "equal to the maximum" |
| Greedy.ChosenHasMaximalScore | src/graphlab/graph/ingress/distributed_constell_ingress.hpp:211-258 | under that bound, the chosen machine has a score no other machine exceeds |
| Greedy.NumeratorsSymmetric | src/graphlab/graph/ingress/distributed_constell_ingress.hpp:228-242 | swapping the endpoints, with their replica sets and degrees, leaves every score unchanged |
| Greedy.ScoresSymmetric | src/graphlab/graph/ingress/distributed_constell_ingress.hpp:231-242 | swapping source and target together with their replica sets and degrees leaves every machine's real score unchanged |
| Greedy.EdgeToProcSymmetric | src/graphlab/graph/ingress/distributed_constell_ingress.hpp:251-255 | an edge and its reverse go to the same machine, since the hash key is the ordered pair |
| Assign.GreedyInRange | src/graphlab/graph/ingress/distributed_constell_ingress.hpp:211-258 | the greedy chooser always returns a valid machine |
| Assign.Chosen | src/graphlab/graph/ingress/distributed_constell_ingress.hpp:275-277 | the machine chosen for an edge is valid |
| Assign.ChosenIsGreedy | src/graphlab/graph/ingress/distributed_constell_ingress.hpp:275-277 | the choice is `edge_to_proc_degree` on the endpoints' current replica sets and loads |
| Assign.Mark | src/graphlab/graph/ingress/distributed_constell_ingress.hpp:281-303 | marking sets only the one vertex's bit for the chosen machine; loads and edge sends are unchanged |
| Assign.HandleCounts | src/graphlab/graph/ingress/distributed_constell_ingress.hpp:279-305 | handling an edge raises the chosen machine's load by one, raises the total by one, and appends one edge send |
| Assign.HandleBits | src/graphlab/graph/ingress/distributed_constell_ingress.hpp:271-303 | both endpoints get entries holding the chosen machine; entries only grow, and only by that machine |
| Assign.HandleAdded | src/graphlab/graph/ingress/distributed_constell_ingress.hpp:281-303 | earlier announcements are kept, and the new ones are exactly those for the source, then the target |
| Assign.HandleNotices | src/graphlab/graph/ingress/distributed_constell_ingress.hpp:281-303 | every other machine is told of a replica iff the bit was not already set (for each endpoint) |
| Assign.HandleNoticeCount | src/graphlab/graph/ingress/distributed_constell_ingress.hpp:281-303 | at most 2(n-1) announcements per edge (n-1 for a self-loop), none to this machine |
| Assign.StepNotices | src/graphlab/graph/ingress/distributed_constell_ingress.hpp:281-291 | within a loop iteration, the announcements are appended and sent exactly when the source's bit was new |
| Assign.StepBits | src/graphlab/graph/ingress/distributed_constell_ingress.hpp:270-349 | after an iteration, both endpoints hold the chosen machine, entries never shrink, and drained announcements are recorded |
| Assign.AssignAllLoads | src/graphlab/graph/ingress/distributed_constell_ingress.hpp:305 | the total load grows by exactly the number of edges assigned |
| Assign.AssignAllEdgeSends | src/graphlab/graph/ingress/distributed_constell_ingress.hpp:279 | the edge sends are the buffer's edges in order, one each, to valid machines |
| Assign.AssignAllMonotone | src/graphlab/graph/ingress/distributed_constell_ingress.hpp:270-349 | replica sets only grow during assignment |
| Assign.AssignAllPrefixBelow | src/graphlab/graph/ingress/distributed_constell_ingress.hpp:270-349 | the table after any prefix of the buffer is contained in the table after the whole buffer |
| Assign.AssignAllRecordsReplicas | src/graphlab/graph/ingress/distributed_constell_ingress.hpp:260-376 | after `sync_assign`, every edge's chosen machine is a recorded replica of both endpoints |
| Assign.HandleWellFormed | src/graphlab/graph/ingress/distributed_constell_ingress.hpp:271-303 | handling an edge keeps every entry non-empty and within the cluster |
| Assign.StepWellFormed | src/graphlab/graph/ingress/distributed_constell_ingress.hpp:270-349 | so does a loop iteration with its drain |
| Assign.SyncAssignWellFormed | src/graphlab/graph/ingress/distributed_constell_ingress.hpp:260-376 | so does all of `sync_assign`, and that is the election's precondition |
| Degrees.RouteDegree | src/graphlab/graph/ingress/distributed_constell_ingress.hpp:170-194 | the copies of one edge contribute to a vertex's count at its owner exactly that edge's incidences with the vertex |
| Degrees.OwnerSeesFullDegree | src/graphlab/graph/ingress/distributed_constell_ingress.hpp:469-476 | a vertex's owner counts its full degree in the submitted graph |
| Degrees.ReceivedFromEdge | src/graphlab/graph/ingress/distributed_constell_ingress.hpp:469-472 | every received record is a routed copy of a submitted edge |
| Degrees.CountMapIsDegree | src/graphlab/graph/ingress/distributed_constell_ingress.hpp:474-475 | the local count of a vertex is its number of incidences in the received edges |
| Degrees.SenderOwns | src/graphlab/graph/ingress/distributed_constell_ingress.hpp:477-490 | a machine that pushes a vertex's degree owns that vertex, and is not the machine it pushes to |
| Degrees.OwnerSends | src/graphlab/graph/ingress/distributed_constell_ingress.hpp:477-490 | for each endpoint of a received copy it does not own, that endpoint's owner pushes its degree to the machine |
| Degrees.OverwriteUniform | src/graphlab/graph/ingress/distributed_constell_ingress.hpp:507-513 | a vertex some received degree record names gets that degree, and any other vertex keeps its local count |
| Degrees.ExchangedDegreesAreGlobal | src/graphlab/graph/ingress/distributed_constell_ingress.hpp:469-513 | after the exchange, every endpoint of every received edge has its global degree |
| Degrees.PassesByFlag | src/graphlab/graph/ingress/distributed_constell_ingress.hpp:521-524 | unflagged copies pass; the source-side copy passes iff deg(s) < deg(t); the target-side copy iff deg(s) >= deg(t) |
| Degrees.KeptOnce | src/graphlab/graph/ingress/distributed_constell_ingress.hpp:521-524 | when both copies' machines agree on the degrees, exactly one copy of an edge passes |
| Degrees.ClusterKeepsEachEdgeOnce | src/graphlab/graph/ingress/distributed_constell_ingress.hpp:469-525 | with global degrees everywhere, exactly one copy of every submitted edge is kept, and so the cluster keeps exactly as many copies as edges were submitted |
| Degrees.EdgeKeptOnce | src/graphlab/graph/ingress/distributed_constell_ingress.hpp:521-524 | a submitted edge whose copies sit on machines holding the global degrees of its endpoints has exactly one copy kept |
| Degrees.ClusterKeptCount | src/graphlab/graph/ingress/distributed_constell_ingress.hpp:469-525 | with global degrees everywhere, the kept copies of any run of submitted edges number exactly the edges of the run |
| Degrees.ExchangeKeepsEachEdgeOnce | src/graphlab/graph/ingress/distributed_constell_ingress.hpp:469-525 | when every machine holds its own counts overwritten by exactly the degrees pushed to it, every submitted edge has exactly one copy kept, and the cluster keeps exactly one copy per submitted edge in total |
| DegreeExchange.CountDegrees | src/graphlab/graph/ingress/distributed_constell_ingress.hpp:469-493 | the counting loop yields the incidence counts and, per machine, exactly the vertices whose degree it must be sent |
| DegreeExchange.ExchangeSetStep | src/graphlab/graph/ingress/distributed_constell_ingress.hpp:477-490 | a received record adds a vertex to push only when it is flagged, and only the endpoint this machine owns, to the other endpoint's owner |
| DegreeExchange.ExchangedIsCounted | src/graphlab/graph/ingress/distributed_constell_ingress.hpp:497-502 | every vertex to push has a counted degree, so the record sent carries it |
| DegreeExchange.SendDegrees | src/graphlab/graph/ingress/distributed_constell_ingress.hpp:495-505 | exactly one degree record per (machine, vertex) pair of the exchange sets, carrying the local count |
| DegreeExchange.ApplyReceivedDegrees | src/graphlab/graph/ingress/distributed_constell_ingress.hpp:507-513 | the receive loop overwrites with the received degrees, and the keys grow by the received vertices |
| Regroup.Kept | src/graphlab/graph/ingress/distributed_constell_ingress.hpp:521-524 | the filter keeps a subsequence whose records all pass |
| Regroup.KeptMember | src/graphlab/graph/ingress/distributed_constell_ingress.hpp:521-524 | a record is kept iff it was received and passes |
| Regroup.BucketsStep | src/graphlab/graph/ingress/distributed_constell_ingress.hpp:521-524 | appending a kept record to its source's bucket keeps every bucket equal to the kept records with that source |
| Regroup.BucketBySource | src/graphlab/graph/ingress/distributed_constell_ingress.hpp:520-525 | the bucketing loop yields one bucket per source holding exactly its kept records, in order |
| Regroup.RegroupedSources | src/graphlab/graph/ingress/distributed_constell_ingress.hpp:526-534 | the regrouped buffer holds only kept records whose source is one of the buckets |
| Regroup.RegroupedBucket | src/graphlab/graph/ingress/distributed_constell_ingress.hpp:526-534 | the records of one source in the regrouped buffer are its bucket, in arrival order |
| Regroup.RegroupedPermutation | src/graphlab/graph/ingress/distributed_constell_ingress.hpp:526-534 | regrouping is a permutation of the kept records |
| Regroup.RegroupedContiguous | src/graphlab/graph/ingress/distributed_constell_ingress.hpp:526-534 | the records of each source are contiguous in the regrouped buffer |
| Regroup.FilterAndRegroup | src/graphlab/graph/ingress/distributed_constell_ingress.hpp:519-535 | filter and regroup yield a permutation of the kept records, contiguous per source, in arrival order within a source |
| LocalIds.Resolve | src/graphlab/graph/ingress/distributed_constell_ingress.hpp:583-594 | resolving a vertex never changes `vid2lvid` and leaves the vertex known |
| LocalIds.ResolveLookup | src/graphlab/graph/ingress/distributed_constell_ingress.hpp:583-594 | a known vertex keeps its lvid; a new one gets `lvid_start + buffer size` |
| LocalIds.ResolveKeeps | src/graphlab/graph/ingress/distributed_constell_ingress.hpp:583-594 | only the resolved vertex becomes known, and no earlier lvid changes |
| LocalIds.ResolveGood | src/graphlab/graph/ingress/distributed_constell_ingress.hpp:583-607 | resolution keeps the tables well formed: buffer ids dense from `lvid_start`, disjoint from `vid2lvid`, updated marks below `lvid_start` |
| LocalIds.ResolveAll | src/graphlab/graph/ingress/distributed_constell_ingress.hpp:580-612 | a run of resolutions never changes `vid2lvid` |
| LocalIds.ResolveAllGood | src/graphlab/graph/ingress/distributed_constell_ingress.hpp:580-612 | a run of resolutions keeps the tables well formed |
| LocalIds.ResolveAllKeeps | src/graphlab/graph/ingress/distributed_constell_ingress.hpp:580-612 | after a run, exactly the earlier known vertices and the run's vertices are known, with earlier lvids unchanged |
| LocalIds.ResolveAllUpdated | src/graphlab/graph/ingress/distributed_constell_ingress.hpp:580-612 | the updated marks grow by exactly the old lvids of the run's vertices already in `vid2lvid` |
| LocalIds.ResolveAllFresh | src/graphlab/graph/ingress/distributed_constell_ingress.hpp:583-594 | distinct new vertices get consecutive lvids after the buffer, in order |
| LocalIds.DenseValues | src/graphlab/graph/ingress/distributed_constell_ingress.hpp:580-612 | a dense table's lvids are exactly the interval from its start, with no gap |
| LocalIds.MergedLookup | src/graphlab/graph/ingress/distributed_constell_ingress.hpp:781-792 | the merged table knows exactly the known vertices, at their lvids |
| LocalIds.MergedDense | src/graphlab/graph/ingress/distributed_constell_ingress.hpp:781-792 | the merged table is dense from 0, covering all old and new vertices |
| Partition.Localize | src/graphlab/graph/ingress/distributed_constell_ingress.hpp:608 | one local edge per received edge |
| Partition.LocalizeEdges | src/graphlab/graph/ingress/distributed_constell_ingress.hpp:580-612 | each local edge joins the lvids of its endpoints and carries the edge data |
| Partition.LocalizeStable | src/graphlab/graph/ingress/distributed_constell_ingress.hpp:580-612 | resolving more vertices later never changes an edge already localized |
| Partition.LookupInjective | src/graphlab/graph/ingress/distributed_constell_ingress.hpp:580-612 | distinct vertices never share an lvid |
| Partition.StoreDataLast | src/graphlab/graph/ingress/distributed_constell_ingress.hpp:643-662 | the payload stored for a vertex is the last one received for it |
| Partition.StoreDataElsewhere | src/graphlab/graph/ingress/distributed_constell_ingress.hpp:643-662 | payloads at lvids no received vertex maps to are untouched |
| Partition.NewSlotsNamed | src/graphlab/graph/ingress/distributed_constell_ingress.hpp:677-689 | every new record names its vertex and that vertex's elected master (machine 0 if none was elected) |
| Partition.HandshakeMember | src/graphlab/graph/ingress/distributed_constell_ingress.hpp:715-723 | a handshake goes to a record's owner, carrying its vertex, exactly when the owner is another machine |
| Partition.HandshakeReachesMasters | src/graphlab/graph/ingress/distributed_constell_ingress.hpp:677-723 | each new vertex's master is told iff it is another machine, and every handshake names a new vertex and its master |
| Partition.ReceiveAllRecords | src/graphlab/graph/ingress/distributed_constell_ingress.hpp:736-754 | a known vertex's record gains exactly the machines that sent it a handshake |
| Partition.ReceiveAllFlyingKeys | src/graphlab/graph/ingress/distributed_constell_ingress.hpp:736-754 | the flying vertices are exactly the unknown vertices some machine sent |
| Partition.ReceiveAllFlyers | src/graphlab/graph/ingress/distributed_constell_ingress.hpp:736-754 | a flying vertex's mirror set is exactly its senders |
| Partition.ReceiveAllUpdated | src/graphlab/graph/ingress/distributed_constell_ingress.hpp:748-752 | handshakes mark as updated exactly the old lvids of vertices already in `vid2lvid` |
| Partition.FlyingRecords | src/graphlab/graph/ingress/distributed_constell_ingress.hpp:759-773 | each flying vertex gets a record owned by this machine, with its senders as mirrors |
| Partition.FlyingBuffer | src/graphlab/graph/ingress/distributed_constell_ingress.hpp:765-770 | numbering the flying vertices in iteration order is a run of ordinary resolutions |
| Partition.FlyingAllocation | src/graphlab/graph/ingress/distributed_constell_ingress.hpp:759-773 | the flying loop numbers the flying vertices consecutively after the buffer and appends their records |
| Partition.InsertAll | src/graphlab/graph/ingress/distributed_constell_ingress.hpp:786-789 | inserting the buffer's pairs yields their union with the table, the table's entries winning |
| Partition.MergeTables | src/graphlab/graph/ingress/distributed_constell_ingress.hpp:781-792 | both merge branches (swap and insert) yield the same dense table of size `lvid_start + buffer size` |
| Builder.LocalGraphBuilder.constructor | src/graphlab/graph/ingress/distributed_constell_ingress.hpp:416-428 | `lvid_start` is the size of `vid2lvid`; empty buffer and no updated marks |
| Builder.LocalGraphBuilder.LocalId | src/graphlab/graph/ingress/distributed_constell_ingress.hpp:583-594 | resolving one vertex updates the tables as `LocalIds.Resolve` and returns its lvid |
| Builder.LocalGraphBuilder.AddLocalEdge | src/graphlab/graph/ingress/distributed_constell_ingress.hpp:580-608 | both endpoints are resolved and the local edge joins their lvids |
| Builder.LocalGraphBuilder.ConstructLocalEdges | src/graphlab/graph/ingress/distributed_constell_ingress.hpp:575-612 | the edge loop resolves every endpoint in order and appends the localized edges |
| Builder.LocalGraphBuilder.AddVertexData | src/graphlab/graph/ingress/distributed_constell_ingress.hpp:643-662 | a payload is stored at its vertex's resolved lvid |
| Builder.LocalGraphBuilder.ReceiveVertexData | src/graphlab/graph/ingress/distributed_constell_ingress.hpp:641-665 | the payload loop resolves every vertex and stores the payloads as `StoreData` |
| Builder.LocalGraphBuilder.AssignOwners | src/graphlab/graph/ingress/distributed_constell_ingress.hpp:676-697 | old records are kept, and each new slot names its vertex and its master |
| Builder.LocalGraphBuilder.HandshakeSends | src/graphlab/graph/ingress/distributed_constell_ingress.hpp:715-723 | the send loop over the new slots yields `HandshakeOf` |
| Builder.LocalGraphBuilder.ReceiveHandshake | src/graphlab/graph/ingress/distributed_constell_ingress.hpp:725-754 | the receive loop updates records, marks and flying vertices as `ReceiveAll`, leaving the tables well formed |
| Builder.LocalGraphBuilder.AllocateFlying | src/graphlab/graph/ingress/distributed_constell_ingress.hpp:756-773 | flying vertices are resolved in iteration order and their records appended, so records and ids stay aligned |
| Builder.LocalGraphBuilder.Merge | src/graphlab/graph/ingress/distributed_constell_ingress.hpp:781-792 | `vid2lvid` becomes the merged, dense table and the buffer is emptied |
| Builder.LocalGraphBuilder.FinalizeApply | src/graphlab/graph/ingress/distributed_constell_ingress.hpp:855-861 | the record's edge counts and mirrors, and the vertex's payload, take the gathered values; every other record is unchanged |

## Left out

- Standalone gate: `finalize` runs degree counting, the degree exchange, the filter, the regroup, `sync_assign` and the master election only when there is more than one machine (`if (!standalone)`, lines 463-566). With one machine, edges go straight from `edge_exchange` to local construction in arrival order and `master_map` stays empty, so every owner is 0 (line 686). The model does not encode this gate: `Ingress.ConstellIngress.SyncAssign`, `Degrees` and `Regroup` model the multi-machine path, and local construction takes its edge order and `master_map` as parameters, which covers the standalone path with an empty `master_map` (`Partition.NewSlotsNamed` then names owner 0).
- Integer widths: vertex ids, lvids, edge counts and degrees are unbounded `nat`s; the model has no `vertex_id_type`, `lvid_type` or `size_t` limits, so the wrap of `resize(rec.source + 1)` (lines 481 and 488) at the largest vertex id is not captured.
- Transport: `buffered_exchange` flushing, receiving and clearing, `full_barrier`, `barrier` and `all_reduce` are not modelled. Sends are appended to outboxes, and what a machine receives is a parameter.
- Unordered containers: the iteration orders of `raw_map`, `mht`, `vid2lvid_buffer` and `flying_vids`, and the arrival order of messages, are parameters. The model only requires each such order to be a duplicate-free listing of the keys. The same holds for the order in which degree records are sent.
- Mirror arrivals during `sync_assign`: which announcements have arrived when a drain runs depends on other machines' timing. It is a parameter: a batch per drain point plus a final batch.
- Hashes: `graph_hash::hash_vertex` and `graph_hash::hash_edge` are function parameters.
- Floating point: the `double` score is modelled in exact rational arithmetic. The `1e-5` tie test is therefore exact. `Greedy.ToleranceIsExact` shows it means "equal to the maximum" only while the load spread is below 99999.
- Greedy.EdgeToProcDegree: `degree_set[v]` inserts a zero entry for an unknown vertex. The model reads 0 without inserting. That map is not read again after assignment.
- Ingress.ConstellIngress.constructor: requires `interval > 0`. With 0, the source's `edge_count % interval` divides by zero.
- The fast exits of `finalize` (no changes anywhere, lines 439-447) and the first-time flag (lines 385-395) are left out. So is the synchronisation of the changed-vertex set and the gather/apply engine (lines 800-828). Only `finalize_apply` itself is modelled.
- Storage: the local graph's storage engine (`reserve_edge_space`, `finalize`, `resize`), `vertex_record`'s full definition and the `ASSERT_EQ` checks are not modelled. Local edges are a sequence and payloads a map from lvid. A default-constructed record is `Partition.Blank`.
- Builder.LocalGraphBuilder.AddVertexData: `vertex_combine_strategy` (lines 658-659), which merges a payload into an existing one, is not modelled. The payload always overwrites, as when no strategy is set.
- Builder.LocalGraphBuilder.ConstructLocalEdges, ReceiveVertexData and AllocateFlying do not restate the table invariant in their own contracts. `LocalIds.ResolveAllGood` carries it across the resolutions they perform.
- Concurrency: the OpenMP loops and the mutex around `flying_vids` are treated as sequential.
- `threshold` (line 75) is declared but never used by the partitioner, so it is not modelled.
- `RPC_MAX_N_PROCS` is not modelled: the mirror bitset is an unbounded set of machine ids.
- Logging, `memory_info` and the commented-out load-increment exchange are not modelled.
- `exchange_global_info` and the base ingress class are not part of this model.
