# A verified model of the monitoring core

This project models the parts of a cluster monitor that decide what is related to what, what is
delivered, who watches whom and what counts as recovered, and proves what they promise. It consists of:

- the dependency graph: an edge vector with two position indexes and a breadth-first walk over it
  (`Paths`, `Graph`, `EdgePaths`, `StaleIndex`);
- the delivery of observations: the agent's bounded spool, its flush loop, the controller's accept,
  deduplicate or reject decision, and all of them together over a lossy network (`SpoolOrder`, `Spool`,
  `Delivery`, `Flush`, `Convergence`, `Protocol`);
- peer assignment and the revision of its plan (`Peers`, `PeerFairness`, `PeerLoad`, `PeerChanges`,
  `Revision`);
- the newest-observation index, freshness, and the recovery verdict of incidents (`ObservationIndex`,
  `Recovery`, `RecoveryVerdict`);
- agent sessions with restarts on both sides (`Sessions`), and the agent that registers, records and
  delivers (`Agents`);
- the text forms these rest on: timestamps compared as strings (section 5.6 of RFC 3339) and the
  kernel's mount table (`TextOrder`, `Digits`, `Rfc3339`, `Rfc3339Parse`, `Mounts`).

Code that updates state in place is a class or a method with loops, proved against functions on values;
the lemmas then say what those functions promise. `dafny verify dfyconfig.toml` checks the whole project.

## What the code does differently from what it says

- `retain_from_source` shortens the edge vector without rebuilding the indexes. Queries stay right if and
  only if every edge the source reported is in `keep`; otherwise some query in each direction is an
  out-of-bounds panic. No later insertion or drop repairs this; once as many edges were inserted as dropped,
  no query panics any more and some query silently returns other edges than it should. Only rebuilding with
  `from_edges` restores agreement. The one caller (`src/controller/discovery.rs:164`) inserts nothing into that
  graph afterwards.
- `insert` replaces an edge without moving its index entries. Queries stay right if and only if the id
  keeps its end points, which holds as long as ids are derived from them.
- The comment "eviction order is the reverse of replay order" holds for two rows if and only if their
  priorities differ: within one priority both orders go oldest first.
- `max_rows` is cast to a signed 64-bit integer. A limit of 2^63 or more either empties the spool or makes
  the row query fail; the number of rows removed is the overflow if and only if the limit is below 2^63 or
  there are no rows. The daemon always passes the default of 100,000 rows (`src/cli/daemon_cmd.rs:140`), so
  this concerns other callers of `Spool::open` only.
- The plan revision is said to change "when, and only when, the plan could have changed". For the inventories
  the controller passes, distinct targets with the candidates among them, what is hashed is the same if and
  only if targets, candidates and degree are, so nothing of those is missed before hashing. The edges are not
  hashed: with hosts 0, 1, 2 of which 1 and 2 observe, degree 1, two new edges hand host 0 to another observer
  under the same revision. A plan the revision does not announce takes a candidate whose relation to a target
  changed; a changed relation alone is not enough, since every target may keep its observers all the same. Only for arguments no caller passes is the boundary between targets and candidates lost as well.
- Against a timestamp with a four-digit year, the text order of another timestamp is the time order if and
  only if its year is at most 9999. The age limit therefore leaves nothing older than the cutoff, whatever is
  spooled, if and only if the cutoff lies in a four-digit year; rows dated after the year 9999 always go.
  The daemon's cutoff is one day before the clock reading (`src/agent/spool.rs:44`), so only a clock
  reading outside those years would meet this.
- Mount fields that hold whitespace the kernel does not escape, or a type or option field that needs
  escaping, are not read back; these are the only ones. The octal decoder also accepts a leading plus sign;
  text is left alone if and only if nothing in it reads as an escape in this sense.
- Two hosts share an agent identity if and only if one environment name continues, past the separator,
  into the other's host name.
- A row that the controller rejects stays at the front of the replay order, so 500 of them block every row
  behind them for as long as their targets stay unknown.

## Model

| member | source | states |
|---|---|---|
| Graph.DependencyGraph.Walk | src/dependency/graph.rs:178-221 | for every graph, cycles included, origin, limit, direction and filter: terminates and returns exactly the other entities reachable by followed edges within the limit, each once, at its shortest distance, nearest first |
| Graph.Expand | src/dependency/graph.rs:202-218 | one entity's edges add exactly the unvisited far ends of followed edges, once each and one step deeper, to the visited set, the queue and the output alike |
| Graph.DependencyGraph.Follow | src/dependency/graph.rs:198-218 | expanding one entity keeps the search invariant (shortest distances, order, everything behind the head expanded) and either adds nothing or shrinks what is left to find |
| Graph.NearerIsFound | src/dependency/graph.rs:192-219 | in every search state, whatever is no further than the next entity to expand has been found already |
| Graph.DependencyGraph.UpstreamOf | src/dependency/graph.rs:92-94 | the exact traversal of all dependencies, as a list and as a set |
| Graph.DependencyGraph.DownstreamOf | src/dependency/graph.rs:98-100 | the exact traversal of all dependents |
| Graph.DependencyGraph.CriticalUpstreamOf | src/dependency/graph.rs:104-108 | the exact traversal along critical and important edges only |
| Paths.TraversalReports | src/dependency/graph.rs:178-221 | a correct traversal lists x at depth d iff x is not the origin, d is its shortest distance and the limit allows d |
| Paths.TraversalsAreDual | src/dependency/graph.rs:92-100 | for any limit, a lists b at depth d one way iff b lists a at depth d the other way |
| Paths.FilteredTraversalIsFurther | src/dependency/graph.rs:104-108 | following fewer edges lists a subset, none of it nearer |
| EdgePaths.UpstreamIsRoutes | src/dependency/graph.rs:92-94 | upstream lists y at depth d iff y is not the origin and the shortest sequence of edges leading from it to y has d of them, within the limit |
| EdgePaths.DownstreamIsRoutes | src/dependency/graph.rs:98-100 | downstream lists y at depth d iff the shortest sequence of edges leading from y to the origin has d of them, within the limit |
| EdgePaths.CriticalUpstreamIsRoutes | src/dependency/graph.rs:104-108 | critical upstream does so by sequences without optional edges |
| EdgePaths.UpstreamSetIsRoutes | src/dependency/graph.rs:92-94 | the upstream set of x is exactly what some sequence of edges within the limit leads to from x, other than x |
| Graph.DependencyGraph.Insert | src/dependency/graph.rs:46-55 | the whole new state; ids stay unique; both indexes stay exact if the id keeps its end points, and some query is wrong if it does not |
| Graph.FromEdges | src/dependency/graph.rs:37-43 | for a repeated id the last edge is kept, in the order of first occurrences; when ids fix end points the result is exactly indexed; a duplicate-free vector comes back unchanged, indexed |
| Graph.CollectedMembers | src/dependency/graph.rs:37-55 | after any sequence of insertions ids are unique and the edges are exactly the last one of each id |
| Graph.CollectedIds | src/dependency/graph.rs:37-55 | after any sequence of insertions the ids stand in the order of their first occurrence |
| Graph.DependencyGraph.EdgesOf | src/dependency/graph.rs:73-86 | the indexed query in either direction equals a plain scan of the edges |
| Graph.IndexedIsFaithful | src/dependency/graph.rs:73-86 | an index of the right positions answers every query as a scan does, without a panic |
| Graph.ReplaceEffect | src/dependency/graph.rs:47-50 | replacing in place keeps both indexes faithful iff the end points stay |
| Graph.DependencyGraph.RetainFromSource | src/dependency/graph.rs:158-168 | what survives is exactly the edges of other sources and those whose id is to be kept, in order; queries agree with a scan iff nothing had to go, otherwise one panics in each direction |
| Graph.RetainIsScoped | src/dependency/graph.rs:156-167 | another source's edge survives and, ids being unique, is never reported dropped; the source's own survives iff its id is to be kept and is reported otherwise |
| Graph.NothingDropped | src/dependency/graph.rs:160-167 | nothing is dropped iff every edge is of another source or kept by id |
| Graph.KeptMembers | src/dependency/graph.rs:160-166 | the survivors are exactly the edges of other sources and the kept ids |
| Graph.DroppedMembers | src/dependency/graph.rs:160-167 | the reported ids are exactly those of the edges that went |
| Graph.KeptOrDropped | src/dependency/graph.rs:160-167 | kept and dropped add up to the original; dropping nothing changes nothing |
| Graph.ShrunkIndexPanics | src/dependency/graph.rs:73-86 | any shorter vector under an exact index of a longer one makes a named query panic |
| Graph.RetainEffect | src/dependency/graph.rs:158-168 | from what is to be kept, both halves of when the stale indexes still answer right |
| Graph.KeptUnique | src/dependency/graph.rs:158-168 | what is retained has unique ids, so rebuilding from it restores the indexes |
| StaleIndex.NothingRepairs | src/dependency/graph.rs:46-55 | once an edge was dropped, no sequence of insertions and further drops makes either query agree with a scan again |
| StaleIndex.RegrownIsSilentlyWrong | src/dependency/graph.rs:73-86 | after a drop and any insertions no query panics iff the vector is as long again as it was, and then some query returns other edges than it should |
| StaleIndex.OverfullDisagrees | src/dependency/graph.rs:73-86 | an index holding more positions than there are edges answers some query wrongly |
| Graph.DependencyGraph.SharedUpstream | src/dependency/graph.rs:114-128 | exactly the intersection of the members' upstream sets, early exit or not |
| Graph.DependencyGraph.GroupBySharedUpstream | src/dependency/graph.rs:133-146 | exactly the entities at least two members depend on, each with all those members |
| Graph.SharedIsWholeGroup | src/dependency/graph.rs:114-146 | what is shared equals the entities whose group contains all members iff there are two distinct members or nothing is shared |
| EdgePaths.SharedIsCommon | src/dependency/graph.rs:114-128 | y is shared iff there are entities and a sequence of edges within the limit leads from each of them to y |
| EdgePaths.GroupsAreDependents | src/dependency/graph.rs:133-146 | y has a group iff such sequences lead to it from two different entities, and the group is all they lead from |
| SpoolOrder.SortedIsOrdered | src/agent/spool.rs:164-170 | the order a query returns rows in is strictly ascending |
| SpoolOrder.OrderedUnique | src/agent/spool.rs:164-170 | there is only one such order of a set of rows |
| SpoolOrder.ReversedAcrossPriorities | src/agent/spool.rs:231-236 | eviction and replay order two rows oppositely iff their priorities differ |
| Spool.Spool.InsertAll | src/agent/spool.rs:136-154 | new ids are added, existing rows are never overwritten |
| Spool.Spool.Push | src/agent/spool.rs:135-158 | everything is inserted first, then the limits hold of all rows with the counters adding up; a failed row query leaves all young rows |
| Spool.Spool.Peek | src/agent/spool.rs:164-182 | as many rows as the limit allows; none of them has a lower priority than, or at the same priority was recorded later than, a row behind it or left out, ids deciding between equal times |
| Spool.OldestIsPeekedFirst | src/agent/spool.rs:167-167 | within one priority and four-digit years, what is peeked first finished no later as an instant |
| Spool.OldestIsEvictedFirst | src/agent/spool.rs:233-256 | within one priority and four-digit years, what goes for space finished no later as an instant than what stays |
| Spool.RowColumns | src/agent/spool.rs:143-151 | a row has its observation's id and size, and its text parses to the observation's time, whole microseconds |
| Spool.SizeBytesAdds | src/agent/spool.rs:213-218 | the bytes of a table are the sizes of its rows added up |
| Spool.ReplayBatchIsOne | src/agent/spool.rs:164-170 | there is exactly one such batch: the front of the ordered table |
| Spool.Spool.Acknowledge | src/agent/spool.rs:185-197 | exactly the given ids leave; the count is of rows that were there |
| Spool.Spool.Evict | src/agent/spool.rs:221-262 | exactly what the statements leave one after another: no old row stays, rows and bytes are within the limits, what goes for space is a prefix of the eviction order, the counters and survivors add up, and when the query fails |
| Spool.Spool.MakeSpace | src/agent/spool.rs:233-261 | the row phase and the byte phase together remove one prefix, within both limits |
| Spool.Spool.EvictRows | src/agent/spool.rs:233-243 | exactly the leading rows go and the rest keeps its order |
| Spool.Spool.EvictBytes | src/agent/spool.rs:245-259 | terminates within the byte limit having removed fewer than 64 rows more than the least possible prefix |
| Spool.ExcessMeetsLimit | src/agent/spool.rs:237-240 | after the row phase the limit holds; what goes is the overflow iff the limit is below 2^63 or there are no rows |
| Spool.LeastDropIsLeast | src/agent/spool.rs:245-259 | dropping k leading rows leaves too many bytes iff k is below the least drop |
| Spool.RoundsOffFit | src/agent/spool.rs:245-259 | over any table the rounds of 64 bring the bytes within the limit, fewer than 64 rows beyond the least drop |
| Spool.DroppedRankFirst | src/agent/spool.rs:233-256 | one deletion takes nothing of higher priority, or of the same and recorded later, than a survivor, ids deciding between equal times |
| Spool.ImportantRowsOutlive | src/agent/spool.rs:231-259 | nothing evicted for space has a higher priority, or the same and was recorded later, than whatever survives |
| Spool.FailuresOutliveRoutine | src/agent/spool.rs:286-298 | no failure or reboot goes for space while a routine or degraded observation survives, and nothing abnormal while a routine one does |
| Spool.AgedIsOlder | src/agent/spool.rs:224-229 | against a cutoff in a four-digit year a row is removed iff it is older as an instant or dated after the year 9999 |
| Spool.NothingOlderThanCutoff | src/agent/spool.rs:224-229 | whatever is spooled, comparing texts leaves nothing older than the cutoff iff the cutoff lies in a four-digit year |
| Delivery.Controller.IngestAgentBatch | src/controller/registration.rs:113-149 | the store after the batch; accepted counts the newly stored ids; accepted, duplicates and rejected add up to the batch |
| Delivery.Controller.ApplyObservations | src/persistence/observations.rs:62-104 | inserts what is absent under its id, counting inserted and duplicates |
| Delivery.Partition | src/controller/registration.rs:129-133 | splits a batch in order by whether the target is known |
| Delivery.StoredOrRejected | src/controller/registration.rs:129-148 | every observation of a batch is stored afterwards if its target is known and rejected if not |
| Delivery.RejectedFrom | src/controller/registration.rs:141-147 | a rejected id is that of an observation in the batch with an unknown target |
| Delivery.StoredContents | src/persistence/observations.rs:71-100 | stored observations are never rewritten and new ones come from the batch under their own id, with a known target |
| Delivery.ReplayIsIdempotent | src/controller/api.rs:409-448 | sending a batch, or any prefix of it, again stores nothing new |
| Agents.Agent.Record | src/agent/mod.rs:566-570 | the spool holds everything pushed before anything is sent; what is left is what a flush leaves of it, or all of it if eviction failed or the agent is unregistered |
| Agents.Agent.Flush | src/agent/mod.rs:577-633 | spool, requests, delivered count and whether the last call failed equal the reference flush for any answers; an unregistered agent sends nothing |
| Agents.Agent.SendAll | src/agent/mod.rs:585-629 | the loop terminates for any answers and refines the recursive flush |
| Agents.Agent.SendBatch | src/agent/mod.rs:586-628 | one round: what is sent, what is taken off, whether it goes on |
| Flush.RoundShrinks | src/agent/mod.rs:601-619 | going on means a whole non-empty batch left the spool |
| Flush.FlushIsJourney | src/agent/mod.rs:577-633 | every flush is a sequence of calls, each sending the most urgent rows and taking off what its answer does not reject, on after every clean answer and only then until the spool is empty; requests count the calls, delivered sums what they accepted |
| Flush.FlushIsBounded | src/agent/mod.rs:577-633 | whatever is answered, n rows cause at most ceil(n / 500) requests and nothing is added |
| Convergence.ControllerIsHonest | src/controller/registration.rs:129-148 | the controller rejects a row of a batch iff its target is unknown |
| Convergence.ControllerAnswersAreHonest | src/controller/registration.rs:113-149 | the controller's answers to the requests of a flush, each from the store the one before left, reject exactly the unknown targets |
| Convergence.FlushMeetsTheStore | src/agent/mod.rs:585-629 | the flush loop under those answers is the flush that passes the store on from request to request |
| Convergence.HonestFlush | src/agent/mod.rs:577-633 | one flush against an honest controller takes nothing that is stuck and something if anything is not |
| Convergence.UnknownBatchBlocks | src/agent/mod.rs:172-172 | a first batch of unknown targets only puts a whole batch of them ahead of every deliverable row |
| Convergence.FlushFixpoint | src/agent/mod.rs:577-633 | for any honest answers, after as many flushes as there are rows, and ever after, a row has left the spool iff its target is known and fewer than 500 unknown-target rows were ahead of it |
| Convergence.FlushMoves | src/agent/mod.rs:585-629 | over one flush against the controller every row that leaves is stored as recorded unless its id was taken, no row that stays was stored by it, and nothing stored is rewritten |
| Convergence.DeliveredIsStored | src/agent/mod.rs:577-633 | a flush against the controller returns exactly the number of observations it newly stored |
| Convergence.KnownFlushEmpties | src/agent/mod.rs:577-633 | with every target known one flush of n rows empties the spool in exactly ceil(n / 500) requests |
| Convergence.DeliveryFixpoint | src/agent/mod.rs:577-633 | against the controller, from any spool, store and inventory: after as many flushes as there were rows, and ever after, a row not stored before is in the store, as recorded, and out of the spool iff its target is known and fewer than 500 unknown-target rows were ahead of it |
| Protocol.StepKeeps | src/agent/mod.rs:566-633 | recording, each statement of an eviction, sending, processing, receiving, forgetting and discovering each keep the delivery invariant |
| Protocol.RunsLoseNothing | src/agent/mod.rs:566-633 | in every state of every run with loss, delay, duplication and crashes, also between the statements of an eviction, each recorded observation is spooled, stored, or was taken by an age, row or byte limit; what is stored is what was recorded; accepted counts sum to the distinct ids stored |
| Protocol.RowsLeaveStored | src/agent/spool.rs:185-262 | in every run a row leaves a spool because its text is before the cutoff, because the spool is over the row or byte limit, or by a reply when its observation is already stored |
| Protocol.SpaceTakesRoutineFirst | src/agent/spool.rs:231-259 | in every run, while a failure or reboot is lost for space only such stay in that spool; while anything abnormal is, nothing routine does; and within one priority nothing that stays finished earlier |
| Protocol.EvictionIsARun | src/agent/spool.rs:221-262 | from any state an eviction is a path of its statements ending with the rows it leaves |
| Protocol.PushIsARun | src/agent/spool.rs:135-158 | a push is recording followed by that path |
| Protocol.NoEvictionNoLoss | src/agent/mod.rs:561-570 | in a run without evictions everything recorded is still waiting or stored |
| Protocol.SendIsEnabled | src/agent/mod.rs:585-598 | in every run an agent with rows and nothing pending can send |
| Protocol.ExchangeIsARound | src/agent/mod.rs:585-619 | a send, its processing and its reply together are one round of the flush loop against the controller: its spool, store, count and decision to go on |
| Protocol.SpoolsAreOutboxes | src/agent/spool.rs:135-154 | in every run the rows of a spool have distinct ids, each under its observation's id |
| Protocol.AnswersAreHonest | src/controller/registration.rs:113-149 | in every reachable state the controller's answer rejects exactly the unknown targets |
| Peers.DomainsOf | src/controller/peers.rs:144-145 | every candidate has the domain the graph gives it, computed once |
| PeerFairness.DomainIsNeeds | src/controller/peers.rs:127-129 | a domain is exactly what sequences of edges of any length lead to from the entity, other than itself |
| Peers.PartitionCandidates | src/controller/peers.rs:150-173 | the three buckets hold exactly the candidates of their relation to the target, in order |
| Peers.Choose | src/controller/peers.rs:182-217 | the loops with their 32-bit length test compute the reference choice |
| Peers.Fill | src/controller/peers.rs:205-217 | filling one bucket computes the reference fill and never exceeds the degree |
| Peers.AssignOne | src/controller/peers.rs:147-223 | partitioning, rotating by position and choosing give the reference observers |
| Peers.Assign | src/controller/peers.rs:136-226 | one assignment per target in order, each with the reference observers of its position |
| Peers.MakePlan | src/controller/assignments.rs:16-36 | the plan carries the revision of its inventory and the reference assignments |
| Peers.ChoiceEffect | src/controller/peers.rs:182-217 | a choice has min(degree, supply) members without repeats, every role comes from its bucket, and only fillers follow the variety |
| PeerFairness.AssignmentShape | src/controller/peers.rs:136-226 | exactly min(degree, other distinct candidates) observers, none twice, never the target, every role true of where sequences of edges lead |
| PeerFairness.RelationIsTrue | src/controller/peers.rs:162-172 | same domain: something both need; different: the observer needs something and nothing the target needs; independent: the observer needs nothing |
| PeerFairness.VarietyIsRepresentatives | src/controller/peers.rs:187-202 | choosing one of each kind takes the heads of the non-empty buckets as far as the degree goes |
| PeerFairness.VarietyFirst | src/controller/peers.rs:185-217 | the first min(degree, non-empty buckets) observers are the buckets' own representatives and all others are fillers |
| PeerFairness.ChoiceInOrder | src/controller/peers.rs:182-217 | the choice is the heads of the buckets, then all others of the same domain, of different ones and the independent ones, cut off at the degree |
| PeerFairness.ObserversInOrder | src/controller/peers.rs:147-223 | so every target's observers are one fixed list of the rotated buckets, cut off at the degree |
| PeerFairness.RepresentativeAt | src/controller/peers.rs:175-202 | with the degree reaching its bucket, a role goes to the member at the target's position modulo the bucket size and to nobody else |
| PeerFairness.RepresentationIsFair | src/controller/peers.rs:175-234 | over any k consecutive targets sharing a bucket of k, each member stands for the role exactly once |
| PeerLoad.RingWatchers | src/controller/peers.rs:175-234 | with all k hosts watching each other and no edges, the host at position i is watched by exactly those at positions i+1 to i+min(degree, k-1) round the ring |
| PeerLoad.RingLoadIsEqual | src/controller/peers.rs:175-234 | each of those hosts watches exactly min(degree, k-1) others |
| PeerLoad.LoadsAddUp | src/controller/peers.rs:136-226 | for any edges, targets and distinct candidates, the loads of all candidates sum to min(degree, other candidates) over the targets |
| PeerLoad.LoadIsEven | src/controller/peers.rs:175-234 | without edges, over any n consecutive targets of a plan that are not candidates, each of k candidates watches between floor(n/k)*d and floor(n/k)*d + min(d, n mod k) of them, d = min(degree, k) |
| PeerLoad.HitsBound | src/controller/peers.rs:229-234 | how often a position falls into the first d over any number of rotations |
| PeerChanges.RolesDecideThePlan | src/controller/assignments.rs:30-35 | for one inventory and any two graphs the revisions are equal, and so are the plans if every candidate relates to every other target alike |
| PeerChanges.RolesAreNotNeeded | src/controller/peers.rs:185-217 | two graphs over one inventory under which a candidate relates differently to a target and the plans are equal |
| PeerChanges.FlatDomain | src/controller/peers.rs:127-129 | where nothing depended on depends on anything, a domain is exactly what is depended on directly |
| PeerChanges.RevisionMissesEdges | src/controller/assignments.rs:71-90 | three hosts, two of them candidates: an edge-only change gives a target another observer under the same revision |
| Revision.PlanRevision | src/controller/assignments.rs:72-90 | the loops compute the 64-bit FNV-1a hash of targets, candidates and degree |
| Revision.PublishedValues | src/controller/assignments.rs:72-79 | the hash has the values published for FNV-1a |
| Revision.BigEndianReadsBack | src/controller/assignments.rs:82-85 | the bytes hashed for an id are its own, most significant first |
| Revision.MixIsBijective | src/controller/assignments.rs:74-79 | mixing a byte is undone, both ways, by an explicit inverse on 64-bit states |
| Revision.SuffixKeepsApart | src/controller/assignments.rs:74-79 | different states stay different under any common suffix |
| Revision.WindowEditChangesHash | src/controller/assignments.rs:72-90 | inputs that differ only within a window of at most four bytes never share a revision |
| Revision.ShortInputsDiffer | src/controller/assignments.rs:74-79 | from one state, different inputs of equal length up to four bytes lead to different states |
| Revision.DegreeChangesRevision | src/controller/assignments.rs:87-87 | for one inventory no two 32-bit degrees share a revision |
| Revision.InputSeesIdsAndDegree | src/controller/assignments.rs:81-87 | what is hashed is the same iff targets followed by candidates, and the degree, are |
| Revision.InputDeterminesInventory | src/controller/assignments.rs:20-33 | for distinct targets with the candidates among them, what is hashed is the same iff targets, candidates and degree all are |
| Revision.BoundaryIsInvisible | src/controller/assignments.rs:81-86 | the bytes of targets and candidates are those of the joined list |
| ObservationIndex.ObservationIndex.Insert | src/diagnosis/context.rs:36-48 | the key holds the newer of the two, no other key changes |
| ObservationIndex.FromObservations | src/diagnosis/context.rs:51-57 | the index is that of the observations in order |
| ObservationIndex.ObservationIndex.Latest | src/diagnosis/context.rs:64-71 | a newest view, the greatest observer among equally new ones, or nothing iff there is no view |
| ObservationIndex.ObservationIndex.All | src/diagnosis/context.rs:74-84 | exactly the views, once each, strictly ascending by observer |
| ObservationIndex.IndexHoldsNewest | src/diagnosis/context.rs:35-57 | one newest observation for every key that occurred and nothing else |
| ObservationIndex.OrderIndependence | src/diagnosis/context.rs:35-57 | every permutation of the arrivals gives the same index iff no key has two different newest observations; repeats then do not matter either |
| ObservationIndex.LatestIsMaximum | src/diagnosis/context.rs:64-71 | the latest view is newest over everything ever inserted for the entity and probe |
| ObservationIndex.ViewsHaveDistinctObservers | src/diagnosis/context.rs:74-84 | one observer has one view per entity and probe |
| ObservationIndex.NewerStaysFresh | src/controller/diagnose.rs:52-65 | under one key anything newer than a fresh observation is fresh |
| ObservationIndex.FreshnessLasts | src/controller/diagnose.rs:52-65 | an observation lasts for its probe's horizon or else the fallback, the controller's own for the longer of the two |
| ObservationIndex.FreshnessCommutes | src/controller/diagnose.rs:102-123 | filtering by freshness before indexing equals indexing and then filtering |
| Recovery.WholeImpliesRoots | src/controller/diagnose.rs:236-324 | verifying all of an incident verifies its roots, also when no evidence is about a root |
| Recovery.UnreachableNeedsQuorum | src/controller/diagnose.rs:271-293 | a verified unreachability incident has two distinct observers other than the target, currently fine and later than all its selected network evidence, with no conclusive remote view disagreeing |
| Recovery.LastWordUndoesFault | src/controller/diagnose.rs:206-306 | over everything observed: elsewhere an incident verifies only if, for every selected fault, the newest observation of its reporter on that probe and entity is fresh, later and healthy |
| Recovery.LastWordsMakeTheQuorum | src/controller/diagnose.rs:206-293 | over everything observed: the quorum's two observers have a fresh and healthy newest observation of the host, later than the evidence |
| Recovery.FullRecoveryVerifies | src/controller/diagnose.rs:236-324 | conversely, once all conclusive evidence is undone by its observers or by a quorum, nothing involved is blamed and everything involved is healthy, roots and whole both verify |
| Recovery.SelectedRoots | src/controller/diagnose.rs:240-260 | the root selection is never empty when the whole is not, lies within it and holds all evidence about roots |
| Recovery.ViewsAreFresh | src/controller/diagnose.rs:206-222 | every view a verdict can use is fresh and was observed |
| Recovery.VerdictIsConsistent | src/controller/diagnose.rs:325-325 | the pair (roots, whole) is never (false, true) |
| Recovery.JudgeIncidents | src/controller/diagnose.rs:223-326 | exactly the active incidents nothing diagnoses get a verdict, no other id does, and it is consistent |
| RecoveryVerdict.VerdictIsRecovery | src/controller/diagnose.rs:223-325 | in one formula: the roots, and the whole, verify iff all evidence is still stored, some of it counts, current views have cleared each that counts, no diagnosis affects anything concerned, and every entity concerned is healthy, or unknown but measured, or a service without a state |
| RecoveryVerdict.RecoveredIsCleared | src/controller/diagnose.rs:267-306 | one piece of evidence is overtaken iff, for unreachability, two different others see the host and all others do later, healthy and confirmed, and otherwise its reporter's later, healthy and confirmed view does it, or anyone's if it was healthy |
| Recovery.Reconcile | src/incident/engine.rs:269-297 | the status of each such incident follows its verdict; diagnosed, resolved, reset and suppressed ones are unchanged |
| Recovery.ResolvedIsVerified | src/incident/engine.rs:275-293 | an incident is resolved iff all of it verifies, resolved or recovering iff its roots do, and otherwise open, or acknowledged if it was |
| Sessions.AgentRegistry.Register | src/controller/agents.rs:80-95 | the new session replaces whatever the identity had; one registration event of the run model |
| Sessions.AgentRegistry.Heartbeat | src/controller/agents.rs:115-133 | accepted iff the session is the current one, changing its last contact only |
| Sessions.AgentRegistry.Touch | src/controller/agents.rs:136-140 | changes the last contact of a known agent and nothing else |
| Sessions.AgentRegistry.constructor | src/controller/server.rs:103-103 | a restarted controller knows no sessions while ids issued before stay issued |
| Agents.Agent.Register | src/agent/mod.rs:501-524 | delivered, the agent holds the registry's current session; otherwise it keeps what it had, and the registry has the new session iff the request arrived |
| Agents.Agent.Heartbeat | src/agent/mod.rs:527-559 | from any state, a fully delivered exchange leaves agent and registry with the same session; in step, a beat that arrives renews the last contact and nothing else; an undelivered one leaves both sessions alone |
| Sessions.CurrentSessionsAreOwned | src/controller/agents.rs:75-95 | in every run each current session was issued and belongs to one identity |
| Sessions.SupersededStaysOut | src/controller/agents.rs:115-133 | in every run, restarts included, a session that was issued and is not current is never accepted again |
| Sessions.ReplacedIsSuperseded | src/controller/agents.rs:80-95 | registering again or restarting the controller supersedes the session held before |
| Sessions.SharedIdentity | src/controller/agents.rs:75-77 | exactly when two pairs of environment and host name derive one identity |
| Sessions.IdentitiesAreDistinct | src/controller/agents.rs:75-77 | environment names without the separator keep all hosts apart |
| Rfc3339.TextOrderIsTimeOrder | src/time.rs:23-25 | for four-digit years comparing texts compares instants to the microsecond |
| Rfc3339.TextOrderLimit | src/agent/spool.rs:224-229 | against a four-digit year the text order is the time order iff the other year is at most 9999 |
| Rfc3339Parse.ParseFormatted | src/time.rs:47-49 | parsing a formatted timestamp returns it truncated to microseconds; signed years do not parse |
| Rfc3339Parse.FormatParsed | src/time.rs:23-49 | of all spellings that parse, formatting returns exactly the canonical ones unchanged |
| Rfc3339Parse.CanonicalIsParsed | src/time.rs:46-49 | a text of the canonical shape parses to the instant of its fields, and not at all if they are no date |
| Rfc3339Parse.AnyOffsetParses | src/time.rs:46-49 | the time a clock at any offset shows, written with that offset, parses to the instant |
| Rfc3339Parse.FractionDigits | src/time.rs:46-49 | a zero behind a fraction changes nothing, and nine digits count nanoseconds |
| Rfc3339.CivilRoundTrip | src/time.rs:18-25 | going through calendar fields loses exactly what is below a microsecond |
| Rfc3339.CivilIsCanonical | src/time.rs:23-25 | every valid calendar value is the one its instant is rendered as |
| Rfc3339.KnownDays | src/time.rs:23-25 | dates about the epoch, leap days and centuries fall on the days the Gregorian calendar has them |
| Rfc3339.KnownText | src/time.rs:23-25 | the first example of section 5.8 of RFC 3339 |
| Mounts.UnescapeMountField | src/agent/system.rs:333-353 | the index loop computes the recursive decoding, escape by escape |
| Mounts.WhitespaceIs | src/agent/system.rs:316-316 | which characters separate fields: the ASCII ones, the next line, the no-break spaces and the Unicode separators |
| Mounts.EscapeReads | src/agent/system.rs:341-347 | an escape is a backslash, a digit up to 3 or a plus sign, and two octal digits, and what byte it stands for |
| Mounts.FieldsOfAnEntry | src/agent/system.rs:315-328 | two fields are no entry, three are one without options, and from the fifth on fields are ignored |
| Mounts.UnescapedAlone | src/agent/system.rs:333-353 | a field is left alone iff nowhere in it stands a backslash with three characters that read as a base-8 byte |
| Mounts.UnescapeInvertsEscape | src/agent/system.rs:333-353 | decoding inverts octal escaping of any set of single-byte characters that includes the backslash, for every field |
| Mounts.LineRecoveredIff | src/agent/system.rs:315-328 | a printed line is read back iff its paths hold no unescaped whitespace and its other fields need no escaping, none of them empty |
| Mounts.TableRecovered | src/agent/system.rs:313-330 | a printed table is read back iff every entry is |
| Mounts.UnescapedWhitespaceIsLost | src/agent/system.rs:316-320 | a target with whitespace the kernel leaves alone is never read back |

## Left out

- The HTTP server and client, TLS, credentials, protocol versions and error texts: a call is answered, lost on the way, lost on the way back, or refused.
- SQLite, write-ahead logging, locks and timers: the spool is a set of rows with distinct ids, each statement is one step, and an observation's payload is its length. Failures of storage other than the overflowing row limit, and payloads that do not decode, are not modelled.
- Rows and observations held in 64-bit counters: sums of sizes and counts of rows are unbounded numbers, apart from the row-limit arithmetic.
- UUIDv5 hashing: edge ids and agent identities are taken as their keys; that an edge id fixes its end points is a stated condition where it matters.
- Rfc3339Parse.FormatParsed: leap seconds and the typographic minus sign before an offset, which the time library may also read, are refused here.
- Spool.NothingOlderThanCutoff: timestamps are unbounded numbers, so for cutoffs before the year 0 the row that survives wrongly may lie before the earliest year the time library represents.
- PeerLoad.LoadIsEven: stated without edges and for stretches of targets that are not candidates themselves; for hosts that all watch each other there is `RingLoadIsEqual`, for any plan `LoadsAddUp`, and with edges the rotation is per bucket and `PeerFairness.RepresentationIsFair` is what holds.
- PeerChanges.RolesDecideThePlan: one way only, because equal plans do not need equal relations.
- Revision.WindowEditChangesHash: two inputs that differ in more than four neighbouring bytes may collide, as with any 64-bit hash.
- Spool.Spool.Evict: the cutoff is a parameter, since the clock and the configured age are not modelled.
- The state engine: whether a stream's recovery is confirmed is a parameter per key, entity health is a map, and which probes are enabled is decided before observations are indexed.
- Opening and refreshing incidents that are diagnosed, severity, timelines and notifications.
- Diagnosis rules, discovery, inventory merging, retention of the controller's store, reboot observations and registration classification.
- Filters over the inventory and the plan (`observer_candidates`, `targets_for`, `for_target`, `stale_since`, `dependencies_of_type`): they would only add easy members.
