# Review-safe entity resolution: a verified model

This project models the part of the system that decides which customer records may be merged, and proves the
safety properties the rest of the system leans on. Records are nodes, AUTO_MATCH decisions are machine edges,
recorded human MATCH and NO_MATCH decisions are edges and anti-edges, and two records may be in severe conflict.
Four pieces of code run a greedy, constraint-guarded union-find over that graph; a review workflow records human
decisions; a durable queue stores them; and around it sit blocking, dataset splits and timed sessions.

Code that updates state in place is modelled in place: the union-find structures, the workflow, the queue service
and the session service are classes, and the loops are loops. Each method is proved equal to a specification
function, or to a property stated outright, and the theorems are about those specifications.

## How the modules fit together

| files | what they hold |
|---|---|
| Results, Sorting, Records, Partitions | optional values, the stable sort, record pairs, partitions named by least member, reachability by paths |
| UnionFind, GreedyPass | the two id-ordered disjoint-set classes, and the guarded greedy pass all four passes are instances of |
| Resolution, Clustering | machine decisions, automatic clustering under the conflict guard |
| Review, Constraints, Authorization, Verdicts | recorded decisions, the NO_MATCH closure check, the authorization boundary and each of its answers |
| Integration, ClusterListing, GuardExample, Exclusion | the final clusters, their order and numbers, a busy guard that makes passes disagree, records still waiting for a human |
| Workflow, WorkflowRuns, Answers | the case state machine, every run of it, and when it accepts or refuses what |
| History, HistoryProofs, HistoryLaw, Reporting | the audit trail rebuilt from cases and events, what can be rebuilt at all, and the reduced snapshot |
| Service, ServiceProofs, ServiceAnswers, Schedule | the durable queue, its refinement of the workflow, what it accepts and stamps, and concurrent writers |
| JointMatches, EndToEnd | MATCHes that are acceptable alone but not together, and the cluster an accepted MATCH ends in |
| PersonUnionFind, PersonUnits, Splits, SplitAssignment, SplitValidators | dataset splits that never cut a component |
| BlockingKeys, Blocking, BlockingProofs | candidate generation against the all-pairs comparison |
| Calendar, Clock, Sessions, SessionService, SessionRuns, SessionSchedule | the timestamp format, the session state machine, and overlapping requests |

## Main results

- **Clustering is maximal.** With the guard on, no component holds a severe pair; an edge's ends finish together
  exactly when the edge was accepted; every refused edge's two components together hold a severe pair; and the
  guarded count is the number of AUTO_MATCH edges split across components.
- **The NO_MATCH check is reachability.** A MATCH is allowed exactly when no NO_MATCH pair is connected by a path of
  recorded MATCH pairs plus the new one.
- **Forcing is never needed.** The boundary, which forces the reviewed edge and then looks, accepts exactly when the
  projection without force already joins both records in a clean component, and then forcing changed nothing.
- **Every refusal has one reason.** Each of the boundary's answers is given exactly when a condition on recorded pairs and
  the unforced projection holds; a contradiction always names a NO_MATCH pair, and a severe conflict a severe pair, that
  AUTO_MATCH edges, MATCHes and the new pair connect; where no NO_MATCH exists the answer is reachability alone.
- **When a decision is accepted.** A NO_MATCH or DEFER exactly while its case is PENDING, whatever the context; a MATCH
  exactly when, besides, its context fits and it leaves its pair clean. The law is lifted to the durable queue, with the
  error of every refused call.
- **Clusters are listed by least record** under ids that never repeat, each series numbered 1, 2, 3 and so on.
- **Two separately written passes agree** on every set of recorded MATCHes exactly when the conflict guard refuses
  nothing on its own; the final cluster of an authorized MATCH is then the component the boundary projected.
- **When a final cluster is flagged.** With the guard on, a final cluster holds a severe pair exactly when some human
  edge, joined into it, brought one together at its turn, the question the human loop does not ask. An authorized
  MATCH ends in one cluster exactly when no NO_MATCH pair lay in its two components at its turn.
- **From storage to cluster.** What the service authorizes against the rebuilt snapshot holds of the clusters built
  from the full resolution.
- **Contradictions are exactly characterised.** A run's recorded decisions contradict each other exactly when some
  NO_MATCH was accepted on records that MATCHes already joined; from then on no MATCH is ever accepted again.
- **The stored queue refines the workflow.** After any sequence of accepted, refused or stale calls, under every
  schedule of concurrent writers, reconstruction returns the audit trail of one in-memory workflow given the accepted
  calls; entry k of that trail tells accepted call k; and deleting any of the stored events changes nothing.
- **What storage can be read back.** Reconstruction succeeds exactly when every resolution event tells of a stored case
  what the case tells of itself, no case has two, and the decided cases are numbered 1..n. Over every run event k and the
  row it decided carry the clock of accepted call k, and no creation stamp ever changes.
- **Version checks alone are not enough.** Two MATCHes can each be acceptable on one queue and be refused after one
  another in either order, and the model says exactly when. Without the serialized scope two decisions taken on one
  queue both pass their version checks and take one sequence number: the stored unique index then refuses the second,
  and without that index the history would no longer reconstruct. Inside the scope the index has nothing to refuse.
- **Bucketed blocking equals all pairs**, one reason per agreeing strategy, whatever the order of the records; two
  records share a phone key exactly when their last seven digits agree.
- **Splits never cut a component**, for every shuffle, and the validators accept what the assignment builds, exactly
  when the cuts the ratios make come in order; non-negative ratios always do. Train then holds exactly its share of the
  components left to cut, and every other split its share on top of those set aside for it.
- **Stamps are instants.** String order is time order, so the session store that compares strings refines one that
  compares instants; a session is usable exactly while its activity has no idle gap and its absolute bound is ahead.
- **Overlapping requests are serial.** Every interleaving of touches and revocations, each reading first and writing
  later, leaves what the same requests leave one after another.

## Where the code and its descriptions differ

The model follows the code.

- Only MATCH is checked (human_review/workflow.py:77-104). A NO_MATCH may contradict recorded MATCHes;
  `WorkflowRuns.NoMatchCanContradict` is a run that records one, and `WorkflowRuns.WhenACallContradicts` says exactly when.
- An authorized MATCH can still land in a flagged cluster when the conflict guard refuses an AUTO_MATCH edge, because
  the projection does not apply the guard and the human loop asks no severe question (human_review/authorization.py:60-68,
  human_review/integration.py:84-102); `GuardExample.BusyGuardFlagsAnAuthorizedMatch` is such a queue, and
  `Integration.AuthorizedMatchIsFlaggedExactlyWhen` gives the exact condition.
- Negative ratios that sum to one pass the ratio check (dataset/splits.py:87-89); Python then reads a negative cut from
  the end, and units can be dealt twice. `SplitAssignment.AssignSplits` says exactly when, and the leakage validator
  reports exactly those cases.
- The bar that joins the parts of a blocking key is not escaped (entity_resolution/blocking.py:49), so records that
  differ in every field of a strategy can share a key; `BlockingKeys.SharedKeyMeansSameFields` says exactly when they do.
- The branch that would drop a component without any edge (human_review/integration.py:137-138) is never taken;
  `Integration.EveryLargeComponentIsListed` proves it.
- Timeouts are durations with microseconds, but stored bounds are whole seconds: what is enforced is each timeout
  rounded down (identity/clock.py:88-98), and the timing law is stated with the rounded value.
  `SessionRuns.RoundingIsUnseenExactlyWhenWhole` says when that is never seen.
- The end anchor of the timestamp pattern also matches before a final newline (identity/clock.py:70-83); the length test
  is what rules that out, as `Clock.CanonicalIsTheForm` shows.

## Model

| member | source | states |
|---|---|---|
| Records.Ordered | entity_resolution/models.py:73-77 | the two ids, smaller first; a pair of distinct records exactly when they differ |
| Sorting.SortSorts | entity_resolution/clustering.py:71-78 | sorting by a total order leaves the items in that order |
| Sorting.SortKeepsAll | entity_resolution/clustering.py:71-78 | and loses or adds none |
| Sorting.SortIsStable | entity_resolution/blocking.py:119 | items that tie keep their order |
| Partitions.CanonicalIsUnique | entity_resolution/clustering.py:25-34 | two partitions naming classes by least member are equal when they relate the same records |
| Partitions.NamedByLeastMember | entity_resolution/clustering.py:29-34 | the name of a class is its least member, so sorting components by root sorts them by least record |
| Partitions.MergeKeepsSafe | human_review/constraints.py:74-81 | merging two classes that together hold no forbidden pair keeps every class free of forbidden pairs |
| Partitions.ClassesAreComponents | human_review/constraints.py:72-81 | a partition built only along edges that joins every edge has exactly the connected components as classes |
| Partitions.MergeAllIsReachability | human_review/constraints.py:72-81 | after any list of unions two records share a class exactly when a path of edges connects them |
| Partitions.MergeOrderIsIrrelevant | human_review/constraints.py:74-81 | the classes after a list of unions depend only on the set of edges, not on their order |
| UnionFind.LinksLeadToName | human_review/constraints.py:12-15 | with parents never above children every chain of links ends at the class's own least root |
| UnionFind.RepresentedIsCanonical | human_review/constraints.py:22-25 | linking larger roots below smaller ones makes every root the least member of its class |
| UnionFind.RepresentedIsUnique | human_review/constraints.py:8-29 | a parent map stands for one partition only |
| UnionFind.CompressKeepsClasses | entity_resolution/clustering.py:20-23 | re-pointing a node to any lower member of its class changes no class |
| UnionFind.LinkMergesClasses | entity_resolution/clustering.py:25-34 | linking the larger of two roots below the smaller joins exactly those two classes |
| UnionFind.CompressingUnionFind.constructor | entity_resolution/clustering.py:17-18 | every record starts alone in its class |
| UnionFind.CompressingUnionFind.Find | entity_resolution/clustering.py:20-23 | recursive find terminates, returns the least member of the class, and changes no class |
| UnionFind.CompressingUnionFind.Union | entity_resolution/clustering.py:25-34 | joins the two classes and nothing else, and reports whether they were apart |
| UnionFind.CompressingUnionFind.MembersOf | human_review/constraints.py:27-29 | returns the whole class of a record while find compresses underneath it |
| UnionFind.HalvingUnionFind.Find | human_review/authorization.py:34-38 | find with path halving terminates, returns the least member, and changes no class |
| UnionFind.HalvingUnionFind.ComponentMembers | human_review/authorization.py:40-43 | returns the members of both classes an edge would join |
| UnionFind.HalvingUnionFind.Union | human_review/authorization.py:45-53 | joins the two classes and nothing else |
| GreedyPass.GreedyGrows | human_review/authorization.py:60-82 | a longer pass only joins more, and never revisits the verdict on an earlier edge |
| GreedyPass.GreedyIsSafe | human_review/integration.py:76-102 | an unforced pass never puts a forbidden pair into one class |
| GreedyPass.RefusedForGoodReason | entity_resolution/clustering.py:88-96 | the final classes of a refused edge together hold a forbidden pair |
| GreedyPass.TakenIffJoined | entity_resolution/clustering.py:71-99 | an edge's ends finish in one class exactly when the edge was accepted |
| GreedyPass.RefusedAreSplit | entity_resolution/clustering.py:94-96 | the count of refused edges is the number of edges whose ends lie in two components |
| GreedyPass.GreedyMergesChosen | entity_resolution/clustering.py:98-99 | a pass ends with exactly the unions along the edges it accepted |
| GreedyPass.BigClassHoldsAnEdge | human_review/integration.py:128-138 | every class of two or more records holds both ends of an edge it was built along |
| GreedyPass.ForceWasNotNeeded | human_review/authorization.py:70-82 | if the class of a forced edge ends free of forbidden pairs, the whole pass equals the pass without force |
| GreedyPass.IdleExtraCanBeDropped | human_review/integration.py:80-91 | a restriction that never decided an edge on its own can be dropped without changing the pass |
| GreedyPass.IdleExactlyWhenPartitionsAgree | human_review/integration.py:84-91 | dropping a restriction leaves the final partition alone exactly when it never decided an edge on its own |
| GreedyPass.HoldsExactlyWhenBroughtTogether | human_review/integration.py:95-102 | a class holds a pair the pass does not ask about exactly when it held one from the start or some accepted edge brought one together at its turn |
| Resolution.GroupByRoot | entity_resolution/clustering.py:101-110 | grouping members by root and sorting by first member lists the components in ascending order of least record |
| Resolution.ComponentIsListed | entity_resolution/clustering.py:101-112 | every component is listed whole, in ascending order |
| Resolution.ListedIsComponent | entity_resolution/clustering.py:101-112 | every listed group is a component |
| Resolution.WithinKeepsOrder | entity_resolution/clustering.py:119-123 | the edges of a component keep their order, each as often as it was accepted |
| Clustering.HasSevereInternalConflict | entity_resolution/clustering.py:37-51 | the pairwise scan finds a conflict exactly when two members are in severe conflict |
| Clustering.SortByScoreSorts | entity_resolution/clustering.py:71-78 | edges are taken by falling score, ties by pair order, and none is lost or added |
| Clustering.HigherScoreComesFirst | entity_resolution/clustering.py:71-78 | of two decisions the higher score comes first, and of two that tie the smaller pair |
| Clustering.TryEdge | entity_resolution/clustering.py:79-99 | one turn accepts exactly when the two classes together hold no guarded severe pair |
| Clustering.AcceptEdges | entity_resolution/clustering.py:66-104 | the loop is the guarded greedy pass; accepted edges and the guarded count are those of the pass |
| Clustering.BuildEntityClusters | entity_resolution/clustering.py:54-134 | clusters are the components of two or more records, numbered by place among all components, with their accepted edges and conflict flag |
| Clustering.GuardedClusteringIsMaximal | entity_resolution/clustering.py:66-105 | guard on: no component holds a severe pair, joined exactly when accepted, refused only for a severe pair, guarded count equals split edges |
| Clustering.UnrefusedClusteringIsReachability | entity_resolution/clustering.py:88-99 | when nothing is refused, components are exactly AUTO_MATCH reachability, whatever the scores |
| Clustering.LargeComponentIsListed | entity_resolution/clustering.py:106-132 | every component of two or more records becomes a cluster, when there is an AUTO_MATCH at all |
| Clustering.ListedIsLargeComponent | entity_resolution/clustering.py:106-132 | every cluster is a whole component of two or more records |
| Clustering.GuardedClustersAreUnflagged | entity_resolution/clustering.py:88-96 | with the guard on no automatic cluster is flagged with an internal conflict |
| Constraints.NoMatchBlocksMerge | human_review/constraints.py:36-45 | true exactly when some NO_MATCH pair lies inside the two groups together |
| Constraints.HumanMatchAllowed | human_review/constraints.py:48-81 | succeeds exactly when no NO_MATCH pair, recorded or handed in, is connected by a path of MATCH pairs plus the new one; MATCH pairs handed in replace the recorded ones |
| Constraints.AllJoinable | human_review/constraints.py:74-81 | the check-then-union loop finishes exactly when the MATCH graph contradicts no NO_MATCH, in whatever order |
| Constraints.ContradictionGrows | human_review/models.py:201-215 | recording more decisions never removes a contradiction |
| Constraints.WhenNoMatchContradicts | human_review/workflow.py:77-104 | a new NO_MATCH contradicts a consistent record exactly when MATCH pairs already join its ends |
| Authorization.JoinInOrder | human_review/authorization.py:60-82 | both loops are greedy passes under NO_MATCH pairs with the forced pair joined unasked |
| Authorization.ProjectedComponent | human_review/authorization.py:20-85 | returns, sorted, exactly the anchor's component of the two-phase projection |
| Authorization.AuthorizeHumanMatch | human_review/authorization.py:97-155 | the closure check, then the record lookups, then the two component checks give the boundary's verdict |
| Authorization.CleanComponentNeedsNoForce | human_review/authorization.py:70-82 | a forced projection that leaves the reviewed component free of NO_MATCH pairs equals the unforced one |
| Authorization.JoinedUnforcedIsForced | human_review/authorization.py:70-82 | an unforced projection that joins the pair equals the forced one |
| Authorization.UnforcedIsSafe | human_review/authorization.py:60-82 | without force no component holds both records of a recorded NO_MATCH |
| Authorization.AuthorizedExactlyWhenCleanUnforced | human_review/authorization.py:108-155 | accepted exactly when the closure allows it, every record is known and the projection without force joins both records in a component with no NO_MATCH and no severe pair; then force changed nothing |
| Verdicts.ProjectionFollowsPaths | human_review/authorization.py:60-82 | a projection joins only records that AUTO_MATCH edges and MATCH pairs connect, forced or not |
| Verdicts.ForcedComponentDecides | human_review/authorization.py:133-149 | the forced component holds a NO_MATCH pair exactly when the unforced projection fails to join the pair cleanly, and otherwise a severe pair exactly when the unforced one does |
| Verdicts.EachVerdictExactlyWhen | human_review/authorization.py:108-155 | each answer exactly when: unknown record, contradiction (closure or component, before any severe conflict), severe conflict, authorized |
| Verdicts.ContradictionNeedsANoMatch | human_review/authorization.py:112-142 | a contradiction names a NO_MATCH pair whose ends AUTO_MATCH edges, MATCHes and the new pair connect; never one where no NO_MATCH exists |
| Verdicts.SevereConflictNeedsASeverePair | human_review/authorization.py:144-155 | a severe conflict names a severe pair those edges connect to the reviewed one; never one where no pair is severe |
| Verdicts.WithoutNoMatchesItIsReachability | human_review/authorization.py:133-155 | where no NO_MATCH exists: a severe conflict exactly when the edges connect the reviewed pair to both ends of a severe pair, otherwise authorized |
| Integration.JoinAutoEdges | human_review/integration.py:76-93 | the AUTO_MATCH loop is the greedy pass under NO_MATCH pairs and guarded severe pairs, and collects its accepted edges |
| Integration.BuildReviewAwareClusters | human_review/integration.py:33-155 | the final clusters of both passes; without an outcome, the automatic clusters (their members, order, numbers and flags: the rows of Integration and ClusterListing) |
| Integration.ReviewAwarePassIsMaximal | human_review/integration.py:74-107 | for any outcome: no component holds a NO_MATCH pair, a MATCH pair ends together exactly when not skipped, every skip has a NO_MATCH reason, every refused AUTO_MATCH a NO_MATCH or severe one |
| Integration.LargeComponentHoldsAnEdge | human_review/integration.py:112-138 | every component of two or more records holds an accepted AUTO_MATCH or a human edge |
| Integration.EveryLargeComponentIsListed | human_review/integration.py:112-153 | so every such component is listed, whole, with the right conflict flag |
| ClusterListing.FinalClustersAreListed | human_review/integration.py:109-138 | the final clusters come by least record, each numbered one more than the earlier clusters of its series, and no two share an id |
| ClusterListing.AutomaticClustersAreListed | entity_resolution/clustering.py:106-132 | automatic clusters come by least record, each numbered by its place among all components, and no two share an id |
| Integration.GuardOffIsIdle | human_review/integration.py:84-91 | a guard that is off decides nothing |
| Integration.AutoPassesAgreeExactlyWhenIdle | human_review/integration.py:76-93 | guarded and unguarded AUTO_MATCH passes build the same components exactly when the guard never decided alone |
| Integration.PassesAgree | human_review/integration.py:74-102 | while the guard is idle, final clustering and the boundary's projection build the same partition |
| Integration.PassesAgreeExactlyWhenIdle | human_review/integration.py:74-102 | the two passes build the same partition for every set of recorded MATCHes exactly when the guard is idle |
| Integration.AuthorizedMatchBuildsItsProjection | human_review/authorization.py:119-155 | the final cluster of an authorized MATCH is exactly the projected component: it holds both records, no NO_MATCH pair, and is not flagged |
| Integration.ConflictedExactlyWhenAHumanEdgeCrosses | human_review/integration.py:95-102 | guard on: a final component holds a severe pair exactly when a human edge joined into it brought one together at its turn |
| Integration.ConflictedWithoutTheGuard | human_review/integration.py:84-102 | guard on or off: exactly when AUTO_MATCH edges or a human edge brought one together |
| Integration.FlaggedExactlyWhenAHumanEdgeCrosses | human_review/integration.py:112-153 | every listed cluster is a whole component and flagged in exactly those cases |
| Integration.JoinedExactlyWhenJoinsAtItsTurn | human_review/integration.py:95-102 | a recorded MATCH ends in one component exactly when no NO_MATCH pair lay in its two components at its turn |
| Integration.AuthorizedMatchIsFlaggedExactlyWhen | human_review/authorization.py:144-155 | for an authorized MATCH with the guard on: when it ends in one listed cluster, and when that cluster is flagged, each exactly |
| GuardExample.BusyGuardFlagsAnAuthorizedMatch | human_review/integration.py:84-102 | a queue whose authorized MATCH is listed in a flagged cluster, because the guard kept an AUTO_MATCH edge out |
| Workflow.CheckMatch | human_review/workflow.py:77-104 | refuses a MATCH exactly for missing context, unknown reviewed records, a contradiction, an unknown record on an edge, or a severe conflict, whichever comes first |
| Workflow.ReviewWorkflow.GetCase | human_review/workflow.py:54-58 | finds the first case with the id, or reports it missing |
| Workflow.ReviewWorkflow.ResolveCase | human_review/workflow.py:60-140 | one call gives the specified next state: that case decided, one entry appended, the counter moved by one; refused calls leave the state alone (which calls, and why: the rows of Answers) |
| WorkflowRuns.RecordedPairs | human_review/models.py:201-215 | an accepted decision adds exactly its pair on exactly its side |
| WorkflowRuns.AcceptedMatchLeavesConsistent | human_review/workflow.py:77-104 | right after an accepted MATCH the recorded MATCH graph joins no recorded NO_MATCH pair |
| WorkflowRuns.ContradictionRefusesMatch | human_review/constraints.py:55-81 | in a contradictory state every MATCH is refused, on any pair and in any context |
| WorkflowRuns.ContradictionIsForever | human_review/workflow.py:70-140 | once contradictory, no MATCH is accepted in any continuation |
| WorkflowRuns.WhenACallContradicts | human_review/workflow.py:77-140 | a call makes a consistent state contradictory exactly when it is an accepted NO_MATCH on records MATCHes already join |
| WorkflowRuns.RunContradictsExactlyWhenSplit | human_review/workflow.py:60-140 | over every run: contradictory at the end exactly when some call along it split a component |
| WorkflowRuns.RunKeepsHistory | human_review/workflow.py:105-140 | over every run the trail only grows at its end and a resolved case never changes |
| WorkflowRuns.AcceptedCallRecordsItself | human_review/workflow.py:105-140 | an accepted call appends the one entry that tells it, with the action its decision has downstream, decides its own PENDING case the way it says, and touches no other; a refused call changes nothing |
| WorkflowRuns.TrailTellsAcceptedCalls | human_review/workflow.py:105-140 | over every run the trail gains exactly the accepted calls, in order, under consecutive numbers |
| WorkflowRuns.NoMatchCanContradict | human_review/workflow.py:77-104 | a run from pending cases, MATCH, MATCH and NO_MATCH, consistent until its last call and contradictory after it |
| Answers.AcceptedExactlyWhen | human_review/workflow.py:70-140 | a NO_MATCH or DEFER is accepted exactly when some case has the id and is PENDING; a MATCH exactly when, besides, the context fits, all records are known and its pair is left clean |
| Answers.RefusedBeforeAuthorization | human_review/workflow.py:54-75 | not found exactly when no case has the id; an invalid transition exactly when the case that has it is no longer PENDING |
| Answers.MatchRefusedExactlyWhen | human_review/workflow.py:77-104 | which error a MATCH on a PENDING case gets: missing context, unknown record, contradiction, severe conflict, each exactly |
| Answers.RefusalNamesAPath | human_review/authorization.py:133-155 | a contradiction names a recorded NO_MATCH pair, a severe conflict a severe pair, that the edges connect |
| Exclusion.ReviewExcludedRecordIds | human_review/integration.py:15-30 | a record is excluded exactly when some queued pair of it is undecided: PENDING, DEFERRED or without a case |
| Exclusion.ExcludedExactlyWhen | human_review/integration.py:19-30 | excluded exactly when some queued pair of the record has no case, or its last case is PENDING or DEFERRED; with no outcome every queued record |
| Exclusion.ExclusionOnlyShrinks | human_review/integration.py:15-30 | over every run no record becomes excluded that was not |
| Exclusion.DeferralExcludesForever | human_review/workflow.py:27-40 | both records of a deferred pair stay excluded in every continuation |
| History.EventFrom | review_application/models.py:235-262 | the event of an audit entry meets every check an event is built under |
| History.ResolutionEventsByCase | review_application/history.py:92-117 | indexes the resolution events by case, or rejects an unknown case, a second event or a disagreement |
| History.ReconstructHistory | review_application/history.py:67-89 | gives the sorted entries of the resolved cases numbered 1..n, or fails closed |
| HistoryProofs.SortedCasesAreTrail | review_application/history.py:84-89 | sorting what the resolved cases say by sequence gives back the trail they were written from |
| HistoryProofs.ReconstructionReturnsTrail | review_application/history.py:67-89 | on cases and events written from a trail, reconstruction returns that trail and the next number |
| HistoryProofs.EventsAreRedundant | review_application/history.py:40-64 | deleting any of the events leaves the reconstruction unchanged |
| HistoryProofs.SuccessNumbersCases | review_application/history.py:185-199 | whenever reconstruction succeeds, resolved cases and the numbers 1..n are in bijection |
| HistoryLaw.IndexesExactlyWhen | review_application/history.py:92-148 | the events can be indexed exactly when each tells of a stored case its status, decision, number and reviewer, and no case has two |
| HistoryLaw.ReconstructsExactlyWhen | review_application/history.py:67-199 | reconstruction succeeds exactly when that holds, each event names the pair of its case, and the decided cases are numbered 1..n; otherwise it fails closed |
| HistoryLaw.EntryComesFromEventOrCase | review_application/history.py:75-82 | the entry of a decided case is the one its event carries, where it has an event, and otherwise what the case says |
| HistoryLaw.SecondEventIsRejected | review_application/history.py:107-114 | a second resolution event of one case makes reconstruction fail |
| HistoryLaw.OtherReviewerIsRejected | review_application/history.py:139-143 | an event that names another reviewer makes it fail |
| Reporting.RebuildResolution | human_review/reporting.py:75-115 | succeeds exactly when every entry is a pair, and gives one AUTO_MATCH decision an entry, in order |
| Reporting.RebuiltIsTheSnapshot | human_review/reporting.py:75-115 | a snapshot rebuilds exactly when every entry is a pair, into those pairs as AUTO_MATCH edges, in order |
| Reporting.SnapshotKeepsAutoEdges | human_review/reporting.py:64-72 | the AUTO_MATCH edges survive the snapshot round trip, in order |
| Reporting.SnapshotKeepsVerdicts | human_review/reporting.py:64-134 | the boundary gives the same verdict on the rebuilt resolution as on the full one, for every pair, outcome and record map |
| Service.ReviewQueueService.EntityResolutionConfig | review_application/service.py:278-312 | no stored path gives none, a first read is kept for the life of the service, an unreadable file is an error that caches nothing |
| Service.ConfigIsReadOnce | review_application/service.py:120-124 | over the life of a service every lookup answers the first configuration that could be read, whatever the file holds later, and an error until then |
| Service.ReviewQueueService.AuthorizationContext | review_application/service.py:250-276 | the context is assembled for MATCH only, from the rebuilt snapshot and the held configuration |
| Service.ReviewQueueService.ResolveCase | review_application/service.py:126-200 | load, locate, check the version, decide, write; the specified store when accepted, and no change at all when refused |
| ServiceProofs.RecordedIsFaithful | human_review/workflow.py:105-129 | an accepted decision keeps the trail exactly what the resolved cases say |
| ServiceProofs.LoadedIsStored | review_application/models.py:363-369 | a loaded bundle is the workflow state that was stored |
| ServiceProofs.AcceptedIsWritten | review_application/service.py:174-193 | the write of an accepted decision always goes through and stores the state the workflow returned |
| ServiceProofs.RunStoresWorkflow | review_application/service.py:162-200 | after any calls on a registered queue the store holds the state of one workflow given the accepted calls |
| ServiceProofs.ServiceRefinesWorkflow | review_application/service.py:162-200 | reconstruction succeeds and returns exactly that workflow's trail and next sequence |
| ServiceProofs.StoredTrailTellsAcceptedCalls | review_application/history.py:67-89 | entry k of the history reconstructed from storage tells accepted call k |
| ServiceProofs.ReachableEventsAreRedundant | review_application/history.py:75-88 | on every reachable store, deleting any subset of events leaves the reconstruction unchanged |
| ServiceProofs.EachCaseIsResolvedOnce | review_application/service.py:324-338 | each case is resolved at most once, stored at version 1 while PENDING and 2 ever after |
| ServiceAnswers.LoadsExactlyWhen | review_application/service.py:162-163 | a queue loads exactly when its cases and events tell one story and its records cover its cases; otherwise every call is refused, for the history first |
| ServiceAnswers.AcceptedExactlyWhen | review_application/service.py:162-193 | on every reachable store a NO_MATCH or DEFER is accepted exactly when its case is PENDING and the version current, whatever the snapshot and the configuration; a MATCH exactly when, besides, both can be read and it is clean |
| ServiceAnswers.ReachableAcceptedExactlyWhen | review_application/service.py:162-193 | the same after any run on a registered queue |
| ServiceAnswers.RefusedExactlyWhen | review_application/service.py:162-172 | the error of every refused call, in order: unknown case, stale version, unreadable snapshot, unreadable configuration, what the workflow answers |
| ServiceAnswers.MatchIsJudgedOnTheQueue | review_application/service.py:264-268 | a MATCH is judged against the stored edges, the stored records and the configuration found |
| ServiceAnswers.WritesExactlyWhen | review_application/service.py:174-221 | the write goes through exactly when the last entry is of the requested case, the row is at the version seen, and no stored event already records that decision |
| ServiceAnswers.AcceptedVisitWrites | review_application/models.py:102-118 | an accepted call appends one event under its own clock, decision and reviewer; the decided row moves one version on, keeps its creation stamp and takes that clock; other rows stay |
| ServiceAnswers.RunStampsWhatItAccepts | review_application/service.py:181-189 | over every run event k is the one accepted call k wrote, and each decided row carries the clock, decision and reviewer of the call its number names |
| Schedule.EveryScheduleIsSerial | review_application/repository.py:50-83 | every interleaving of writers stores what the calls store one after another in commit order, and a held decision is always about the stored state |
| Schedule.EveryScheduleStoresAWorkflow | review_application/service.py:162-193 | every schedule on a registered queue leaves the trail of one in-memory workflow |
| Schedule.EveryScheduleKeepsSequencesUnique | review_persistence/schema.py:393-407 | inside the scope no schedule ever stores two events under one sequence number |
| Schedule.IndexRefusesTheSecondWrite | review_persistence/schema.py:403-407 | of two decisions from one bundle the first may be stored, and the second is what the unique index refuses |
| Schedule.SharedNumberIsRejected | review_application/history.py:185-199 | two cases under one sequence number are never reconstructed |
| Schedule.VersionCheckAloneIsNotEnough | review_persistence/schema.py:385-391 | without the scope and without the index, two decisions from one bundle both pass their version checks and leave a history that does not reconstruct |
| JointMatches.RefusedExactlyWhenUnclean | human_review/authorization.py:108-155 | on whatever is recorded by then, a MATCH is refused exactly when recording it leaves a contradiction, its pair apart, or a severe pair in its component |
| JointMatches.SecondRefusedExactlyWhenUnclean | review_application/repository.py:61-66 | a MATCH accepted on one queue is refused after another exactly when both together would be unclean for it |
| JointMatches.NeitherOrderAcceptsBothExactlyWhen | review_application/repository.py:61-66 | two MATCHes each accepted on one queue: neither order accepts both exactly when both together are unclean for each |
| JointMatches.EachAloneButNotBoth | review_application/repository.py:61-66 | such a queue: two MATCHes that together would join a severe pair |
| EndToEnd.AcceptedMatchGetsACleanCluster | review_application/service.py:126-200 | while the guard is idle, the cluster listed from the full resolution for a MATCH the service accepted holds both records, no NO_MATCH and no severe pair |
| EndToEnd.AcceptedMatchIsFlaggedExactlyWhen | review_application/service.py:126-200 | guard on, idle or busy: when the accepted MATCH is listed in one cluster and when that is flagged, each exactly |
| PersonUnionFinds.PersonUnionFind.Find | dataset/splits.py:50-54 | path halving terminates without any order on ids and changes no class |
| PersonUnionFinds.PersonUnionFind.Union | dataset/splits.py:56-60 | joins exactly the two classes |
| PersonUnits.PairPersonUnits | dataset/splits.py:44-73 | the units are the connected components of the hard-negative pairs among known people, each person in one |
| Splits.Shuffle | dataset/splits.py:110-111 | some permutation; every later result holds for all of them |
| Splits.Share | dataset/splits.py:123-126 | the share is the ratio of the count rounded toward zero, for ratios of either sign |
| Splits.PopUnits | dataset/splits.py:113-118 | as many as required, or all there are, move; nothing is lost |
| Splits.ReserveUnits | dataset/splits.py:113-118 | exactly the units set aside for each split move, all of them multi-person, and nothing is lost |
| Splits.ReservedInOrder | dataset/splits.py:113-118 | train gets none, no split more than its minimum, together all that is asked for or all there is, and none while an earlier split is short |
| Splits.CutByRatio | dataset/splits.py:123-136 | each split gets the slice between its bounds, as long as its share; the remaining units are dealt in order, none twice, exactly when the cuts come in order, and otherwise some twice |
| Splits.EachSplitGetsItsShare | dataset/splits.py:123-136 | when the shares fit, train, validation and test get exactly the rounded shares of their ratios, and the rest goes to the final holdout, or to test |
| Splits.NonNegativeSharesFit | dataset/splits.py:87-126 | shares of non-negative ratios that pass the ratio check always fit, for fewer than a million units |
| Splits.NegativeBoundDropsFromTheEnd | dataset/splits.py:128-134 | a negative bound is read from the end, and one past the front leaves none |
| Splits.NonNegativeCutsAreInOrder | dataset/splits.py:123-126 | non-negative ratios cut in order |
| Splits.DealUnits | dataset/splits.py:98-136 | every unit lands in exactly one split when the cuts come in order; every split is dealt what was set aside for it and its share of the rest |
| SplitAssignment.AssignSplits | dataset/splits.py:76-142 | for every shuffle and all ratios: an error exactly when they do not sum to one; everyone in one split and no component cut exactly when the cuts come in order, and somebody listed twice exactly when not; in order, each split holds the components set aside for it and its share of those left to cut |
| SplitAssignment.EachSplitHoldsItsShare | dataset/splits.py:123-136 | when the shares fit, train holds exactly its share of the components left to cut, and the others theirs on top of what was set aside, with the rest in the final holdout or in test |
| SplitAssignment.MultiHoldsAPair | dataset/splits.py:65-73 | every multi-person component holds a listed pair |
| SplitAssignment.DealtMeetsCoverage | dataset/splits.py:113-142 | each split holds at least one hard-negative pair for every component set aside for it, and its minimum whenever there are enough for all |
| SplitAssignment.PairsAreCounted | dataset/splits.py:184-189 | the pairs credited to a split are those both of whose people it holds |
| SplitValidators.ValidateNoSplitLeakage | dataset/splits.py:145-153 | passes exactly when nobody is listed twice, in one split or two |
| SplitValidators.ValidateHardNegativePairAtomicity | dataset/splits.py:156-174 | passes exactly when no pair of assigned people spans two splits |
| SplitValidators.FiledUnderTheLast | dataset/splits.py:161-165 | of several splits that list a person the last one counts |
| SplitValidators.ValidateHardNegativeCoverage | dataset/splits.py:177-195 | passes exactly when every named split holds its minimum of pairs |
| SplitValidators.AssignmentPasses | dataset/splits.py:145-174 | leakage and atomicity never reject an assignment |
| SplitValidators.BuildSplits | dataset/splits.py:198-245 | what is returned is an assignment dealt by share that meets every named minimum; leakage is reported exactly for cuts out of order, atomicity never; coverage never fails when the minimums name evaluation splits and fit the multi-person components |
| SplitValidators.NonNegativeRatiosDealInOrder | dataset/splits.py:98-142 | with non-negative ratios the cuts always come in order |
| BlockingKeys.BuildBlockingKey | entity_resolution/blocking.py:24-52 | the key of a strategy, or none when a value is missing or the key too short |
| BlockingKeys.KeyExistsExactlyWhen | entity_resolution/blocking.py:37-52 | a strategy over named fields gives a key exactly when the record has them all and the joined values are long enough |
| BlockingKeys.DigitsOneMore | entity_resolution/blocking.py:18 | the digits of a text, character by character |
| BlockingKeys.PhoneKeyIsTheLastSeven | entity_resolution/blocking.py:14-21 | a phone has a last-seven key exactly when it holds at least seven digits, and the key is the last seven of them |
| BlockingKeys.SharedPhoneKeyExactlyWhen | entity_resolution/blocking.py:31-35 | two records with a phone share the key exactly when their last seven digits agree and the minimum length is at most seven |
| BlockingKeys.SharedKeyMeansSameFields | entity_resolution/blocking.py:37-52 | records with one key agree on every field exactly when the values after the first hold equally many bars |
| BlockingKeys.DifferentFieldsCanShareAKey | entity_resolution/blocking.py:49-52 | two records that differ in both fields and share a key |
| BlockingKeys.SamePhoneMeansSameLast7 | entity_resolution/blocking.py:14-35 | records that share an exact phone key share a last-seven key |
| Blocking.FillBuckets | entity_resolution/blocking.py:92-101 | every record with a key is in that key's bucket, once, and nothing else is |
| Blocking.PairsFromBucket | entity_resolution/blocking.py:55-75 | every two records of a bucket, in order, each pair once |
| Blocking.AddStrategy | entity_resolution/blocking.py:89-110 | one strategy appends one reason to exactly the pairs it agrees on, whatever the bucket order |
| Blocking.GenerateCandidates | entity_resolution/blocking.py:82-122 | bucketed blocking computes the all-pairs comparison |
| BlockingProofs.ListedExactlyWhenSomeStrategyAgrees | entity_resolution/blocking.py:82-122 | a pair is a candidate exactly when some strategy gives both records the same key |
| BlockingProofs.SameLastSevenIsListed | entity_resolution/blocking.py:14-35 | with a last-seven strategy in use, two records whose last seven digits agree are listed, whatever comes before them |
| BlockingProofs.ListedExactlyWhenLastSevenAgree | entity_resolution/blocking.py:14-35 | with that strategy alone, exactly those are |
| BlockingProofs.CandidatesAreOrdered | entity_resolution/blocking.py:112-122 | strictly ordered by pair, so each is listed once |
| BlockingProofs.SortReasonsSorts | entity_resolution/blocking.py:119 | reasons are ordered by the value of their type |
| BlockingProofs.RankIsStringOrder | entity_resolution/models.py:14-21 | that order is the string order of the values |
| BlockingProofs.SortReasonsKeepsAll | entity_resolution/blocking.py:119 | and none is lost or added |
| BlockingProofs.SortReasonsIsStable | entity_resolution/blocking.py:119 | and reasons of one type keep strategy order |
| BlockingProofs.CandidateHoldsOneReasonPerStrategy | entity_resolution/blocking.py:104-121 | each candidate carries exactly one reason per agreeing strategy |
| BlockingProofs.CandidateSaysWhy | entity_resolution/blocking.py:104-110 | every reason names a strategy that gives both records its key, and every such strategy is named |
| BlockingProofs.RecordOrderIsIrrelevant | entity_resolution/blocking.py:82-122 | shuffling the records changes nothing in the outcome |
| BlockingProofs.NewRecordOnlyAddsItsOwnPairs | entity_resolution/blocking.py:82-122 | a new record leaves the candidates between the others as they were |
| BlockingProofs.AllPairsCounted | entity_resolution/blocking.py:125-128 | the possible pair count is the number of pairs there are |
| BlockingProofs.ReductionRatioIsAShare | entity_resolution/blocking.py:131-139 | candidates are at most n(n-1)/2, the ratio lies in [0,1], and is 0 exactly when every pair is listed |
| Calendar.FieldOrderIsTimeOrder | identity/clock.py:60-66 | comparing date fields left to right is comparing instants |
| Calendar.KnownInstants | identity/clock.py:60-66 | a few dates, a leap day and a missing one among them, and their instants |
| Calendar.At | identity/clock.py:88-98 | every instant up to year 9999 has valid date fields that name it |
| Calendar.InstantRoundTrip | identity/clock.py:88-98 | and those fields are the only ones |
| Clock.FieldsOfFormat | identity/clock.py:69-83 | six numbers that fit their widths are what reading the stamp finds again |
| Clock.FormatOfFields | identity/clock.py:69-83 | a text of the form is the one text with those numbers, 20 characters long |
| Clock.CanonicalIsTheForm | identity/clock.py:73-83 | the check lets through exactly the texts of the form; the pattern alone would let a final newline pass |
| Clock.FormatIsCanonical | identity/clock.py:106-121 | what the formatter writes always passes its own check |
| Clock.ParseOfFormat | identity/clock.py:124-132 | parsing a formatted moment gives it back |
| Clock.FormatOfParse | identity/clock.py:124-132 | a canonical stamp that parses is the only stamp of its moment |
| Clock.StringOrderIsTimeOrder | identity/clock.py:47-66 | string order of stamps is the order of their instants |
| Clock.StampsAreInstants | identity/clock.py:47-66 | stamps and instants are in order-preserving bijection |
| Clock.ParsedTextsSortByTime | identity/clock.py:73-83 | the same for any two texts that parse |
| Clock.ParsesExactlyWhenFormatted | identity/clock.py:124-132 | a text parses exactly when it is the stamp of some valid datetime |
| Sessions.Later | identity/session_service.py:111-113 | adding a timeout and formatting rounds down, and fails exactly past year 9999 |
| Sessions.StringsDecideLikeInstants | review_persistence/sqlite/session_repository.py:67-75 | the conditions of the conditional update decide like instants |
| Sessions.RowReadsBack | identity/sessions.py:160-184 | the construction check never fires and every stored bound reads back as it was computed |
| Sessions.ValidMeansAlive | identity/sessions.py:186-204 | valid exactly while unrevoked and before the capped idle bound |
| Sessions.RenewIsRenewed | review_persistence/sqlite/session_repository.py:53-75 | the conditional write lands exactly when activity does not move back and the session is alive |
| SessionServices.CreatedStoresALife | identity/session_service.py:109-124 | a created row stores a life starting now, with both bounds; an error exactly when the absolute bound is past year 9999 |
| SessionServices.UsableMeansAlive | identity/session_service.py:237-251 | the check passes exactly while the stored life is alive, and names the right reason otherwise |
| SessionServices.TouchedStoresTouchedLife | identity/session_service.py:153-197 | a touch of the stored strings leaves the row of the touched life: renewed exactly while alive, unless later activity is already stored |
| SessionServices.TouchAnswersWhileAlive | identity/session_service.py:176-197 | a touch answers a session exactly while it is alive and the renewed bound is a date, and answers what it leaves stored |
| SessionServices.TouchRefusedBecause | identity/session_service.py:166-180 | the error of a refused touch: revoked, absolute expiry, idle expiry, or a renewed bound past year 9999, in that order |
| SessionServices.SessionRepository.CreateSession | review_persistence/sqlite/session_repository.py:112-146 | stores a row unless its id or token digest is already there |
| SessionServices.SessionRepository.TouchSession | review_persistence/sqlite/session_repository.py:170-198 | the conditional renewal of one row, or nothing |
| SessionServices.SessionRepository.RevokeSession | review_persistence/sqlite/session_repository.py:200-210 | stamps a revocation once and keeps the row |
| SessionServices.SessionService.CreateSession | identity/session_service.py:90-128 | the row stored exactly when the user is active, the bound is a date and id and token are new; otherwise the one error of the first check that fails, and nothing written |
| SessionServices.SessionService.ResolveSession | identity/session_service.py:132-149 | reads only; not found, unusable, owner gone, owner inactive, in that order |
| SessionServices.SessionService.TouchSession | identity/session_service.py:153-197 | only the row of that token changes, to what a touch makes of it |
| SessionServices.SessionService.RevokeSession | identity/session_service.py:201-220 | only the row of that token changes; the first stamp stands, on live and ended sessions alike |
| SessionRuns.RowsRefineLives | identity/clock.py:47-66 | over every run and any clock, storing and comparing strings refines keeping and comparing instants |
| SessionRuns.UsableExactlyWhenActive | identity/session_service.py:109-197 | the timing law: usable exactly when never revoked, before creation plus the absolute timeout, every activity gap below the idle timeout |
| SessionRuns.EndedStaysEnded | identity/session_service.py:166-173 | an ended session is never renewed again |
| SessionRuns.RevocationIsKept | identity/session_service.py:201-220 | a run that holds a revocation leaves a revoked session |
| SessionRuns.BoundsNeverMoveBack | review_persistence/sqlite/session_repository.py:53-75 | any order, any clock: the absolute bound never moves, activity and idle bound never move back, the first revocation freezes the row |
| SessionRuns.StaleReadsWriteTheSame | identity/session_service.py:176-197 | one write computed from an earlier row lands on the stored row as a touch of that row would |
| SessionRuns.LandingOrderIsIrrelevant | review_persistence/sqlite/session_repository.py:53-75 | touches made while alive leave the same row in whatever order they land |
| SessionRuns.RoundingIsUnseenExactlyWhenWhole | identity/sessions.py:109-125 | comparing gaps with the rounded timeouts is comparing with the configured ones exactly when both are whole seconds |
| SessionRuns.PartOfASecondIsLost | identity/session_service.py:111-113 | any other idle timeout ends an untouched session before it has passed |
| SessionSchedules.EveryInterleavingIsSerial | identity/session_service.py:176-220 | every interleaving of requests that read and then write leaves the row of a serial order of the finished requests, each once |
| SessionSchedules.FinishedComesFirst | identity/session_service.py:176-220 | that order puts requests that had finished before those begun later |

## Left out

- Match scoring: `decide_pair_match`, evidence weights and similarity are not modelled; a decision arrives with its verdict and score.
- Severe conflict: whether two records conflict severely depends on their contents; the model takes the set of conflicting pairs as given, smaller id first, and leaves out the descriptions.
- Record ids, person ids and user ids are numbers; only their order and equality matter.
- Distinctness: the two records of a stored pair differ, and a record list holds each id once.
- Reporting.RebuildResolution: an entry naming one record twice is not modelled, because a pair of the model has two records; such an edge would join nothing.
- Blocking.GenerateCandidates: a record list with one id twice is not modelled, because a pair of the model has two records.
- Blocking.FillBuckets: the same holds of the records it files.
- Blocking.AddStrategy: the same holds of the records it files.
- Blocking.PairsFromBucket: the same holds of the ids in a bucket.
- Key errors: in authorization an unknown record is a verdict of its own; elsewhere records named by edges are known.
- `build_human_match_components` iterates over a pair, which is not iterable, so it has no result to model on a non-empty match set.
- Text checks: blank ids, blank reviewer ids and blank timestamps are refused by the original on construction; ids and stamps are plain values here.
- Event payloads: the stored payload of a resolution event is modelled as the audit entry it projects, not as a dictionary that could lack keys.
- Semantic suggestions: suggestion and creation events may be stored before a run and are ignored by reconstruction; recording new ones during a run is not modelled.
- The queue's database: storage is modelled by its written contract, a serialized scope with a conditional update and one appended row; of its other constraints only the unique sequence index is stated; tables and tenancy are not.
- The session database: its check that the absolute bound lies after creation only matters for timeouts below one second and is not modelled.
- SessionSchedules.EveryInterleavingIsSerial: it is about the stored row; the answer of a touch whose write did not apply, read once more afterwards, is not compared.
- Tokens: generation and hashing are not modelled; a session is found by the digest of its token, and digests are distinct.
- Normalisation of field values and Unicode digits: blocking starts from normalised values, and stamps use the ten ASCII digits.
- Non-canonical timestamps: the original's parser reads more formats than the formatter writes; here other texts do not parse.
- Splits.Share: rounding of floating-point products is not modelled; ratios are real numbers.
- Splits.Shuffle: any permutation stands for the seeded generator.
- Split names outside train, validation, test and final_holdout in the minimums are not modelled, nor is the assignment used without hard-negative pairs.
- Survivorship, schema mapping, validation rules, the HTTP layer, reports, loaders and the frontend are not part of this model.
