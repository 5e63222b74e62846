# DIGIT services: a Dafny model of the stateful cores

This project models five parts of the platform's services and proves what they keep over whole runs. Database
tables are sequences or maps held by repository classes, a database transaction is one step, and a query is a
filter. Each class method is proved equal to a specification function of its inputs and the old state; the lemmas
are about those functions. The modules named `...Rows`, `WorkflowSteps`, `IdPieces` and `IdRuns` say what these functions
write and answer in terms of stored rows and requests alone: every column, every error, and what stays as it was.
`dafny verify dfyconfig.toml` checks everything.

| part | files |
|---|---|
| workflow transitions: fork, join, merge | `WorkflowModel`, `WorkflowService`, `WorkflowHistory`, `WorkflowOrigins`, `WorkflowRuns`, `WorkflowJoin`, `WorkflowMerge`, `WorkflowContents`, `WorkflowRows`, `WorkflowSteps`, `WorkflowExample`, `JoinRace`, `JoinRows`, `AttributeGuard` |
| boundary tree by materialized paths | `BoundaryPaths`, `BoundaryTreeRows`, `BoundaryMoves`, `BoundarySearch` |
| boundary search cache and its matcher | `Glob`, `InMemoryCache`, `BoundaryCache`, `BoundaryDrops`, `BoundaryBatches`, `BoundaryRows`, `BoundaryRuns`, `BoundaryCacheLimits` |
| localization index and cache | `LocalizationModel`, `LocalizationService`, `LocalizationIndex`, `LocalizationAnswers`, `LocalizationUpdates`, `LocalizationRows`, `LocalizationCache`, `LocalizationExamples` |
| identifiers and short keys | `IdTemplate`, `IdSequence`, `IdService`, `IdPieces`, `IdRuns`, `Base62` |
| shared | `GoStrings`, `Sql`, `Lists`, `Prelude` |

**Workflow.** A transition picks a row, checks a guard, and appends linear, branch, waiting or merged rows.
`History` is the invariant of every run: earlier rows never change but for their flag, the flag marks the last row of
each class, and every row was written by a request from the row picked for it. `Balanced` is the invariant of a key that is forked
at most once. Hypotheses appear where they are needed: one action per name and state (`UniqueNames`), and parallel
states with distinct branches (`GoodForks`). A join is also modelled as separate database steps of interleaving
requests, since no transaction encloses it.

**Boundary tree.** `PathInv` says that every row's path is its parent's path, a bar and its own code. Codes are free
of `|`, `%`, `_` and `\`. The searches look only at paths; they are proved equal to closure by parent pointers.

**Caches.** An entry is compared with what the table would answer now. For the boundary cache the comparison is as a
set and needs colon-free tenants and comma-free codes; for localization it is as an ordered list and needs colon-free
keys and a non-empty module and locale, and an empty entry, which a search does not take for an answer, is never wrong.

**Where the code does not keep what its documentation suggests**, the model follows the code and states exactly when
the property holds:

- The guard is checked on the first action of a name, the state machine follows the last (`CheckedActionTakenIff`,
  `OneGuardAnotherTarget`).
- After a merge the branch rows stay active, so actions offered by a branch's state go to that branch and not to the
  merged row (`MergedRowActsIff`, `CloseGoesAstray`); the last joiner's documents and attributes are dropped
  (`LastPayloadDropped`, `ForkWaitMerge`).
- Two concurrent joins can both merge (`TwoMayMerge`); the merges are as many as the re-reads after the last mark
  (`MergesAreLateRereads`). A merge can overtake a join that has marked and not yet written its waiting row, whose
  documents are then lost (`MergeDocumentsIff`, `LateDocumentLost`).
- An update that sends a path without a new parent, detaches a node by an empty parent, or moves it below itself
  breaks the path invariant (`UpdateKeepsPathsIff`, `MoveUnderOwnChild`, `DetachKeepsParent`).
- The matcher accepts overlapping anchors (`WronglyAcceptedIff`, `OverAccepts`); searches without codes, paged
  searches, changed codes and batches that fail halfway leave stale entries (`EmptyQueryFreshIff`,
  `SearchKeepsCoherentIff`, `BatchSafeIff` with its readings `FailedBatchSafeIff` and `PlainBatchSafeIff`).
- A localization upsert that fails in its update part, an update whose uuids are spelled in upper case, and an entry
  with an open module or locale can be stale (`UpsertKeepsCoherentIff`, `UpdateKeepsCoherentIff`, `CreatedEntryIff`,
  and `LocalizationExamples`); deletes do not maintain the index (`DeleteAgreesIff`, `RunHoldsDrafted`).
- Around a scope rollover two interleaved requests can repeat a number (`RolloverRace`, `RunRepeatsIff`), and a digit
  pad such as "1" makes padded numbers ambiguous (`FormatInjectiveIff`).
- A template with stray, unclosed or empty braces panics or loses text (`TemplateRoundTripIff`, `BadlyBraced`).

## Model

| member | source | states |
|---|---|---|
| WorkflowService.TransitionService.Transition | src/services/workflow/internal/service/transition_service.go:43-151 | The service call, from the stored rows and executions to the new ones, the returned row or error and the next actions listed with it, is the one specified by the transition function the run theorems below are about |
| WorkflowService.TransitionService.GetOrCreateInstance | src/services/workflow/internal/service/transition_service.go:508-582 | Acts on the first listed branch row whose state offers the action, else on the latest linear row (which must be in the state the caller names), else on a new row in the initial state |
| WorkflowService.TransitionService.HandleLinear | src/services/workflow/internal/service/transition_service.go:154-220 | One appended row in the state of the last action of that name, with the SLA fields kept, the escalated flag and the next actions; a self-loop or unknown event is an error and changes nothing |
| WorkflowService.TransitionService.FireEvent | src/services/workflow/internal/service/transition_service.go:584-598 | The event table, filled in declaration order, answers with the last action of that name, and refuses to stay in the same state |
| WorkflowService.TransitionService.HandleParallel | src/services/workflow/internal/service/transition_service.go:223-296 | A new execution and one row per branch, in order, the first returned with its next actions; a missing branch state leaves the execution and the rows already written |
| WorkflowService.TransitionService.CreateBranches | src/services/workflow/internal/service/transition_service.go:249-280 | The branch loop row by row, stopping at the first branch without a state |
| WorkflowService.TransitionService.HandleJoin | src/services/workflow/internal/service/transition_service.go:299-353 | Mark, read again, then a waiting row or the merge; errors for a row without a branch and for a key without a running execution |
| WorkflowService.TransitionService.MergeParallelBranches | src/services/workflow/internal/service/transition_service.go:356-421 | One linear row built from the active branch rows, its escalated flag and next actions, and the execution closed |
| WorkflowService.MergeBranches | src/services/workflow/internal/service/transition_service.go:364-380 | The merge loop: values per key, documents and assignees of the drawn rows, concatenated in the order drawn |
| WorkflowService.MergeInto | src/services/workflow/internal/service/transition_service.go:369-373 | Appending one row of attributes key by key, in any key order |
| WorkflowService.RemoveDuplicates | src/services/workflow/internal/service/transition_service.go:455-465 | Keeps each string where it is first seen |
| WorkflowService.ProcessInstanceRepository.CreateProcessInstance | src/services/workflow/internal/repository/postgres/process_instance_repository.go:26-54 | Appends the row flagged as latest and clears the flag exactly on the rows it supersedes |
| WorkflowService.ProcessInstanceRepository.GetLatestProcessInstanceByEntityID | src/services/workflow/internal/repository/postgres/process_instance_repository.go:80-101 | The flagged linear row of the key, if any |
| WorkflowService.ProcessInstanceRepository.GetActiveParallelInstances | src/services/workflow/internal/repository/postgres/process_instance_repository.go:183-192 | The flagged branch rows that are not completed, newest first |
| WorkflowService.ParallelExecutionRepository.CreateParallelExecution | src/services/workflow/internal/repository/postgres/parallel_execution_repository.go:22-28 | Adds a running execution unless the key has one for that parallel state |
| WorkflowService.ParallelExecutionRepository.GetParallelExecution | src/services/workflow/internal/repository/postgres/parallel_execution_repository.go:30-40 | The execution of a key and parallel state |
| WorkflowService.ParallelExecutionRepository.UpdateParallelExecution | src/services/workflow/internal/repository/postgres/parallel_execution_repository.go:42-46 | Replaces the row with the same tenant and id |
| WorkflowService.ParallelExecutionRepository.MarkBranchCompleted | src/services/workflow/internal/repository/postgres/parallel_execution_repository.go:48-60 | Appends the branch, if absent, on every running execution of the key |
| WorkflowService.ParallelExecutionRepository.FirstActiveExecution | src/services/workflow/internal/repository/postgres/parallel_execution_repository.go:62-69 | The first running execution of the key |
| AttributeGuard.CanTransition | src/services/workflow/internal/security/attribute_guard.go:19-30 | True exactly when every required key is present with a value that matches one of those required |
| AttributeGuard.ValidateAttributes | src/services/workflow/internal/security/attribute_guard.go:35-81 | The missing and the mismatched keys are exactly the two kinds of failure, and the check passes exactly when there is neither |
| AttributeGuard.TrimIgnoresPadding | src/services/workflow/internal/security/attribute_guard.go:54-54 | White space around a value never decides a match |
| AttributeGuard.GuardIff | src/services/workflow/internal/security/attribute_guard.go:19-81 | The guard passes exactly when every required key is given with a value equal, between the white space around both, to a required one |
| AttributeGuard.SpaceCodes | src/services/workflow/internal/security/attribute_guard.go:54-54 | The white space that does not count, by its code points |
| WorkflowHistory.InsertedSound | src/services/workflow/internal/repository/postgres/process_instance_repository.go:26-54 | An insert keeps the invariant: ids are places, a flag marks exactly the rows no later row of their class supersedes |
| WorkflowHistory.OneFlagPerClass | src/services/workflow/db/migrations/V20250909143800__Add_is_latest_to_process_instances.sql:42-45 | After any insert no class has two flagged rows, so the unique index on the latest linear row is never violated |
| WorkflowHistory.FlagIsLastLinear | src/services/workflow/internal/repository/postgres/process_instance_repository.go:80-101 | The lookup by flag is the last linear row of the history |
| WorkflowHistory.FlagsAreLastOfBranches | src/services/workflow/internal/repository/postgres/process_instance_repository.go:183-192 | The listing by flag is the last row of each branch met when scanning the history backwards |
| WorkflowRuns.TransitionKeepsHistory | src/services/workflow/internal/service/transition_service.go:43-151 | Every transition, failed ones included, leaves earlier rows as they were but for the flag, keeps the flag invariant, and explains each new row by an earlier row and the request |
| WorkflowRuns.RunKeepsHistory | src/services/workflow/internal/service/transition_service.go:43-151 | Runs of any length keep earlier rows but for the flag, the flag invariant, and an explanation for every row |
| WorkflowRuns.RunLookupsAreScans | src/services/workflow/internal/repository/postgres/process_instance_repository.go:80-101 | After every run both flag lookups answer as a scan of the whole history would |
| WorkflowRuns.NoSlaRecorded | src/services/workflow/internal/service/transition_service.go:179-421 | No run ever records a state or process SLA: the linear path copies them from rows that have none, and no other path sets them |
| WorkflowRuns.NextActionsAreOffered | src/services/workflow/internal/service/transition_service.go:207-217 | The next actions listed with a returned row are exactly the names its state offers |
| WorkflowRuns.EveryRowJustified | src/services/workflow/internal/service/transition_service.go:74-151 | With one action per name and state, every row of every run was written by one of its requests, from what the requests before it had left: as the initial row of its key, or by one action, checked and taken, from the row picked for that request, which nothing superseded at the time |
| WorkflowRuns.EveryRecordedStateReachable | src/services/workflow/internal/service/transition_service.go:43-220 | In every run every recorded state is reachable from the initial state by actions and fork branches, whatever the definition |
| WorkflowRuns.CheckedActionTakenIff | src/services/workflow/internal/service/transition_service.go:74-90 | Towards a plain state a request succeeds exactly when the last action of that name leaves the state, and lands where the checked action points exactly when the two agree |
| WorkflowRuns.OneGuardAnotherTarget | src/services/workflow/internal/service/transition_service.go:74-90 | With two actions of one name, a request can pass the open one and land where the restricted one leads, without meeting its requirements |
| WorkflowJoin.MergesAreFinished | src/services/workflow/internal/service/transition_service.go:299-421 | In every run, with any number of forks, merged rows of a key are as many as its finished executions |
| WorkflowMerge.RunExecsGrow | src/services/workflow/internal/repository/postgres/parallel_execution_repository.go:42-60 | In every run, a run of one request included, no mark is removed or repeated, no finished execution changes, and status only goes from running to finished |
| WorkflowMerge.TransitionBalanced | src/services/workflow/internal/service/transition_service.go:223-421 | Where a key is forked at most once, a transition keeps its marks a distinct subset of its branches that have rows, all marked exactly when finished |
| WorkflowMerge.RunBalanced | src/services/workflow/internal/service/transition_service.go:223-421 | After any run that forks a key at most once, its marks are a distinct subset of its branches that have rows, all marked exactly when finished |
| WorkflowMerge.MergedAtMostOnce | src/services/workflow/internal/service/transition_service.go:299-421 | Over a whole run that forks a key at most once, at most one merged row is written, and one exactly when the execution is finished |
| WorkflowMerge.MergesExactlyAtLastMark | src/services/workflow/internal/service/transition_service.go:315-352 | A transition merges exactly when it adds the last missing mark |
| WorkflowMerge.ActiveListsBranches | src/services/workflow/internal/repository/postgres/process_instance_repository.go:183-192 | The active rows are one for each branch that has rows |
| WorkflowMerge.MergeDrawsEveryBranch | src/services/workflow/internal/service/transition_service.go:356-404 | A merge draws exactly one row for each branch of the execution, the joining branch included; WorkflowRows.MergedRowHolds says what the appended row is |
| WorkflowRows.MergedRowHolds | src/services/workflow/internal/service/transition_service.go:356-421 | The row a merge appends, field by field: the drawn rows' assignees, each at its first mention, their documents and values concatenated under exactly their keys, in the join state of the checked action, linear and active, with the request's action, the joined branches in the comment, and escalated exactly if the request says so |
| WorkflowRows.WaitingRowHolds | src/services/workflow/internal/service/transition_service.go:323-346 | The row a waiting join appends, field by field: the request's contents, the branch, parent and assignees of the row acted on, in the join state |
| WorkflowRows.LinearRowHolds | src/services/workflow/internal/service/transition_service.go:154-220 | The row a linear step appends, field by field: the request's comment, documents, assignees and attributes, the status, parent and branch of the row acted on, in the state the last action of the name leads to |
| WorkflowRows.InitialRowHolds | src/services/workflow/internal/service/transition_service.go:541-582 | A request for a key without rows writes its first row, field by field, in the first initial state of the process, exactly if there is one |
| WorkflowRows.EscalationIff | src/services/workflow/internal/service/transition_service.go:600-620 | Escalated exactly if the action spells "escalat" or the comment "auto-escalat", whatever letters are capitals |
| WorkflowSteps.ForkRowsHold | src/services/workflow/internal/service/transition_service.go:249-280 | The rows of a fork, field by field: for each branch in order, up to the first without a state, an active row below the row acted on, in the branch's state, with the request's contents |
| WorkflowSteps.PickedIs | src/services/workflow/internal/service/transition_service.go:508-582 | The row acted on, from the whole history: the newest last row of a branch that offers the action, else the last linear row unless another state is named, else a first row; with the errors for the rest |
| WorkflowSteps.TransitionIs | src/services/workflow/internal/service/transition_service.go:43-151 | What decides each outcome, every error included: the first action of the name, its guard, its target; a fork needs a join state and no earlier fork and leaves its execution; a join needs a branch and a running execution, marks, and merges exactly when all are marked; a linear step needs another state |
| WorkflowContents.MergedIsDrawn | src/services/workflow/internal/service/transition_service.go:364-380 | Merged values per key, documents and assignees are the concatenation of those of the drawn rows, and the merged keys are theirs |
| WorkflowContents.WithoutDuplicatesIsFirstMentions | src/services/workflow/internal/service/transition_service.go:455-465 | The assignee list has the same members, each once, in order of first mention |
| WorkflowContents.FirstMentionsUnique | src/services/workflow/internal/service/transition_service.go:455-465 | No other list has the same members once each in that order |
| WorkflowContents.BranchActsIff | src/services/workflow/internal/service/transition_service.go:508-531 | An action goes to a branch row exactly when the last row of some branch is in a state that offers it |
| WorkflowContents.MergedRowActsIff | src/services/workflow/internal/service/transition_service.go:508-545 | After a merge the merged row takes an action exactly when no drawn branch row offers it and the request names no current state but its own: the merge retires none of the branch rows |
| WorkflowContents.LastPayloadDropped | src/services/workflow/internal/service/transition_service.go:351-404 | Beyond the action, what the last joiner sends decides only the guard and the escalated flag: another request has the same outcome exactly when the guard accepts it and it escalates as much or as little |
| WorkflowExample.ForkWaitMerge | src/services/workflow/internal/service/transition_service.go:43-421 | From nothing stored, three requests of a small process fork, wait and merge, with the rows and executions written out; the documents sent last are in none of them |
| WorkflowExample.CloseGoesAstray | src/services/workflow/internal/service/transition_service.go:508-531 | In that process the action offered by the merged row moves the row that waited on branch a, and the merged row stays where it is |
| JoinRace.NoLostJoin | src/services/workflow/internal/service/transition_service.go:299-353 | In every interleaving of the joins of one execution (find, mark, read again, decide, close) none fails, a merge happens only after all branches are marked, and when all are through at least one has merged |
| JoinRace.MergesIffAllMarkedAtReread | src/services/workflow/internal/service/transition_service.go:321-352 | A request merges exactly when every branch was marked at the moment it read the execution again |
| JoinRace.EveryScheduleEnds | src/services/workflow/internal/service/transition_service.go:299-353 | No schedule is longer than five steps a request, and one that cannot go on has merged |
| JoinRace.MergesAreLateRereads | src/services/workflow/internal/service/transition_service.go:311-352 | In every schedule in which all requests are through, as many of them merge as re-reads follow the last mark; so the merge is unique exactly when one does |
| JoinRace.TwoMayMerge | src/services/workflow/internal/service/transition_service.go:321-352 | Two requests that both read after the last mark both merge, so the merge need not be unique under interleaving |
| JoinRace.UninterruptedIsJoinStep | src/services/workflow/internal/service/transition_service.go:299-353 | Run without interruption, the four steps are the service's join on that execution |
| JoinRows.ListedRows | src/services/workflow/internal/service/transition_service.go:299-404 | At any moment of any schedule the branch rows a merge would draw are one for each branch: the waiting row of a request that has decided to wait, and otherwise the row its request was picked for |
| JoinRows.MergeDocumentsIff | src/services/workflow/internal/service/transition_service.go:324-404 | A merge takes the documents sent with a join exactly if that request has decided to wait before it, and else those its branch had when the race began |
| JoinRows.LateDocumentLost | src/services/workflow/internal/service/transition_service.go:324-404 | Of two joins the second merges between the first one's re-read and its waiting row; the document sent with the first is not in the merged row |
| JoinRows.UninterruptedWritesRows | src/services/workflow/internal/service/transition_service.go:299-404 | Run without interruption, the four steps write the rows of the service's join |
| BoundaryPaths.BoundaryRelationshipRepository.Create | src/services/boundary/internal/repository/boundary_relationship_repository_impl.go:28-49 | A row whose path extends the named parent's; an unknown parent or a taken key changes nothing |
| BoundaryPaths.BoundaryRelationshipRepository.Update | src/services/boundary/internal/repository/boundary_relationship_repository_impl.go:90-127 | A changed parent rewrites the descendants' paths first, then the row; a struct update skips empty fields |
| BoundaryPaths.BoundaryRelationshipRepository.UpdateChildrenMaterializedPaths | src/services/boundary/internal/repository/boundary_relationship_repository_impl.go:182-200 | Every row whose path matches the old path and a bar has its first occurrence of the old path replaced, and no other row changes |
| BoundaryTreeRows.CreatedRow | src/services/boundary/internal/repository/boundary_relationship_repository_impl.go:28-49 | Whatever the table: the request's columns appended under the path of the asked parent, or refused for a missing parent or a key that is there |
| BoundaryTreeRows.UpdatedRows | src/services/boundary/internal/repository/boundary_relationship_repository_impl.go:90-127 | Whatever the table: which rows an update moves and what it writes column by column, empty values aside; the errors, and what a violated key leaves |
| Sql.LikeConcat | src/services/boundary/internal/repository/boundary_relationship_repository_impl.go:182-201 | LIKE matches one pattern after another on one text after another; with LikeOne for single characters that is all it means |
| BoundaryPaths.AncestorIffOnPath | src/services/boundary/internal/repository/boundary_relationship_repository_impl.go:226-267 | Under the path invariant a row is an ancestor-or-self by parent pointers exactly when its code is a step of the path |
| BoundaryPaths.DescendantIffPrefix | src/services/boundary/internal/repository/boundary_relationship_repository_impl.go:182-200 | The prefix test of the rewrite picks exactly the proper descendants by parent pointers |
| BoundaryMoves.CreateKeepsPaths | src/services/boundary/internal/repository/boundary_relationship_repository_impl.go:28-49 | Creating a node keeps the path invariant and every other row |
| BoundaryMoves.MoveRewrites | src/services/boundary/internal/repository/boundary_relationship_repository_impl.go:90-127 | A move rewrites the node and exactly its descendants and cannot fail halfway |
| BoundaryMoves.MoveTouchesOnlySubtree | src/services/boundary/internal/repository/boundary_relationship_repository_impl.go:182-200 | Rows outside the moved subtree are untouched, and descendants change only their path |
| BoundaryMoves.UpdateKeepsPathsIff | src/services/boundary/internal/repository/boundary_relationship_repository_impl.go:90-127 | A successful update that keeps code and hierarchy keeps the path invariant exactly when it sends no foreign path, does not detach a node by an empty parent, and does not move a node into its own subtree |
| BoundaryMoves.MoveUnderOwnChild | src/services/boundary/internal/repository/boundary_relationship_repository_impl.go:90-127 | A move of a root under its own child succeeds, makes each the other's parent and breaks the invariant |
| BoundaryMoves.DetachKeepsParent | src/services/boundary/internal/repository/boundary_relationship_repository_impl.go:90-127 | Detaching a child by an empty parent succeeds, gives it a root's path and leaves its parent as it was |
| BoundaryMoves.PayloadUpdateIff | src/services/boundary/internal/repository/boundary_relationship_repository_impl.go:90-127 | Without a new parent the invariant survives exactly when the request sends no path or the stored one |
| BoundaryMoves.RunsKeepPaths | src/services/boundary/internal/repository/boundary_relationship_repository_impl.go:28-127 | Over any run of creations and safe updates, failed ones included, every path is its parent's plus its own code |
| BoundarySearch.BoundaryRelationshipService.SearchWithInternalParameters | src/services/boundary/internal/service/boundary_relationship_service_impl.go:209-232 | Each code once; a search by codes returns exactly the rows the flags ask for by parent pointers; one without flags and paging answers exactly the codes of the rows that meet each field asked for |
| BoundarySearch.FirstPassIs | src/services/boundary/internal/repository/boundary_relationship_repository_impl.go:203-284 | Paged or not, with flags or not: the first pass is the stretch, from the offset on and up to the limit, of the rows in table order that meet tenant, hierarchy, type, parent, root and code conditions |
| BoundarySearch.GatheredIs | src/services/boundary/internal/service/boundary_relationship_service_impl.go:209-293 | Besides the first pass a search gathers the rows on the paths of its rows, and the rows with one of its codes on their path, as the flags ask |
| BoundarySearch.BoundaryRelationshipService.GetParentBoundaries | src/services/boundary/internal/service/boundary_relationship_service_impl.go:235-271 | The rows of the tenant and hierarchy whose code is on a found row's path, own codes aside |
| BoundarySearch.BoundaryRelationshipService.GetChildrenBoundaries | src/services/boundary/internal/service/boundary_relationship_service_impl.go:274-293 | The rows of the tenant and hierarchy whose path shares a step with the found codes |
| BoundarySearch.CombineBoundaries | src/services/boundary/internal/service/boundary_relationship_service_impl.go:296-321 | Every code of the three groups once, each with a row of its own |
| BoundarySearch.OverlapIsDescendants | src/services/boundary/internal/repository/boundary_relationship_repository_impl.go:226-267 | The overlap filter finds exactly the descendants-or-self of requested rows |
| BoundarySearch.SubqueryIsAncestors | src/services/boundary/internal/repository/boundary_relationship_repository_impl.go:226-267 | The ancestor subquery finds exactly the ancestors-or-self of requested rows |
| BoundarySearch.AncestorsAreLinear | src/services/boundary/internal/service/boundary_relationship_service_impl.go:235-293 | Two ancestors of one row are ancestors of one another, so both flags together add nothing beyond the union |
| BoundarySearch.SearchIsClosure | src/services/boundary/internal/service/boundary_relationship_service_impl.go:209-321 | What the three passes gather from paths is exactly the closure by parent pointers |
| Glob.MatchPattern | src/services/boundary/pkg/cache/inmemory.go:85-117 | The matcher's loop is the anchored, in-order scan of the parts |
| Glob.GlobDecomposition | src/services/boundary/pkg/cache/inmemory.go:85-117 | A glob with stars matches exactly prefix, scattered middle parts and suffix in that order without overlap |
| Glob.GreedyIsComplete | src/services/boundary/pkg/cache/inmemory.go:98-108 | Looking for each middle part at its first chance finds them whenever any placement exists |
| Glob.AcceptsEveryMatch | src/services/boundary/pkg/cache/inmemory.go:85-117 | Every text the glob matches is accepted, for any pattern and text |
| Glob.AcceptedExactly | src/services/boundary/pkg/cache/inmemory.go:85-117 | What is accepted: the anchors and the middle parts each hold on their own, possibly overlapping |
| Glob.WronglyAcceptedIff | src/services/boundary/pkg/cache/inmemory.go:85-117 | For every pattern, a text is accepted wrongly exactly when anchors and middle parts hold each on their own but the anchors overlap or the middle parts do not fit between them |
| Glob.OneStarExactlyWhen | src/services/boundary/pkg/cache/inmemory.go:85-117 | With one star a text is accepted wrongly exactly when it is too short for both anchors |
| Glob.OverAccepts | src/services/boundary/pkg/cache/inmemory.go:85-117 | "ab*ba" accepts "aba", which the glob does not match |
| Glob.WordPatternAccepts | src/services/boundary/internal/service/boundary_service_impl.go:118-146 | The pattern used for a code drops exactly the keys with the tenant's prefix that contain the code |
| Glob.WordPatternWrongIff | src/services/boundary/internal/service/boundary_service_impl.go:118-146 | The pattern used for a code drops a key it does not match exactly when the code occurs in the key, but not after the prefix |
| MemoryCache.InMemoryCache.DeletePattern | src/services/boundary/pkg/cache/inmemory.go:67-82 | Removes exactly the keys the matcher accepts |
| MemoryCache.InMemoryCache.DeleteByPrefix | src/services/boundary/pkg/cache/inmemory.go:49-64 | Removes exactly the keys with the prefix |
| BoundaryCache.BoundaryService.Create | src/services/boundary/internal/service/boundary_service_impl.go:33-61 | All drafts are checked before any row is written; then rows, and the keys of their codes dropped; without drafts the insert is an error |
| BoundaryCache.BoundaryService.Update | src/services/boundary/internal/service/boundary_service_impl.go:83-115 | Row by row without an enclosing transaction; the cache is only invalidated when all succeed |
| BoundaryCache.BoundaryService.Search | src/services/boundary/internal/service/boundary_service_impl.go:64-80 | A cached answer if the key is present, else the table's page, stored |
| BoundaryCache.BoundaryService.InvalidateSearchCaches | src/services/boundary/internal/service/boundary_service_impl.go:118-146 | One pattern deletion per code |
| BoundaryCache.SearchKeyInjective | src/services/boundary/internal/service/boundary_service_impl.go:64-80 | Colon-free tenants and comma-free non-empty codes can be read back from a key |
| BoundaryCache.AskedCodeInvalidated | src/services/boundary/internal/service/boundary_service_impl.go:118-146 | An entry that asked for an invalidated code is gone |
| BoundaryCache.CreateKeepsCoherent | src/services/boundary/internal/service/boundary_service_impl.go:33-61 | A creation, failed or not, keeps every readable entry equal as a set to the table's answer |
| BoundaryCache.UpdateKeepsCoherent | src/services/boundary/internal/service/boundary_service_impl.go:83-115 | An update that keeps codes, failed or not, keeps every readable entry equal as a set to the table's answer |
| BoundaryDrops.FourSearchesDecide | src/services/boundary/internal/service/boundary_service_impl.go:118-146 | Whatever characters the codes have: every search that asks for a code is dropped exactly when four are, for the code alone and with a search for "*" before it, after it, and on both sides |
| BoundaryDrops.PlainDropsIff | src/services/boundary/internal/service/boundary_service_impl.go:118-146 | Codes without stars and commas drop all searches for a code exactly when one of them is part of it or of the fixed part of every key |
| BoundaryBatches.UpdateStopsAtFirstClash | src/services/boundary/internal/repository/boundary_repository_impl.go:110-140 | A batch makes the changes before the first that gives its row a code another row of the tenant has by then; keys are dropped only if there is none; BoundaryRows.UpdatedRows says what the rows then hold |
| BoundaryRows.UpdatedRows | src/services/boundary/internal/repository/boundary_repository_impl.go:110-140 | After the changes made, code, geometry and details of every row are each at the last non-empty value sent for it, or as before; the batch stops at the first change after which two rows share a code; the errors, and the entries kept |
| BoundaryRows.CreatedRows | src/services/boundary/internal/service/boundary_service_impl.go:33-61 | A creation reports the first draft refused and why, an empty batch or a repeated code, changing nothing; else it appends the drafts' rows in order and keeps every entry but those their codes match |
| BoundaryRows.FoundRows | src/services/boundary/internal/service/boundary_service_impl.go:64-80 | A search answers the entry under its key, or answers and stores the page of the tenant's rows with the codes asked for, in table order; nothing else changes |
| Sql.PageIs | src/services/boundary/internal/repository/boundary_repository_impl.go:61-108 | A page is the stretch from the offset on, up to the limit, index by index |
| BoundaryBatches.BatchSafeIff | src/services/boundary/internal/service/boundary_service_impl.go:83-146 | An update with any batch keeps every coherent cache coherent exactly when the batch names an unknown row; or clashes, and the changes before the first clash leave every row a search can ask for as it was; or does not clash, and for every row it recodes the four searches around the old code are dropped |
| BoundaryBatches.FailedBatchSafeIff | src/services/boundary/internal/service/boundary_service_impl.go:83-115 | With one change a row, a batch that clashes is safe exactly when every change before the first clash sends its row nothing new |
| BoundaryBatches.PlainBatchSafeIff | src/services/boundary/internal/service/boundary_service_impl.go:83-146 | Without stars and commas, a batch that does not clash is safe exactly when each row it recodes has one of the batch's codes within its old code, or the fixed part of every key has |
| BoundaryCache.SearchKeepsCoherentIff | src/services/boundary/internal/service/boundary_service_impl.go:64-80 | A search by codes keeps that agreement, and answers with the table's rows, exactly when it is served from the cache or the page it stores is the whole answer: limit and offset are not part of the key |
| BoundaryRuns.RunsStayCoherent | src/services/boundary/internal/service/boundary_service_impl.go:33-146 | After any run of creations, safe batches of changes and searches by codes that store no part of an answer the cache agrees with the table |
| BoundaryCacheLimits.EmptyQueryFreshIff | src/services/boundary/internal/service/boundary_service_impl.go:118-146 | A cached search without codes stays right after a creation of any drafts exactly when the creation is refused or empty, or some code's pattern accepts the bare key |
| BoundaryCacheLimits.BareKeyAccepts | src/services/boundary/internal/service/boundary_service_impl.go:118-146 | Without stars the pattern accepts the bare key exactly when the code occurs in its fixed part |
| BoundaryCacheLimits.EmptyQueryStale | src/services/boundary/internal/service/boundary_service_impl.go:33-80 | The first boundary of a tenant whose empty list was cached is not found by the next search without codes |
| BoundaryCacheLimits.CodeChangeSafeIff | src/services/boundary/internal/service/boundary_service_impl.go:83-115 | Changing a row's code keeps every coherent cache coherent exactly when the new code is part of the old one or of the fixed part of the key |
| BoundaryCacheLimits.HalfBatchStale | src/services/boundary/internal/service/boundary_service_impl.go:83-115 | Of two rows recoded to one code the first change stays, the second fails, and the cached answer for the first row's old code is stale |
| LocalizationService.MessageRepository.SaveMessages | src/services/localization/internal/repositories/postgres/messagerepository.go:34-73 | Rows without a conflict are stored, the others skipped; an error exactly when nothing was stored |
| LocalizationService.MessageRepository.UpdateMessages | src/services/localization/internal/repositories/postgres/messagerepository.go:76-148 | All messages or none; returns the rows as read with their new texts |
| LocalizationService.MessageRepository.DeleteMessages | src/services/localization/internal/repositories/postgres/messagerepository.go:151-182 | All uuids or none |
| LocalizationService.InMemoryMessageCache.BustCache | src/services/localization/internal/cache/inmemorycache.go:67-82 | Drops exactly the keys of the tenant, whatever module and locale are given |
| LocalizationService.InMemoryMessageCache.Invalidate | src/services/localization/internal/cache/inmemorycache.go:51-64 | Drops one key |
| LocalizationService.MessageService.LoadAllMessages | src/services/localization/internal/core/services/messageservice.go:35-60 | Rebuilds the index row by row |
| LocalizationService.MessageService.FindMissingMessages | src/services/localization/internal/core/services/messageservice.go:64-124 | Lists a code under a locale exactly when the index has both in the module and not together, each once, and no empty groups |
| LocalizationService.MessageService.UpsertMessages | src/services/localization/internal/core/services/messageservice.go:127-203 | Create part, then update part; a failing update returns before the cache is invalidated |
| LocalizationService.MessageService.CreateMessages | src/services/localization/internal/core/services/messageservice.go:206-253 | Save, invalidate, note in the index, including messages the save skipped |
| LocalizationService.MessageService.UpdateMessages | src/services/localization/internal/core/services/messageservice.go:256-275 | Update, then invalidate the returned rows |
| LocalizationService.MessageService.DeleteMessages | src/services/localization/internal/core/services/messageservice.go:278-288 | Bust the tenant's cache, then delete; the index is left alone |
| LocalizationService.MessageService.SearchMessages | src/services/localization/internal/core/services/messageservice.go:308-354 | Paged searches bypass the cache; an empty entry is not a hit; the answer is stored |
| LocalizationService.MessageService.InvalidateCacheForMessages | src/services/localization/internal/core/services/messageservice.go:365-387 | Drops the keys of the messages that split into three parts |
| LocalizationRows.CreatedRows | src/services/localization/internal/core/services/messageservice.go:206-253 | A creation succeeds exactly if some draft's place is free or there are no drafts; it appends for each such draft, in order, a row with its uuid, tenant, module, locale, code and text, leaves the others, and returns all drafts with those fields |
| LocalizationRows.UpsertedRows | src/services/localization/internal/core/services/messageservice.go:127-203 | An upsert creates from the drafts without a uuid as above, then sends the others' texts to the rows they mean, or is refused and keeps what it made; both parts are returned in order |
| LocalizationRows.UpdatedTable | src/services/localization/internal/repositories/postgres/messagerepository.go:76-148 | An update is refused for a malformed uuid or one that is unknown or meant twice, changing nothing, or writes each text and no other column; it returns the rows of the uuids spelled as stored, in order |
| LocalizationRows.WritesKeepEntries | src/services/localization/internal/core/services/messageservice.go:365-387 | A create, upsert or update drops exactly the entries of the messages it returns that can be read back from their key |
| LocalizationRows.DeletedRows | src/services/localization/internal/core/services/messageservice.go:278-288 | A delete drops exactly the tenant's entries, then removes exactly the rows meant, the others in order, or is refused and removes none |
| LocalizationRows.FoundIs | src/services/localization/internal/repositories/postgres/messagerepository.go:185-210 | A search that the cache does not answer finds the rows asked for, as often as stored, in code order, and their stretch under a limit |
| LocalizationRows.UpToIff | src/services/localization/internal/repositories/postgres/messagerepository.go:185-210 | Code order: a code comes before those it begins, and else the smaller character at the first difference decides |
| LocalizationRows.ValidIffShape | src/services/localization/internal/repositories/postgres/messagerepository.go:28-31 | A uuid is well formed exactly as five groups of 8, 4, 4, 4 and 12 hex digits with dashes between |
| LocalizationRows.SearchLeaves | src/services/localization/internal/core/services/messageservice.go:308-354 | An unpaged search leaves its rows under its key unless they came from there; a paged one changes nothing |
| LocalizationIndex.AppliedUnique | src/services/localization/internal/repositories/postgres/messagerepository.go:34-182 | Every operation, failing or not, keeps tenant, locale, module and code unique in the table |
| LocalizationIndex.LoadedAgrees | src/services/localization/internal/core/services/messageservice.go:35-60 | After a load the index holds each (tenant, module, code, locale) of the table once and no other |
| LocalizationIndex.BatchAgrees | src/services/localization/internal/core/services/messageservice.go:152-182 | Saving and noting a batch keeps index and table equal, conflicting messages included |
| LocalizationIndex.RunAgrees | src/services/localization/internal/core/services/messageservice.go:127-275 | Any run of creates, updates, upserts and searches, failing ones included, keeps index and table equal |
| LocalizationIndex.MissingAfterRun | src/services/localization/internal/core/services/messageservice.go:64-124 | After a load and any run without deletes a code is reported under a locale exactly when both occur in that module of the table and the row does not exist |
| LocalizationIndex.DeleteAgreesIff | src/services/localization/internal/core/services/messageservice.go:278-288 | A delete keeps the index equal to the table exactly when it names no message or its uuids are refused |
| LocalizationIndex.RunCovers | src/services/localization/internal/core/services/messageservice.go:127-288 | With deletes the index still covers every row of the table |
| LocalizationIndex.RunHoldsDrafted | src/services/localization/internal/core/services/messageservice.go:35-288 | From a load on, over any run with deletes, the index holds, each once, exactly the places of the rows loaded and of the messages the run has asked to create, refused and deleted ones included |
| LocalizationAnswers.AnswerIn | src/services/localization/internal/repositories/postgres/messagerepository.go:185-210 | An answer holds exactly the selected rows, in code order |
| LocalizationAnswers.KeyInjective | src/services/localization/internal/cache/inmemorycache.go:86-88 | Colon-free tenant, module and locale can be read back from a key |
| LocalizationCache.EntryRightIff | src/services/localization/internal/core/services/messageservice.go:308-354 | An entry is right exactly when the unpaged search for its module and locale answers as the table does |
| LocalizationCache.UpsertKeepsCoherentIff | src/services/localization/internal/core/services/messageservice.go:127-203 | An upsert makes a search for a module and locale go wrong exactly when its update part is refused (by uuid) although a draft to create has a free place under a served answer; or it is accepted and gives, by a uuid in capitals, a new text to a row of a served answer that neither a created draft nor a draft spelled as stored drops |
| LocalizationCache.UpdateKeepsCoherentIff | src/services/localization/internal/core/services/messageservice.go:256-275 | An update makes a search for a module and locale go wrong exactly when its uuids are acceptable and a draft gives, by a uuid in capitals, a new text to a row of a served answer, while no draft spelled as stored means a row of that answer |
| LocalizationCache.AsStoredIsSafe | src/services/localization/internal/core/services/messageservice.go:127-275 | Updates with uuids spelled as stored, and upserts whose update part is accepted with such uuids, leave no stale answer |
| LocalizationCache.CreatedEntryIff | src/services/localization/internal/core/services/messageservice.go:206-253 | After a create a served answer, with open module or locale or not, is right exactly when a draft carries that very module and locale or no draft with a free place falls under it |
| LocalizationCache.RunCoherentIff | src/services/localization/internal/core/services/messageservice.go:127-387 | Over any run with clean keys and fresh uuids every search for a module and locale is answered right at every moment exactly when no update or upsert of the run leaves a stale answer, by the two conditions above |
| LocalizationCache.SearchAfterRun | src/services/localization/internal/core/services/messageservice.go:308-354 | After such a run every search for a module and locale, paged or not, returns what the table answers |
| LocalizationUpdates.AcceptedIff | src/services/localization/internal/repositories/postgres/messagerepository.go:83-103 | The count check of an update or delete passes exactly when the uuids are well formed, pairwise different and all the tenant's |
| LocalizationUpdates.ReturnsAllIff | src/services/localization/internal/repositories/postgres/messagerepository.go:118-145 | An accepted update returns a row for every message exactly when the uuids are spelled as stored |
| LocalizationUpdates.TextWritten | src/services/localization/internal/repositories/postgres/messagerepository.go:118-137 | After an accepted update each message's row holds its text and rows differ from before only in their text |
| LocalizationUpdates.ChangedIff | src/services/localization/internal/repositories/postgres/messagerepository.go:118-137 | An accepted update changes exactly the rows that a message gives a text they do not have |
| LocalizationUpdates.ReturnedIff | src/services/localization/internal/repositories/postgres/messagerepository.go:118-145 | The module and locale pairs among the returned rows are exactly those of rows meant by a message that spells its uuid as stored |
| LocalizationExamples.CapitalUuidStale | src/services/localization/internal/core/services/messageservice.go:256-275 | An update with a capital in its uuid changes the stored text, returns no row, and the old text goes on being served |
| LocalizationExamples.MixedUpsertStale | src/services/localization/internal/core/services/messageservice.go:127-203 | An upsert of a new message and an unknown uuid stores the message, fails, and the old answer goes on being served |
| LocalizationExamples.OpenModuleStale | src/services/localization/internal/core/services/messageservice.go:206-253 | A cached answer for every module of a locale goes on being served after a row of the locale is created |
| LocalizationExamples.DeletedStaysIndexed | src/services/localization/internal/core/services/messageservice.go:278-288 | After the deletion of its only row the index still lists the code |
| IdSequence.IdGenRepository.CreateSequence | src/services/idgen/internal/repository/idgen_repository.go:197-222 | A sequence and its lookup row, or neither |
| IdSequence.IdGenRepository.EnsureScopeReset | src/services/idgen/internal/repository/idgen_repository.go:234-276 | Restarts the sequence unless this scope key was recorded; one step |
| IdSequence.IdGenRepository.NextSequenceValue | src/services/idgen/internal/repository/idgen_repository.go:224-232 | Hands out the next value and advances |
| IdSequence.SequenceNameInjective | src/services/idgen/internal/repository/idgen_repository.go:289-294 | Colon-free tenants never share a sequence name between templates |
| IdSequence.ScopeKeyInjective | src/services/idgen/internal/service/idgen_service.go:287-298 | Two dates share a scope key exactly when they agree on the fields the scope looks at |
| IdSequence.RunKeepsInv | src/services/idgen/internal/repository/idgen_repository.go:224-276 | In every interleaving each scope key resets at most once, before its first draw, and numbers count up from the last reset |
| IdSequence.OneScopeNumbers | src/services/idgen/internal/repository/idgen_repository.go:224-276 | For one new scope key, in every interleaving of ensure and draw steps there is one reset before all draws, and the n numbers are start to start+n-1 in order |
| IdSequence.RepeatNeedsReset | src/services/idgen/internal/repository/idgen_repository.go:234-276 | A (key, number) pair repeats only with a reset for another key in between |
| IdSequence.RepeatIff | src/services/idgen/internal/repository/idgen_repository.go:224-276 | In every interleaving two draws under a new key repeat a (key, number) pair exactly when as many numbers were drawn since the last reset before each |
| IdSequence.RunRepeatsIff | src/services/idgen/internal/repository/idgen_repository.go:224-276 | A run of new keys repeats some pair exactly when it has two such draws |
| IdSequence.LastResetPairsUnique | src/services/idgen/internal/service/idgen_service.go:249-257 | Interleaved or not, requests that draw under the key reset last never repeat a (key, number) pair |
| IdSequence.ContiguousPairsUnique | src/services/idgen/internal/service/idgen_service.go:249-257 | Sequential requests whose scope keys come in contiguous blocks never repeat a (key, number) pair |
| IdSequence.MonotoneDatesUnique | src/services/idgen/internal/service/idgen_service.go:287-298 | Sequential requests stamped with dates that never step back never repeat a (key, number) pair |
| IdSequence.RolloverRace | src/services/idgen/internal/service/idgen_service.go:249-257 | Across a rollover two interleaved requests can repeat an old pair |
| IdService.IDGenService.GenerateID | src/services/idgen/internal/service/idgen_service.go:211-285 | The latest template's segments in order, each with its own reading of the clock: reset and draw at each SEQ, text elsewhere, first error wins; IdPieces and IdRuns say what that comes to |
| IdPieces.IdIsPieces | src/services/idgen/internal/service/idgen_service.go:211-285 | An identifier is its segments' texts one after another: literals, date and random texts, variables' values, and padded numbers, each drawn from the store the one before left; a request fails at its first segment without a text, and what it leaves is said |
| IdPieces.FormatIsPadded | src/services/idgen/internal/service/idgen_service.go:301-313 | A formatted number is the pad once for each missing character, the sign and the number's digits |
| IdPieces.ScopeKeyIs | src/services/idgen/internal/service/idgen_service.go:287-298 | A scope key is the date's digits, four for the year and two for month and day, with dashes, as far as the scope goes |
| IdRuns.OneRequest | src/services/idgen/internal/service/idgen_service.go:244-268 | A successful request with one SEQ token records its scope and draws the start in a new scope and else the stored next number, which moves on by one; these are the ensure and draw steps of the interleaved machine; a failing request draws at most one number |
| IdRuns.NumbersInTurn | src/services/idgen/internal/service/idgen_service.go:211-285 | Successful requests one after another: the start in each new scope, and else one more than the request before |
| IdRuns.ScopeCountsUp | src/services/idgen/internal/service/idgen_service.go:211-285 | From the first request in a new scope on, the numbers are the start, start plus one, and so on |
| IdRuns.DatedNumbersGrow | src/services/idgen/internal/service/idgen_service.go:211-285 | Of requests on dates that never step back, whatever fails in between, two under one scope key carry different numbers, the later the larger |
| IdService.IDGenService.NextSeqWithRetry | src/services/idgen/internal/service/idgen_service.go:450-465 | However many of the five tries fail, one number is drawn, and none when all fail |
| IdService.OneSeqShape | src/services/idgen/internal/service/idgen_service.go:232-282 | With one SEQ token an identifier is prefix, padded number, suffix |
| IdService.IdsDifferIff | src/services/idgen/internal/service/idgen_service.go:232-282 | From one such template with an unambiguous pad and equal other inputs, two identifiers are equal exactly when their (non-negative) numbers are |
| IdTemplate.ParseTemplate | src/services/idgen/internal/service/template_parser.go:12-34 | The parsing loop, with a strictly shorter remainder each round and the panic of a slice out of order |
| GoStrings.IndexIsIndexByte | src/services/idgen/internal/service/template_parser.go:14-20 | A search for a one-character string finds the first place of the character |
| IdTemplate.ParseOfPrint | src/services/idgen/internal/service/template_parser.go:12-34 | Parsing the print of a canonical segment list gives it back |
| IdTemplate.TemplateRoundTripIff | src/services/idgen/internal/service/template_parser.go:12-34 | Printing the parse gives the template back exactly when every opening brace is closed by the next closing brace, with text between them, and no closing brace comes before it |
| IdTemplate.CanonicalSpellingIff | src/services/idgen/internal/service/template_parser.go:12-34 | These templates are exactly the prints of canonical segment lists |
| IdTemplate.BadlyBraced | src/services/idgen/internal/service/template_parser.go:12-34 | "}{x}" panics, the text of "{x" is lost, and so is "{}" |
| IdTemplate.FormatLength | src/services/idgen/internal/service/idgen_service.go:301-313 | The written number, sign included, is preceded by the pad once for each character it falls short of the pad length, so a pad of one character fills up exactly, a longer one overshoots, and nothing is ever cut |
| IdTemplate.FormatInjectiveIff | src/services/idgen/internal/service/idgen_service.go:301-313 | Padded numbers determine the number exactly when the pad is empty, starts with zero, has a non-digit, or pads nothing |
| Base62.Base62Encode | src/services/url-shortener/internal/utils/keygen.go:12-29 | The canonical base-62 numeral of the bytes' value |
| Base62.ReverseRunes | src/services/url-shortener/internal/utils/keygen.go:24-28 | The swap loop reverses in place |
| Base62.CanonicalUnique | src/services/url-shortener/internal/utils/keygen.go:12-29 | A canonical numeral is determined by its value |
| Base62.EncodingInjective | src/services/url-shortener/internal/utils/keygen.go:12-29 | Encodings of byte strings of one length are equal exactly when the bytes are |
| Base62.UuidEncodingLength | src/services/url-shortener/internal/utils/keygen.go:12-29 | Sixteen bytes need at most 22 digits |
| Base62.GenerateShortKey | src/services/url-shortener/internal/utils/keygen.go:31-40 | Of the uuids the loop draws the first with enough digits gives the key, none does for more than 22 digits, and a negative length panics |
| Base62.DigitOrder | src/services/url-shortener/internal/utils/keygen.go:10-29 | Digits first, then capitals, then small letters, each worth its place |
| Base62.FirstByteIsHighest | src/services/url-shortener/internal/utils/keygen.go:12-29 | The bytes are read with the first one highest |

## Left out

- Order of rows written in the same millisecond: `created_at` order is modelled as order of insertion, and a query without ORDER BY answers in insertion order.
- JSON columns are stored and read back unchanged; identifiers of rows are their places in the table, and fresh uuids are parameters.
- Workflow: audit fields, logging and the unused transition and creation paths; letters beyond A to Z in the search for an escalation.
- Workflow: the state-machine library is reduced to its transition table keyed by event and source and its error on staying in the same state.
- Workflow: database failures in the middle of a transition, apart from the missing branch state and the duplicate execution.
- JoinRows.MergeDocumentsIff: drawing the branch rows and writing the merged row is one step, and so is deciding to wait and writing the waiting row; other actions on the branches meanwhile are not part of the race.
- WorkflowMerge.MergedAtMostOnce: one fork per key is a hypothesis; a key forked into several parallel states merges once for each (WorkflowJoin.MergesAreFinished covers that case).
- Boundary rows: geometry validation is an input of the model, and audit columns, which every update sets, are not part of a row.
- Boundary relationships: the existence checks before a creation, the search cache of that service, the tree assembled for the response, and ORDER BY path.
- BoundaryPaths.BoundaryRelationshipRepository.Update: the two-step update is modelled as the table it leaves, without the failure of a single child update.
- Localization: reading in batches is reading all rows, code order is character order and not a database collation, and the returned rows of an update are those built by its transaction.
- Localization: searches by code lists, which bypass cache and index, and the Redis variant of the cache.
- IDs: template versions and their storage, a reset that fails for other reasons than a missing sequence or start, date formatting and random text (inputs of the model), and the hash in the sequence name (taken as injective).
- IdService.IDGenService.NextSeqWithRetry: a try that fails after the database has handed out a number is not modelled.
- Base62.GenerateShortKey: the uuids drawn are an input, as many as the caller gives.
- Strings are sequences of characters; Go's byte positions and Unicode case folding are not modelled.
- Handlers, routing, configuration, and the file store, account, notification and template services, which add no deep property.
