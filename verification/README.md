# Verified model of SMEme's stateful core

SMEme lets subject-matter experts author decision trees, deploy them as compiled reasoning artifacts, and
have people and agents answer them, with usage metered against a plan. This project models the parts of it
where state, concurrency and branching meet, in Dafny, and proves what they keep over whole runs:

- **Metering** (`calendar`, `usage_windows`, `quota_protocol`, `quota_charges`, `quota_calendar`): windows of
  clamped anniversaries and UTC months, the reservation protocol (refresh, try-lock, re-check, stamp, insert,
  commit, flush without the lock, crash) of concurrent calls of one account, and what a call is charged.
- **Tree slots** (`tree_slots`): draft creation and the two fixture loaders under a blocking per-account lock.
- **Saves and deploys** (`artifact_identity`, `artifact_rows`, `draft_updates`, `row_protocol`, `row_invariant`,
  `row_history`, `row_transactions`): hash compare-and-swap updates, append-only publication with a moving
  pointer, the database triggers as guards, the migration that stamped older rows, and the row's derived state.
- **Graphs and the questionnaire** (`text`, `graph`, `cycle_check`, `questionnaire`, `answer_path`,
  `submitted_answers`, `stranded_answer`): strict validation, the cycle search, the navigation state machine,
  and what following and submitting the answers means.
- **Limiters** (`sliding_window`, `rate_limiters`): deques against the history of everything ever admitted.
- **Versions, purge, downgrade** (`version_family`, `account_purge`, `downgrade`).
- **Human admission** (`admission_loop`, `admission_prompt`, `excerpt_match`): the host graph that never
  continues an evaluation without a person's admission, and the excerpt matcher that grounds proposals.

State that the program updates in place is modelled by classes whose methods are proved against functions on
values; the protocols are step functions over those values, and the theorems range over every list of events.
`results` holds the option and result types, `collections` a few facts on sequences and sets.

## Conventions and assumptions

- An instant is a UTC datetime; the window functions use its year and month as they are. A position on the
  timeline is a number of microseconds. The quota clock never steps back.
- Postgres is a set of atomic statements with row locks and advisory locks held to the end of a transaction;
  a commit is visible before the lock is released, and a session never reads a stale row from its identity map.
- Digests are functions of the value digested. Where a result needs them to be injective it says `Faithful`.
  `str.lower` is the parameter `fold` or `lower`: results hold for any such function.
- Quota weights are hundredths. Each recorder flushes once. A refused reservation writes no row.
- A new version is numbered above the version it is made from (`smeme/decision_tree/editor/routes.py:1709`),
  so parent chains are acyclic.
- Node ids are never empty (`smeme/decision_tree/models.py:65-69`). The order of a session's stored answers is
  any order.

## What turned out not to hold, with the exact condition

- A default edge whose condition is only white space passes validation and strands the runner
  (`smeme/decision_tree/workflow.py:491` does not strip): `AnswerPath.ReachesConclusionIff` is exact,
  `StrandedAnswer.ValidGraphStrandsAnswer` gives graphs.
- A paid account's windows overlap unless its stored period starts and ends with a UTC month
  (`UsageWindows.PaidWindowsDisjointIff`), and it stays within its cap exactly when that period, if any,
  starts with one (`QuotaCalendar.PaidAccountWithinCapIff`).
- Waiting exactly as long as `Retry-After` says is enough only when the oldest hit leaves within a second or
  after whole seconds; one second more always is (`SlidingWindow.RetryAfterIsEnough`).
- The transport limiter reads its time before it waits for token verification, so a subject's calls can come
  late. With calls up to `lag` late the 60-second bound holds exactly under a limit of one or without lateness
  (`SlidingWindow.FullWindowIff`); windows of 60 seconds less the lag always stay within the limit, and longer
  ones do not (`SlidingWindow.BoundedIff`).
- Loading the sample again takes a slot without a check exactly when it restores an inactive, awake sample root
  (`TreeSlots.LoadExceedsCapIff`, per step `TreeSlots.StepKeepsInv` and `Downgrade.StepKeepsInvIff`).
- Creating a version twice from one original leaves two current versions of one number, and the current
  version then depends on which member is asked (`VersionFamily.SameCurrentIff`).
- An account purge completes exactly when no row left after the deletions refers to the user
  (`AccountPurge.PurgeableIff`); it is undone if a tree of the user's hangs off another author's root, or a memo
  of the user's off a session that stays (`AccountPurge.Database.PhaseBPurge`).
- A pick can succeed exactly when at least three active roots are left (`Downgrade.PickPossibleIff`); deleting trees
  while it is pending can lead below that (`Downgrade.DeletionsBlockPick`).
- A tree created after a downgrade is live exactly when the downgrade did not find exactly one active root
  (`Downgrade.NewTreeIsLiveIff`; in any state without a pick pending, `Downgrade.AwakeIsLiveIff`).
- Next from an unanswered optional question takes its first edge, the walk behind finish its default edge: they
  part ways exactly when that is another edge or there is none (`AnswerPath.WalkFollowsNextIff`).
- The cycle search finds a cycle whenever there is one, but the path it prints names its last node twice and
  starts one step in (`CycleCheck.HasCycle`).
- A tool result ends the inquiry or issues a task exactly when it is not an empty object; after an empty one the
  host proposes again on the task it had (`AdmissionLoop.ReproposesIff`), and every call still follows a fresh
  admission (`AdmissionLoop.EveryCallIsAdmitted`).

## Where code and documentation differ

The model follows the code.

- `smeme/decision_tree/models.py:287` allows one default edge a question, and line 130 no repeated
  option; strict validation checks neither. Nor does it check that conclusions can be reached, which
  `smeme/decision_tree/helpers/validation.py:229` lists.
- `entry_node_id` is documented to be absent when several nodes could be the entry
  (`smeme/decision_tree/models.py:507-510`); it is the first of them.
- `smeme/mcp/authoring_graph.py:612-668` refuses a title that reads as a tool error; the model does so too.

## Model

| member | source | states |
|---|---|---|
| Calendar.FirstDayIsOrdinal | smeme/billing/usage.py:50-56 | the month lengths behind the clamped anniversary add up, month by month, to the ordinal of the proleptic Gregorian calendar |
| UsageWindows.SignupWindowIsPeriod | smeme/billing/usage.py:59-93 | the three branches find the period between two clamped anniversaries that contains the instant, or fail just where a year is not representable |
| UsageWindows.AnniversaryWindowUndefinedIff | smeme/billing/usage.py:50-93 | an instant has no window exactly in the first or the last month of the calendar, on the outer side of the anniversary |
| UsageWindows.AnniversaryWindowsPartition | smeme/billing/usage.py:59-93 | for every signup day the windows partition the timeline: start <= at < end, every instant inside computes the same window, and the one at the end starts there |
| UsageWindows.AnniversaryWindowLength | smeme/billing/usage.py:50-93 | each window lasts 28 to 31 whole days, leap years included |
| UsageWindows.MonthWindowPartition | smeme/billing/usage.py:31-47 | UTC months partition the timeline, and fail only in December 9999 |
| UsageWindows.EpochFloorsStart | smeme/billing/usage.py:165-181 | with a downgrade epoch the metered start is the later of anniversary start and epoch, and exactly the epoch, before the end, while the epoch is ahead |
| UsageWindows.FreeWindowStable | smeme/billing/usage.py:118-181 | two readings whose windows share an instant compute one window |
| UsageWindows.MeteringConservesUsage | smeme/billing/usage.py:165-181 | after a downgrade every row from the epoch on counts in exactly one window, and an earlier row in none |
| UsageWindows.PickPendingForgetsUsage | smeme/billing/usage.py:148-160 | while a pick is pending the window opens at the reading, so nothing used before counts, and closes where it would without the pick |
| UsageWindows.PaidWindowsDisjointIff | smeme/billing/usage.py:96-160 | a paid account's windows count each row once exactly when the stored period is aligned to UTC months |
| UsageWindows.MisalignedPeriodOverlaps | smeme/billing/usage.py:96-160 | any unaligned stored period gives two different windows with an instant in common |
| QuotaProtocol.EffectiveQuotaWeight | smeme/mcp/invocation_telemetry.py:126-150 | a metered tool weighs nothing exactly when the outcome is a client error, and otherwise what was reserved |
| QuotaCharges.FlushSettlesWeight | smeme/mcp/invocation_telemetry.py:143-150 | settling a reserved row leaves 0 for a client error and otherwise the weight reserved, and touches no other row |
| QuotaCharges.UsageOfRewrite | smeme/billing/usage.py:212-226 | the usage of a window is a sum: rewriting one row moves it by the difference of the weights, when the row is in the window |
| QuotaCharges.RefundLeavesNoTrace | smeme/mcp/invocation_telemetry.py:279-365 | a call refunded at its flush leaves the usage of every window, and the answer to every next check, as if it had never been made |
| QuotaCharges.CallCharges | smeme/billing/quota.py:328-418 | from start to flush a call adds its tool's listed weight, once, to the windows that contain its stamp, and nothing when refused or refunded |
| QuotaCharges.PersistCharges | smeme/mcp/invocation_telemetry.py:279-365 | a call never reserved is metered from its flush on, in the windows of its own time, and reserves nothing |
| QuotaProtocol.StampKeepsCap | smeme/billing/quota.py:389-418 | a row checked in one window and stamped in the next still fits the cap there, because no other reserved row can be in that window yet |
| QuotaProtocol.FlushKeepsInv | smeme/mcp/invocation_telemetry.py:279-365 | rewriting a reserved row's weight without the lock breaks no promise of the lock holder |
| QuotaProtocol.PersistKeepsInv | smeme/mcp/invocation_telemetry.py:419-422 | a row inserted at flush, never reserved, leaves reserved usage alone |
| QuotaProtocol.StepKeepsInv | smeme/billing/quota.py:328-418 | every step of every caller keeps mutual exclusion, what the holder relies on, and the cap |
| QuotaProtocol.ReservedUsageWithinCap | smeme/billing/quota.py:365-418 | under every interleaving of reservations, flushes, unreserved inserts and crashes, reserved weight in every window stays within the cap |
| QuotaProtocol.ReserveAloneOutcome | smeme/billing/quota.py:328-418 | what one undisturbed reservation returns and writes, with enforcement on or off |
| QuotaProtocol.ReserveAloneIsRun | smeme/billing/quota.py:328-418 | such a reservation is a run of the protocol's steps |
| QuotaProtocol.TwoCallsExceedCap | smeme/billing/quota.py:395-409 | when a window fails to reach back, two calls each within the cap exceed it together |
| QuotaProtocol.QuotaDb.TryAdvisoryLock | smeme/billing/quota.py:374-388 | the try-lock step, in place |
| QuotaProtocol.QuotaDb.CheckQuota | smeme/billing/quota.py:84-155 | the check step, in place: allowed exactly when usage in the window plus the weight is within the cap; `UsageOfRewrite` and `RefundLeavesNoTrace` say what that usage is |
| QuotaProtocol.QuotaDb.InsertReserved | smeme/billing/quota.py:411-418 | the stamped insert and commit, in place |
| QuotaProtocol.QuotaDb.ReserveUnderLock | smeme/billing/quota.py:374-418 | check and insert under a lock already held |
| QuotaProtocol.QuotaDb.ReserveMcpQuota | smeme/billing/quota.py:328-418 | the whole call equals the protocol's steps from lock to release, with each refusal |
| QuotaProtocol.McpInvocationRecorder.Flush | smeme/mcp/invocation_telemetry.py:279-434 | rewrites exactly the bound row to what `FlushSettlesWeight` says, or inserts one when nothing was reserved, and never creates weight on a reserved row |
| QuotaCalendar.SpansReachBack | smeme/billing/usage.py:118-181 | the protocol's assumption on windows is the one on datetimes, transferred to the timeline |
| QuotaCalendar.FreeAccountWithinCap | smeme/billing/quota.py:365-418 | a free account's reserved usage is within every cap in every window it ever computes, over every run |
| QuotaCalendar.MisalignedStartExceedsCap | smeme/billing/usage.py:96-160 | for any paid period that starts inside a UTC month there is a run that exceeds the cap |
| QuotaCalendar.PaidAccountWithinCapIff | smeme/billing/usage.py:96-160 | a paid account is always within its cap exactly when its stored period starts with a UTC month |
| TreeSlots.Account.EnsureAcmeExampleTree | smeme/decision_tree/acme_example.py:119-201 | the loader's branches on the rows: restore checked, insert checked, deploy failure undone |
| TreeSlots.Account.EnsureSampleTree | smeme/decision_tree/sample_tree.py:99-168 | the same without the check on a restore |
| TreeSlots.Account.EnsureLiveAndListed | smeme/decision_tree/acme_example.py:93-109 | the fixture's row ends current, not archived and listed, and no other row changes |
| TreeSlots.LoadExceedsCapIff | smeme/decision_tree/sample_tree.py:111-117 | a load takes live roots past the cap exactly when it restores an inactive, awake sample root at a full account |
| TreeSlots.LoadIsIdempotent | smeme/decision_tree/acme_example.py:119-201 | loading again returns the same tree and changes nothing |
| TreeSlots.LoadAloneIsRun | smeme/billing/quota.py:158-183 | an undisturbed loader is a run of the interleaved steps, given up before its commit when its deploy fails |
| TreeSlots.CreateAloneIsRun | smeme/mcp/authoring_graph.py:518-575 | an undisturbed draft creation inserts one live root, under no fixture's name, exactly when there is room |
| TreeSlots.OthersWait | smeme/billing/quota.py:158-176 | while one creator holds the lock nothing another does moves it or inserts a tree |
| TreeSlots.OwnersFreeSlots | smeme/billing/quota.py:158-183 | deactivating or deleting a tree changes no other row, and frees a slot exactly when it was a live root |
| TreeSlots.StepKeepsInv | smeme/billing/quota.py:158-183 | one step keeps one tree for each fixture and what the lock holder relies on; it passes the cap exactly when it commits an unchecked restore |
| TreeSlots.SlotsAreCapped | smeme/billing/quota.py:158-183 | over every interleaving without such a restore live roots stay within the cap or the higher start; one tree for each (author, fixture); the IntegrityError branches are never entered |
| TreeSlots.RestoreExceedsCap | smeme/decision_tree/sample_tree.py:111-117 | a full account with an inactive sample goes from three live roots to four |
| ArtifactIdentity.SameHashIffSameContent | smeme/reasoning/artifact_identity.py:47-110 | with injective digests, rows of one tree share the artifact hash exactly when they hold the same content |
| ArtifactIdentity.TreesNeverShareHash | smeme/reasoning/artifact_identity.py:47-66 | rows of different trees never share it |
| ArtifactIdentity.StampExistsIff | smeme/reasoning/artifact_identity.py:47-110 | a row can be stamped exactly when its hashes are digests and its contract hash is its contract's, and the stamp digests everything the identity covers |
| ArtifactRows.ArtifactStore.PersistCompiledArtifactAppendOnly | smeme/reasoning/artifact_deploy.py:63-125 | in place: refuses a changed graph without a write, returns the current row when its identity matches, else appends the next version and moves the pointer |
| ArtifactRows.GuardsNeverFire | alembic/versions/a7c3e9f1b204_d025_artifact_identity_stamping.py:171-282 | neither the unique index on versions nor the pointer trigger ever refuses a publication |
| ArtifactRows.PublishSucceedsIff | smeme/reasoning/artifact_deploy.py:63-125 | a publication succeeds exactly when the stored graph reads, is the one compiled, and the content can be stamped; the other refusals are told apart |
| ArtifactRows.PublishKeepsRows | smeme/reasoning/artifact_deploy.py:84-125 | a publication keeps versions 1 to n, stamps that recompute, and a pointer to version n, and what it reports is current |
| ArtifactRows.PublishReportsCandidate | smeme/reasoning/artifact_deploy.py:90-125 | the reported artifact has the compiled content, and a row is inserted exactly when the current one has not |
| ArtifactRows.PublishCountsVersions | smeme/reasoning/artifact_deploy.py:104-125 | each publication of other content than the current adds one version, the same content none |
| ArtifactRows.MaxVersionIsLargest | smeme/reasoning/artifact_deploy.py:110-116 | in any table the maximum is the largest version of the tree, so the next one is free |
| ArtifactRows.RedeployIsIdempotent | smeme/reasoning/artifact_deploy.py:104-108 | publishing the same content again inserts nothing and reports the same row |
| ArtifactRows.PublishedIsLive | smeme/reasoning/assistant_tools_row_status.py:17-30 | a successful publication leaves the row live |
| ArtifactRows.CurrentIsOwn | smeme/reasoning/artifact_deploy.py:23-60 | the current artifact is the row whose key the tree stores, and only if that row is its own |
| ArtifactRows.RowStateIff | smeme/reasoning/assistant_tools_row_status.py:17-30 | not built exactly without a compile, a current artifact or a readable graph; otherwise live exactly when the hashes agree |
| ArtifactRows.LoadCurrentForTrees | smeme/reasoning/artifact_deploy.py:38-60 | the batch loader returns for each tree what the single loader does, and nothing else |
| ArtifactRows.BackfillArtifactIdentity | alembic/versions/a7c3e9f1b204_d025_artifact_identity_stamping.py:23-92 | stamps each row whose identity computes as version 1 and points a tree with one row at it |
| ArtifactRows.AdoptedIsOnly | alembic/versions/a7c3e9f1b204_d025_artifact_identity_stamping.py:23-92 | a tree adopts only a row of its own that can be stamped and is the only one, whatever the table |
| ArtifactRows.BackfillStartsHistory | alembic/versions/a7c3e9f1b204_d025_artifact_identity_stamping.py:23-92 | after it every tree's rows satisfy the deploy invariant |
| DraftUpdates.DraftStore.UpdateDraftFromGraph | smeme/mcp/authoring_graph.py:577-668 | in place: each refusal in order leaves the row alone, success replaces title and graph |
| DraftUpdates.UpdateKeepsArtifact | smeme/mcp/authoring_graph.py:386-422 | an update changes title and graph only, leaves the two titles equal and not empty, and replaced a graph with the expected hash |
| DraftUpdates.UpdateSucceedsIff | smeme/mcp/authoring_graph.py:577-668 | an update succeeds exactly for the author, on a live, unarchived, never published row without a pick pending, whose graph has the expected hash, with a title that is not refused; and what it then writes |
| DraftUpdates.TitleIsChosen | smeme/mcp/authoring_graph.py:386-404 | the title is the first of override, graph title and stored title that is not blank, trimmed and cut at 200 |
| DraftUpdates.StrangerLearnsNothing | smeme/mcp/authoring_graph.py:614-624 | who is not the author gets the answer for a tree that does not exist, whatever the tree holds |
| DraftUpdates.ConflictTellsHash | smeme/mcp/authoring_graph.py:637-648 | a conflict reports the stored graph's hash, and the same update with it is refused for its title or not at all |
| RowProtocol.JobSucceedsIff | smeme/reasoning/artifact_deploy.py:63-125 | exactly when a deploy or update that holds the row's lock goes through |
| RowTransactions.UpdateAloneIsRun | smeme/mcp/authoring_graph.py:577-668 | an undisturbed update writes what `UpdateDraft` says of the row, and logs it, or nothing |
| RowTransactions.DeployAloneIsRun | smeme/reasoning/artifact_deploy.py:63-125 | an undisturbed deploy publishes what the compiler makes of the saved graph and corpus, and logs it, or nothing |
| RowTransactions.AbortFreesRow | smeme/reasoning/artifact_deploy.py:76-83 | a transaction given up frees its row and changes no table |
| RowTransactions.TransactionsStand | smeme/reasoning/artifact_deploy.py:76-83 | a transaction stands until its own worker goes on with it |
| RowProtocol.RunJobStable | smeme/reasoning/artifact_deploy.py:76-83 | what a lock holder has flushed for its tree does not depend on commits for other trees |
| RowProtocol.JobFacts | smeme/reasoning/artifact_deploy.py:63-125 | what a finished transaction wrote is justified by the row it locked |
| RowInvariant.StepKeepsInv | smeme/reasoning/artifact_deploy.py:63-125 | every step of deploys, updates and editor saves keeps the row locks exclusive and pending writes valid |
| RowInvariant.VersionsAndPointer | smeme/reasoning/artifact_deploy.py:110-125 | in every reachable state versions are exactly 1 to n in order, the pointer is absent or names version n of the same tree, and stamps recompute |
| RowHistory.RunKeepsLog | smeme/mcp/authoring_graph.py:589-668 | over every interleaving the committed writes of a tree form a chain, each starting from what the last one left |
| RowHistory.NoLostUpdate | smeme/mcp/authoring_graph.py:612-668 | the graph each committed update replaced hashes to its expected hash |
| RowHistory.SameExpectedTwice | smeme/mcp/authoring_graph.py:589-592 | of two updates with one expected hash and no write between them, both commit only if the first left the hash as it was |
| RowHistory.OnlyAuthorsUpdate | smeme/mcp/authoring_graph.py:614-628 | over every interleaving no row changes hands, and every committed update was made by the author of a row then editable |
| RowTransactions.ClosedTreesRefuseUpdates | smeme/mcp/authoring_graph.py:366-383 | an archived or published tree takes no update, and an open one can be edited by its author |
| RowHistory.DeployPublishesSavedGraph | smeme/reasoning/artifact_deploy.py:76-87 | a published artifact is compiled from the graph saved when the deploy commits, though it was compiled before the lock |
| RowHistory.LiveUntilGraphChanges | smeme/reasoning/assistant_tools_row_status.py:17-30 | until the next deploy the artifact stays current and the row is live exactly while the saved graph hashes to its hash |
| RowHistory.NotBuiltUntilDeployed | smeme/reasoning/assistant_tools_row_status.py:17-30 | a row never deployed has no version and reads as not built, over every interleaving |
| RowTransactions.EditThenDeploy | smeme/reasoning/artifact_deploy.py:63-125 | the graph and corpus saved last are what the next undisturbed deploy publishes, and the row is live then |
| DecisionGraph.BuildOutgoingMap | smeme/decision_tree/models.py:406-412 | grouping edges by source in one pass agrees with filtering them for each node |
| DecisionGraph.BuildIncomingMap | smeme/decision_tree/models.py:414-420 | the same for targets |
| DecisionGraph.FirstOfEdgesFrom | smeme/decision_tree/models.py:406-450 | among the edges of a node that qualify, the one stored first in the graph is taken |
| DecisionGraph.ValidIffRules | smeme/decision_tree/helpers/validation.py:216-406 | the ordered checks accept exactly the graphs that meet every rule stated without an order |
| DecisionGraph.RefusalIsTrue | smeme/decision_tree/helpers/validation.py:216-406 | whichever rule is reached first, what the refusal reports is true of the graph and of the node or edge it names |
| DecisionGraph.ValidIsWellFormed | smeme/decision_tree/helpers/validation.py:236-255 | an accepted graph has unique ids, edges between nodes, and terminal conclusions |
| DecisionGraph.ValidIsCovered | smeme/decision_tree/helpers/validation.py:339-397 | each offered option has an edge of its own or a default edge, and each label is an option |
| DecisionGraph.ValidEntry | smeme/decision_tree/helpers/validation.py:283-295 | there is one entry, and it is a question |
| CycleCheck.BuildAdjacency | smeme/decision_tree/helpers/validation.py:1046-1048 | the adjacency lists are the successors of each id |
| CycleCheck.CycleSearch.Dfs | smeme/decision_tree/helpers/validation.py:1054-1077 | one search ends with every visited node ordered after its successors, or with a loop that parent links record |
| CycleCheck.Report | smeme/decision_tree/helpers/validation.py:1082-1090 | the reported path is the loop after its first node, then that node twice |
| CycleCheck.HasCycle | smeme/decision_tree/helpers/validation.py:1036-1091 | reports exactly when a cycle can be reached: the report rotated is a cycle, and no report comes with an ordering no walk can return in |
| CycleCheck.IsCyclic | smeme/decision_tree/helpers/validation.py:1036-1091 | the answer is yes exactly when a cycle exists, and no exactly when the nodes can be ranked |
| CycleCheck.MeetsAuthoringContract | smeme/reasoning/contract.py:9-27 | the gate passes exactly the graphs with two conclusions that meet every rule and have no cycle |
| CycleCheck.ContractGraphConcludes | smeme/reasoning/contract.py:9-27 | on such a graph, without white-space conditions, any offered answers lead to one conclusion in fewer steps than nodes |
| Questionnaire.GetReachableQuestions | smeme/decision_tree/helpers/validation.py:434-538 | the loop collects the walk that the answers select, and ends on any graph |
| Questionnaire.DecisionTreeSession.RenderQuestion | smeme/decision_tree/workflow.py:553-740 | rendering sets the node shown, and for a conclusion also what is reached and when |
| Questionnaire.DecisionTreeSession.Execute | smeme/decision_tree/workflow.py:172-550 | one request moves the session row as navigation says |
| Questionnaire.DecisionTreeSession.SubmitAnswer | smeme/decision_tree/routes.py:627-669 | an answer is stored and then navigated on; `PutAnswerStores` and `SubmitFollowsAnswer` say what that means |
| Questionnaire.PutAnswerStores | smeme/decision_tree/routes.py:651-655 | the answer is the one now read for its question, every other answer stays, and a question answered again keeps its place |
| Questionnaire.NavigationIsSafe | smeme/decision_tree/workflow.py:226-389 | the node shown is absent or in the graph; next and skip follow an edge and never leave a conclusion; previous follows one backwards; only conclusions are reached |
| Questionnaire.PreviousShows | smeme/decision_tree/workflow.py:338-389 | previous leads to the last incoming source that is answered, else to the first, and warns where nothing leads in |
| Questionnaire.SkipShows | smeme/decision_tree/workflow.py:391-468 | skip reads no answer: the first edge where all are default edges, a warning where one is not |
| Questionnaire.ReviewShows | smeme/decision_tree/workflow.py:284-307 | review returns to the question stored last, or to the entry |
| Questionnaire.ReviewReturnsToNewAnswer | smeme/decision_tree/workflow.py:284-307 | after the first answer to a question, review returns to it from anywhere |
| Questionnaire.ConclusionFlagIsSound | smeme/decision_tree/workflow.py:226-550 | the conclusion flag is set for conclusion nodes only, and for each one shown unless finish is refused on it |
| Questionnaire.FinishOutcome | smeme/decision_tree/workflow.py:226-282 | finish completes exactly when each reachable required question is answered, and otherwise warns and leaves a shown question as it was; what is reachable are nodes of the graph, validated or not |
| Questionnaire.RunsStaySafe | smeme/decision_tree/workflow.py:172-833 | the same over every sequence of requests and answers |
| AnswerPath.NextTakesEdge | smeme/decision_tree/workflow.py:391-550 | one next takes the edge the answers select, or stays, and records a conclusion it shows |
| AnswerPath.NextTakesSelected | smeme/decision_tree/workflow.py:466-550 | next takes, of the stored edges in their order, the first labelled with the answer, else the first without a condition, or the first of all where none is conditional; and stays exactly when there is none |
| AnswerPath.FollowEndsPath | smeme/decision_tree/workflow.py:391-550 | following the answers ends where its path ends, at a conclusion exactly when the last node is one |
| AnswerPath.PathIsSimple | smeme/decision_tree/workflow.py:391-550 | on an acyclic graph the path visits no node twice |
| AnswerPath.RepeatNextWalksPath | smeme/decision_tree/workflow.py:391-550 | after n requests the session shows node n of the path: the runner refines following the answers |
| AnswerPath.OnlyPathAnswersMatter | smeme/decision_tree/workflow.py:433-550 | answers off the path change neither path nor outcome |
| AnswerPath.OfferedAnswerLeaves | smeme/decision_tree/workflow.py:470-520 | in a validated graph an offered answer leaves its question unless it is stranded there |
| AnswerPath.ReachesConclusionIff | smeme/decision_tree/workflow.py:470-520 | offered answers reach a conclusion exactly when no question on the path strands its answer |
| AnswerPath.NextReachesOneConclusion | smeme/decision_tree/workflow.py:391-550 | repeated next from the entry reaches exactly the conclusion that following the answers means, in fewer steps than nodes, through questions only, and stays |
| AnswerPath.FreshSessionShowsEntry | smeme/decision_tree/workflow.py:309-327 | a new session is shown the entry |
| AnswerPath.ExactLabelsAgree | smeme/decision_tree/models.py:275-291 | folding and trimming change no outcome while the labels of a question stay distinct under them |
| AnswerPath.WalkFollowsNextIff | smeme/decision_tree/helpers/validation.py:434-538 | without white-space conditions, the walk behind finish and next take the same edge from a question exactly when it is answered, or optional with a default edge first, or required without a default edge |
| AnswerPath.FinishAgreesWithNext | smeme/decision_tree/workflow.py:226-280 | where no optional question is skipped past another edge than a default one, finish is refused exactly when a required question on the path is open, and otherwise inspects exactly the path and completes the session |
| SubmittedAnswers.SubmitFollowsAnswer | smeme/decision_tree/routes.py:627-669 | one submission stores the answer and shows the node it selects, or stays on the question |
| SubmittedAnswers.SubmissionsWalkPath | smeme/decision_tree/routes.py:627-669 | after n submissions the session shows node n of the path that all the answers together mean, and holds the answers given on the way and no others |
| SubmittedAnswers.SubmissionsReachConclusion | smeme/decision_tree/routes.py:627-669 | answering question after question with offered options reaches, in fewer submissions than nodes, exactly the conclusion that following all the answers means |
| SubmittedAnswers.PreviousUndoesNext | smeme/decision_tree/workflow.py:338-389 | previous undoes next where no other answered question leads to the node shown |
| SubmittedAnswers.NextWarnsIff | smeme/decision_tree/workflow.py:391-550 | next warns exactly when a required question is open, or an answer has no edge |
| StrandedAnswer.ValidGraphStrandsAnswer | smeme/decision_tree/workflow.py:485-520 | a family of validated graphs on which an offered answer never leaves the entry |
| StrandedAnswer.SuchNamesExist | smeme/decision_tree/helpers/validation.py:339-397 | one concrete such graph |
| SlidingWindow.ConsumeKeepsSpacing | smeme/core/middleware.py:320-341 | one call, late by up to `lag`, keeps the deque the end of the history and admissions `limit` places apart 60 seconds less the lag apart in time |
| SlidingWindow.ConsumeKeepsSingle | smeme/core/middleware.py:320-341 | under a limit of one, admissions stay 60 seconds apart however late the calls |
| SlidingWindow.DeniedIffWindowFull | smeme/core/middleware.py:332-341 | a call in time order is denied exactly when the limit's worth of hits lies in its window |
| SlidingWindow.WindowBound | smeme/core/middleware.py:320-341 | over every run of calls at nondecreasing times no 60-second window holds more than the limit, and a call is denied exactly when its window is full |
| SlidingWindow.BoundedIff | smeme/core/middleware.py:320-373 | with calls up to `lag` late, for every limit and lag: windows of a length stay within the limit in every run exactly when the length is at most 60 seconds less the lag, or at most 60 seconds under a limit of one |
| SlidingWindow.FullWindowIff | smeme/core/middleware.py:343-373 | the 60-second bound holds over every such run exactly when the limit is one or no call is late |
| SlidingWindow.BurstExceeds | smeme/core/middleware.py:343-373 | for every limit above one and every lag up to 60 seconds, a run whose last call is that late overfills any window longer than 60 seconds less the lag |
| SlidingWindow.RetryAfterIsEnough | smeme/core/middleware.py:336-339 | waiting a second longer than told always suffices; exactly as long suffices exactly when the remainder is at most one second or whole |
| RateLimiters.McpTransportRateLimit.ConsumeBucket | smeme/core/middleware.py:320-341 | in place, at any time: answer and deque as pruning gives them; a call on time is admitted exactly while fewer hits than the limit lie in its window, and a late one is denied only when the hit `limit` places back is still in it |
| RateLimiters.McpTransportRateLimit.Dispatch | smeme/core/middleware.py:343-386 | at any time, late or not: a request passes exactly when both buckets have room; a refused one is told the wait of the bucket that refused it; one refused for its subject has used an address hit, one refused for its address touches no other key; where no call was late, room is counted in the history |
| RateLimiters.McpTransportRateLimit.BoundHolds | smeme/core/middleware.py:320-373 | in every state the methods lead to, no window of a key's whole history, 60 seconds less the lag of its latest call, holds more than its limit; no 60-second window does under a limit of one or without late calls |
| RateLimiters.FirstProvisionRateLimit.Allow | smeme/mcp/bearer_auth.py:355-374 | admitted exactly when every enabled key has room, and then recorded under each of them; denied, under none |
| RateLimiters.FirstProvisionRateLimit.BoundHolds | smeme/mcp/bearer_auth.py:355-374 | the bound of each key over the whole history |
| VersionFamily.ConnectedIffSameRoot | smeme/core/models.py:414-466 | the connected component of parents and children is the set of versions with one root |
| VersionFamily.GetVersionFamily | smeme/core/models.py:414-444 | the worklist ends with exactly the component, each version once, ordered by number, the start first among equals |
| VersionFamily.GetRootVersion | smeme/core/models.py:461-466 | the cursor ends at the root |
| VersionFamily.GetCurrentVersion | smeme/core/models.py:446-459 | the first flagged version of such a list, or the highest |
| VersionFamily.SameFromAnyMember | smeme/core/models.py:414-466 | family and root are the same from every member |
| VersionFamily.SameCurrentIff | smeme/core/models.py:446-459 | the current version is the same from every member exactly when the family has one candidate |
| VersionFamily.TwoVersionsOfOneOriginal | smeme/decision_tree/editor/routes.py:1709-1728 | versioning one original twice leaves two candidates |
| VersionFamily.GetVersionFamilyFromDb | smeme/decision_tree/helpers/db_queries.py:153-238 | up to the root and down level by level gives the same component |
| AccountPurge.Database.DeleteWorkflowFamily | smeme/decision_tree/helpers/workflow_delete.py:18-58 | deletes exactly the family, its sessions and their memos, and no statement on the way breaks a foreign key |
| AccountPurge.FamilyStatementsPass | smeme/decision_tree/helpers/workflow_delete.py:37-56 | each of the four statements passes, and together they remove exactly those rows |
| AccountPurge.Database.PurgeWorkflows | smeme/auth/account_delete.py:100-114 | removes every family whose root the user authored |
| AccountPurge.Database.PurgeOrphanSessions | smeme/auth/account_delete.py:117-130 | removes the user's remaining sessions with their memos |
| AccountPurge.Database.PhaseBPurge | smeme/auth/account_delete.py:172-274 | completes exactly when nothing of the user's is left outside what it deletes, and is undone otherwise |
| AccountPurge.PurgeableIff | smeme/auth/account_delete.py:172-183 | the condition is that no row left refers to the user |
| AccountPurge.PurgeLeavesNoTrace | smeme/auth/account_delete.py:172-274 | afterwards nothing refers to the user or a deleted tree, and every other row is as it was |
| AccountPurge.PurgedExactly | smeme/auth/account_delete.py:172-274 | users, trees, sessions, memos and generations are exactly the old ones less the user, the user's families and generations, and the sessions and memos that go with them |
| AccountPurge.TreesGo | smeme/decision_tree/helpers/workflow_delete.py:37-56 | trees can be deleted exactly when no session runs on them and no version outside them has its parent among them |
| AccountPurge.OneAuthorIsPurgeable | smeme/auth/account_delete.py:172-183 | families with one author, and memos of their session's user, can always be purged |
| Downgrade.UserAccount.ClearDowngradeStateOnUpgrade | smeme/billing/access_policy.py:202-213 | in place: every tree awake, every downgrade field cleared |
| Downgrade.UserAccount.ResolveSubscriptionEnded | smeme/billing/access_policy.py:216-245 | in place: up to three active roots stay awake, more ask for a pick |
| Downgrade.UserAccount.ApplyWorkflowPick | smeme/billing/access_policy.py:248-274 | in place: the chosen stay awake, or the pick is refused without a write |
| Downgrade.StepKeepsInvIff | smeme/billing/access_policy.py:79-94 | one step takes a free account past three awake roots exactly when, the account being full, it restores an inactive awake sample root (`smeme/decision_tree/sample_tree.py:111-117`) or saves a generated tree |
| Downgrade.LiveRootsAreCapped | smeme/billing/access_policy.py:79-94 | over every run a free account with a pick pending has no live active root, and one without at most three unless a step took an unchecked slot |
| Downgrade.CreateSucceedsIff | smeme/billing/quota.py:113-137 | a draft is created exactly below the tier's cap, of awake roots on Free and of all active roots when paid |
| Downgrade.PaidStepKeepsCapIff | smeme/decision_tree/sample_tree.py:111-117 | one step takes a paid account past twenty active roots exactly when, the account being full, it restores an inactive sample root or saves a generated tree |
| Downgrade.PaidRootsAreLive | smeme/billing/access_policy.py:79-94 | a paid account's roots are all live, whatever a downgrade has left behind |
| Downgrade.UpgradeErasesDowngrade | smeme/billing/access_policy.py:202-213 | an upgrade leaves nothing of a downgrade, keeps trees and paid period, and changes nothing else where nothing was left |
| Downgrade.EndSettlesTrees | smeme/billing/access_policy.py:216-245 | the end of a subscription clears the cancellation and the paid period, names a live root exactly when one active root is there, and touches no tree but active roots |
| Downgrade.PickSettlesTrees | smeme/billing/access_policy.py:248-274 | a pick decides about active roots alone and touches no other field than those it settles |
| Downgrade.OwnerStepsMoveRoots | smeme/billing/access_policy.py:79-94 | an owner's step adds or removes its own tree among the active roots and changes no other |
| Downgrade.PickKeepsExactlyChosen | smeme/billing/access_policy.py:248-274 | a pick succeeds exactly for three active roots, and then exactly they are live |
| Downgrade.PickPossibleIff | smeme/billing/access_policy.py:255-264 | some pick can succeed exactly when at least three active roots exist |
| Downgrade.UpgradeThenEnd | smeme/billing/access_policy.py:202-245 | an upgrade wakes every tree, and a downgrade with at most three active roots keeps them live |
| Downgrade.EpochMarksSettlement | smeme/billing/access_policy.py:202-274 | the metering epoch is cleared by an upgrade, set by a downgrade that needs no pick and by a pick, and moved by nothing else |
| Downgrade.AwakeIsLiveIff | smeme/billing/access_policy.py:79-94 | every awake root is live exactly when no live root was chosen or no other root is awake |
| Downgrade.NewTreeIsLiveIff | smeme/billing/access_policy.py:216-245 | a tree created after a downgrade with a slot free takes the slot, and is live exactly when the downgrade did not find exactly one active root |
| Downgrade.DeletingLiveRootFreesOthers | smeme/core/models.py:168-180 | deleting the chosen live root clears the choice, and every awake root is live then |
| Downgrade.DeletionsBlockPick | smeme/billing/access_policy.py:248-274 | a downgrade with four active roots and two deletions lead to a state in which no pick succeeds |
| AdmissionLoop.StepKeepsInv | examples/smeme_langgraph_withholding.py:575-740 | each node keeps the proposal on the open task and the option and provenance admitted |
| AdmissionLoop.EveryCallIsAdmitted | examples/smeme_langgraph_withholding.py:651-780 | each continue call follows at once the admission of the current proposal and carries the last issued task's session and question, an offered option and a provenance that is not blank |
| AdmissionLoop.RefusalChangesNothing | examples/smeme_langgraph_withholding.py:680-698 | rejected, cancelled and invalid decisions make no call and leave the task as it was |
| AdmissionLoop.ReproposesIff | examples/smeme_langgraph_withholding.py:700-740 | after a reply the host proposes again with nothing newly issued exactly when the reply is an empty object, and then on the same task and session |
| AdmissionLoop.RoundAdvances | examples/smeme_langgraph_withholding.py:651-740 | a suggestion, an admission and a reply with a task lead to a proposal on that task, with exactly the decision, the call and the task added; an option not offered is not proposed |
| AdmissionLoop.EndsIff | examples/smeme_langgraph_withholding.py:618-740 | the loop ends exactly on a final result, and fails exactly on a failure or a proposal asked for without a task |
| AdmissionLoop.OneCallPerAdmission | examples/smeme_langgraph_withholding.py:745-780 | calls and admissions are equal in number, but for one admission still waiting |
| AdmissionPrompt.PromptOption | examples/smeme_langgraph_withholding.py:1068-1097 | the first line that selects something decides |
| AdmissionPrompt.PromptProvenance | examples/smeme_langgraph_withholding.py:1100-1107 | the first line that is not blank decides |
| AdmissionPrompt.PromptAdmission | examples/smeme_langgraph_withholding.py:987-1046 | the prompts, one after another over the lines typed, decide what `Dialogue` reads off them |
| AdmissionPrompt.DialogueMeetsGate | examples/smeme_langgraph_withholding.py:987-1046 | what the dialogue admits, the gate admits with the same option and provenance; its rejections and cancellations are the gate's |
| AdmissionPrompt.ActionSettlesProposal | examples/smeme_langgraph_withholding.py:1012-1029 | on a proposal the first line that names an action rejects exactly by "r", and by "a" admits the proposed option under its own source, or under the first line typed then where that is blank |
| AdmissionPrompt.EditReplacesProposal | examples/smeme_langgraph_withholding.py:1023-1029 | "e" sets option and source aside: the next choice cancels or picks the option, and the next line that is not blank cancels or is the provenance |
| AdmissionPrompt.SelectionSettlesChoice | examples/smeme_langgraph_withholding.py:1030-1046 | without one the first choice rejects exactly when it reads "r" or picks an option labelled like the rejection mark; otherwise its option is admitted under the next line that is not blank |
| AdmissionPrompt.PickedByNumber | examples/smeme_langgraph_withholding.py:1068-1075 | each option is picked by the number shown beside it, and by nothing else |
| AdmissionPrompt.OtherLinesDecideNothing | examples/smeme_langgraph_withholding.py:1068-1097 | lines that name no action, or make no choice, decide nothing |
| ExcerptMatch.NormalizeConcat | examples/smeme_langgraph_withholding.py:466-469 | the normal form of a concatenation is made of the two normal forms |
| ExcerptMatch.NormalizingOnlyWidens | examples/smeme_langgraph_withholding.py:464-469 | an exact match stays a match after both sides are split and rejoined |
| ExcerptMatch.NormalizeIdempotent | examples/smeme_langgraph_withholding.py:466-467 | normalizing twice is normalizing once |
| ExcerptMatch.NormalizedMatchIsSound | examples/smeme_langgraph_withholding.py:466-469 | a normalized match is a match once white space is left out |
| ExcerptMatch.ProposalIsGrounded | examples/smeme_langgraph_withholding.py:426-494 | a proposal has a value exactly for an offered option, a known source and an excerpt found up to white space, and says truly how it was found |

## Left out

- The compiler, the solver's theory, satisfiability checks and the deploy gate built on them: `compile` is any partial function of graph and corpus.
- SHA-256, canonical JSON and UTF-8: digests are functions of values; versions are unbounded, not BIGINT.
- Tier changes and the refresh of stored billing periods during a metering run: window function and cap are fixed for the run; tier changes are in `downgrade`.
- Writers of trees that take no slot lock: the generation wizard (`smeme/decision_tree/generation/agentic/workflow.py:570`) and new versions add rows outside the protocol of `tree_slots`, where new versions appear only as trees that stop being current; the wizard's save is an event of `downgrade`.
- Import copies (`smeme/decision_tree/helpers/import_copy.py:200-222`) create a tree as draft creation does and are not a separate event.
- Tables that cascade or are set to null on delete, the audit log, checkpoint deletion and payment or identity providers in the account purge.
- HTML, forms, routes, caching, logging, cost estimates, telemetry fields other than the weight, and the timing of `expires_at`.
- The inquiry session tables (`smeme/core/models.py:863-1088`): a schema, whose transitions are not part of this model.
- Lenient validation for editing, generation and agent authoring: only the strict validation and the cycle search are modelled.
- The research corpus is read before the row lock: a deploy publishes the corpus it read, and a later corpus does not make a row stale.
- The model's provider, its one retry and message decoding: a proposal reaches the host as any value, and a decoded answer as any record.
- RateLimiters.McpTransportRateLimit.Dispatch: runs its two calls with no other request between them; each is a `ConsumeBucket`, proved for any state and any time.
- TreeSlots.SlotsAreCapped: excludes runs that restore an inactive sample at a full account, which the code lets past the cap; `TreeSlots.StepKeepsInv` says exactly which step does so.
- AnswerPath.NextReachesOneConclusion: asks that no condition is white space only; `AnswerPath.ReachesConclusionIff` is exact without that.
- AnswerPath.FinishAgreesWithNext: excludes paths on which an optional question is skipped past another edge than a default one; `AnswerPath.WalkFollowsNextIff` is exact for each question.
- Downgrade.LiveRootsAreCapped: excludes, without a pick pending, runs in which a full account takes an unchecked slot, which the code lets past the cap; `Downgrade.StepKeepsInvIff` says exactly which step does so.
- Deletion of a tree with its artifacts is no event of `row_protocol`, which follows trees while they exist.
