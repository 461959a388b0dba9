# A verified model of the GitLab fleet governor

The fleet governor reads a declarative policy and brings every group and project of a GitLab
instance in line with it. This project models the parts of it whose correctness is not visible from
one function, and proves what they promise for every input, every schedule and every run:

| file | what it models |
|---|---|
| `WorkerPool.dfy` | the bounded worker pool and `ParallelMap`, as a step machine over its goroutines |
| `Metrics.dfy`, `Engine.dfy` | the metrics accumulator and the accounting of a whole run |
| `GroupTree.dfy` | breadth-first traversal of a possibly cyclic group graph |
| `Pagination.dfy` | keyset and page streaming with the one-way fallback |
| `Discovery.dfy` | concurrent scanners feeding the deduplicating fleet accumulator, and discovery end to end |
| `RateLimit.dfy` | the retrying transport: delays in 64-bit arithmetic, attempts, response bodies |
| `EnvSubst.dfy` | the recursive environment expander and its two brace scanners |
| `TargetBranchRules.dfy`, `ProtectedBranches.dfy`, `ProtectedEnvironments.dfy`, `Variables.dfy`, `PushRules.dfy`, `RepositoryFiles.dfy`, `RepositoryFileOrder.dfy`, `RepositoryFileContent.dfy` | the reconcilers, each against a GitLab project it changes |
| `Exporter.dfy`, `VariableExport.dfy` | inspection of live projects, merging by strategy, and the plan of the exported policy |
| `SortedKeys.dfy`, `Prelude.dfy` | comparison of lists by sorted formatted keys; shared vocabulary |

`dafny verify dfyconfig.toml` checks all of it.

The GitLab server is idealised: it stores exactly what it is sent, lists return everything, and a
call succeeds unless a member says otherwise. Concurrency is modelled by arbitrary sequences of
enabled steps, map iteration by arbitrary order, and everything outside the program -- replies,
faults, clocks, random draws, cancellation -- by functions the theorems quantify over.

## What the proofs found

Where the code falls short of what it or its documentation says, the model follows the code, a lemma
gives the failing case, and the property is proved for exactly the inputs on which it holds.

- **Strict export fails without drift.** `--strategy strict` is documented to fail on configuration
  drift between projects. It also fails when several projects agree in having no such section
  (`Exporter.StrictFailsExactly`, `Exporter.StrictFailsWithoutDrift`).
- **The backoff overflows.** `1 << attempt` turns negative at attempt 63 and zero from 64 on; with
  that many retries configured, those follow without any delay
  (`RateLimit.BackoffIsExponentialExactly`). A base of 2^53 ns overflows at attempt 10
  (`RateLimit.LargeBaseOverflows`).
- **Protected environments need two Applies** when an explicit rule names a not yet existing
  environment that an earlier wildcard rule matches (`ProtectedEnvironments.OneApplySufficesExactly`,
  `ProtectedEnvironments.ShadowedNameNeedsTwo`). Two always suffice, because the validator refuses
  duplicate names.
- **Nothing refuses two rules for one protected branch.** Such a policy settles exactly when what its
  decisive rules create satisfies the others of the name (`ProtectedBranches.OneApplyConverges`); if
  two of them disagree on a field it never does (`ProtectedBranches.SatisfiableExactly`,
  `ProtectedBranches.RepeatedBranchNeverSettles`).
- **Variables are looked up by trimmed scope and requested as declared.** For any project, any order of
  its listing and any policy without duplicates: if the listing shows nothing out of sync, one Apply
  leaves the project in sync exactly when it was; otherwise one Apply completes and does so exactly when
  every declaration that is found is stored under its own name and what shares a composite key agrees
  (`Variables.SettlesExactly`). So a declared scope with white space around it fails on a project with
  the trimmed variable (`Variables.UntrimmedScopeFails`), and every accepted policy that declares
  anything fails on some project with a stored scope with white space
  (`Variables.UntrimmedVariableFails`), which Apply itself can create
  (`Variables.ApplyStoresWhatItCannotFind`). On projects whose stored scopes are trimmed the condition is
  one on the policy alone (`Variables.CompositeKeySettlesExactly`). The validator's key does not trim,
  so it accepts pairs that collide (`Variables.ValidatorAcceptsColliding`, `Variables.SatisfiableExactly`).
- **An empty variables policy prunes nothing**, even with pruning on (`Variables.PruningIsExact`).
- **Recreating a protected branch resets what the rule leaves unset**, while the PATCH path keeps it
  (`ProtectedBranches.UnsetFieldsKeptExactly`, `ProtectedBranches.UnsetFieldIsReset`).
- **Deploy keys are not compared.** A rule that differs from a branch in a deploy key alone plans
  nothing. On branches without deploy keys an empty plan, and one Apply, mean that the declared access
  is granted exactly when no rule names a deploy key (`ProtectedBranches.EmptyPlanGrantsExactly`,
  `ProtectedBranches.ApplyGrantsExactly`).
- **A root group numbered 0 is not remembered** below its children, because 0 stands for "no root":
  attribution is right on every graph exactly when no root has ID 0 or the traversal stops at the
  children (`GroupTree.AttributionExactly`, `GroupTree.RootZeroIsForgotten`). GitLab numbers groups
  from 1, so this concerns other callers of the traversal only.
- **A trailing `$` or `\` is not compositional**: it joins with text that is appended
  (`EnvSubst.ExpansionIsHomomorphic`).
- **Equal panics are listed once**: a run's accounts add up exactly when its recorded panics print
  differently from each other and from every returned error (`WorkerPool.AccountsAddUpExactly`,
  `WorkerPool.EqualPanicsAreListedOnce`). No failure goes unreported (`WorkerPool.ErrorsAreReported`).
- **Repository files can get in each other's way.** Nothing refuses several declarations of one path,
  and all merge requests for a path share a feature branch. One Apply settles every enforced file, from
  every repository and in every order of declaration, exactly when no two declarations `Clash`
  (`RepositoryFiles.AlwaysSettlesExactly`). Where no path has two merge requests to one target, it does
  so in the declared order exactly when that order fits (`RepositoryFileOrder.SettlesAsDeclaredExactly`):
  a direct commit before the merge request it contradicts can save both (`RepositoryFiles.OrderMatters`),
  and two merge requests may share a feature branch when direct commits bring the same to their targets
  (`RepositoryFiles.SharedFeatureBranchCanSettle`).
- **Exported variables do not all survive.** The zero-drift promise of a consensus export breaks on
  variables written as placeholders (`Exporter.ConsensusExportHasNoDrift`), which come back only from an
  environment that holds them (`VariableExport.PlaceholderComesBack`). Values are not escaped, so what
  holds `$$`, `${` or `\$` changes when the policy is loaded: a section comes back in every environment
  exactly without placeholders and such text (`VariableExport.DriftFreeEverywhereExactly`).

## Model

| member | source | states |
|---|---|---|
| WorkerPool.TaskInExactlyOnePlace | internal/engine/workerpool.go:115-225 | in every interleaving, cancelled or not, a submitted task is at one place: one channel position, one worker, finished or rejected; its closure begins at most once; there are as many workers as requested, or 10 if that is not positive |
| WorkerPool.SubmitNeverBlocks | internal/engine/workerpool.go:291-310 | while an item is left, the channel is open and has room, because it holds as many tasks as there are items |
| WorkerPool.CloseAccountsForEveryTask | internal/engine/workerpool.go:115-225 | when Close returns every index has a result, an error in its slot or in the pool's list, or is still queued and never began; a result excludes both errors, and the pool lists each task once at most |
| WorkerPool.UncancelledCallFinishesEveryTask | internal/engine/workerpool.go:115-225 | without cancellation every task has finished when Close returns, and every result is the one its item yields, even when other tasks panic |
| WorkerPool.ParallelMapRefinesSequentialMap | internal/engine/workerpool.go:279-337 | every interleaving without cancellation or panic returns what a sequential left-to-right map returns, errors in index order; the pool's own error list adds nothing |
| WorkerPool.CollectErrors | internal/engine/workerpool.go:312-336 | the collection loops yield the recorded errors in index order followed by the pool errors not yet mentioned |
| WorkerPool.SchedulesAreBounded | internal/engine/workerpool.go:115-225 | no interleaving runs forever: schedules are bounded by the work left |
| WorkerPool.CloseReturns | internal/engine/workerpool.go:218-225 | no interleaving gets stuck: until Close has returned the pool itself has a step to take, cancellation aside |
| WorkerPool.AccountsAddUpExactly | internal/engine/workerpool.go:279-337 | for every uncancelled schedule, whatever errors its panics are recorded with, results and errors come to at most the items, and to exactly the items if and only if no recorded panic prints like another or like a returned error |
| WorkerPool.EqualPanicsAreListedOnce | internal/engine/workerpool.go:323-334 | for every uncancelled schedule two recorded panics that print the same leave the accounts short |
| WorkerPool.ErrorsAreReported | internal/engine/workerpool.go:312-336 | even with panics an uncancelled call returns the sequential map's results, and no error exactly when that has none |
| Metrics.SummaryMetrics.RecordOperation | internal/engine/metrics.go:165-215 | the running totals, the per-operation summaries and their sums agree with the history of recorded operations after one more |
| Metrics.SummaryMetrics.RecordTargetResult | internal/engine/metrics.go:132-152 | a recorded target is counted once, its operations all recorded, and every counter stays in agreement with the history |
| Metrics.SummaryMetrics.TakeSnapshot | internal/engine/metrics.go:231-256 | whatever the map order, the snapshot's summed applied and skipped counts equal the running totals, and all its sums count the recorded operations |
| Metrics.SumTakesAny | internal/engine/metrics.go:240-256 | the sum over the per-operation map does not depend on which entry is visited first |
| Metrics.SumSummaries | internal/engine/metrics.go:235-256 | the snapshot loop computes the three sums and copies the map, in any visiting order |
| Metrics.DriftIsWhatTheDiffsShow | internal/engine/metrics.go:205-214 | the drift of an operation is every field its diffs list plus one for each acting diff with details and no field, and zero exactly when no diff shows anything |
| Metrics.TargetsArePartitioned | internal/engine/metrics.go:138-146 | changed, unchanged and failed targets add up to all recorded ones, and none failed exactly when all are clean |
| Metrics.SummariesAreBalanced | internal/engine/metrics.go:173-206 | in each operation's summary the counted actions, and the failures, stay within its total |
| Engine.ExecuteTarget | internal/engine/engine.go:592-660 | returns what the registry came to with its error; a project marked for deletion leaves one skipped, successful operation and no error, whatever its operations would do |
| Engine.TargetReports | internal/engine/engine.go:47-116 | a target succeeds exactly when the registry stopped at no error and every operation succeeded; it has changes exactly when some apply acted and has diffs, or some plan says so; every operation is reported in order under its name with its action, status, diffs and error |
| Engine.CleanExactlyWithoutFailures | internal/engine/engine.go:47-76 | a dry-run target is clean exactly when nothing stopped the registry and no plan carries an error, and then no operation counts as failed |
| Engine.MapIsConserved | internal/engine/engine.go:502-535 | each target leaves a result or an error, never both or neither, and there is no error and no unclean result exactly when every target is governed |
| Engine.RunPhase | internal/engine/engine.go:501-516 | for every schedule of a ParallelMap phase, panics included, kept results and errors come to at most the targets, and to all of them exactly when the recorded panics tell apart; the metrics record exactly the kept results; all is clean exactly when every target is governed |
| Engine.RunWithOptions | internal/engine/engine.go:500-589 | for every schedule of both phases changed + unchanged + failed + errors is the number of targets exactly when the phases' recorded panics tell apart, and never more; the run succeeds exactly when every target did, without error, panic or failed operation |
| GroupTree.Traverse | internal/discovery/grouptree.go:147-221 | terminates on every finite graph; lists without duplicates, by nondecreasing depth, exactly the non-excluded groups that are roots or, in a recursive scope, lie at a distance not above the positive ceiling, each at its shortest distance; attributes each to a root at that distance when 0 is no root, the scope is flat or the ceiling is 1; exclusion cuts nothing off; fails only for a group above the ceiling whose listing failed, or a done context |
| GroupTree.ReachIsWalks | internal/discovery/grouptree.go:189-216 | the level sets behind the distances are exactly the ends of bounded walks from a root |
| GroupTree.LevelIsQueued | internal/discovery/grouptree.go:169-217 | once all nearer items are expanded, everything within a distance is queued |
| GroupTree.QueueIsScope | internal/discovery/grouptree.go:169-217 | a worked-off queue holds exactly the groups in scope |
| GroupTree.CoversTheScope | internal/discovery/grouptree.go:169-217 | a group is in scope exactly when it is a root or, in a recursive scope, lies at a distance within the ceiling, a ceiling that is not positive being none |
| GroupTree.AttributionExactly | internal/discovery/grouptree.go:206-209 | over all graphs and all runs, every group is attributed to a root it lies below exactly when 0 is not among the roots or the scope does not reach below their children |
| GroupTree.RootZeroIsForgotten | internal/discovery/grouptree.go:206-209 | a traversal of a concrete graph from a root numbered 0 attributes a group to a non-root |
| Pagination.StreamAll | internal/gitlab/pagination.go:163-244 | an error item is last and has a cause; with honest links a stream from the beginning without an error item covers exactly the listing; without cancellation the items are determined by the failing requests: none, the listing; the first one a 400 to a keyset request with auto-fallback, the pages before it and then the whole listing up to the next failure; else the pages before it and its error |
| Pagination.StreamLoop | internal/gitlab/pagination.go:170-241 | terminates whatever the links say, under the measure (mode, what remains past the cursor); its requests change mode at most once, from keyset to page and to page 1, and only for a refused keyset request |
| Pagination.FetchPage | internal/gitlab/pagination.go:204-239 | one successful request sends its page and either ends the run with its promises kept or advances the cursor |
| Pagination.Send | internal/gitlab/pagination.go:204-211 | a page is sent in order, or a prefix of it followed by the cancellation error |
| Pagination.CursorAdvances | internal/gitlab/pagination.go:221-239 | every cursor the guards let through leaves strictly less of the listing |
| Pagination.AfterMembers | internal/gitlab/pagination.go:376-412 | a keyset request selects exactly the items with a larger ID |
| Pagination.HonestNext | internal/gitlab/pagination.go:221-239 | with honest links a page and what the next cursor selects are together what the page's cursor selected |
| Pagination.StreamIsTheListing | internal/gitlab/pagination.go:163-244 | a stream from the beginning without an error item is the listing, each item once and in order, if nothing or the first request fell back, and covers exactly the listing in every case |
| Pagination.StreamIsExact | internal/gitlab/pagination.go:170-241 | for every pattern of failing requests, mode and fallback setting, what an uncancelled stream with honest links sends: the pages before the first failure and its error, or, where that is refused with 400 in keyset mode under auto-fallback, those pages followed by the listing from its first page until the next failure |
| Pagination.HealthyRunHasNoError | internal/gitlab/pagination.go:179-201 | an uncancelled run in which no request fails but, under auto-fallback, a keyset request refused with 400, ends without an error item |
| Pagination.CollectAll | internal/gitlab/pagination.go:247-256 | the values before the first error item, and that error |
| Discovery.FleetAccumulator.AddProjectIfMatches | internal/discovery/discovery.go:238-276 | counts the project, keeps it once if it matches, and reports the match |
| Discovery.FleetAccumulator.AddDiscoveredGroups | internal/discovery/discovery.go:200-217 | the fleet's groups are the traversed ones, each once and as found, and each occurrence is counted |
| Discovery.FleetAccumulator.ScanInstanceProjects | internal/discovery/discovery.go:388-414 | fails exactly when the stream carries an error or the context is done before some item; otherwise holds exactly the matching items and counted all |
| Discovery.InvStep | internal/discovery/discovery.go:334-386 | every step of every scanner keeps: at most `concurrency` scanners run, the fleet holds exactly the matching items taken, and matches do not exceed scans |
| Discovery.ScanIsExact | internal/discovery/discovery.go:334-386 | for every interleaving and any duplicates: an error is reported exactly if a stream carries one; otherwise the fleet's projects are exactly the matching projects of the streams, attributed to a group that has them, with exact counts |
| Discovery.ErrorsFit | internal/discovery/discovery.go:341-366 | the error channel never holds more than one error per group, so reporting does not block |
| Discovery.ScanEnds | internal/discovery/discovery.go:345-378 | the scan never gets stuck and every step leaves less to do |
| Discovery.FleetIsTheScope | internal/discovery/discovery.go:334-386 | a scan of the traversed groups that reports no error holds exactly the matching projects of the non-excluded groups in the selector's scope |
| Discovery.StreamGroups | internal/discovery/discovery.go:356-364 | each group's stream, if it ends without an error, covers exactly the group's projects |
| Discovery.ExecuteGroupMode | internal/discovery/discovery.go:305-323 | end to end, for every interleaving: an error is reported exactly if a stream ended with one, else the fleet's project IDs are exactly the matching projects of the non-excluded groups in scope |
| RateLimit.WithDefaults | internal/gitlab/ratelimit.go:101-143 | the constructor's configuration is always valid, each accepted value survives whatever the others are, and the others become 0 retries, 500 ms, 30 s and 0.10 |
| RateLimit.DelayFollowsTheServer | internal/gitlab/ratelimit.go:320-351 | the pre-jitter delay is Retry-After in seconds or until its date, else on 429 the time until the announced reset, in seconds or milliseconds by its size, if that is to come, else the exponential one, as after an error |
| RateLimit.BackoffIsBounded | internal/gitlab/ratelimit.go:320-373 | every backoff lies in [0, maxBackoff] for every reply, clock and draw, exactly because the jitter ratio is positive |
| RateLimit.JitterIsProportional | internal/gitlab/ratelimit.go:353-373 | for every positive ratio jitter stays within its ratio of the delay as far as the maximum allows |
| RateLimit.BackoffIsExponentialExactly | internal/gitlab/ratelimit.go:340-350 | for every valid configuration the pre-jitter delay is min(base * 2^min(attempt, 10), max) exactly up to attempt 62 and while the product fits 64 bits or wraps to at least the maximum; from 63 on there is no delay at all |
| RateLimit.BackoffNeverShrinks | internal/gitlab/ratelimit.go:340-350 | the pre-jitter delay is positive and nondecreasing in the attempt up to 62, while the later product fits 64 bits |
| RateLimit.LargeBaseOverflows | internal/gitlab/ratelimit.go:340-350 | a base of 2^53 ns gives a negative delay at attempt 10 |
| RateLimit.GovernorTransport.RoundTrip | internal/gitlab/ratelimit.go:147-248 | at most maxRetries + 1 tries, another one exactly after a retryable error or 429, 500, 502, 503, 504; one backoff between two tries, each the one its reply calls for; a response is returned exactly without an error, is the last received and open; every other response that arrived is closed; each error has its cause; the remembered headers are the latest seen |
| RateLimit.LatestDateIsLatest | internal/gitlab/ratelimit.go:264-276 | the remembered date is that of the latest reply that gives one, or what was known before |
| RateLimit.TotalSleepIsBounded | internal/gitlab/ratelimit.go:147-248 | the backoffs slept sum to at most maxRetries * maxBackoff |
| EnvSubst.ExpandEnvRecursive | internal/config/envsubst.go:28-103 | the expander's loops terminate for every lookup, self-referential ones included, and compute the token-by-token expansion |
| EnvSubst.ScanExpression | internal/config/envsubst.go:56-75 | the brace-matching loop finds the closing brace of the expression, or reports that there is none |
| EnvSubst.EvaluateExpression | internal/config/envsubst.go:105-159 | computes the expression's value: the variable's expansion, else the default after the first top-level `:-`, else what the lookup gives |
| EnvSubst.VariableExpands | internal/config/envsubst.go:105-159 | `${name}` expands to what the value expands to two levels down, to the empty value of a variable that is unset or empty, and fails when the name without surrounding white space is not a letter or `_` followed by letters, digits and `_` |
| EnvSubst.DefaultIsExpanded | internal/config/envsubst.go:105-159 | `${name:-default}`, for every balanced default, expands to what the variable does, or to the expanded default if it is unset or empty |
| EnvSubst.UnclosedFails | internal/config/envsubst.go:56-79 | an expression that is not closed fails |
| EnvSubst.DepthIsBounded | internal/config/envsubst.go:28-31 | text with nothing to expand is itself up to depth 32 and refused below |
| EnvSubst.ExpansionIsFuelMonotone | internal/config/envsubst.go:28-31 | a success at some recursion depth is the same success at every smaller depth |
| EnvSubst.ExpansionIsHomomorphic | internal/config/envsubst.go:28-103 | expanding s + t is expanding s and t, failing exactly as t fails, for every t exactly when s does not dangle |
| EnvSubst.PlainEndIsNotDangling | internal/config/envsubst.go:38-97 | a string that does not end in `$` or `\` does not dangle |
| EnvSubst.EscapeRoundTrips | internal/config/envsubst.go:38-53 | replacing every `$` by `\$` and expanding gives any string back |
| EnvSubst.DoublingRoundTrips | internal/config/envsubst.go:38-53 | so does doubling every `$` of a text without backslashes, and expanding |
| EnvSubst.ScannersAgree | internal/config/envsubst.go:56-128 | the first scanner cuts out exactly balanced text, so the second scanner's clamp never matters on it |
| EnvSubst.ExpandsToItselfExactly | internal/config/envsubst.go:28-103 | text expands to itself in every environment exactly when it holds no `\$`, `$$` or `${` |
| EnvSubst.DefaultExpands | internal/config/envsubst.go:105-159 | `${name:-default}` with a plain default expands to what the variable does, to the default if it is unset or empty, and fails on an invalid name |
| EnvSubst.SelfReferenceIsRefused | internal/config/envsubst.go:28-31 | any variable whose value comes, after text that expands, to an expression naming the variable again is refused by the depth bound |
| EnvSubst.DeeperOnlyExceeds | internal/config/envsubst.go:28-31 | starting deeper changes a successful expansion at most into exceeding the bound |
| TargetBranchRules.CalculateDiffs | internal/governance/targetbranchrules.go:118-202 | the loops compute the specified diffs, duplicates and order check included; the overall action is that of the first diff |
| TargetBranchRules.DiffsSay | internal/governance/targetbranchrules.go:118-202 | missing are announced exactly the declared rules no live rule is named like, as retargeted those whose last live namesake has another target, and with pruning as unmanaged the live rules no declared one is named like; an order drift is announced alone |
| TargetBranchRules.NoDriftExactlyInSync | internal/governance/targetbranchrules.go:118-202 | for distinct names no diff means exactly that the managed live rules are the declared list in order and, with pruning, nothing else is live |
| TargetBranchRules.ManagedCount | internal/governance/targetbranchrules.go:183-200 | when every declared name is live, the managed sequence has the declared length, so the length guard never hides an order drift |
| TargetBranchRules.Project.Apply | internal/governance/targetbranchrules.go:57-106 | destroying and recreating in reverse leaves the declared list followed by the surviving unmanaged rules in their old order, on a server that prepends |
| TargetBranchRules.OneApplyConverges | internal/governance/targetbranchrules.go:57-106 | after any Apply, Plan is empty |
| ProtectedBranches.EqualAccessDescriptions | internal/governance/protectedbranches.go:343-365 | holds exactly when the lists are equal as multisets of (level, user, group) |
| ProtectedBranches.BuildUpdateDiff | internal/governance/protectedbranches.go:223-255 | lists exactly the fields the rule sets and the live branch does not satisfy |
| ProtectedBranches.ApplyRule | internal/governance/protectedbranches.go:103-150 | the create, PATCH and recreate paths leave the branch as the rule's outcome says and touch no other |
| ProtectedBranches.Plan | internal/governance/protectedbranches.go:40-84 | the loop announces a creation for each missing branch and an update for each differing one, in rule order |
| ProtectedBranches.Apply | internal/governance/protectedbranches.go:87-163 | reports what Plan announces and leaves each declared branch as its rule's outcome says |
| ProtectedBranches.GrantRoundTrips | internal/governance/protectedbranches.go:264-329 | an access list survives the protect request and the server exactly when it holds no negative number |
| ProtectedBranches.PlainLevelSaysAll | internal/governance/protectedbranches.go:264-329 | a list is sent entry by entry with its positive numbers, and a plain level with it exactly when that level is all the comparison sees of the list and no deploy key is at stake |
| ProtectedBranches.OneApplyConverges | internal/governance/protectedbranches.go:87-163 | for any list of rules, repeated names included, one Apply settles every project exactly when what each decisive rule creates satisfies all rules of its name |
| ProtectedBranches.DistinctNamesConverge | internal/governance/protectedbranches.go:87-163 | with distinct names that is exactly when the rules' lists are validated |
| ProtectedBranches.SatisfiableExactly | internal/governance/protectedbranches.go:40-84 | some state has an empty plan exactly when no two rules for one branch disagree on a field |
| ProtectedBranches.RepeatedBranchNeverSettles | internal/config/validator.go:336-338 | two accepted rules for "main" that plan changes in every state |
| ProtectedBranches.EmptyPlanGrantsExactly | internal/governance/protectedbranches.go:331-363 | on every branch without deploy keys an empty plan means that the declared access is granted, exactly when the rule names no deploy key |
| ProtectedBranches.ApplyGrantsExactly | internal/governance/protectedbranches.go:87-163 | one Apply leaves the declared access, deploy keys included, on every project without deploy keys exactly when no rule, of validated ones with distinct names, names one |
| ProtectedBranches.UnsetFieldsKeptExactly | internal/governance/protectedbranches.go:87-163 | for any rules, repeated names included, Apply keeps the fields no rule for a branch sets exactly when no rule for it differs in more than the code-owner flag, or the server's defaults agree with the live branch on them |
| ProtectedBranches.UnsetFieldIsReset | internal/governance/protectedbranches.go:125-150 | a rule that sets only who may push resets who may merge |
| SortedKeys.Key3Injective | internal/governance/protectedbranches.go:349-357 | the formatted key tells different (level, user, group) triples apart |
| SortedKeys.SortedKeysCompareMultisets | internal/governance/protectedenvironments.go:590-630 | comparing sorted keys pairwise is comparing multisets |
| ProtectedEnvironments.EqualEnvAccess | internal/governance/protectedenvironments.go:590-630 | holds exactly when live and desired are equal multisets |
| ProtectedEnvironments.EqualEnvApprovalRules | internal/governance/protectedenvironments.go:650-694 | holds exactly when live and desired are equal multisets, required approvals included |
| ProtectedEnvironments.BuildUpdateDiff | internal/governance/protectedenvironments.go:484-507 | there is a diff exactly when a field the rule sets differs |
| ProtectedEnvironments.ExpandRules | internal/governance/protectedenvironments.go:245-316 | every name gets the first rule in declared order that covers it, whatever the map order |
| ProtectedEnvironments.Plan | internal/governance/protectedenvironments.go:47-127 | the plan is empty exactly when the protections are in sync; it announces a creation, update or deletion exactly where the first rule that governs a name, or none, calls for it |
| ProtectedEnvironments.Apply | internal/governance/protectedenvironments.go:130-229 | every name a rule governs is left with what the first such rule asks for, entry by entry, where it was missing or differed, and as it was where it did not; any other stays, unless pruning is on and no rule names or matches it |
| ProtectedEnvironments.ProtectedAsAsked | internal/governance/protectedenvironments.go:357-460 | a protection is made with one entry for each principal: level, user and group, each number the rule's own if positive, else the resolved name's; approvals likewise, with their counts, and one for each resolvable approval user and group |
| ProtectedEnvironments.AppliedFollowsRules | internal/governance/protectedenvironments.go:130-333 | after Apply each name has what the first governing rule asks for, told by the rules alone |
| ProtectedEnvironments.InSyncMeans | internal/governance/protectedenvironments.go:47-127 | a project is in sync exactly when every name a rule governs is protected and holds what that rule asks for and, with pruning, every protected name is named or matched by a rule |
| ProtectedEnvironments.ApplyIsOrderIndependent | internal/governance/protectedenvironments.go:130-229 | every map order leaves the same protections |
| ProtectedEnvironments.PlanIsEmptyExactlyInSync | internal/governance/protectedenvironments.go:47-127 | for any expansion order nothing to update and nothing to prune is exactly being in sync |
| ProtectedEnvironments.AssignmentSettles | internal/governance/protectedenvironments.go:245-333 | one Apply settles which rule governs each name, and no name joins or leaves |
| ProtectedEnvironments.TwoAppliesConverge | internal/governance/protectedenvironments.go:130-229 | two Applies settle every project from any state |
| ProtectedEnvironments.ApplyTwiceThenPlan | internal/governance/protectedenvironments.go:47-229 | after two Applies Plan is empty |
| ProtectedEnvironments.OneApplySufficesExactly | internal/governance/protectedenvironments.go:245-316 | one Apply always suffices exactly when every explicit name settles on a rule its first protection satisfies |
| ProtectedEnvironments.NoShadowingSuffices | internal/governance/protectedenvironments.go:245-316 | no explicit name matching an earlier wildcard is enough for that |
| ProtectedEnvironments.ShadowedNameNeedsTwo | internal/governance/protectedenvironments.go:245-316 | an explicit rule for a missing environment behind a wildcard that wants something else is not in sync after one Apply |
| ProtectedEnvironments.ShadowedNameExample | internal/governance/protectedenvironments.go:245-316 | an accepted policy of two rules for which one Apply does not suffice |
| ProtectedEnvironments.ApplyLoadedPolicyTwice | internal/config/validator.go:359-377 | names the validator accepts are distinct, so two Applies of a loaded policy leave an empty plan |
| Variables.CompositeKeyInjective | internal/governance/variables.go:46-51 | for keys without `:` the composite key tells variables apart up to white space and the default scope |
| Variables.CompositeKeyTellsCleanApart | internal/governance/variables.go:46-51 | on validated keys and trimmed scopes the composite key is injective |
| Variables.Plan | internal/governance/variables.go:80-163 | whatever the order of the listing, reports a change exactly when a declaration, or with pruning a live variable, is out of sync as listed; never in a project that is in sync |
| Variables.InSyncInEveryOrder | internal/governance/variables.go:88-103 | a project is in sync exactly when it is seen so in every order of its listing |
| Variables.Apply | internal/governance/variables.go:166-287 | plans on the listing as it came, then leaves the variables the requests in declared order and the pruning call for, and stops at a failing request |
| Variables.RequestsSatisfy | internal/governance/variables.go:497-516 | create and update bring a variable in line with its declaration, and an update changes it only if it differed |
| Variables.UnsetFieldsPreserved | internal/governance/variables.go:166-287 | an Apply, completed or stopped at a failing request, keeps every field a declaration leaves unset, and changes nothing in a project that is in sync |
| Variables.SettlesExactly | internal/governance/variables.go:166-287 | for any project, listing order and policy without duplicates, one Apply completes and leaves the project in sync exactly when, if the listing shows nothing out of sync, nothing is, and otherwise each found declaration is stored under its own name and what shares a composite key agrees |
| Variables.OneApplyConverges | internal/governance/variables.go:166-287 | and then each declared variable gets its update or creation, field by field, and the others stay unless they are pruned |
| Variables.ApplyThenPlan | internal/governance/variables.go:80-287 | after such an Apply the next Plan, in whatever order it lists, is a no-op |
| Variables.CompositeKeySettlesExactly | internal/governance/variables.go:166-287 | over all accepted policies one Apply completes and settles every project whose stored scopes are trimmed, exactly when each declared scope is trimmed, or blank and in agreement with the other blank scopes of its key |
| Variables.UntrimmedScopeFails | internal/governance/variables.go:166-287 | for every accepted policy with an untrimmed scope, a project with a trimmed one on which Apply fails |
| Variables.UntrimmedVariableFails | internal/governance/variables.go:166-287 | for every accepted policy that declares anything, a project with an untrimmed stored scope on which Apply fails |
| Variables.ApplyStoresWhatItCannotFind | internal/governance/variables.go:166-287 | one accepted policy makes Apply create a variable on which another, with its scope in order, fails |
| Variables.DisagreeingBlanksDoNotSettle | internal/governance/variables.go:166-287 | blank scopes of one key that disagree are not settled on an empty project |
| Variables.PruningIsExact | internal/governance/variables.go:166-287 | with pruning a completed Apply leaves exactly the declared composite keys, exactly when something is declared or nothing was live |
| Variables.SatisfiableExactly | internal/governance/variables.go:80-163 | some project has an empty plan, in some order or in all, exactly when the declarations of each composite key agree |
| Variables.ValidatorAcceptsColliding | internal/config/model.go:824-830 | an accepted pair of declarations whose plan is never empty |
| PushRules.NoDiffExactlyCompliant | internal/governance/pushrules.go:222-237 | no field differs exactly when the live rule has every declared value |
| PushRules.DiffListsExactly | internal/governance/pushrules.go:222-237 | the diff lists exactly the fields whose declared value the live rule does not have |
| PushRules.Project.Apply | internal/governance/pushrules.go:71-107 | does what Plan announces, makes the next Plan a no-op, leaves every declared value live and keeps every other, of the live rule or else of the defaults |
| RepositoryFiles.NormalizeIsIdempotent | internal/governance/repositoryfiles.go:411-419 | normalising twice is normalising once |
| RepositoryFileContent.NormalFormKeepsLines | internal/governance/repositoryfiles.go:411-419 | the normal form has the same lines, however they end, without the empty ones at the end, each ended by one line feed |
| RepositoryFiles.HeaderIsAttachedOnce | internal/governance/repositoryfiles.go:481-509 | a managed file carries the marker, and attaching the header again changes nothing |
| RepositoryFileContent.ExtensionIsFound | internal/governance/repositoryfiles.go:421-509 | an extension is recognised exactly when the path ends in it, in whatever case |
| RepositoryFileContent.HeaderIsOf | internal/governance/repositoryfiles.go:481-509 | the header is the comment of two lines in the style of the path's extension |
| RepositoryFileContent.HeaderIsOnTop | internal/governance/repositoryfiles.go:481-509 | attaching the header puts it on top of the text, below a shebang line if there is one, and drops nothing |
| RepositoryFileContent.WantedContent | internal/governance/repositoryfiles.go:421-509 | the wanted content is the normal form of the expanded text, with the header on top for given content of a direct commit outside JSON that does not carry the marker yet, and of the text alone in all other cases |
| RepositoryFileContent.SettledMeansInPlace | internal/governance/repositoryfiles.go:187-260 | a file needs no attention exactly when its target branch, or the branch of its open merge request, holds the lines asked for |
| RepositoryFileContent.CommitStores | internal/governance/repositoryfiles.go:187-229 | a direct commit stores exactly the content asked for, or nothing where its lines are there already |
| RepositoryFileContent.ProposalStores | internal/governance/repositoryfiles.go:231-367 | a merge request, unless the content is in place, is opened from the feature branch, taken from the target branch if there is none yet, with the content asked for where its lines are not there already; nothing else changes |
| RepositoryFiles.FileSettles | internal/governance/repositoryfiles.go:157-367 | an enforced file is settled right after Apply handled it |
| RepositoryFiles.Repository.Plan | internal/governance/repositoryfiles.go:44-135 | lists exactly the files neither their target branch nor an open merge request brings in line |
| RepositoryFiles.Repository.ApplyFile | internal/governance/repositoryfiles.go:157-367 | one file of Apply leaves the specified repository and acts exactly on drift |
| RepositoryFiles.FileFrame | internal/governance/repositoryfiles.go:157-367 | one file changes at most its own path on its own branch, to its wanted content, and opens at most its own merge request |
| RepositoryFiles.Repository.Apply | internal/governance/repositoryfiles.go:138-375 | the loop handles the files in order and stops at the first that cannot be expanded |
| RepositoryFiles.AlwaysSettlesExactly | internal/governance/repositoryfiles.go:138-375 | for every list of declarations one Apply settles every enforced file, from every repository and in every order, exactly when no two declarations clash |
| RepositoryFiles.TwoCommits | internal/governance/repositoryfiles.go:187-229 | two direct commits of different contents to one path of one branch are in order in no repository |
| RepositoryFiles.SharedFeatureBranch | internal/governance/repositoryfiles.go:231-367 | two merge requests of one path with different contents, one target not committed to directly, can be left unsettled |
| RepositoryFiles.CommitToTarget | internal/governance/repositoryfiles.go:157-367 | so can a merge request whose target is committed to directly with another content |
| RepositoryFileOrder.SettlesAsDeclaredExactly | internal/governance/repositoryfiles.go:138-375 | where no path has two merge requests to one target, one Apply in the declared order settles every enforced file from every repository exactly when the order fits |
| RepositoryFileOrder.FittingAlwaysSettles | internal/governance/repositoryfiles.go:138-375 | a fitting order settles with several merge requests for one path and target too |
| RepositoryFileOrder.EndsAs | internal/governance/repositoryfiles.go:157-367 | the feature branch of a path ends up with the content every declaration that can be the last to set it wants |
| RepositoryFiles.OrderMatters | internal/governance/repositoryfiles.go:157-367 | declared in one order such a pair settles from every repository, in the other it does not |
| RepositoryFiles.SharedFeatureBranchCanSettle | internal/governance/repositoryfiles.go:231-367 | merge requests with different contents for one feature branch settle in every order when direct commits bring the same to their targets |
| RepositoryFiles.ApplyThenPlan | internal/governance/repositoryfiles.go:138-375 | after one Apply of declarations that do not clash, Plan reports audited files only |
| RepositoryFileContent.ApplyBringsContent | internal/governance/repositoryfiles.go:138-375 | one Apply of declarations that do not clash puts the content of every enforced file, header included, in place |
| Exporter.InspectProtectedBranches | internal/export/exporter.go:371-413 | one exported rule for each listed branch, in order |
| Exporter.ExportedPushRulesRestoreExactly | internal/export/exporter.go:326-369 | written to a blank push rule the exported section gives the live one back exactly when the size is not negative; it holds no zero values and is left out exactly when it would hold nothing |
| Exporter.ExportedBranchRestoresExactly | internal/export/exporter.go:371-434 | protecting a branch anew as exported gives the live protection back exactly when no access entry is negative or names a deploy key |
| Exporter.ExportedPushRulesPlanNoop | internal/export/exporter.go:326-369 | push rules exported from a project plan to nothing against it |
| Exporter.ExportedAccessIsSame | internal/export/exporter.go:415-434 | an exported access list compares equal to the live one exactly when nothing in it is negative |
| Exporter.ExportedBranchesPlanExactly | internal/export/exporter.go:371-434 | branches exported from a project with distinct names plan to nothing exactly when no access entry is negative |
| Exporter.ExportedTargetRulesPlanNoop | internal/export/exporter.go:909-924 | target-branch rules are exported exactly when there are any, all of them in order, and with distinct names plan to nothing |
| Exporter.Resolve | internal/export/exporter.go:970-991 | the collecting and comparing loops decide a section as the strategies define |
| Exporter.StrategiesMean | internal/export/exporter.go:970-991 | consensus emits a section exactly when it is every project's own; archetype always emits the archetype's and warns unless every one of several projects has the same section; strict emits what consensus does or fails |
| Exporter.StrictFailsExactly | internal/export/exporter.go:970-991 | strict fails on a section exactly when there are several projects and they disagree on it or all lack it |
| Exporter.StrictFailsWithoutDrift | internal/export/exporter.go:1217-1227 | two projects that agree in having no section fail a strict export |
| Exporter.NormalizePolicies | internal/export/exporter.go:930-1031 | finds the first named archetype or reports that there is none, and merges each modelled section by the strategy, with one warning for each section on which several projects disagree or that all lack, or fails as strict demands |
| Exporter.ConsensusIsEveryProjects | internal/export/exporter.go:970-1031 | every section a consensus export emits is each project's own |
| Exporter.ConsensusExportHasNoDrift | internal/export/exporter.go:930-1031 | a consensus export plans to nothing against every project of the fleet, exactly when the exported branches have no negative access entry there and no exported variable is replaced by a placeholder |
| Exporter.ArchetypeExportFitsTheArchetype | internal/export/exporter.go:930-1031 | an archetype export plans to nothing against the archetype, under the same condition |
| VariableExport.InspectVariables | internal/export/exporter.go:660-686 | one declaration for each listed variable, in order, with a placeholder where the value is hidden |
| VariableExport.ExportedVariableRestoresExactly | internal/export/exporter.go:660-686 | creating a variable anew as exported gives it back exactly when it has a kind and its value was not replaced by a placeholder it does not equal |
| VariableExport.ExportedVariablesPlanExactly | internal/export/exporter.go:660-686 | as written the section plans to nothing against its project exactly when no value was replaced by another text |
| VariableExport.RereadExactly | internal/config/config.go:30-40 | loaded in an environment it shows no drift exactly when that environment gives every value and description back |
| VariableExport.PlaceholderComesBack | internal/export/exporter.go:663-667 | a placeholder gives the value back exactly when its name is a valid variable that expands to it, or unset and the value is the default |
| VariableExport.DriftFreeEverywhereExactly | internal/export/exporter.go:660-686 | the section comes back without drift in every environment exactly when no placeholder is written and no value or description holds `\$`, `$$` or `${` |

## Left out

- RateLimit.JitterIsProportional: real arithmetic stands for 64-bit floating point, so the rounding of durations above 2^53 ns is not modelled; delay and jitter range together stay below 2^63 ns.
- RateLimit.GovernorTransport.RoundTrip: the base transport returns a response or an error, not both, as its interface demands; which errors are retryable is given; the token bucket, header parsing and logging are not modelled.
- Discovery.ScanIsExact: cancellation of the launching loop, which returns no fleet at all, is not modelled.
- Discovery.ExecuteGroupMode: the streams are computed before they are scanned; that a scanner reads its stream while it is being sent changes nothing it reads.
- RepositoryFiles.Repository.Apply: target branches exist; the `ensure_contains` mode, auto-merge, and the text of commits and merge requests are not modelled; expansion is an arbitrary function.
- RepositoryFileOrder.SettlesAsDeclaredExactly: for a fixed order with several merge requests for one path and target, a fitting order suffices but is not shown to be necessary.
- Exporter.NormalizePolicies: four of the eleven sections; the other seven are collected, compared and resolved the same way.
- Exporter.ConsensusExportHasNoDrift: the YAML file in between is not modelled; the expansion it undergoes when it is read back is, in the values and descriptions of variables (VariableExport.RereadExactly).
- Engine.RunWithOptions: license enforcement, sorting of results, project changes, durations and drift maps other than the field total are not modelled.
- Concurrent Submit racing with Close: the model has the single submitter that ParallelMap has.
- ProtectedEnvironments.Apply: looking up a user or group name always answers, with 0 for an unknown one; a lookup that fails stops the original.
- Resolution of root groups and paging of subgroup listings: roots and listings are given; nil entries are not modelled.
- Which keys look like secrets, group selector matching, project filters, `path.Match`, regular expressions and Unicode letter classes are arbitrary predicates.
- Texts of errors and diffs, and character offsets in messages.
- Project variable listings of more than 100 entries, and group variables.
- Approval rules, project settings, runners, members, webhooks, protected tags, compliance and pipeline retention: per-field comparisons of the same kind.
- License checks, audit, reports, storage, SMTP, Lambda and the command line: no invariant to state.
