# cexec in Dafny

cexec runs shell commands over SSH on the nodes of a cluster: one command on many nodes,
or a playbook of steps with `roles` and `depends_on`, with a cache of what already
succeeded. This project models its logic and proves properties of every run.

| file | models |
|---|---|
| `Playbook.dfy`, `Digraph.dfy` | validation and cycle search of a playbook |
| `Plan.dfy` | the setup loops of `runPlaybook`: step indices, counters, channels closed from the start |
| `Runner.dfy` | `runPlaybook` as a transition system over its goroutines, collector and context |
| `RunnerSafety.dfy`, `RunnerLiveness.dfy`, `RunnerFailure.dfy`, `RunnerCache.dfy`, `RunnerSaves.dfy` | invariants and whole-run properties of that system |
| `PlaybookRuns.dfy`, `PlaybookOrder.dfy` | what the loader accepts against what the runner can finish; the order of steps in which it would |
| `State.dfy`, `Template.dfy` | the step cache with its file; placeholder expansion |
| `Rerun.dfy`, `DryRun.dfy` | a second run, and the dry run, against the real one |
| `Report.dfy` | totals, failed nodes, per-step logs, exit status |
| `Executor.dfy`, `Fanout.dfy` | backoff, retry loop and summary; the semaphore of single-command mode |
| `Inventory.dfy`, `Selection.dfy`, `Hosts.dfy`, `InventorySync.dfy`, `HostsSync.dfy` | ranges, merge, selection, hosts file, the two syncs |
| `Text.dfy`, `Wrappers.dfy` | string functions of Go's library, decimal notation; an optional value |

## The runner

A world of `Runner` holds one program counter per node goroutine (waiting for dependency k,
role filter, cache check, executing, marking, sending, decrementing, closing, exited), the
`pending` counters, how often each channel has been closed, the results sent and how many
the collector took, the cancelled flag, the cache in memory and the file on disk. The
atomic decrement and the `close` after it are two steps. The verdict of every execution,
the clock, the walk order over the variable map, the listing a save writes, whether a save
works, the moment of a cancellation and the interleaving are free choices; a goroutine
whose channel is closed and whose context is cancelled may take either arm of its `select`.
A trace is any sequence of such steps from the initial world, and the theorems hold for all
traces. `Halted` means that nothing but an outside cancellation can happen.

The exact completion condition is `RunnerLiveness.CompletionCondition`: each dependency
lies strictly before its step or applies to no node. It is not the absence of cycles, which
is what the loader checks; `PlaybookRuns` gives an accepted playbook that hangs and a
rejected one that would finish. `PlaybookOrder` says what the check does give: an order of the
steps in which every run finishes exists exactly when there is no cycle.

## Where documents and code differ

The model follows the code.

- A dependency is released on success, failure or skip (`cmd/cexec/main.go`:473, 553-558),
  not on success only as README.md:88 and TUTORIAL.md:675 say;
  `RunnerFailure.FailedDependenciesRelease` shows it for every playbook.
- Repeated step names are accepted and the last one counts (`internal/playbook/playbook.go`:40-49, 68-71),
  against README.md:1070.
- Cycles are detected (`internal/playbook/playbook.go`:58-93), against DOCUMENTATION.md:479.
- The step name is part of the hash (`internal/state/state.go`:56), against DOCUMENTATION.md:703.
- `MaxConcurrency` has no effect on playbooks: `RunSingle` does not read it
  (`internal/executor/executor.go`:178-180). The cap is stated for `Run` only.

## Modelling choices

- The digest is a parameter. Where a property needs it, `Rerun.IdealHash` asks for digests of
  one width that do not collide on the texts of the run at hand, and for commands whose
  expansion does not depend on the walk order (`Template.OrderIndependentWhen` says which do not).
  Step names may hold pipes: what is asked is that none goes on with a pipe after another
  (`State.PipesCollide`).
- The state file is missing, corrupt or a list of entries; the rename makes its replacement
  one step. `Less` compares code points, which agrees with Go's order on UTF-8 bytes.
- Nodes are told apart by position: two inventory entries of one name are two goroutines.
- Counters are unbounded integers; they stay between 0 and the number of nodes, far below
  the range of `int32`.
- Backoff products are real numbers. With |base| at most 2^53 ns and a product below 2^63 the
  `float64` computation is exact, so both agree; `Executor.InRange` says so. Beyond that the
  duration is any value, before the cap. The cancellation texts leave out the context's own error.
- The state file is replaced by a rename. The inventory file is truncated and rewritten in
  place, so a write of it that fails or is cut off leaves any content
  (`InventorySync.TornWriteAgreesWhen`).
- `unicode.IsSpace` is spelled out in `Text`; lower-casing covers ASCII letters. Selection keeps
  positions where the source copies nodes. Loops of one source function that are methods of
  their own here (`Digraph.CycleCheck.Children`, `Selection.ScanToken`, `Hosts.AddLine` and
  others) are parts of that function.
- A line of the hosts sync is present when an address part, blanks and the name match it as in
  section 9.4 of POSIX.1-2017 XBD; the matcher for address texts is a parameter, and
  `HostsSync.SelfMatching` asks that each address, read as a pattern, matches itself.

## Model

| member | source | states |
|---|---|---|
| `RunnerSafety.SignalSafety` | cmd/cexec/main.go:479-501 | in every reachable world of every interleaving, cancelled or not: `pending[i]` is the number of applicable nodes that have not signalled step i, never negative; no channel is closed twice; closed implies zero; zero implies closed or exactly one goroutine about to close |
| `RunnerSafety.ClosedMeansDone` | cmd/cexec/main.go:471-501 | a closed channel means every applicable node has signalled the step and its result has been sent; so no channel closes for a step some applicable node did not finish, after a cancellation either |
| `RunnerSafety.DependencyBarrier` | cmd/cexec/main.go:512-540 | when a node has started step i, every dependency of every step j <= i has been reported by all nodes it applies to, also for steps j the node itself is filtered out of |
| `RunnerSafety.TransitiveBarrier` | cmd/cexec/main.go:512-558 | the barrier of a node that started step i covers the whole transitive closure, along every chain of dependencies whose steps before the last are at most i, through steps no node runs |
| `RunnerSafety.BackwardBarrier` | cmd/cexec/main.go:512-558 | with backward dependencies, along every chain that starts at most at i |
| `RunnerSafety.SendNeverBlocks` | cmd/cexec/main.go:504-557 | a goroutine about to send always finds room: fewer than nodes * steps results have ever been sent |
| `RunnerSafety.ExactlyOnce` | cmd/cexec/main.go:504-567 | when all goroutines went through the list there is exactly one result per applicable (node, step) pair, none otherwise, in step order per node, and their number is the sum of the initial counters |
| `RunnerSafety.CountersStep` | cmd/cexec/main.go:495-501 | every atomic step, with the decrement and the close apart, keeps the counter and channel invariant |
| `RunnerSafety.BarrierStep` | cmd/cexec/main.go:514-521 | every atomic step keeps: whoever is past a wait has a closed channel behind it |
| `RunnerSafety.ResultsStep` | cmd/cexec/main.go:534-557 | every atomic step keeps: the sent results are exactly the due ones, in step order per node |
| `RunnerSafety.TallyStep` | cmd/cexec/main.go:534-557 | every atomic step keeps: as many results as delivered pairs, so none is sent twice |
| `RunnerSafety.PassingMove` | cmd/cexec/main.go:516-520 | a goroutine gets past a dependency only through the closed-channel arm of the select |
| `RunnerLiveness.EveryRunIsFinite` | cmd/cexec/main.go:504-638 | a run takes at most as many steps as its initial measure, whatever the interleaving, the verdicts, the failed saves and the cancellation |
| `RunnerLiveness.CompletionCondition` | cmd/cexec/main.go:474-561 | all uncancelled runs end with every goroutine through the list if and only if each dependency resolves to an earlier step or to one without applicable nodes |
| `RunnerLiveness.ReleasableFinishes` | cmd/cexec/main.go:504-638 | under that condition every halted uncancelled run has finished on all nodes and its collector has ended |
| `RunnerLiveness.NobodyPasses` | cmd/cexec/main.go:514-521 | with an offending step no node ever starts it or gets past it, in any run, and the awaited channel is never closed |
| `RunnerLiveness.OffendingRunsHang` | cmd/cexec/main.go:514-567 | with an offending step an uncancelled run never completes |
| `RunnerLiveness.CancellationDrains` | cmd/cexec/main.go:516-567 | after a cancellation a run that can go no further has all goroutines returned, the results channel closed and the collector ended, for playbooks that would hang as well |
| `RunnerLiveness.CompleteMeansFinished` | cmd/cexec/main.go:563-638 | an ended collector has handled every result of goroutines that all returned; uncancelled, they went through every step |
| `RunnerLiveness.RunToHalt` | cmd/cexec/main.go:504-638 | every run can be carried on, without cancelling it, to a halt |
| `RunnerFailure.FailedDependenciesRelease` | cmd/cexec/main.go:473-558 | every playbook that can finish has, with force or from an empty cache, an uncancelled run in which all executions failed and still every applicable pair was executed: a dependency releases on failure |
| `RunnerCache.CrashConsistency` | cmd/cexec/main.go:553-617 | at every point of every run the file holds what memory held at that or an earlier point, and only initial entries or entries of successful executions |
| `RunnerCache.NoKeyIsLost` | cmd/cexec/main.go:553-617 | the file and the memory never lose a key during a run |
| `RunnerCache.FileEqualsMemory` | cmd/cexec/main.go:583-638 | once the collector has ended and its last save was done, the file holds exactly memory; a save makes up for failed ones before it |
| `RunnerCache.TotalsAddUp` | cmd/cexec/main.go:569-612 | skipped + succeeded + failed of a completed uncancelled run is the sum of the initial counters |
| `RunnerCache.RecordProvenance` | cmd/cexec/main.go:554-556 | a Mark adds an entry of a successful execution of its own pair |
| `RunnerCache.SettledStep` | cmd/cexec/main.go:553-617 | every atomic step keeps: memory differs from the file only while a result of an execution is on its way to a save, or after a failed save until the next |
| `RunnerSaves.ResultIsDurable` | cmd/cexec/main.go:583-617 | a successful result handled by a save that worked is in the file then and at every later point of the run, whatever saves fail afterwards |
| `RunnerSaves.SecuredStep` | cmd/cexec/main.go:583-617 | every atomic step keeps: handled successes are in the snapshot being written, and in the file once a save worked |
| `RunnerSaves.SaveToHalt` | cmd/cexec/main.go:504-638 | every run without a failed save can be carried on to a halt without a cancellation or a failing save |
| `RunnerSaves.SavedRunExists` | cmd/cexec/main.go:474-638 | a playbook that can finish has, from any state file, an uncancelled run that ends with its last save done: the hypotheses of the re-run properties can be met |
| `Rerun.CacheDecides` | cmd/cexec/main.go:529-558 | with unique names and an ideal hash a completed uncancelled run skips an applicable pair exactly when the file knew it and force is off, and executes it otherwise, whatever other goroutines do |
| `Rerun.InterleavingDoesNotMatter` | cmd/cexec/main.go:504-567 | two completed uncancelled runs of one configuration whose executions end alike send the same results: the interleaving decides only their order |
| `Rerun.SentWhen` | cmd/cexec/main.go:512-557 | which result a completed run has sent for each pair: none, a skip, or the verdict of its execution |
| `Rerun.RerunConverges` | cmd/cexec/main.go:529-617 | a second uncancelled run executes exactly the applicable pairs that neither succeeded in the first run, whose last save was done, nor were cached before it |
| `Rerun.SecondRunIsIdle` | cmd/cexec/main.go:529-617 | after a fully successful run whose last save was done no world of a later run has executed anything or changed memory or file |
| `Rerun.FileKnows` | cmd/cexec/main.go:553-617 | after a run whose last save was done the file knows exactly the pairs it knew and the pairs that succeeded |
| `Rerun.KeysDiffer` | internal/state/state.go:53-65 | with unique names that do not overlap and an ideal hash different (node, step) pairs never share a cache key |
| `Rerun.OneKeyWhen` | cmd/cexec/main.go:529-533 | without digest collisions a pair has one key over all walks over the variable map if and only if the expansion of its command does not depend on the walk |
| `DryRun.DryRunPlaybook` | cmd/cexec/main.go:343-362 | one row per step with the verdict of each node: role mismatch, already done, or would run |
| `DryRun.MismatchByIndex` | cmd/cexec/main.go:349-353 | role mismatch exactly when the step names roles and none of them is a group of the node |
| `DryRun.VerdictIsRightWhen` | cmd/cexec/main.go:343-360 | the verdict is what a completed run from the same file does if and only if the pair is filtered out, or force is on, or the key of the unexpanded command is cached just when the key of the expanded one is |
| `DryRun.PlainStepsAgree` | cmd/cexec/main.go:349-360 | for a command that expansion leaves unchanged the verdict is right |
| `DryRun.DryRunOverstates` | cmd/cexec/main.go:354-360 | the verdict is would-run, and the next run skips, for every pair that succeeded while the file lacks the key of the unexpanded command |
| `DryRun.DryRunIsRightWhen` | cmd/cexec/main.go:343-360 | over all state files and all completed unforced runs from them, the verdict on a pair is right if and only if expansion leaves its command unchanged |
| `DryRun.DryRunIsWrong` | cmd/cexec/main.go:354-360 | two files on which it is wrong otherwise, both ways: it announces work every run skips, or reports as done what every run executes; such runs exist |
| `DryRun.SmallestWrongDryRun` | cmd/cexec/main.go:354-360 | the same for one node, the command `{{a}}` and the variable a = x |
| `Digraph.CycleCheck.Dfs` | internal/playbook/playbook.go:73-88 | the recursive search: in-progress names are the current path, visited ones are closed under dependencies and topologically listed; it ends with the name visited or with a name on a cycle |
| `Digraph.CycleCheck.Children` | internal/playbook/playbook.go:81-85 | the loop over the dependencies of a node just entered, one half of the closure |
| `Digraph.CycleCheck.constructor` | internal/playbook/playbook.go:67-71 | all names start unvisited |
| `Digraph.TopologicalIsAcyclic` | internal/playbook/playbook.go:58-60 | a topological order of all nodes rules out cycles |
| `Digraph.AcyclicWhenOrdered` | internal/playbook/playbook.go:58-93 | a graph whose edges stay inside has no cycle if and only if it has a topological order of all its nodes |
| `Digraph.ClosePath` | internal/playbook/playbook.go:75-76 | meeting an in-progress name again closes a cycle through it |
| `Playbook.Validate` | internal/playbook/playbook.go:40-56 | accepted steps all have name and command and only known dependencies; otherwise the first step in list order without a name or command decides the error, else the first dependency that is the name of no step |
| `Playbook.Search` | internal/playbook/playbook.go:67-93 | reports a step if and only if the last-wins dependency map has a cycle, and then one on a cycle; otherwise leaves a topological order of all names |
| `Playbook.Load` | internal/playbook/playbook.go:40-98 | accepts exactly the non-empty playbooks with names, commands, known dependencies and an acyclic last-wins graph; which error it gives is fixed by list order as in Validate, then cycles, then the empty list |
| `Playbook.LastDepsFrom` | internal/playbook/playbook.go:68-71 | an entry of the dependency map is that of the last step of its name |
| `Playbook.KnownGraphIsClosed` | internal/playbook/playbook.go:50-71 | after validation no dependency leads out of the map |
| `PlaybookRuns.PlaybookCompletes` | cmd/cexec/main.go:474-561 | the completion condition in terms of the playbook and the nodes: every name resolves to an earlier step or to one no node runs |
| `PlaybookRuns.BackwardPlaybooksAreFine` | internal/playbook/playbook.go:58-98 | dependencies that all point backwards are accepted by Load and released by the runner, repeated names included |
| `PlaybookRuns.AcceptedYetStuck` | internal/playbook/playbook.go:58-98 | an acyclic playbook Load accepts, of which no run sends a result or finishes; only a cancellation ends it |
| `PlaybookRuns.RejectedYetFinishes` | internal/playbook/playbook.go:58-98 | a cyclic playbook Load rejects although every uncancelled run of it ends with all nodes finished and the collector done |
| `PlaybookRuns.RepeatedNamesAreAccepted` | internal/playbook/playbook.go:40-71 | adding a step of a known name to an accepted playbook gives an accepted one if and only if the step is labelled, its dependencies are known and the dependency map with its entry replaced has no cycle; the name then resolves to it, other names as before |
| `PlaybookRuns.CopiedDependencyHangs` | cmd/cexec/main.go:474-515 | so a copy of a step at the end passes the loader, and when another step depends on its name and some node runs the copy, the playbook is no longer released |
| `PlaybookRuns.DuplicateNamesAreAccepted` | internal/playbook/playbook.go:40-49 | an example: two steps named a |
| `PlaybookOrder.LoadOrderFinishes` | internal/playbook/playbook.go:58-98 | for unique step names, the steps of an accepted playbook listed in the topological order of the search are accepted again and all their uncancelled runs finish, on any node list |
| `PlaybookOrder.AcyclicWhenSomeOrderFinishes` | internal/playbook/playbook.go:58-60 | for unique names, known dependencies and steps that each apply to some node, the graph has no cycle if and only if some order of the same steps is released |
| `PlaybookOrder.SameDeps` | internal/playbook/playbook.go:68-71 | for unique names the dependency map does not depend on the order of the steps |
| `Plan.NodeMatchesRoles` | cmd/cexec/main.go:763-772 | true exactly when some role, at any place, equals some group of the node |
| `Plan.ApplicableByIndex` | cmd/cexec/main.go:483-488 | a step applies to a node exactly when it names no role or one of its roles is one of the node's groups |
| `Plan.Setup` | cmd/cexec/main.go:474-493 | step names resolve to the last step of that name; counters are the numbers of applicable nodes; a channel starts closed exactly when nobody is applicable |
| `Plan.CountApplicable` | cmd/cexec/main.go:483-489 | the counter of one step is the size of its set of applicable nodes |
| `Plan.StepIndexIsLast` | cmd/cexec/main.go:474-477 | a known name resolves to a step of that name, none of that name comes after it |
| `Report.ResultLoop.constructor` | cmd/cexec/main.go:569-577 | totals, failed nodes and logs start empty |
| `Report.ResultLoop.Receive` | cmd/cexec/main.go:583-612 | keeps: totals count the executed results seen, names of failed nodes are listed once each, each step's log is its executed results in arrival order; a skip changes nothing |
| `Report.ResultLoop.ExitCode` | cmd/cexec/main.go:695-697 | 1 exactly when some result failed, and then some node is listed |
| `Report.LogsCoverTotals` | cmd/cexec/main.go:595-612 | the per-step logs together hold every executed result once |
| `Report.LogsInOrder` | cmd/cexec/main.go:595 | a step's log is its executed results in arrival order, all of them |
| `Report.RunReport` | cmd/cexec/main.go:569-697 | once a run's collector has ended, in any interleaving, its two totals count what the goroutines sent and add up to the lengths of the per-step logs; failed is positive exactly when some pair failed |
| `Report.CollectRun` | cmd/cexec/main.go:569-697 | the loop fed with everything a run sent ends with that run's totals, the names of its failed nodes, the logs, and exit status 1 exactly when some pair failed |
| `State.Store.constructor` | internal/state/state.go:29-51 | the map of the listed entries, the last one winning on a repeated key; empty for a missing or corrupt file |
| `State.Store.Done` | internal/state/state.go:61-66 | true exactly when the key is in the map |
| `State.Store.Mark` | internal/state/state.go:69-78 | sets the entry under its own key and changes nothing else |
| `State.Store.Save` | internal/state/state.go:81-106 | whatever order the map is walked in, leaves each entry once, by node and by step name within a node, from which Load restores the map; a failed write leaves the file |
| `State.LessExact` | internal/state/state.go:89-94 | the order of node and step names is that of a dictionary |
| `State.RoundTrip` | internal/state/state.go:41-106 | Save then Load restores the map from any listing, however ties were sorted |
| `State.CollectKeys` | internal/state/state.go:47-49 | a key is loaded exactly when some entry carries it |
| `State.CollectFinds` | internal/state/state.go:47-49 | without repeated keys each entry is found under its own key |
| `State.CollectIsKeyed` | internal/state/state.go:47-49 | every loaded entry sits under its own node:hash key |
| `State.ListedMapsAreKeyed` | internal/state/state.go:22-26 | only maps with every entry under its own key can be listed and restored |
| `State.PreimageInjective` | internal/state/state.go:55-57 | on one node, names of which neither goes on with a pipe after the other make the hashed text determine step and command |
| `State.PipesCollide` | internal/state/state.go:55-57 | two names share a hashed text for some commands if and only if they are equal or one goes on with a pipe after the other |
| `State.PipeFreeNamesDoNotOverlap` | internal/state/state.go:55-57 | names without a pipe never do |
| `State.SomeListing` | internal/state/state.go:83-94 | every map with entries under their own keys has a listing a save may leave |
| `State.KeyInjective` | internal/state/state.go:63-65 | hashes of one width make the node:hash key determine both |
| `State.Insert` | internal/state/state.go:89-94 | keeps a listing sorted by node and step name and holds exactly one entry more |
| `Template.ExpandVars` | cmd/cexec/main.go:775-780 | replaces the placeholders one key after the other, in an order of the keys the caller cannot choose |
| `Template.ReplaceIsFill` | cmd/cexec/main.go:777 | replacing one placeholder in a plain text is filling in the segments of its value |
| `Template.ExpansionIsSubstitution` | cmd/cexec/main.go:775-780 | when no value it puts in mentions another variable, every walk gives the simultaneous substitution |
| `Template.InertExact` | cmd/cexec/main.go:777 | a text where each double brace is visibly not the start of a name is exactly one in which no placeholder begins, whatever text follows |
| `Template.OrderIndependentWhen` | cmd/cexec/main.go:775-780 | for texts made of inert text and placeholders, where no value mentioned by another one mentions its own variable, all walks give the same text if and only if no variable the command mentions has a value that mentions another variable of the map |
| `Template.LastTwoMatter` | cmd/cexec/main.go:775-780 | otherwise the two walks that differ in the order of those two variables at the end give different texts |
| `Template.PlainIsOrderIndependent` | cmd/cexec/main.go:775-780 | with literal values all walks give the same text |
| `Template.NestedValuesDependOnOrder` | cmd/cexec/main.go:775-780 | the smallest nested value and the two texts its two walks give |
| `Template.SomeOrder` | cmd/cexec/main.go:776 | a walk over the map always exists |
| `Executor.ExecuteWithRetry` | internal/executor/executor.go:78-146 | calls made, what each had to be for the loop to go on, why it stopped, the log it returns, each delay and the total, the bucket the summary gives it; no call and an empty log for a negative limit |
| `Executor.ComputeBackoff` | internal/executor/executor.go:148-161 | the float product, truncated, is exactly min(base * 2^(attempt-1), 60s) while it is exact and fits a Duration, and never above 60s otherwise; fixed mode is uncapped; zero means 2s |
| `Executor.BackoffMonotone` | internal/executor/executor.go:155-159 | later attempts never wait less |
| `Executor.DefaultDelays` | internal/executor/executor.go:149-160 | with nothing configured 2, 4, 8, 16, 32 and then 60 seconds |
| `Executor.CapIndexIsThreshold` | internal/executor/executor.go:156-159 | the cap index separates the attempts whose doubling is within 60s |
| `Executor.TotalDelayClosedForm` | internal/executor/executor.go:82-86 | with b the base, or two seconds for zero, k retries wait b * (2^k - 1) up to the cap index c, and b * (2^c - 1) + 60s * (k - c) beyond |
| `Executor.RetryableMeansUnreachableOrTimedOut` | internal/executor/executor.go:163-174 | a failure is retryable exactly when the summary would count it as unreachable or timed out |
| `Executor.BuildSummary` | internal/logging/logger.go:44-65 | succeeded, unreachable, timed out and failed are the numbers of logs with success and of failures with the categories of each; retried those with retries; the four add up to the total |
| `Fanout.ConcurrencyCap` | internal/executor/executor.go:33-56 | at no point of any run do more goroutines execute than a positive MaxConcurrency |
| `Fanout.EveryRunIsFinite` | internal/executor/executor.go:41-73 | every run of the goroutines ends |
| `Fanout.RunReturnsAllResults` | internal/executor/executor.go:30-74 | when executeWithRetry returns on every node, a run that can go no further has every slot written exactly once, with what it returned for that slot's node, or, only in a cancelled run, with a failed log of that node and no retry; the semaphore cannot deadlock |
| `Fanout.CancelledLogFails` | internal/executor/executor.go:51-64 | the log of a node cancelled before execution is a failure the summary counts as timed out |
| `Fanout.InvStep` | internal/executor/executor.go:46-68 | every atomic step keeps: tokens are the holders, at most the limit, and a slot is written once its goroutine is through |
| `Inventory.ParseRangeExact` | internal/inventory/inventory.go:14-31 | the parser finds exactly the groups the regular expression matches; the second prefix has no effect |
| `Inventory.ExpandToken` | internal/inventory/inventory.go:21-38 | a token that is no range gives itself without the white space around it; a range gives the prefix with each number from the smaller to the larger, in that order; no result when a number is not below the largest int |
| `Inventory.ExpandList` | internal/inventory/inventory.go:42-48 | the names of the comma-separated tokens, in order; no result when a token has none |
| `Inventory.ListOfMore` | internal/inventory/inventory.go:44-46 | the names of a token and a comma before a list are the token's names and then the list's |
| `Inventory.ListOfOne` | internal/inventory/inventory.go:44-46 | without a comma the list is its one token |
| `Inventory.RangeProperties` | internal/inventory/inventory.go:28-37 | a range does not depend on the order of its ends, has one name more than the distance of its ends, all different, and holds exactly the numbers between them |
| `Inventory.ReversedRange` | internal/inventory/inventory.go:30-32 | swapping the numbers of a token does not change its expansion |
| `Inventory.FlattenMembers` | internal/inventory/inventory.go:42-48 | a name is in the list exactly when some token gives it |
| `Inventory.ApplyDefaults` | internal/inventory/inventory.go:138-146 | port 22 for zero and user root for empty, every other field as it was |
| `Inventory.MergeGroups` | internal/inventory/inventory.go:74-110 | merged, added and missing lists, in order |
| `Inventory.LackingInOrder` | internal/inventory/inventory.go:94-107 | the added and the missing nodes come in the order of their list and are all those whose name the other list lacks |
| `Inventory.MergedNodes` | internal/inventory/inventory.go:64-110 | merged names are the union of both sources; hosts names and IPs stay; the merged list is as long as base and missing together |
| `Inventory.MergedFields` | internal/inventory/inventory.go:75-93 | for a node known to both: IP from the hosts file, groups from the last inventory entry of its name, port and user from it unless empty |
| `Inventory.NewNodesAreKept` | internal/inventory/inventory.go:94-98 | a hosts node the inventory lacks keeps its fields and is reported for appending |
| `Inventory.SyncIsFixpoint` | internal/inventory/inventory.go:64-110 | after appending the added nodes, merging the same hosts again gives the same merged and missing lists and nothing to add |
| `InventorySync.SyncInventory` | cmd/cexec/main.go:146-180 | one start: load both sources, merge, append what was added; the file is left alone when nothing was added, an uncompleted write leaves anything, and an unreadable file means hosts nodes only |
| `InventorySync.WrittenFile` | cmd/cexec/main.go:158-162 | what is written, entry by entry: the file's nodes with defaults, then the hosts nodes it did not name, in order and with their own fields |
| `InventorySync.SecondStartChangesNothing` | cmd/cexec/main.go:146-180 | a second start with the same hosts file gives the same nodes, warnings and file, unless the first had something to write and did not complete it |
| `InventorySync.SecondStartAgreesWhen` | cmd/cexec/main.go:154-170 | the second start gives the same nodes and warnings however the writes go if and only if the first has nothing to write |
| `InventorySync.TornWriteAgreesWhen` | internal/inventory/inventory.go:52-62 | after an uncompleted write the second start gives the same nodes and warnings if and only if what is left gives each hosts node the same groups, port and user and lists the same other nodes |
| `InventorySync.TruncationAgreesWhen` | internal/inventory/inventory.go:61 | after a truncation, if and only if the file had no other node and nothing of its own about the hosts nodes |
| `InventorySync.TruncationLosesNodes` | internal/inventory/inventory.go:61 | a truncated file loses every node only the inventory knew |
| `InventorySync.SmallestTornWrite` | internal/inventory/inventory.go:61 | one hosts node and one inventory node: two nodes at the first start, one at the second |
| `InventorySync.CompletedFileIsDefaulted` | cmd/cexec/main.go:158-162 | loading the completed file adds no default |
| `Selection.Select` | internal/inventory/inventory.go:155-217 | for a node name: that name if some node has it; for a group name: the names of its members; for `all`: every name; each without the excluded ones; in general exactly the chosen names, each once unless the selector is `all`, in order; an error exactly when none is chosen; no result exactly when an expansion has none |
| `Selection.ScanToken` | internal/inventory/inventory.go:178-202 | one token: the group of that name if some node has it, the nodes of that name otherwise, each name once |
| `Selection.SelectionIsExact` | internal/inventory/inventory.go:155-217 | a name is selected if and only if it is not excluded and some expanded token is a group of one of its nodes, or no group and equal to it |
| `Selection.SelectionIsUnique` | internal/inventory/inventory.go:176-202 | each name once |
| `Selection.SelectionOrder` | internal/inventory/inventory.go:178-202 | in the order of the first matching token, then of the inventory |
| `Selection.KeptIsSubsequence` | internal/inventory/inventory.go:205-211 | exclusion cuts names out and keeps the order |
| `Hosts.LoadInventory` | internal/hosts/hosts.go:24-79 | one node per cluster name with the address of its first entry; user hpc and port 22 by default; an error when there is none |
| `Hosts.LineFieldsExact` | internal/hosts/hosts.go:43-51 | a line has fields exactly when it has at least two words and the first does not start with the comment sign, and then they are its words |
| `Hosts.CommentGivesNothing` | internal/hosts/hosts.go:43-46 | a blank line, and one whose first character other than white space is the comment sign, gives nothing |
| `Hosts.CommentChangesNothing` | internal/hosts/hosts.go:42-46 | such a line anywhere in the file leaves all entries, hence the result, as they are |
| `Hosts.LineOfNames` | internal/hosts/hosts.go:48-69 | a line of an address and cluster names, with white space of any kind, gives exactly those names in order, lower-cased |
| `Hosts.LineInFile` | internal/hosts/hosts.go:42-71 | the entries of a file are those of its lines in order |
| `Hosts.ClusterNames` | internal/hosts/hosts.go:13-19 | cluster names are master, and node followed by at least one decimal digit |
| `Hosts.FirstOfEachInOrder` | internal/hosts/hosts.go:56-68 | the kept entries come in the order of the file and are all the first occurrences |
| `Hosts.FirstOfEachIs` | internal/hosts/hosts.go:56-57 | each name once, from its first occurrence, none missed |
| `Hosts.EntriesAreCluster` | internal/hosts/hosts.go:53-57 | a line gives its address to exactly the cluster names among its lower-cased fields |
| `Hosts.LoadedNodes` | internal/hosts/hosts.go:24-79 | unique names, the given port and user, the address of the first entry; names are exactly the cluster names of the file; master is control, the others compute |
| `HostsSync.BuildHostsSyncCmds` | cmd/cexec/main.go:865-899 | one command per line with a cluster name, for the first one on it |
| `HostsSync.CommentHasNoCommand` | cmd/cexec/main.go:871-879 | a blank or commented-out line anywhere leaves the commands as they are |
| `HostsSync.LineMatchesExact` | cmd/cexec/main.go:888 | the pattern matches exactly the lines that read: a text the address matches, blanks, the name, then nothing or a blank and anything |
| `HostsSync.CommandAppends` | cmd/cexec/main.go:886-890 | a command leaves a file that has its entry and appends the address, a space and the name to any other |
| `HostsSync.SyncCovers` | cmd/cexec/main.go:887-890 | afterwards every emitted pattern matches some line |
| `HostsSync.SyncIsIdempotent` | cmd/cexec/main.go:861-890 | running the program again changes nothing |
| `HostsSync.AppendedOnce` | cmd/cexec/main.go:887-890 | what was appended are lines of commands whose pattern matched nothing before, none twice |
| `HostsSync.Sync` | cmd/cexec/main.go:887-898 | existing lines stay as a prefix |
| `HostsSync.FirstClusterIs` | cmd/cexec/main.go:880-891 | the first cluster name of a line, if there is one |
| `HostsSync.SyncedLines` | cmd/cexec/main.go:871-894 | a line gives at most one command, and one exactly when it gives the inventory a node |
| `HostsSync.OnlyFirstIsSynced` | cmd/cexec/main.go:880-892 | the command of a line is for its first inventory entry and no other |
| `HostsSync.SyncedEntries` | cmd/cexec/main.go:871-894 | of a whole file, an entry has a command if and only if it comes first on some line |
| `HostsSync.SyncedNames` | cmd/cexec/main.go:871-894 | a name is in some command if and only if it is the first cluster name of some line |
| `HostsSync.SecondNameIsNotSynced` | cmd/cexec/main.go:880-892 | the smallest file with a node no command mentions: one line with master and node1 |
| `HostsSync.NewLineChangesCommands` | cmd/cexec/main.go:861-894 | a new cluster line anywhere in the file puts its command in at that place and changes no other |
| `Text.ValueOfDecimal` | internal/inventory/inventory.go:28-35 | reading a printed number gives the number back |
| `Text.DecimalInjective` | internal/inventory/inventory.go:34-36 | different numbers print differently |
| `Text.JoinSplit` | internal/inventory/inventory.go:44 | splitting at the commas loses nothing |
| `Text.FieldsExact` | internal/hosts/hosts.go:48 | Fields gives exactly the words of a text, and there is only one way to read it as words |
| `Text.TrimIs` | internal/inventory/inventory.go:22 | trimming takes the white space off both ends and nothing else |
| `Text.SplitFirst` | internal/inventory/inventory.go:44 | the first piece of a split ends at the first separator |
| `Text.DecimalLeads` | internal/inventory/inventory.go:35 | a printed positive number has no leading zero |

## Left out

- `internal/ssh/client.go`: a remote command is an oracle that returns some result.
- `ClassifyError`: its categories are kept, its substring matching is a parameter of the retry loop.
- YAML, JSON and base64 codecs, file reading, directory creation: the model starts from parsed values; a state file that exists but cannot be read makes the program exit before a run starts.
- SHA-256 and its truncation to eight bytes: a parameter, see above.
- Collecting stdout for `--stdout` (`cmd/cexec/main.go`:579-601, 669-678): the model covers runs without that option. The source keeps a `strings.Builder` by value in a map, which Go's library forbids once it has been written to; what a node's second output does then depends on the compiler.
- Writing per-step log files, printing, run IDs, wall-clock times, flags, environment and passwords: plumbing.
- A second interrupt signal, which exits at once; `RunnerCache.CrashConsistency` says what the file holds whenever that happens.
- Concurrency limits in playbook mode: the code enforces none.
- Commands as shell text: the hosts sync is modelled by (address, name) pairs and their effect on a list of lines, not by quoting through `sh -c` or `%q`, nor for a file whose last line lacks its newline; an unreadable hosts file gives an empty text, which is not modelled.
- The warning for inventory nodes missing from a hosts file in `--use-inventory` mode: one membership test.
- Hosts file lines beyond the scanner's buffer: an error the model does not have.
- Executor.ComputeBackoff: gives no value beyond the cap where the product leaves the range of a Duration or the base is beyond 2^53 ns, because Go leaves that conversion to the implementation.
- Executor.ExecuteWithRetry: the total delay has its closed form only as long as the delays are in that range; the per-command timeout is part of the oracle.
- Inventory.ExpandToken: does not tell a panic from a loop without end when a number is not below the largest int, and leaves out memory that ends before a very long range does.
- Template.OrderIndependentWhen: does not cover literal text that a following text could turn into a placeholder, such as a double brace left open, nor a value that mentions its own variable and is itself mentioned by another value.
- Template.ExpansionIsSubstitution: leaves out the same literal text; so do `Template.LastTwoMatter` and `Template.PlainIsOrderIndependent`.
- RunnerCache.FileEqualsMemory: does not cover a run whose last save failed; `RunnerCache.CrashConsistency`, `RunnerCache.NoKeyIsLost` and `RunnerSaves.ResultIsDurable` hold then as well.
- HostsSync.SyncIsIdempotent: takes an address text as a pattern of its own, without alternation at top level.
