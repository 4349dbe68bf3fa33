# A model of microkube, with proofs

microkube starts a local Kubernetes cluster by supervising child processes. This project models the
parts of it that carry state, interleavings or arithmetic, and proves what they promise for all
inputs, all schedules and all runs. `dafny verify dfyconfig.toml` checks everything.

| part | modules | form |
|---|---|---|
| log line reassembly | `LineSplit`, `LogParser`, `LogConcurrency`, `CmdHandler` | a class for the parser, whose methods are proved equal to functions on its memory; interleaved calls as schedules of critical sections |
| log line grammars | `LogGrammar` | rules as data, an extractor and a printer |
| one supervised process | `Supervision`, `ServiceHandler` | processes and their goroutines as a step relation; the handler as a class |
| health checks | `HealthMachine`, `StopTokens`, `ServiceHandler`, `StartService`, `CheckService` | flag, stop channel, message channel and goroutines as a step relation; the loops as methods |
| a whole run | `Services`, `Lifecycle`, `Traces`, `LifecycleRuns`, `Microkubed` | the fourteen threads that can call Fatal, each at most once, the main thread among them, as a step relation; the main thread alone as a class that refines it |
| stopping in a whole run | `StopChannel` | the lifecycle and the health machine of one service side by side, thread by thread |
| IP ranges | `Network`, `Arithmetic` | the loops as methods, addresses as 32-bit numbers |
| node drain | `KubeClient` | a class that logs its requests, against a cluster whose answers may change at every request |
| manifest generator | `DocumentSplit`, `Decimal`, `RawLiterals`, `ManifestCodegen`, `GeneratedCode` | a class that writes a syntax tree, and an interpreter for that tree |

Where the source works step by step, a method with the same branches is proved equal to a function
or tied to a step of a machine, and the properties are proved about that function or machine. In
the machines a schedule is any sequence of enabled steps, so a statement about `Execute(schedule)`
holds in every reachable state under every interleaving.

## What the code does that its documentation does not say

- Stopping twice is not without effect (`pkg/handlers/ServiceHandler.go:46-47` says it is): once the
  forever goroutine has taken its token and ended, the flag stays set, each further Stop leaves a
  token in a channel of capacity two, and a Stop that finds the channel full blocks for good
  (`HealthMachine.RepeatedStopBlocks`; reached in `StopTokens.StoppedServiceGetsStuck`). In general a
  blocked Stop does so for good exactly when no forever goroutine is alive or can still be launched
  (`StopTokens.StuckIff`).
- After an error of the line handler a call returns and leaves the lines behind it in the buffer. All
  complete lines are delivered in all runs exactly when the handler accepts all lines
  (`LogConcurrency.DeliversAllIff`).
- A forever check can end although nobody has called Stop since it was enabled: exactly when a token
  was waiting then, or a thread was about to write one (`StopTokens.ForeverCheckLastsIff`). A Stop
  between the message of a one-shot check and the clearing of the flag, such as the deferred one in
  startKubeProxy, leaves such a token (`EarlyTokenEndsLaterCheck`).
- startService hangs in a round exactly when the goroutine of the round before has not yet cleared
  the flag (`StartService.SkippedRoundHangs`, reached in `SkippedRoundReached`).
- A clear flag does not mean that the message channel is empty (`StopTokens.MessageOutlivesFlag`);
  it means that every launched check has sent its message (`HealthMachine.ClearFlagCountsMessages`).
- A handler can be stopped more than twice, and a Stop can block on the stop channel. Neither happens
  in runs in which at most one Fatal finds the handler registered, for kube-proxy none; with one
  Fatal more both can (`LifecycleRuns.AtMostTwoStopsIff`, `StopChannel.NeverBlocksIff`). In all runs
  a handler is stopped at most seven times, kube-proxy eight, and this is reached
  (`Lifecycle.StopsBound`, `LifecycleRuns.BoundIsReached`).
- HandleExit ignores the error of the start handler, so with a restart budget above one the final
  exit handler never runs after a failed restart (`Supervision.ExitHandlerRunsUnlessRestartFails`,
  `RestartCanFail`).
  The constructor fixes the budget at one (`pkg/handlers/BaseServiceHandler.go:77`), so at present
  no process is restarted.
- The comment in CalculateIPRanges speaks of the first diverging bit, but the outer loop goes on and
  ends with the last diverging octet, and equal networks give a prefix of length 0
  (`Network.LoopFindsCommonPrefix`, `ClusterCovers`; 10.0.0.0/16 and 10.1.2.0/24 in `TwoOctetsDiffer`).
- findNode keeps the node of an earlier call when the list is empty, so WaitForNode can return at once
  although there is no node (`KubeClient.KubeClient.WaitForNode`).
- DrainNode takes a pod for gone when asking for it fails for any reason
  (`KubeClient.FailedRequestHidesPod`).
- The generated file names its result type without the package, so outside the package of the
  manifest types it does not compile; a second probed container declares a constant twice; an object
  that does not encode leaves an empty file and no error (`GeneratedCode.CompilesIff`,
  `ManifestCodegen.ManifestCodegen.WriteFile`).
- Encodings are written between backticks as they are. A carriage return in one is lost, and so is a
  plus sign between two backticks, with the backticks: such a file compiles and registers another
  object than the document (`GeneratedCode.BacktickChangesObject`). The constants are the encodings
  exactly when these contain neither (`GeneratedCode.ConstantsAreTextsIff`).
- The restful rule does not accept all lines it prints: a location that contains `": "` is cut at the
  first one, and the line is accepted only if the fixed text follows there
  (`LogGrammar.RestfulAcceptsIff`, `RestfulRejects`).

## Model

| member | source | states |
|---|---|---|
| `LogParser.BaseLogParser.CriticalSection` | internal/log/BaseLogParser.go:86-109 | between Lock and Unlock the data is appended and at most one line leaves the buffer; the outcome says whether the call fails, ends or enters again |
| `LogParser.BaseLogParser.HandleData` | internal/log/BaseLogParser.go:85-111 | an undisturbed call hands out all complete lines, or all up to and including the first that the handler rejects; it terminates because newlines leave the buffer |
| `LogParser.CallBySections` | internal/log/BaseLogParser.go:93-107 | the closed form of a call agrees with the recursion through one critical section after the other, handler errors included |
| `LogParser.SectionWork` | internal/log/BaseLogParser.go:93-107 | each section takes exactly one newline out of the buffer or leaves none behind |
| `LogParser.ChunkIndependence` | internal/log/BaseLogParser.go:88-107 | every partition of a stream into chunks yields the lines and the buffer of one whole call |
| `LineSplit.SplitLossless` | internal/log/BaseLogParser.go:93-95 | the lines and the rest concatenate to the stream |
| `LineSplit.SplitShape` | internal/log/BaseLogParser.go:93-95 | each line has one newline, at its end; the rest has none; there are as many lines as newlines |
| `LineSplit.SplitUnique` | internal/log/BaseLogParser.go:93-95 | no other cut of a stream into lines and a newline-free rest exists |
| `LineSplit.IsLineIff` | internal/log/BaseLogParser.go:93-95 | a line ends with the byte 10 and has no other |
| `LogConcurrency.HandedIsPrefixOfSplit` | internal/log/BaseLogParser.go:85-111 | under every interleaving, errors or not, handed lines and buffer are all data in lock order, and the handed lines are a prefix of the split of that data |
| `LogConcurrency.QuiescentMeansComplete` | internal/log/BaseLogParser.go:104-110 | when all calls have returned without error exactly the complete lines were handed out |
| `LogConcurrency.StepKeepsAttended` | internal/log/BaseLogParser.go:104-110 | without errors a newline in the buffer implies that some call will enter again |
| `LogConcurrency.EnterMakesProgress` | internal/log/BaseLogParser.go:104-107 | every critical section, by whichever call and whatever the handler answers, reduces the newlines and calls still to be dealt with |
| `LogConcurrency.SectionsBounded` | internal/log/BaseLogParser.go:85-111 | in every schedule the critical sections so far and the work left are at most the work that the arrived chunks brought |
| `LogConcurrency.SectionsAtMost` | internal/log/BaseLogParser.go:85-111 | in every schedule there are at most as many critical sections as chunks arrived plus newlines in them |
| `LogConcurrency.RunsToRest` | internal/log/BaseLogParser.go:104-110 | from every reachable state further sections alone, without new calls, lead to a state in which all calls have returned |
| `LogConcurrency.RestMeansAllWritten` | internal/log/BaseLogParser.go:88-90 | when all calls have returned the data written is a concatenation of all chunks that arrived, each exactly once |
| `LogConcurrency.FailureStrandsLines` | internal/log/BaseLogParser.go:97-101 | for every list of lines that the handler rejects there is a run in which all calls have returned and a complete line stays in the buffer |
| `LogConcurrency.AcceptingDelivers` | internal/log/BaseLogParser.go:97-110 | if the handler accepts all lines, then in every run all complete lines have been handed out when all calls have returned |
| `LogConcurrency.DeliversAllIff` | internal/log/BaseLogParser.go:97-110 | that is so in all runs if and only if the handler accepts every list of lines |
| `CmdHandler.ReadOutput` | pkg/helpers/CmdHelper.go:74-85 | a reader passes on what it read up to and including the first error, through one reused buffer, ignoring errors of the parser |
| `CmdHandler.ReceivedStep` | pkg/helpers/CmdHelper.go:76-84 | one read changes the parser by its data, skips empty reads, and ends the loop on an error |
| `CmdHandler.ReadSizesDoNotMatter` | pkg/helpers/CmdHelper.go:74-85 | the final lines and buffer depend on the bytes read, not on where the reads cut them |
| `LogGrammar.PrintAfterExtract` | internal/log/logs.lde:16-42 | for every rule, printing the extracted fields and adding what remains rebuilds the line |
| `LogGrammar.WholeLineConsumed` | internal/log/logs.lde:16-42 | on a line handed out by the parser nothing remains, so printing the fields is the line |
| `LogGrammar.ExtractAfterPrint` | internal/log/logs.lde:16-42 | extracting a printed line gives the fields back if and only if no delimiter occurs earlier in field plus delimiter |
| `LogGrammar.ReadableIfAbsent` | internal/log/logs.lde:16-42 | for a delimiter without a border that condition says that the field does not contain it |
| `LogGrammar.GrammarDelimiters` | internal/log/logs.lde:16-42 | every field of the three rules ends at an unbordered delimiter, except the severity of etcd |
| `LogGrammar.KubeLines` | internal/log/logs.lde:16-22 | the kube line written out is what the rule prints, and its five fields are extracted if and only if the first three contain no space, the location no "] " and the message no newline |
| `LogGrammar.EtcdLines` | internal/log/logs.lde:36-42 | the same for the etcd line, with the condition on the severity that its delimiter needs |
| `LogGrammar.ThreeSpaces` | internal/log/logs.lde:15-22 | in a line like the documented one, with three spaces behind the time, the third field is empty and the number belongs to the location |
| `LogGrammar.OverlappingDelimiter` | internal/log/logs.lde:39 | a severity that does not contain the delimiter can still be cut short |
| `LogGrammar.AcceptsEveryPrint` | internal/log/logs.lde:16-42 | a rule with fixed text only in front accepts every printed line, readable or not |
| `LogGrammar.AcceptedLines` | internal/log/logs.lde:16-42 | the kube and the etcd rule accept exactly the lines that start with a printed form |
| `LogGrammar.AcceptedIff` | internal/log/logs.lde:16-42 | every rule accepts exactly the lines that start with the print of readable fields |
| `LogGrammar.RestfulAcceptsIff` | internal/log/logs.lde:26-33 | a line printed with a readable date and time is accepted if and only if the location is readable, or the fixed text follows its first delimiter |
| `LogGrammar.AfterDelimiterDecides` | internal/log/logs.lde:30-31 | for a location with the delimiter in it, what stands behind the first one decides, even if that is nothing |
| `LogGrammar.RestfulRejects` | internal/log/logs.lde:26-33 | a concrete location with which the rule rejects its own print |
| `LogGrammar.RestfulAccepts` | internal/log/logs.lde:26-33 | a location with the delimiter in it that is accepted, because it repeats the fixed text |
| `Supervision.RestartBudget` | pkg/handlers/BaseServiceHandler.go:185-192 | with budget n at most n processes are spawned, one at a time; retriesLeft is n minus the reports; the exit handler fires exactly with the n-th report, once |
| `Supervision.StateSendNeverBlocks` | pkg/helpers/CmdHelper.go:115-131 | the waiting goroutine never blocks on the state channel, whether or not the signal goroutine has left |
| `Supervision.ExitHandlerRunsUnlessRestartFails` | pkg/handlers/BaseServiceHandler.go:187-191 | when nothing can happen any more the exit handler has run if and only if no restart failed |
| `Supervision.RestartCanFail` | pkg/handlers/BaseServiceHandler.go:187-188 | a run with a budget of two, which the constructor does not set, in which the restart fails and the exit handler never runs |
| `Supervision.StepMakesProgress` | pkg/helpers/CmdHelper.go:116-143 | every step of a process or its goroutines reduces the work left, restarts included, so no run is infinite |
| `ServiceHandler.BaseServiceHandler.constructor` | pkg/handlers/BaseServiceHandler.go:72-86 | the flag is clear, the channel empty, the restart budget one |
| `ServiceHandler.BaseServiceHandler.Probe` | pkg/handlers/BaseServiceHandler.go:90-147 | the result is that of the first response that is not a dial error, or a timeout; number of requests and the exact sleeps |
| `ServiceHandler.BaseServiceHandler.CheckOnce` | pkg/handlers/BaseServiceHandler.go:164-168 | one round of the health goroutine sends healthy if and only if one of the first eight requests gets a valid answer and nobody listened at those before it; it takes the probe and the send step of the health machine |
| `ServiceHandler.WaitsDouble` | pkg/handlers/BaseServiceHandler.go:125-136 | the sleeps come in order, the first as given and each twice the one before |
| `ServiceHandler.DoublingsIsLeast` | pkg/handlers/BaseServiceHandler.go:125-136 | the number of sleeps is the least k for which the wait doubled k times exceeds the limit |
| `ServiceHandler.TotalWaitBound` | pkg/handlers/BaseServiceHandler.go:125-136 | persistent dial errors cost w * (2^k - 1) in sleep, at most twice the limit less w |
| `ServiceHandler.TotalWait` | pkg/handlers/BaseServiceHandler.go:134-136 | the waits so far add up to the next wait less the first |
| `ServiceHandler.BackoffConstants` | pkg/handlers/BaseServiceHandler.go:125-131 | with 100 ms and 7 s: 7 sleeps, 12.7 s |
| `ServiceHandler.BaseServiceHandler.EnableHealthChecks` | pkg/handlers/BaseServiceHandler.go:159-182 | starts a goroutine exactly when the flag is clear; takes the steps of the health machine |
| `ServiceHandler.BaseServiceHandler.Stop` | pkg/handlers/BaseServiceHandler.go:150-156 | writes one token exactly when the flag is set, and blocks exactly when the channel is full, as the health machine does |
| `ServiceHandler.BaseServiceHandler.HandleExit` | pkg/handlers/BaseServiceHandler.go:185-192 | the fields change as in the supervision machine: a restart while the budget lasts, else the exit handler |
| `HealthMachine.FlagGuardsGoroutines` | pkg/handlers/BaseServiceHandler.go:159-182 | at most one goroutine is live; a live one implies the flag; with the flag clear every goroutine has sent its one message and ended |
| `HealthMachine.MessagesConserved` | pkg/handlers/BaseServiceHandler.go:164-168 | messages sent are those received plus those in the channel, and they are received in the order of the launches |
| `HealthMachine.MessagesAreOutcomes` | pkg/handlers/BaseServiceHandler.go:163-168 | in every schedule the messages received and in the channel are the outcomes of all probes, in order and with their own health, but for one still to be sent |
| `HealthMachine.ClearFlagCountsMessages` | pkg/handlers/BaseServiceHandler.go:165-171 | with the flag clear the channel is empty if and only if one message was received for each launch |
| `HealthMachine.TokensConserved` | pkg/handlers/BaseServiceHandler.go:149-182 | tokens in the channel are those written less one for each forever goroutine that ended, and at most one ever does |
| `HealthMachine.TwoStopsNeverBlock` | pkg/handlers/BaseServiceHandler.go:150-156 | with at most two Stops, by any threads, no write to the stop channel blocks |
| `HealthMachine.BlockedIff` | pkg/handlers/BaseServiceHandler.go:150-156 | in every reachable state a thread about to write its token is blocked if and only if two tokens more were written than forever goroutines ended |
| `HealthMachine.RepeatedStopBlocks` | pkg/handlers/BaseServiceHandler.go:150-156 | after the forever goroutine has ended every Stop writes, and it is stuck if and only if three tokens were written before |
| `HealthMachine.StuckForever` | pkg/handlers/BaseServiceHandler.go:152-155 | whatever happens later, no blocked thread gets on when the forever goroutine has ended, or when there is none and the main thread itself is in Stop |
| `HealthMachine.AtMostOneLateMessage` | pkg/handlers/BaseServiceHandler.go:165-178 | over a whole schedule a forever goroutine sends at most one message while a token is waiting |
| `HealthMachine.CountersCount` | pkg/handlers/BaseServiceHandler.go:163-178 | the message counters of a goroutine count its Send steps, and those with a token waiting |
| `HealthMachine.EndedForeverIsFinal` | pkg/handlers/BaseServiceHandler.go:173-176 | once a forever goroutine has ended the flag stays set and no check is launched again |
| `StopTokens.ForeverCheckLastsIff` | pkg/handlers/BaseServiceHandler.go:149-182 | a forever check ends only after a Stop called since it was enabled, in all runs, if and only if no token was waiting and no thread was about to write one |
| `StopTokens.NoTokenNoEnd` | pkg/handlers/BaseServiceHandler.go:173-178 | without such a token and without a Stop the check never ends, whatever the other threads do |
| `StopTokens.TokenCanEnd` | pkg/handlers/BaseServiceHandler.go:173-176 | with such a token some run without any Stop ends it |
| `StopTokens.WaitingTokenMeansOneMessage` | pkg/handlers/BaseServiceHandler.go:163-179 | with a token waiting the check never gets to a second round and sends at most one message, whoever calls Stop |
| `StopTokens.StuckIff` | pkg/handlers/BaseServiceHandler.go:150-178 | a blocked Stop blocks in every continuation if and only if that is the case |
| `StopTokens.SomeoneTakes` | pkg/handlers/BaseServiceHandler.go:159-178 | otherwise some continuation takes a token, if need be by finishing a one-shot check and launching a forever one |
| `StopTokens.EarlyTokenEndsLaterCheck` | pkg/handlers/BaseServiceHandler.go:149-182 | a run in which a Stop before the flag is cleared ends the forever check enabled later |
| `StopTokens.MessageOutlivesFlag` | pkg/handlers/BaseServiceHandler.go:165-171 | a run in which the flag is clear and a message is still in the channel |
| `StopTokens.StoppedServiceGetsStuck` | pkg/handlers/BaseServiceHandler.go:150-156 | a run in which the forever goroutine has ended and the fourth Stop is stuck |
| `StopTokens.RunIntoStuck` | pkg/handlers/BaseServiceHandler.go:150-171 | a run in which the third Stop is stuck and there never was a forever check |
| `StartService.AwaitHealthy` | cmd/microkubed/cmd/Microkubed.go:604-618 | the loop alone: succeeds if and only if one of eight probes is healthy, and stops at the first |
| `StartService.RefinesHealthMachine` | cmd/microkubed/cmd/Microkubed.go:607-610 | every interleaving of startService with the goroutines is a run of the health machine |
| `StartService.ReturnsOnFirstHealthy` | cmd/microkubed/cmd/Microkubed.go:607-620 | on return: at most eight probes, one per round, each message received in its own round, only the last healthy, and the channel empty |
| `StartService.ReturnsIffHealthy` | cmd/microkubed/cmd/Microkubed.go:607-620 | at its end startService has returned if and only if its last probe was healthy; all earlier probes were not, each belongs to its own round, and there were at most eight, exactly eight when it gave up |
| `StartService.GoesOnWhileUnhealthy` | cmd/microkubed/cmd/Microkubed.go:607-615 | before its end fewer than eight messages were received, each the outcome of the probe of its round, and unhealthy |
| `StartService.GivesUpAfterEight` | cmd/microkubed/cmd/Microkubed.go:616-618 | Fatal comes only after eight probes, all unhealthy |
| `StartService.SkippedRoundHangs` | cmd/microkubed/cmd/Microkubed.go:609-610 | a round hangs, for good, if and only if the last goroutine is between its message and clearing the flag when the check is enabled |
| `StartService.SkippedRoundReached` | cmd/microkubed/cmd/Microkubed.go:607-610 | a run in which the second round hangs |
| `StartService.LaunchedRoundGoesOn` | cmd/microkubed/cmd/Microkubed.go:607-615 | otherwise some thread can always act until startService is over |
| `CheckService.Watch` | cmd/microkubed/cmd/Microkubed.go:338-365 | aborts at the first moment at which, since some event, there was no healthy message and at least ten unhealthy ones, or at an exit outside graceful mode, and at no other |
| `CheckService.TrailingIsRun` | cmd/microkubed/cmd/Microkubed.go:346-362 | the counter is at least n if and only if since some event there was no healthy message and at least n unhealthy ones, for every n |
| `CheckService.ExitsDoNotCount` | cmd/microkubed/cmd/Microkubed.go:342-345 | an exit event, wherever it falls, leaves the counter unchanged |
| `Lifecycle.RegisteredIsPrefix` | cmd/microkubed/cmd/Microkubed.go:551-567 | registered handlers are a prefix of etcd, api server, controller-manager, scheduler, kubelet, kube-proxy; checks run only in graceful mode; graceful mode implies all six |
| `Lifecycle.GracefulIsMonotone` | cmd/microkubed/cmd/Microkubed.go:399 | the flag is set once, when the node is ready, all services are registered and no check runs yet, and never cleared |
| `Lifecycle.FatalStopsRegistered` | cmd/microkubed/cmd/Microkubed.go:515-523 | a Fatal that reads the mode before the change stops exactly the handlers registered when it reads the list, a later one none; whatever happens meanwhile it ends the program only when it is through |
| `Lifecycle.ReachIs` | cmd/microkubed/cmd/Microkubed.go:518-519 | a Fatal counts as having found a handler registered from the step on in which it reads a list with that handler, and no other step changes this |
| `Lifecycle.StopsCounted` | cmd/microkubed/cmd/Microkubed.go:515-542 | at every moment the stops of a handler are those due from the main thread's position plus the number of threads in Fatal past its position |
| `Lifecycle.StopsWithoutFatal` | cmd/microkubed/cmd/Microkubed.go:525-547 | if no Fatal found a handler registered, for instance because all came in graceful mode, it is stopped at most once, kube-proxy twice, and exactly so on return |
| `Lifecycle.StopsBound` | cmd/microkubed/cmd/Microkubed.go:515-542 | a handler is stopped at most once, kube-proxy twice, plus once for each Fatal that found it registered, and at most seven times, kube-proxy eight, in all runs |
| `LifecycleRuns.StopsReached` | cmd/microkubed/cmd/Microkubed.go:515-542 | for every handler and every number of processes that end before the node is ready, a run in which each of their Fatals and the shutdown stop it |
| `LifecycleRuns.BoundIsReached` | cmd/microkubed/cmd/Microkubed.go:515-542 | the bound for all runs is reached for every handler |
| `LifecycleRuns.FailedStops` | cmd/microkubed/cmd/Microkubed.go:515-523 | for every service a run in which it does not get healthy, and the stops of those before it |
| `LifecycleRuns.AtMostTwoStopsIff` | cmd/microkubed/cmd/Microkubed.go:515-542 | in all runs in which at most n Fatals find a handler registered it is stopped at most twice, if and only if n is at most one, for kube-proxy zero |
| `StopChannel.FewFatalsNeverBlock` | pkg/handlers/BaseServiceHandler.go:150-156 | in such a run no Stop of the handler blocks, by whichever thread |
| `StopChannel.Lift` | pkg/handlers/BaseServiceHandler.go:150-171 | every run of the lifecycle with at most two stops of a service can be taken with a health goroutine that is slow to clear the flag |
| `StopChannel.ThirdStopBlocks` | pkg/handlers/BaseServiceHandler.go:150-156 | for every service a run in which the shutdown's Stop of it blocks for good |
| `StopChannel.NeverBlocksIff` | pkg/handlers/BaseServiceHandler.go:150-156 | in all runs in which at most n Fatals find a handler registered no Stop of it blocks, if and only if n is at most one, for kube-proxy zero |
| `Microkubed.Microkubed.StartOne` | cmd/microkubed/cmd/Microkubed.go:300-308 | a healthy service is registered and listed, as in the lifecycle |
| `Microkubed.Microkubed.Start` | cmd/microkubed/cmd/Microkubed.go:551-567 | succeeds if and only if all services become healthy; otherwise exactly those before the first unhealthy one are registered; kube-proxy is stopped on the way out; the lifecycle has a run to the same state |
| `Microkubed.Microkubed.ExitHandler` | cmd/microkubed/cmd/Microkubed.go:515-523 | stops all registered handlers in order outside graceful mode, none inside |
| `Microkubed.Microkubed.StopAll` | cmd/microkubed/cmd/Microkubed.go:540-542 | stops all registered handlers in order |
| `Microkubed.Microkubed.EnableHealthChecks` | cmd/microkubed/cmd/Microkubed.go:368-374 | a check for every listed service, in order |
| `Microkubed.Microkubed.Run` | cmd/microkubed/cmd/Microkubed.go:514-548 | a run of the main thread alone ends with every registered handler stopped, in order, and after a successful startup kube-proxy stopped once before; in both outcomes the state is one that the lifecycle reaches |
| `Microkubed.Microkubed.GiveUp` | cmd/microkubed/cmd/Microkubed.go:515-523 | after a failed startup Fatal stops the registered handlers, as the main thread's Fatal in the lifecycle does |
| `Network.FirstDifferentBit` | internal/cmd/Network.go:53-62 | the mask loop counts the leading bits two octets have in common, plus one |
| `Network.DivergingBit` | internal/cmd/Network.go:48-64 | the nested loops end with the last diverging octet |
| `Network.LoopFindsCommonPrefix` | internal/cmd/Network.go:47-64 | the loops compute the longest common bit prefix of two addresses if and only if they differ in exactly one octet; otherwise too much, or 0 for equal addresses |
| `Network.CommonBitsIsLongest` | internal/cmd/Network.go:47-64 | two addresses agree in their first n bits if and only if n is at most the length of their common prefix |
| `Network.ValueIs` | internal/cmd/Network.go:50-58 | an address as a 32-bit number, from its four octets |
| `Network.ServiceBelowIsLess` | internal/cmd/Network.go:58 | for addresses that differ in one octet serviceBelowPod compares them as 32-bit numbers |
| `Network.ServiceBelowIffs` | internal/cmd/Network.go:50-64 | for all addresses it does so if and only if they are equal, or the first and the last diverging octet differ in the same direction |
| `Network.ClusterCovers` | internal/cmd/Network.go:65-71 | for every two ranges the cluster block covers both if and only if the networks are equal, or differ in one octet and their common bit prefix is no longer than either's network prefix |
| `Network.TwoOctetsDiffer` | internal/cmd/Network.go:47-71 | two disjoint ranges whose cluster block covers neither |
| `Network.ClusterIsLeastCover` | internal/cmd/Network.go:65-71 | for disjoint networks that differ in one octet the block covers both, no longer prefix does, and its base is that of the lower range, equivalent to the other |
| `Network.DisjointLimitsOffset` | internal/cmd/Network.go:65-71 | disjointness makes the common prefix shorter than both network prefixes |
| `Network.DefaultRanges` | internal/cmd/ArgHandler.go:104-105 | the default ranges are disjoint, differ in one octet, and give a block of prefix length 23 |
| `Network.CalculateIPRanges` | internal/cmd/Network.go:26-80 | fails if and only if a range does not parse; otherwise which address and prefix length it returns |
| `Network.FindBindAddress` | internal/cmd/Network.go:106-134 | the first private candidate; the first candidate if none is private; fatal if there is none |
| `Network.IsPrivateIff` | internal/cmd/Network.go:115-124 | private are the addresses in 10.0.0.0/8, 172.16.0.0/12 and 192.168.0.0/16 |
| `KubeClient.KubeClient.FindNode` | pkg/kube/KubeClient.go:67-95 | one list request unless the name is known; fatal on an error or several nodes; an empty list changes nothing |
| `KubeClient.KubeClient.Cordon` | pkg/kube/KubeClient.go:179-199 | the part of DrainNode up to the pod list: node list, unschedulable patch, pod list; no node, or fatal, in exactly these cases |
| `KubeClient.KubeClient.EvictAll` | pkg/kube/KubeClient.go:201-237 | one eviction for each pod in order, until the deadline; pending are the pods whose eviction succeeded, in the order of the list and one for each |
| `KubeClient.EvictedAreChosen` | pkg/kube/KubeClient.go:226-236 | a pod is pending if and only if an eviction of it succeeded; the pending pods are the listed ones at the positions of the successful evictions |
| `KubeClient.KubeClient.SweepOnce` | pkg/kube/KubeClient.go:246-265 | asks for every pending pod; none running if and only if none was found |
| `KubeClient.KubeClient.WaitUntilGone` | pkg/kube/KubeClient.go:242-274 | success means a last sweep that found none; it ends in time once the pods are gone or the deadline has passed |
| `KubeClient.KubeClient.EvictAndWait` | pkg/kube/KubeClient.go:200-274 | evictions, then sweeps over exactly the pods evicted; if all evictions are refused in time it returns at once |
| `KubeClient.KubeClient.DrainNode` | pkg/kube/KubeClient.go:178-275 | the exact request log of a successful drain: the unschedulable patch before the first eviction, and a last sweep without any evicted pod; when it fails, when it ends, and that pods whose eviction is refused are not waited for |
| `KubeClient.KubeClient.CheckConditions` | pkg/kube/KubeClient.go:291-298 | ready if and only if some condition of type Ready is true and none of that type follows it |
| `KubeClient.KubeClient.WaitForNode` | pkg/kube/KubeClient.go:279-319 | success means a node whose last condition of type Ready is true, uncordoned if needed, from the last list request, or one left from an earlier call; when it fails, and when it ends |
| `KubeClient.DrainedMeansGone` | pkg/kube/KubeClient.go:247-272 | a successful drain guarantees that all evicted pods are absent together, in every history of the cluster that agrees with all answers in the log, if and only if each was answered by NotFound; so it does when no request of the last sweep failed otherwise |
| `KubeClient.HistoryExistsIff` | pkg/kube/KubeClient.go:247-264 | a log has such a history, with pods that do not return, if and only if no pod was found after it was not |
| `KubeClient.FailedRequestHidesPod` | pkg/kube/KubeClient.go:255-260 | one failing request lets a drain succeed without the pod having been seen gone |
| `DocumentSplit.Split` | internal/manifests/ManifestCodegen.go:88-89 | the parts joined by the marker are the source; a cut at every line that starts with the marker and nowhere else; one more part than markers |
| `DocumentSplit.SplitUnique` | internal/manifests/ManifestCodegen.go:88-89 | only one list of parts has these properties |
| `Decimal.AtoiOfItoa` | internal/manifests/ManifestCodegen.go:140 | decimal printing of an index can be read back |
| `Decimal.ItoaDigits` | internal/manifests/ManifestCodegen.go:140 | numbers below ten are one digit, and a further digit multiplies by ten |
| `ManifestCodegen.ManifestCodegen.ParseDoc` | internal/manifests/ManifestCodegen.go:130-174 | one object entry, then one health entry for each container with a liveness probe of a deployment of either kind; the health flag is set if there is one; an undecodable document changes nothing |
| `ManifestCodegen.ManifestCodegen.ParseFile` | internal/manifests/ManifestCodegen.go:77-100 | entries for the documents in source order up to the first that does not decode, behind the entries there are; hasHealthCheck if it was set or some deployment has a container with a liveness probe |
| `ManifestCodegen.ProbedIs` | internal/manifests/ManifestCodegen.go:153-171 | counted are the containers with a liveness probe of deployments of either kind, and of no other objects |
| `ManifestCodegen.ProbedInCounts` | internal/manifests/ManifestCodegen.go:153-171 | the count over all documents is the number of such containers |
| `ManifestCodegen.AtMostOneProbeIs` | internal/manifests/ManifestCodegen.go:153-171 | it is at most one if and only if no two containers have a probe |
| `ManifestCodegen.Decoded` | internal/manifests/ManifestCodegen.go:92-97 | the objects are the decoded leading documents, up to the first that does not decode |
| `ManifestCodegen.TextIs` | internal/manifests/ManifestCodegen.go:278-288 | what is written is the encoding less one newline at its end |
| `ManifestCodegen.ManifestCodegen.WriteFile` | internal/manifests/ManifestCodegen.go:250-343 | the generated program, or nothing and no error if some object does not encode |
| `ManifestCodegen.ManifestCodegen.WriteFiles` | internal/manifests/ManifestCodegen.go:103-127 | the main program constructs the type just generated |
| `GeneratedCode.ObjectNamesDiffer` | internal/manifests/ManifestCodegen.go:140 | object names are equal only for equal indices, whatever the generator is called |
| `GeneratedCode.SuffixTest` | internal/manifests/ManifestCodegen.go:322 | the suffix test accepts the health name and no object name |
| `GeneratedCode.EntriesAreSound` | internal/manifests/ManifestCodegen.go:137-171 | in every list of entries the test selects the health entries, one for each probed container; the others are the documents in order with distinct names |
| `GeneratedCode.NamesDistinctIff` | internal/manifests/ManifestCodegen.go:147-171 | all names are distinct if and only if at most one container is probed |
| `GeneratedCode.CompilesIff` | internal/manifests/ManifestCodegen.go:267-334 | a generated file is read as the model reads it if and only if each encoding is a chain of raw literals, as those without backticks are; then exactly when it is a valid program, as a condition on package, documents, probes and characters |
| `GeneratedCode.GeneratorPreservesMeaning` | internal/manifests/ManifestCodegen.go:276-334 | if no encoding contains a backtick or a carriage return, a constructor that compiles does what the documents say, template errors included |
| `GeneratedCode.GeneratedProgramMeans` | internal/manifests/ManifestCodegen.go:320-334 | for all chains of raw literals, a constructor that compiles does what the values of its constants say |
| `GeneratedCode.ConstantsAreTextsIff` | internal/manifests/ManifestCodegen.go:276-290 | these values are the encodings if and only if no encoding contains a backtick or a carriage return |
| `GeneratedCode.BacktickChangesObject` | internal/manifests/ManifestCodegen.go:276-290 | an object with a plus sign in backticks in its encoding: the file compiles, and registers what is left without these characters |
| `RawLiterals.TickedValue` | internal/manifests/ManifestCodegen.go:276-290 | the value of such a constant |
| `RawLiterals.OneBacktickIsNoChain` | internal/manifests/ManifestCodegen.go:276-290 | a single backtick leaves a literal open |
| `GeneratedCode.MeaningRenders` | internal/manifests/ManifestCodegen.go:323-329 | the meaning registers the rendered documents in source order, and fails if and only if some template does not parse |
| `GeneratedCode.MeaningWatches` | internal/manifests/ManifestCodegen.go:332 | it has a health object if and only if some deployment has a container with a liveness probe, namely the unrendered text of the last such deployment |
| `RawLiterals.ValueIsTextIff` | internal/manifests/ManifestCodegen.go:276-290 | the value of a constant is its encoding if and only if there is neither a backtick nor a carriage return in it |
| `RawLiterals.DropReturnsAppend` | internal/manifests/ManifestCodegen.go:276-290 | carriage returns are dropped piece by piece |
| `RawLiterals.DropOneReturn` | internal/manifests/ManifestCodegen.go:276-290 | and nothing else is dropped |
| `RawLiterals.IsPlusIff` | internal/manifests/ManifestCodegen.go:276-290 | what joins two literals is a plus sign with any number of spaces around it |
| `GeneratedCode.Generate` | cmd/codegen/Manifest.go:46-56 | from source text to running program: an output with legible constants compiles exactly under the condition and then does what its constants say; without backticks and carriage returns it does what the documents say; the main program asks for health checks if and only if there is a health object |

## Left out

- GetLoggerFor and its registry, SetLevel, and what the etcd and kube line handlers do with an extracted line: severity switches and whitespace.
- The extractor generated from logs.lde is not part of this model; fields are read up to the first occurrence of their delimiter, by assumption.
- Process spawning, pipes, signals, HTTP, TLS and file access: only the events they produce.
- YAML and JSON codecs, text/template, strings.Title and kubectl: uninterpreted functions of `Library`.
- Parsing of CIDR strings (its guarantee is `Parsed`), enumeration of interfaces, and IPv6.
- pkg/pki, and the argument lists and config templates of the six service handlers.
- Flags, directories, the information banner, and deploying manifests after startup; also FindService and FindDashboardAdminSecret.
- Calls of EnableHealthChecks for one handler by several threads at once.
- That Stop kills the process of the service: in the lifecycle a process may end at any time, so every effect of a kill is among its runs.
- What the log entries of Fatal say, and Fatals before the first service is constructed other than as one of the main thread.
- CmdHandler.ReadOutput: takes one reader by itself; two readers that share a parser are calls in `LogConcurrency`.
- KubeClient.KubeClient.WaitUntilGone: the endless loop has a bound `sweeps`; the result `Unfinished` stands for still being in the loop, and the contract says by when it cannot be returned.
- KubeClient.KubeClient.EvictAndWait: same bound.
- KubeClient.KubeClient.DrainNode: same bound, and requests that fail to patch the node are logged only in the source, so the log has the patch whether or not it succeeded.
- KubeClient.KubeClient.WaitForNode: a bound `rounds` in the same way.
- HealthMachine.AtMostOneLateMessage: like the rest of that module, assumes that the 10 s timer of a fresh select is not ready, so that a waiting token is taken first.
- GeneratedCode.Generate: as for CompilesIff.
- StartService.AwaitHealthy: durations of sleeps are not modelled.
- CheckService.Watch: events are taken from one sequence; which of two ready channels select picks is any order of that sequence.
- GeneratedCode.CompilesIff: of the rules of Go only those listed in `Compiles`; names are taken to be identifiers, and other files of the package are not looked at. Nothing is said about files in which an encoding has anything but a plus sign between two backticks, or an odd number of backticks; some such files compile.
