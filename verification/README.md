# Verified models of the ai-statefultask test suite

The test programs of this repository contain complete algorithms and small
protocols that they check on finite domains: four leaves, four counters, seven
threads.  This project states them in Dafny for any size and any
interleaving, and proves what the programs check for.

| file | models |
|---|---|
| `TournamentTree.dfy` | the tree of interval indices and its two early-exit update loops (`src/tree_prop.cc`), on arrays |
| `TimerTree.dfy` | the state inspected by `sanity_check` (`src/timer_test.cxx`), tied to the same tree |
| `Timers.dfy` | what a store of running timers does, independent of how it stores them |
| `MultimapTimers.dfy` | the store on a multimap with nulled entries and its global counters |
| `PqueueTimers.dfy` | the store on a priority queue with lazy cancel flags |
| `TimerCrossCheck.dfy` | both stores driven by the same operations |
| `WaitSignal.dfy` | the saturating wait/signal counters (`src/wait_signal_test2.cxx`) and the abstract phases they implement |
| `RwSpinLock.dfy` | the read/write spin lock states, transitions and follow-ups, and threads with roles (`src/rwspinlock_test.cxx`) |
| `SignalWorkers.dfy` | signal handlers and worker loops around a semaphore (`src/signal_test.cxx`) |
| `FutexModel.dfy` | the futex stand-in with its packed word (`src/genmc_spinsemaphore_test.c`) |
| `CopyrightYears.dfy` | printing, decoding and sorting the copyright years (`src/rewrite_header.cxx`) |
| `Variance.dfy` | the wrapping 64-bit variance `var_calc` (`src/kmod/tsc_kmod.c`) |
| `FibonacciTasks.dfy` | the tree of cooperating tasks (`src/fibonacci.cxx`) |
| `RequeueCount.dfy` | the counting tasks that are put in the queue again (`src/threadpool.cxx`) |
| `MemoTable.dfy` | the static memo table (`src/fiboquick.cxx`) |

What changes in place in one thread is a class or an array here: the tree, the
timer stores, the counters, the lock, the header, the memo table.  Programs
whose steps interleave are state machines with one event per shared access.

Results that differ from what one might expect:

- The loop for a key that grew never compares with the old key, so it repairs
  the tree for every new key (`TournamentTree.Increase`).
- A timer whose canceled entry is still queued must not be started again in the
  priority-queue store: once it expires, an entry is left on which an assertion
  fails (`src/timer_test.cxx:178`, or before that line 383), and this happens if
  and only if it was queued (`PqueueTimers.RestartFails`).  Stopping a running timer and starting
  it again leads there (`StopThenStart`), and what other timers do does not help
  (`DoomedStays`).
- The order of operations on the counters never matters among lists with at most
  k waits if and only if k is at most 1 (`WaitSignal.OrderMattersFromTwoWaits`).
- The overflow checks of `var_calc` do not catch everything: for the inputs 0 and
  2^33 they report nothing and the result is 0, but the variance is 2^64
  (`Variance.MissedOverflow`).  Overflow is reported exactly for the inputs that
  `Variance.Reports` describes, by sums that leave out the last input; otherwise
  the result is the variance if and only if the numerator
  size * sum of squares - square of the sum is below 2^64 (`Variance.VarCalc`).
- `decode_copyright_line` computes a stripped copy of the line and then matches
  the line itself; the model follows the code.  For every author, a printed
  line is read back if and only if the author is empty or `IsAuthor`: the name
  does not begin with a separator or with a year and a separator, does not end
  with a blank or period, and mentions no copyright (`CopyrightYears.RoundTrip`).
- Only a text in which `[Cc]opyright .*Carlo Wood` is found is decoded at all
  (`src/rewrite_header.cxx:388`).  When a rewritten file is rewritten again, its
  copyright line stays as it is if and only if no author was found the first
  time, or one that mentions Carlo Wood and does not start with a comma or hyphen
  (`CopyrightYears.RewriteIsStable`).  "Copyright 2001 -- Carlo Wood" is changed
  because the author found is "- Carlo Wood" (`HyphenName`), and for "Copyright
  Carlo Wood 2001 Foo" the second rewriting loses the year and the author
  (`LostName`).
- Which timers fire together does not depend on the order of equal ones if and
  only if no due timer's call back stops another due timer
  (`Timers.AlwaysAllDue`).
- The expected total that `src/threadpool.cxx` prints is one too low unless
  modulo - 1 divides the number of tasks (`RequeueCount.ExpectedIsFloor`).

## Model

| member | source | states |
|---|---|---|
| `TournamentTree.RootIsMinimum` | src/tree_prop.cc:26-49 | in a sane tree of any shape the root names an interval, and no interval has a smaller key, ties included |
| `TournamentTree.Decrease` | src/tree_prop.cc:133-145 | the climb that stops at the first strictly smaller node leaves the tree sane, stores the new key and changes only nodes above the changed leaf |
| `TournamentTree.Increase` | src/tree_prop.cc:146-170 | the climb that may break early does the same, for any new key |
| `TournamentTree.Update` | src/tree_prop.cc:131-170 | picking the loop by comparing with the old key repairs the tree for every change |
| `TournamentTree.UpdateAll` | src/tree_prop.cc:71-173 | after any sequence of changes every interval has the key of its last change, or its old one if it was not changed, the tree is sane and its root names an interval with the least key |
| `TournamentTree.ClimbStop` | src/tree_prop.cc:138-170 | when a node is sane as it is and not won by the changed interval, no node above it needs repair |
| `TournamentTree.WinnerIsLeast` | src/tree_prop.cc:45-48 | the local conditions of the check give a minimum along every path |
| `TournamentTree.SourceTree` | src/tree_prop.cc:26-49 | on the five-node tree of the program the general notion of sanity is exactly its check |
| `TimerTree.ChecksMeanSane` | src/timer_test.cxx:565-581 | the local checks of pairs and siblings hold if and only if the whole tree is sane |
| `TimerTree.RootQueueExpiresFirst` | src/timer_test.cxx:484-582 | if the checks hold, the queue named by the root is not empty and its front timer is the earliest running timer of all queues |
| `TimerTree.RootOfEmptyQueues` | src/timer_test.cxx:552-564 | the root stands for no expiration point if and only if no timer is queued |
| `MultimapTimers.RunningTimers.Start` | src/timer_test.cxx:599-616 | the new entry keeps the map ordered and linked to the handles, and the timer is added to the running timers |
| `MultimapTimers.RunningTimers.SetNotRunning` | src/timer_test.cxx:82-90 | nulling the entry keeps the links and the account and removes exactly this timer |
| `MultimapTimers.RunningTimers.Stop` | src/timer_test.cxx:638-654 | removes the timer if it runs, and nothing else |
| `MultimapTimers.RunningTimers.CallBackFront` | src/timer_test.cxx:142-154 | the timer in front is stopped and then its call back stops the other timer |
| `MultimapTimers.RunningTimers.ExpireFront` | src/timer_test.cxx:142-154 | after expiry and erasure the fired timer and the one it stopped no longer run, and one more has expired |
| `MultimapTimers.RunningTimers.ExpireNext` | src/timer_test.cxx:286-322 | fires live timers at the minimum expiration point, each once, until every one of them fired or was stopped by one that fired; what they stopped no longer runs |
| `MultimapTimers.FrontIsNext` | src/timer_test.cxx:293-300 | a running timer in front of the map is one that expires next |
| `PqueueTimers.RunningTimers.Start` | src/timer_test.cxx:618-636 | the store stays consistent if and only if the timer is not still queued, and then the timer is added to the running timers; otherwise the next expiry of the timer leaves an entry on which `expire` fails |
| `PqueueTimers.RestartFails` | src/timer_test.cxx:176-193 | when a timer that was started again expires, by either of its entries, the other one stays for a timer that neither runs nor is canceled, if and only if it was still queued |
| `PqueueTimers.StopThenStart` | src/timer_test.cxx:618-676 | stopping a running timer and starting it again always leads there |
| `PqueueTimers.DoomedStays` | src/timer_test.cxx:360-392 | such an entry stays whatever other timers do, until it is at the top or its timer is started again |
| `PqueueTimers.RunningTimers.Stop` | src/timer_test.cxx:656-676 | sets the cancel flag and removes the timer if it runs, and nothing else |
| `PqueueTimers.RunningTimers.ExpireTop` | src/timer_test.cxx:176-193 | after expiry and pop the fired timer and the one it stopped no longer run, and the fired one is not canceled |
| `PqueueTimers.RunningTimers.ExpireNext` | src/timer_test.cxx:360-392 | the same, whichever of several tops comes first |
| `PqueueTimers.TopIsNext` | src/timer_test.cxx:368-374 | a top that is not canceled is a running timer that expires next |
| `TimerCrossCheck.Drive` | src/timer_test.cxx:763-849 | in every legal run both stores produce the schedule of the operations: each expiry happens at the least point of the timers that were started and not stopped, fired or called back to stop since, and fires exactly those at that point; the counters agree with the timers started, running and fired, and map size = running + canceled - expired - removed |
| `Timers.RunsMeanSchedules` | src/timer_test.cxx:763-849 | a list of operations is legal if and only if it has such a schedule, it has only one, and that is what the specification computes |
| `Timers.AllDueFire` | src/timer_test.cxx:306-321 | if no due timer's call back stops another due timer, exactly the live timers at the minimum point fire |
| `Timers.AlwaysAllDue` | src/timer_test.cxx:306-321 | every order of firing fires exactly the due timers if and only if no due timer's call back stops another due timer |
| `Timers.FiringOneMore` | src/timer_test.cxx:142-154 | firing timers one after the other removes what firing them all at once does |
| `WaitSignal.Task.WaitFor` | src/wait_signal_test2.cxx:111-118 | all counters of the mask go down by one, it throws exactly when one of them is 0, and reports exactly when a normal counter becomes 1 |
| `WaitSignal.Task.SignalTo` | src/wait_signal_test2.cxx:120-127 | the counters of the mask go up, saturating at 2; exactly when it throws and when it reports |
| `WaitSignal.Task.ResetOrCounters` | src/wait_signal_test2.cxx:135-140 | exactly the idle normal counters are set to 1 |
| `WaitSignal.Task.HasIdleCounter` | src/wait_signal_test2.cxx:170-179 | true if and only if some counter is 0 |
| `WaitSignal.Task.RequiredIsIdle` | src/wait_signal_test2.cxx:159-168 | true if and only if some required counter is 0 |
| `WaitSignal.Task.Operate` | src/wait_signal_test2.cxx:239-295 | one operation with its wake-up and resets is the specified step, and is refused exactly when that is |
| `WaitSignal.Task.Operations` | src/wait_signal_test2.cxx:315-342 | the loop over a list of operations computes the specified run, whose meaning `OperationsMean` states |
| `WaitSignal.OperationsMean` | src/wait_signal_test2.cxx:238-342 | for any number of counters: a list is legal if and only if every wait comes while nothing is waited for and every signal comes then too or is for conditions still waited for; and the task then runs if and only if nothing is waited for since its last start |
| `WaitSignal.StepRefines` | src/wait_signal_test2.cxx:238-295 | every operation on the counters is allowed exactly when it is on the phases, and keeps representing the phase |
| `WaitSignal.RunRefines` | src/wait_signal_test2.cxx:315-342 | the same for every list of operations and any number of counters |
| `WaitSignal.RoundOfCounters` | src/wait_signal_test2.cxx:238-342 | after a wait and any signals the task is running if and only if all required and, if there are any, at least one normal condition of the mask was signalled since the task last started running |
| `WaitSignal.PhaseCarriesRound` | src/wait_signal_test2.cxx:238-342 | what a phase remembers is exactly the signals since the task last started running, and the one wait among these operations |
| `WaitSignal.OrderDoesNotMatter` | src/wait_signal_test2.cxx:356-360 | two legal orders of the same operations with at most one wait both end running or both end waiting |
| `WaitSignal.OrderMattersForTwoWaits` | src/wait_signal_test2.cxx:30-33 | signal, signal, wait, wait and signal, wait, signal, wait end differently |
| `WaitSignal.OrderMattersFromTwoWaits` | src/wait_signal_test2.cxx:356-360 | for every k: all legal orders of the same operations with at most k waits end alike if and only if k is at most 1 |
| `WaitSignal.DigitOfState` | src/wait_signal_test2.cxx:96-109 | decoding the number of a state gives back every counter |
| `WaitSignal.DigitIsQuotient` | src/wait_signal_test2.cxx:98-103 | the repeated division is the quotient by the power of 3 that the loop keeps |
| `WaitSignal.StateCodeInjective` | src/wait_signal_test2.cxx:106-109 | no two states have the same number |
| `RwSpinLock.Lock.Apply` | src/rwspinlock_test.cxx:163-218 | the state after a transition, exactly when it is refused and when the legality check fails |
| `RwSpinLock.Lock.Transit` | src/rwspinlock_test.cxx:313-345 | from every stable state the transition and its follow-up complete without a failing check |
| `RwSpinLock.StepIsClosed` | src/rwspinlock_test.cxx:309-346 | no illegal state on the way, and a stable or hand-off state at the end unless the thread must throw, for unbounded counters |
| `RwSpinLock.StableStates` | src/rwspinlock_test.cxx:15-28 | the table of stable states is exactly what the check accepts |
| `RwSpinLock.UsesOfThread` | src/rwspinlock_test.cxx:160-203 | in every run, exactly which transitions each thread can complete in a stable state |
| `RwSpinLock.StepStopped` | src/rwspinlock_test.cxx:113-196 | exactly when a transition is refused, and when the thread must throw |
| `RwSpinLock.StepOutcome` | src/rwspinlock_test.cxx:113-123 | exactly when a completed transition blocks, and when it ends in a hand-off |
| `RwSpinLock.StepResult` | src/rwspinlock_test.cxx:163-218 | the counters after each transition and its follow-up; an attempt that blocks leaves readers and writer alone |
| `RwSpinLock.HandOffRestoresStability` | src/rwspinlock_test.cxx:207-211 | the converting thread can complete, and a waiting writer can be granted the lock if and only if nobody converts |
| `RwSpinLock.NextKeepsInv` | src/rwspinlock_test.cxx:8-51 | counters equal the numbers of threads in each role, and the state stays stable or a hand-off |
| `RwSpinLock.MutualExclusion` | src/rwspinlock_test.cxx:105-111 | in every run, while a thread writes every other thread known to the lock waits to write |
| `RwSpinLock.WaitersAreServed` | src/rwspinlock_test.cxx:25-33 | in every run, while a thread waits another one reads or writes, or one can be granted the lock and that restores stability |
| `SignalWorkers.NoLostSignal` | src/signal_test.cxx:92-116 | for any number of workers and any interleaving, whenever everybody is blocked both counters are 0 and every handler call with a signal was handled as that signal |
| `SignalWorkers.Conservation` | src/signal_test.cxx:35-41 | at every moment, for each signal: handler calls so far = pending + being noted + handled, and handler calls = posts + handlers that have not posted yet |
| `SignalWorkers.EverythingIsHandled` | src/signal_test.cxx:92-116 | once signals stop arriving the workers take finitely many steps, and can only stop when each signal was handled as often as its handler was called |
| `SignalWorkers.InterruptedLooks` | src/signal_test.cxx:111-114 | a wait that returns early lets its worker look at both counters again |
| `SignalWorkers.QuietStepShrinks` | src/signal_test.cxx:96-113 | every step of a worker or handler reduces the work that remains, including compare-exchanges that fail because of another worker |
| `FutexModel.AddWokeBit` | src/genmc_spinsemaphore_test.c:23-31 | adding the woke bit leaves the fields below alone, and counts in its field without touching the waiters if and only if that field is below 255 |
| `FutexModel.FieldsPartitionWord` | src/genmc_spinsemaphore_test.c:23-31 | the masks are disjoint and fill the word up to the number of waiters |
| `FutexModel.TokensOf` | src/genmc_spinsemaphore_test.c:23-23 | the number of tokens is read right whatever the other fields are |
| `FutexModel.WaitAccepts` | src/genmc_spinsemaphore_test.c:38-46 | a thread starts to wait if and only if it expects the number of tokens that is there |
| `FutexModel.AnyWord` | src/genmc_spinsemaphore_test.c:16-17 | the rest of the program may leave any word |
| `FutexModel.PollLeaves` | src/genmc_spinsemaphore_test.c:54-62 | a thread that looks leaves, and is added to the word, if and only if there is a token |
| `FutexModel.EveryRun` | src/genmc_spinsemaphore_test.c:34-82 | tokens never exceed waiters, waiters are the threads in the token loop, and the returned values add up to tokens grabbed plus tokens left |
| `FutexModel.PollsTakeTokens` | src/genmc_spinsemaphore_test.c:50-66 | exactly one thread leaves per token, and one that looked and still waits found none |
| `FutexModel.AllPollsDrain` | src/genmc_spinsemaphore_test.c:50-66 | if every waiting thread looks once, as many leave as there were tokens |
| `FutexModel.WakeReaches` | src/genmc_spinsemaphore_test.c:70-82 | a wake-up returns at most what was asked for, and less only if every waiter has a token then |
| `CopyrightYears.PrintYears` | src/rewrite_header.cxx:266-291 | the loop prints the maximal runs of consecutive years |
| `CopyrightYears.Header.PrintCopyright` | src/rewrite_header.cxx:266-292 | the whole line with the author |
| `CopyrightYears.Header.DecodeCopyrightLine` | src/rewrite_header.cxx:143-178 | appends the years that the patterns find and sets the author |
| `CopyrightYears.HandWritten` | src/rewrite_header.cxx:143-178 | for every line that somebody wrote with years between any commas, hyphens and white space: a hyphen between two years stands for all years between them, other years for themselves, and what follows is the author |
| `CopyrightYears.ReadHyphen` | src/rewrite_header.cxx:158-172 | two years with a hyphen and any white space around it are read as the range |
| `CopyrightYears.ReadSingly` | src/rewrite_header.cxx:158-172 | a year before a comma or white space is read as itself |
| `CopyrightYears.SectionOfItems` | src/rewrite_header.cxx:151-151 | the pattern takes the whole list of years and nothing of the name |
| `CopyrightYears.NoYearsNoAuthor` | src/rewrite_header.cxx:151-176 | a line without a digit after its last "Copyright" gives no years and an empty author |
| `CopyrightYears.HyphenMeansRange` | src/rewrite_header.cxx:268-291 | a hyphen is printed if and only if there are three years in a row |
| `CopyrightYears.Header.Canonicalize` | src/rewrite_header.cxx:186-194 | the years become strictly increasing and stay the same set, or the current year if there are none; an empty author gets the default name |
| `CopyrightYears.ReadFrom` | src/rewrite_header.cxx:158-172 | the years of printed runs are found again in order |
| `CopyrightYears.SectionFrom` | src/rewrite_header.cxx:151-151 | the pattern of the line takes all printed years and stops before the author |
| `CopyrightYears.RoundTrip` | src/rewrite_header.cxx:143-178 | for every author: decoding a printed line gives exactly the years and the author if and only if the author is empty or a proper name, and loses the author otherwise |
| `CopyrightYears.CanonicalRoundTrip` | src/rewrite_header.cxx:143-192 | any list of years, sorted and without duplicates, survives printing, decoding and sorting with every author of which that holds, and no other |
| `CopyrightYears.DecodedAuthor` | src/rewrite_header.cxx:151-176 | a name found in any line is a proper name if and only if it does not start with a comma or hyphen |
| `CopyrightYears.CollectedIsSound` | src/rewrite_header.cxx:433-478 | the same for a file with any number of copyright lines, and all its years are in range |
| `CopyrightYears.CopyrightLineForm` | src/rewrite_header.cxx:388-388 | a copyright line is "Copyright" or "copyright", a blank, and Carlo Wood somewhere after it, with anything around them |
| `CopyrightYears.CollectedYears` | src/rewrite_header.cxx:433-478 | the years of a file are those of all its copyright lines |
| `CopyrightYears.CollectedAuthor` | src/rewrite_header.cxx:433-478 | the author of a file is that of its last copyright line |
| `CopyrightYears.CollectedOthers` | src/rewrite_header.cxx:388-436 | texts in which the pattern of a copyright line is not found add nothing |
| `CopyrightYears.PrintedIsCopyrightLine` | src/rewrite_header.cxx:388-388 | a printed line is found as a copyright line again if and only if its author mentions Carlo Wood |
| `CopyrightYears.PrintedAuthor` | src/rewrite_header.cxx:266-292 | the printed line determines the author |
| `CopyrightYears.RewriteIsStable` | src/rewrite_header.cxx:375-545 | for any texts of a file, any other texts around the printed line and any years of rewriting, the second rewriting prints the same copyright line if and only if no author was found or one that mentions Carlo Wood and does not start with a comma or hyphen |
| `CopyrightYears.RewriteLost` | src/rewrite_header.cxx:375-545 | if the author does not mention Carlo Wood, the second rewriting prints the current year and the default author |
| `CopyrightYears.HyphenName` | src/rewrite_header.cxx:375-545 | "Copyright 2001 -- Carlo Wood" gives the author "- Carlo Wood", and the second rewriting changes the line |
| `CopyrightYears.LostName` | src/rewrite_header.cxx:375-545 | "Copyright Carlo Wood 2001 Foo" gives 2001 and "Foo", and the second rewriting replaces both |
| `CopyrightYears.Rewrite` | src/rewrite_header.cxx:433-534 | the printed line shows, sorted and once each, the years of all copyright lines of the file, or the current year if there are none, and the author of the last one, or the default if it has none |
| `CopyrightYears.RewriteTwice` | src/rewrite_header.cxx:375-545 | the two rewritings print the same copyright line under exactly the condition of `RewriteIsStable` |
| `CopyrightYears.SortedIsUnique` | src/rewrite_header.cxx:190-191 | there is only one strictly increasing list with given elements |
| `Variance.VarCalc` | src/kmod/tsc_kmod.c:83-113 | for all inputs: exactly when overflow is reported, with the error value; for each of the four checks a kind of overflow that is reported because of it, and that what only the last input causes is not; the result is the floor of the population variance if and only if nothing is reported and the numerator is below 2^64, or the error value happens to be that floor; and it is if nothing wraps |
| `Variance.AddInputs` | src/kmod/tsc_kmod.c:87-93 | the check fails exactly if the sum of all inputs but the last does not fit a word |
| `Variance.AddSquares` | src/kmod/tsc_kmod.c:98-104 | the same for the squares, each cut off to a word |
| `Variance.MissedOverflow` | src/kmod/tsc_kmod.c:83-109 | inputs for which nothing is reported and 0 is returned for a variance of 2^64 |
| `Variance.NoWrapIsSilent` | src/kmod/tsc_kmod.c:83-107 | nothing is reported if nothing wraps |
| `Variance.SquareOfSumIsBounded` | src/kmod/tsc_kmod.c:108-108 | the subtraction cannot underflow |
| `Variance.VarianceAsFraction` | src/kmod/tsc_kmod.c:105-109 | the mean squared distance to the mean is the fraction that is computed |
| `Variance.SmallInputsDoNotWrap` | src/kmod/tsc_kmod.c:87-107 | nothing wraps if the size times the largest input is below 2^32 |
| `Variance.SmallInputsGiveVariance` | src/kmod/tsc_kmod.c:83-109 | under that bound the quotient of integers is the floor of the variance and the numerator fits |
| `FibonacciTasks.NextKeepsInv` | src/fibonacci.cxx:59-101 | no interleaving lets a parent be idle after both children signalled, or finish with a wrong value |
| `FibonacciTasks.Progress` | src/fibonacci.cxx:82-87 | while a task has not finished, some task below it can take a step, although both children share one bit |
| `FibonacciTasks.ChildCanSignal` | src/fibonacci.cxx:76-78 | a child that finished can signal its parent whatever that is doing, and the signal is kept |
| `FibonacciTasks.ChildrenInterleave` | src/fibonacci.cxx:75-78 | the steps below one child do not depend on the rest of the tree |
| `FibonacciTasks.TaskCanContinue` | src/fibonacci.cxx:59-101 | a task that does not wait can always go on |
| `FibonacciTasks.NextDoesWork` | src/fibonacci.cxx:59-101 | every step reduces the work that remains in the tree |
| `FibonacciTasks.EveryRunComputesFib` | src/fibonacci.cxx:103-133 | every run is bounded, never deadlocks before the root finished, and the value of the root is 0 or the Fibonacci number |
| `FibonacciTasks.EveryRunCanFinish` | src/fibonacci.cxx:121-130 | every run can be continued until the root has finished |
| `RequeueCount.EveryScheduleCounts` | src/threadpool.cxx:30-56 | under every schedule the work ends, after exactly N + ceil(N / (modulo - 1)) executions for N tasks that finished, one for each accepted task |
| `RequeueCount.QueueIsBounded` | src/threadpool.cxx:34-44 | before anything is executed exactly the first `capacity` turns of the producer are accepted, and none is turned away before that many were |
| `RequeueCount.ExecutionsFor` | src/threadpool.cxx:39-39 | how many draws are needed when every multiple of modulo repeats its task |
| `RequeueCount.ExpectedIsFloor` | src/threadpool.cxx:78-79 | the printed expectation equals that count if modulo - 1 divides N, and is one less otherwise |
| `MemoTable.Fibo.Get` | src/fiboquick.cxx:4-18 | terminates, returns what the plain recursion returns, keeps every entry 0 or right, and forgets nothing |
| `MemoTable.Fibo.GetAll` | src/fiboquick.cxx:4-18 | any sequence of calls returns Fibonacci numbers modulo 2^64 |
| `MemoTable.PlainIsModular` | src/fiboquick.cxx:15-15 | the wrapping recursion is the Fibonacci number modulo 2^64 |

## Left out

- The update loops of `src/tree_prop.cc` start from a given sane tree; building one is not in the source.
- The index functions of the timer tree library are not part of this model; parent, sibling and pair are the heap positions that `sanity_check` relies on, for any even number of intervals.
- `update_current_timer` and the rest of the timer library behind `expire_next` are not part of this model.
- The stores are driven by a single thread; the mutex around `push` and `update_running_timer`, which does nothing, are left out.
- TimerCrossCheck.Drive: starts every timer at most once, and leaves out an expiry in which a due timer's call back stops another due timer, because the priority queue does not say which of two equal timers comes first.
- PqueueTimers.RunningTimers.ExpireNext: `std::priority_queue` is any collection whose top has a smallest point; the heap itself is not modelled.
- The graph table of `src/wait_signal_test2.cxx` is not built; its entries are the specified step, and the state numbers that index it are proved to be a faithful encoding.
- Interleavings between a lock transition and its follow-up, and new transitions from a hand-off state: the program explores stable states only.
- RwSpinLock.MutualExclusion: a thread that must throw takes no step, because the program does not say which state it leaves behind; readers that block are not known to the counters.
- The shutdown of `src/signal_test.cxx` (`running` false) and the statistics arrays.  `sem_wait` may return early because of a signal, as its ignored result allows.  Handlers overlap with every worker, which covers the thread they interrupt.
- The protocols over threads (signals, futex, tasks, queue) are state machines on values; sharing and memory order of the atomics are taken as sequentially consistent.
- FutexModel.EveryRun: counters are unbounded integers, so it assumes fewer than 2^31 threads; changes of the word by the semaphore code are arbitrary.
- The semaphore functions `post`, `wait` and `slow_wait` are not part of this model.
- CopyrightYears.Header.Canonicalize: the clock is a parameter; `std::sort` and `std::unique` are one function.
- CopyrightYears.RewriteTwice: takes the texts that reach the test for a copyright line as given, without their comment leads; which texts do, the license text and the other fields of the header are left out.
- CopyrightYears.RoundTrip: lines have no carriage return or other line terminator inside, which `.` would not match.
- Variance.VarCalc: size 0 and negative sizes, for which the program divides by zero or returns 0.
- FibonacciTasks.EveryRunComputesFib: values are unbounded integers, and a child is marked finished before it signals.
- RequeueCount.EveryScheduleCounts: counters are unbounded integers, and putting a task back in the queue always succeeds.
- Timing, calibration, network, resolver and proxy programs, and the stateful task library itself.
