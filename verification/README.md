# CPU scheduling simulator and file-based calculator, in Dafny

This project models two small C programs.

**The scheduling simulator (`main.c`).** It loads a table of processes. Each row holds an arrival time and a computation time (here `burst`), plus the working columns `remaining` and `completion`. It then runs five scheduling disciplines on private copies of the table and reports each one's average turnaround time:

- first-come first-served;
- last-come first-served, without preemption (a stack of ready rows) and with preemption (unit-time ticks);
- Round Robin with a quantum of two;
- non-preemptive shortest job first.

Every discipline except Round Robin first bubble-sorts its copy by arrival time. Each scheduler loop is modelled as a pure function over a state `Sim(table, clock, completed, waiting)`. One pass of the C `while` loop is one `Step`, which either carries on (`Go`) or breaks (`Stop`). The loops terminate by an explicit measure: the unfinished rows, the outstanding work, and the number of rows still to arrive.

**The calculator (`server.c`, `client.c`).** A client writes the request `"{pid} {num1} {operation} {num2}"`. The server splits it with `strtok` and converts it with `atoi`. It computes `+`, `-`, `*` or C's truncating `/` according to the operation code, and writes `intToStr(result)` to `"{pid}_toClient.txt"`, where the client waits for it.

Modules:

| module | models |
|---|---|
| `Table` | the process row, the loop state, and the accounting invariant the schedulers keep |
| `Arrivals` | the scans every scheduler loop repeats: the idle-advance to the next arrival, the LCFS push and the Round Robin admission |
| `BubbleSort` | `bSort` with `compareArrival` |
| `Fcfs`, `LcfsNonPreemptive`, `LcfsPreemptive`, `RoundRobin`, `Sjf` | the five disciplines, and corrected loops for the two LCFS defects below |
| `Turnaround` | the turnaround sum of `calculateAverageTurnaround` |
| `IntText` | `intToStr` (identical in server and client) and decimal parsing |
| `Calculator` | the `performCalculation` switch and the response it writes |
| `Protocol` | `parseInput` and the request text format |
| `Client` | the client's request text and the response file it expects |

## Model

| member | source | states |
|---|---|---|
| Table.Serve | main.c:145-153 | serving a row for d units lowers its remaining time by d, records the completion clock + d exactly when nothing is left and otherwise keeps the old completion, and leaves every other row and every job's arrival and burst unchanged |
| Table.ServeKeepsAccounts | main.c:298-303 | serving an arrived row for at most its remaining time keeps every row accounted for at the new clock, finishes the row exactly when d was all it had left, and lowers the outstanding work by d |
| Table.LoadedIsConsistent | main.c:42-58 | a freshly loaded table with positive bursts is accounted for and has no finished row |
| Arrivals.NextArrival | main.c:115-126 | the idle-advance target is the least arrival strictly after the clock, so the clock only moves forward; there is none (the loop breaks) exactly when every row has already arrived |
| Arrivals.NextArrivalShrinksLater | main.c:121-123 | jumping to the next arrival strictly lowers the number of rows still to arrive, so the idle-advance cannot repeat forever |
| Arrivals.ArrivedFrom | main.c:97-101 | the push scan yields exactly the ready rows, each once, in increasing index order |
| Arrivals.LatestOnTop | main.c:97-104 | after a push scan that pushed something, the top of the stack is a ready row, and no ready row has a higher index |
| Arrivals.Enqueue | main.c:198-211 | the admission scan appends only rows that are ready, not already queued and not the row being requeued, and afterwards every ready row other than that one is queued |
| Arrivals.EnqueueSpec | main.c:198-211 | Round Robin admission keeps the old queue as a prefix, never puts a row in the queue twice, and afterwards every ready row is queued |
| BubbleSort.BSort | main.c:24-32 | bSort returns a permutation of its input, ordered by arrival, with rows of equal arrival in their input order (the sort is stable) |
| BubbleSort.BSortKeepsSorted | main.c:24-32 | a table already in arrival order is returned unchanged, and sorting twice equals sorting once |
| BubbleSort.BSortKeepsRows | main.c:24-32 | the sorted table has the same length, every row comes from the input, and being freshly loaded or having positive bursts carries over |
| Fcfs.Run | main.c:73-80 | each row completes at the later of its arrival and the previous completion, plus its burst; earlier rows and remaining times are untouched |
| Fcfs.Schedule | main.c:68-83 | fcfs returns the arrival-sorted jobs, each completing no earlier than its arrival plus its burst |
| Fcfs.ScheduleIncreasing | main.c:73-80 | with positive bursts, completion times strictly increase in arrival order |
| Fcfs.ScheduleKeepsRemaining | main.c:68-83 | FCFS never writes a remaining time |
| LcfsNonPreemptive.Schedule | main.c:85-131 | lcfsNonPreemptive returns the arrival-sorted jobs, row by row with the same arrival and computation times |
| LcfsNonPreemptive.Step | main.c:95-127 | one pass either completes a row (the counter rises by one) or, with nothing on the stack, idle-advances to a strictly later arrival without changing the table, or breaks |
| LcfsNonPreemptive.PopsLatestReady | main.c:97-111 | when a row is ready, the pass runs the highest-index ready row (the latest to arrive in the sorted table) for its whole burst from the current clock, records its completion at the new clock, raises the counter by one and changes no other row |
| LcfsNonPreemptive.StepOutcome | main.c:95-127 | one pass leaves every row either as loaded or run to completion no earlier than arrival + burst, and the counter never falls below the number of finished rows |
| LcfsNonPreemptive.ScheduleOutcome | main.c:85-131 | the whole as-written schedule keeps those two facts; the counter may exceed the number of finished rows |
| LcfsNonPreemptive.RerunsFinishedJob | main.c:97-112 | on jobs (0,1), (0,1), (100,1) the first job is popped and run twice, the counter reaches 3 with only 2 rows finished, and the job arriving at 100 never runs |
| LcfsNonPreemptive.AdmitOnceCompletesAll | main.c:85-131 | with a row pushed only when it is not already on the stack, every job runs exactly once: the counter ends at n and every completion is at least arrival + burst |
| LcfsPreemptive.Schedule | main.c:133-184 | lcfsPreemptive returns the arrival-sorted jobs, row by row with the same arrival and computation times |
| LcfsPreemptive.Tick | main.c:145-159 | one tick of the top live entry lowers the outstanding work and keeps every job's arrival and computation time and every stack entry a valid row |
| LcfsPreemptive.Step | main.c:143-181 | one pass of the loop keeps every job and every stack entry a valid row, and either lowers the outstanding work or, leaving the table as it was, idle-advances to a strictly later arrival, or breaks |
| LcfsPreemptive.Drain | main.c:144-159 | the inner loop pops only finished entries and stops at a live top entry or an empty stack |
| LcfsPreemptive.StepRunsOneTick | main.c:144-159 | a pass with a live top entry runs exactly that row for one tick; the completion time and the counter change exactly on its 1 -> 0 transition, and no other row changes |
| LcfsPreemptive.ScheduleAccounts | main.c:133-184 | whatever the as-written schedule does, each remaining time stays in [0, burst], the counter equals the number of finished rows, and each finished row completes no earlier than arrival + burst |
| LcfsPreemptive.LoneJobNeverRuns | main.c:161-174 | a lone job arriving at 0 never runs: the loop idle-advances before the first push, finds no later arrival and breaks |
| LcfsPreemptive.SkipsArrivalAtClock | main.c:149-180 | on jobs (3,1), (4,1) the completion at 4 empties the stack, the idle-advance finds no arrival strictly after 4, and the job arriving at 4 never runs |
| LcfsPreemptive.AdmitFirstCompletesAll | main.c:133-184 | with the push moved before the tick, every job runs to completion: the counter ends at n and every completion is at least arrival + burst |
| RoundRobin.Schedule | main.c:186-261 | roundRobin returns the jobs in input order, unsorted, row by row with the same arrival and computation times |
| RoundRobin.Dispatch | main.c:213-240 | a dispatch either completes the front row (the counter rises by one) or lowers the outstanding work, keeping the queue a sequence of valid rows |
| RoundRobin.Step | main.c:196-258 | one pass of the loop keeps every job and every queue entry a valid row, and either completes a row, or lowers the outstanding work, or, leaving the table as it was, idle-advances to a strictly later arrival, or breaks |
| RoundRobin.DispatchOutcome | main.c:213-240 | a dispatch serves the front row for min(remaining, 2); it completes and leaves the queue exactly when it had at most 2 left; otherwise the newly ready rows join the queue and the served row goes to the rear exactly once |
| RoundRobin.PreemptOutcome | main.c:225-240 | a preempting dispatch keeps the old queue as a prefix, admits every other ready row not yet queued, and puts the served row last, once |
| RoundRobin.ScheduleCompletesAll | main.c:186-261 | every job completes exactly once: the counter ends at n, every row is finished, and each completion is at least arrival + burst |
| RoundRobin.TwoJobsExample | main.c:186-261 | jobs (0,4), (1,4) complete at 6 and 8 |
| Sjf.Schedule | main.c:263-307 | sjf returns the arrival-sorted jobs, row by row with the same arrival and computation times |
| Sjf.Step | main.c:271-303 | one pass either runs a row to completion (the counter rises by one) or idle-advances to a strictly later arrival without changing the table, or breaks |
| Sjf.Shortest | main.c:272-282 | the selection is empty exactly when no row is ready; otherwise it is a ready row of least remaining time, and the lowest index among those |
| Sjf.ShortestUnique | main.c:275-282 | the selection is determined: a ready row of least remaining time that beats every earlier ready row is the one chosen |
| Sjf.StepRunsShortest | main.c:298-303 | a pass that finds a ready row runs that row to completion: the clock advances by its burst, its completion is the new clock, and no other row changes |
| Sjf.ScheduleCompletesAll | main.c:263-307 | every job completes exactly once: the counter ends at n, every row is finished, and each completion is at least arrival + burst |
| Turnaround.SumTurnaround | main.c:60-66 | the accumulation loop computes the sum of completion - arrival over all rows |
| Turnaround.SumPermutation | main.c:60-66 | the sum does not depend on the order of the rows |
| Turnaround.SortKeepsTotals | main.c:24-36 | sorting by arrival changes neither the total turnaround nor the total burst |
| Turnaround.TurnaroundAtLeastBurst | main.c:60-66 | when every job completes no earlier than arrival + burst, the total turnaround is at least the total burst, with equality exactly when no job waited |
| Turnaround.FcfsAtLeastBurst | main.c:68-83 | FCFS never reports less than the total burst |
| Turnaround.SjfAtLeastBurst | main.c:263-307 | with positive computation times, SJF never reports less than the total burst |
| Turnaround.RoundRobinAtLeastBurst | main.c:186-261 | with positive computation times, Round Robin never reports less than the total burst |
| Turnaround.CorrectedLcfsAtLeastBurst | main.c:85-184 | with positive computation times, the corrected LCFS loops never report less than the total burst |
| Turnaround.NonPreemptiveUnderReports | main.c:97-112 | as written, LCFS without preemption reports a total turnaround of -96 against a total burst of 3 for (0,1), (0,1), (100,1) |
| Turnaround.PreemptiveUnderReports | main.c:161-180 | as written, LCFS with preemption reports 0 against 5 for a lone (0,5), and -3 against 2 for (3,1), (4,1) |
| IntText.IntToStr | server.c:90-115 | the digit loop and the reversal compute intToStr: "0" for zero, the canonical decimal digits for a positive number, and the empty string for a negative one |
| IntText.IntStrCases | client.c:142-167 | the text of a nonnegative number is canonical (no leading zero) and parses back to the number; that of a negative number is empty |
| IntText.CanonicalRoundTrip | server.c:90-115 | every canonical digit string is intToStr of its value |
| Calculator.TruncDiv | server.c:150-152 | C division: the remainder is smaller than the divisor in magnitude and has the dividend's sign |
| Calculator.TruncDivUnique | server.c:150-152 | the truncated quotient is the only integer with that remainder property |
| Calculator.TruncDivVersusEuclid | server.c:150-152 | truncation agrees with Euclidean division on nonnegative operands and differs at -7 / 2; negating either operand negates the quotient |
| Calculator.Calculate | server.c:140-161 | the switch fails exactly on an unknown code or a division by zero, and the error is the division error exactly when the code is 4 |
| Calculator.CalculateMeaning | server.c:140-161 | subtraction and addition undo each other, a product divided by its nonzero factor gives the other factor back, and the quotient leaves a truncated remainder |
| Calculator.ResponseFile | server.c:163-166 | the response file name ends in "_toClient.txt"; for a nonnegative pid what comes before is its canonical decimal numeral, and for a negative pid there is nothing before it |
| Calculator.Respond | server.c:136-190 | the server answers exactly when the calculation succeeds |
| Calculator.RespondMeaning | server.c:163-177 | the response file is the client's pid in decimal followed by "_toClient.txt", and its content parses back to the result when that is nonnegative |
| Protocol.Tokens | server.c:58-70 | the strtok tokens are non-empty and hold no space; a buffer of spaces only has no token, and a buffer without a space is a single token |
| Protocol.Atoi | server.c:59-71 | atoi of an empty token is 0, a negative result needs a leading minus sign and a leading minus never gives a positive result, and a token of digits only is read as its decimal value |
| Protocol.ParseInput | server.c:54-72 | a request is read exactly when the buffer holds at least four tokens |
| Protocol.ParseFormat | server.c:54-72 | parseInput reads back every request written in the protocol's format |
| Protocol.AtoiShow | server.c:59-71 | atoi reads back every signed numeral the protocol writes |
| Protocol.ParseSkipsLeadingSpaces | server.c:58 | strtok skips runs of spaces, so leading spaces do not change the request |
| Client.RequestText | client.c:221-229 | a request is written exactly when there are four arguments; it starts with the pid in decimal and a space, and its length accounts for the copied arguments |
| Client.ExpectedResponseFile | client.c:67-71 | the file the client waits for is its pid in decimal, canonical and parsing back to the pid, followed by "_toClient.txt" |
| Client.RequestRoundTrip | client.c:221-229 | the server's parseInput reads the client's request text back as (pid, num1, operation, num2) |
| Client.ExchangeAgrees | client.c:67-71 | for a well-formed request the server answers exactly when the code is known and is not a division by zero, writes the very file the client waits for, and writes intToStr of the result there |
| Client.NegativeResultLost | server.c:176-178 | for 2 - 5 the server writes an empty response, so the client receives and prints an empty result instead of -3 |
| Client.SignedRespondReadsBack | server.c:176-178 | a response written as a signed numeral names the same file, reads back as the result whatever its sign, and agrees with intToStr for nonnegative results |

## Left out

- File input (`readInputFile`), the five `printf` lines and `main` (main.c:309-324, which checks the argument count, loads the file and prints the five averages): they are I/O. The model starts from a loaded table; `Load` builds a row the way the loader does.
- The average: the model keeps the integer turnaround sum. The division by the row count in floating point, including the division by zero for an empty table, is not modelled.
- The fixed-size arrays (`MAX_PROCESSES`, 100 entries): tables, stacks and queues are unbounded sequences, and the C code overflows its arrays on inputs the model accepts. The Round Robin queue never reuses a slot, because `rear` only grows (main.c:193, 208, 236, 240), so a lone job (0,201) already writes `queue[100]`. The LCFS stacks push every ready row again on every pass (main.c:97-100, 176-179), so they overflow too: in LCFS-P a lone job (1,101) gets one more stack entry per tick and writes `stack[100]`. On such inputs the C code has undefined behaviour, and lemmas such as RoundRobin.ScheduleCompletesAll describe the unbounded model only.
- Protocol.Tokens: its contract does not say that the tokens are the maximal runs of non-space characters in order. Protocol.TokensOfFour states this for the four-token requests the client writes.
- C `int` overflow: it is not modelled in the clock, in `compareArrival`'s subtraction, in the turnaround sum or in the calculator's `+`, `-`, `*` and `/` (`INT_MIN / -1` overflows in C, while `Calculator.TruncDiv` returns 2147483648). `INT_MAX` as the "no arrival" sentinel becomes `None`, so an arrival time equal to `INT_MAX` is not singled out.
- The `float` accumulator of `calculateAverageTurnaround` (main.c:61-63): the model sums in unbounded integers, so float rounding of large sums is not modelled.
- The `INT_MAX` starting value of SJF's selection with its strict `<` (main.c:273-277): a ready row whose remaining time is `INT_MAX` would never be chosen. The model has no such bound and picks it.
- The client's 64-byte `responseFile` buffer (client.c:38, 223-229), into which the request text and the unbounded `argv` strings are concatenated: its overflow is not modelled.
- `compareShortest`: nothing in the simulator calls it.
- The Round Robin quantum is the constant 2, as in the code; for jobs (0,4), (1,4) the code gives completions 6 and 8 (`RoundRobin.TwoJobsExample`).
- Signals, `fork`, `sleep`, `alarm`, the retry loop with `getrandom` delays, file creation and removal, and timeouts in the calculator: these are process and file I/O. The model keeps only the text that crosses the files.
- Protocol.ParseInput: with fewer than four tokens the C code hands a null token to `atoi`, which is undefined behaviour. The model returns `None` there.
- Protocol.Atoi: it gives the C meaning only to an optional sign followed by digits. Leading white space inside a token, and out-of-range values, are not modelled.
- IntText.IntToStr: it requires `num < 10^9`, because the C buffer `temp[10]` holds at most nine digits and a terminator. `IntStr`, the function it computes, has no bound.
- Sjf.ScheduleCompletesAll: it requires positive computation times, which the input file is not checked for. A row with a zero computation time is never ready, because readiness needs remaining > 0. The counter then never reaches n, and the loop ends by its `break`.
- RoundRobin.ScheduleCompletesAll: it requires positive computation times, for the reason given for Sjf.ScheduleCompletesAll.
- LcfsNonPreemptive.AdmitOnceCompletesAll: it requires positive computation times, for the same reason.
- LcfsPreemptive.AdmitFirstCompletesAll: it requires positive computation times, for the same reason.
- LcfsPreemptive.ScheduleAccounts: it requires positive computation times, as the completion lemmas do.
- LcfsNonPreemptive.ScheduleOutcome: it requires positive computation times, as the completion lemmas do.
- Turnaround.SjfAtLeastBurst: it requires positive computation times. With a zero computation time a row is never run and keeps completion 0: SJF on a lone (5,0) reports -5 against a total burst of 0.
- Turnaround.RoundRobinAtLeastBurst: it requires positive computation times, for the reason given for Turnaround.SjfAtLeastBurst.
- Turnaround.CorrectedLcfsAtLeastBurst: it requires positive computation times, for the reason given for Turnaround.SjfAtLeastBurst.
- LcfsNonPreemptive.Schedule: its contract states only that the rows keep their jobs in arrival-sorted order. What the as-written loop does to the rows is stated by LcfsNonPreemptive.ScheduleOutcome and LcfsNonPreemptive.RerunsFinishedJob.
- LcfsPreemptive.Schedule: its contract states only that the rows keep their jobs in arrival-sorted order. What the loop does is stated by LcfsPreemptive.ScheduleAccounts, LcfsPreemptive.LoneJobNeverRuns and LcfsPreemptive.SkipsArrivalAtClock.
- RoundRobin.Schedule: its contract states only that the rows keep their jobs in input order. Completion is stated by RoundRobin.ScheduleCompletesAll.
- Sjf.Schedule: its contract states only that the rows keep their jobs in arrival-sorted order. Completion is stated by Sjf.ScheduleCompletesAll.
- Calculator.Respond: the 64- and 256-byte buffers the server formats into are not modelled.

## Findings

| source | as written | input that shows it | evidently intended | confidence | as-written member | corrected member |
|---|---|---|---|---|---|---|
| main.c:97-112 | every pass pushes every ready row again, and the pop runs the top row without checking that it still has work, so a stale entry of a finished job is run again and counted | jobs (0,1), (0,1), (100,1): the first job is run twice (completion 3), the counter reaches 3 and the job arriving at 100 never runs; the total turnaround is -96 | each job is pushed once and run once | not executed | LcfsNonPreemptive.RerunsFinishedJob | LcfsNonPreemptive.AdmitOnceCompletesAll |
| main.c:161-180 | the idle test comes before the push, so at clock 0 an empty stack makes the loop look for an arrival strictly after 0 | a lone job (0,5): the loop breaks at once, the job never runs, and the total turnaround is 0 against a burst of 5 | push the ready rows before deciding to idle | not executed | LcfsPreemptive.LoneJobNeverRuns | LcfsPreemptive.AdmitFirstCompletesAll |
| main.c:149-174 | a completion that empties the stack goes straight to the idle-advance, which skips a job arriving exactly at the current clock | jobs (3,1), (4,1): the first completes at 4, no arrival lies strictly after 4, the loop breaks and the second job never runs; the total turnaround is -3 against 2 | a job ready at the current clock is run | not executed | LcfsPreemptive.SkipsArrivalAtClock | LcfsPreemptive.AdmitFirstCompletesAll |
| server.c:90-115 | intToStr writes no digits for a negative number, and performCalculation uses it for the result | 2 - 5 (operation 2): the response file is empty, so the client (client.c:91-100) receives and prints an empty result instead of -3 | a minus sign followed by the digits | not executed | Client.NegativeResultLost | Client.SignedRespondReadsBack |
