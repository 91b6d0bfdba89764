# EDF scheduling simulator and the jgraham5 system call, in Dafny

This project models two programs of the repository.

- `src/PA3/edf.c`, a simulator of earliest-deadline-first scheduling for a
  set of periodic tasks. `main` builds one descriptor per task (pids 1..n),
  and the horizon is the lcm of the periods. `scheduling_loop` then runs
  one tick per millisecond. Each tick takes six steps:
  1. Instances that reached their deadline get the next one, and are
     reported in ascending pid order.
  2. Every task whose period divides the tick gets a fresh instance at the
     tail of a doubling pointer queue.
  3. The queue is listed when something arrived.
  4. An idle processor takes the earliest-deadline instance, and a busy
     one is preempted by a strictly earlier deadline.
  5. The current instance runs one millisecond and leaves the queue when
     done.
  6. Every other queued instance waits one millisecond.

  At the horizon the simulator reports the total wait (completed plus
  still queued instances) and the number of instances created.
- `src/PA2/my_syscall/my_syscall.c`, the `jgraham5_syscall` kernel call.
  It measures a user string with `strnlen_user(chrArr, 32)` and rejects a
  null pointer or a bad length with -1. Otherwise it copies the string into
  a kernel buffer, rewrites each lower-case `a e i o u y` to `'j'`, copies
  the result back, and returns how many bytes it rewrote.

Files:

- `edf_spec.dfy` (`EdfSpec`): the value-level run. The datatypes `Task`,
  `Inst` and `Sim` hold the entities, and `Event` stands for the lines
  printed. `Tick` is the six steps as functions; `Ticks` and `Simulate`
  are the whole run.
- `edf_arith.dfy` (`EdfArith`): gcd, lcm and lcm_periods.
- `edf_queue.dfy` (`EdfQueue`): the heap model. The classes `Process` and
  `ProcQueue` stand for `struct process` and `struct proc_queue`, whose
  fields are updated in place, over an `array` of instance references.
  `make_process`, `push`, `pop`, `pop_at` and `print_queue` operate on
  them.
- `edf_schedule.dfy` (`EdfSchedule`): `min_ind`, `get_earliest_deadline` and
  `check_set_print_deadlines`, as imperative loops over arrays.
- `edf_loop.dfy` (`EdfLoop`): `scheduling_loop`, split into one method per
  step, and `main`. Each tick's heap state stands for `EdfSpec.Tick`, so
  the whole run prints exactly `EdfSpec.Simulate`.
- `edf_props.dfy` (`EdfProps`): the run invariant and its preservation.
- `edf_theorems.dfy` (`EdfTheorems`): what a run promises:
  - the invariant holds at every tick up to the horizon;
  - admission counts;
  - miss reports come out in ascending pid order;
  - dispatch chooses the earliest deadline, and a busy processor is
    preempted exactly when some queued deadline is strictly earlier;
  - every preemption line is followed by a start line;
  - how running and waiting times grow;
  - the summary line.
- `my_syscall.dfy` (`MySyscall`): the system call over a user buffer
  (`array<char>`), its rewriting loop, and its properties. These include
  the two expected results in `src/PA2/syscall.c`.

Printing is modelled as an event log, and `scanf` input as parameters.
`strnlen_user` becomes a function over the buffer's contents.
`strncpy_from_user` and `copy_to_user` become the methods `CopyFromUser` and
`CopyToUser`, each a `forall` statement that copies between the user array
and a fresh kernel array.

## Model

| member | source | states |
|---|---|---|
| EdfSpec.DeadlineStep | src/PA3/edf.c:248 | step 1 of a tick: the queue after the deadline pass, and the miss lines appended to the log |
| EdfSpec.MissEvents | src/PA3/edf.c:182-211 | the miss lines of a tick: the due instances' reports, taken in SelectReports order over their pids |
| EdfSpec.Arrivals | src/PA3/edf.c:251-257 | the new instances of tick t, one per descriptor whose period divides t, in descriptor order |
| EdfSpec.AdmitStep | src/PA3/edf.c:250-264 | steps 2 and 3: the arrivals appended to the queue and counted in total_scheduled, and a snapshot line iff something arrived |
| EdfSpec.DispatchStep | src/PA3/edf.c:267-284 | step 4: with an empty queue nothing; when idle, the first earliest deadline starts; when busy, the first strictly earlier deadline preempts, with both lines logged |
| EdfSpec.RunStep | src/PA3/edf.c:287-298 | step 5: the current instance's running time grows by 1; when it reaches the CPU time, the instance ends at t + 1, leaves the queue, and its wait joins total_wait |
| EdfSpec.WaitStep | src/PA3/edf.c:301-306 | step 6: every queued instance but the current one gets one more ms of waiting |
| EdfSpec.Tick | src/PA3/edf.c:245-307 | one iteration of the for-t loop: the six steps in the source's order |
| EdfSpec.Ticks | src/PA3/edf.c:245-307 | the state after ticks 0..n-1, from an empty queue, no current instance and zero counters (edf.c:238-243) |
| EdfSpec.Report | src/PA3/edf.c:308-316 | the log, then the horizon line, then the summary with total_wait plus the waits still queued and total_scheduled |
| EdfSpec.Simulate | src/PA3/edf.c:237-321 | everything scheduling_loop prints for max_time ticks |
| EdfArith.Gcd | src/PA3/edf.c:39-44 | gcd of a positive x and y >= 0 is a positive common divisor of both, and gcd(x, 0) == x |
| EdfArith.GcdGreatest | src/PA3/edf.c:39-44 | every positive common divisor of x and y divides gcd(x, y) |
| EdfArith.Lcm | src/PA3/edf.c:51-53 | when x * y fits in 32 bits, (x * y) / gcd(x, y) is a positive common multiple of x and y |
| EdfArith.LcmFold | src/PA3/edf.c:60-66 | lcm folded over the periods from the left is a positive multiple of every period |
| EdfArith.LcmPeriods | src/PA3/edf.c:60-66 | the loop computes that fold, so the horizon is a positive common multiple of every period |
| EdfQueue.MakeProcess | src/PA3/edf.c:88-100 | a fresh instance with the descriptor's pid, CPU time and period, both counters 0, due at t + period |
| EdfQueue.ProcQueue.constructor | src/PA3/edf.c:73-81 | an empty queue with capacity num_proc |
| EdfQueue.ProcQueue.Push | src/PA3/edf.c:107-114 | contents become old contents + [proc] and size grows by 1; a full queue doubles its capacity first, so size <= max holds throughout |
| EdfQueue.ProcQueue.PopAt | src/PA3/edf.c:137-146 | returns the old element at index; contents become old[..index] + old[index+1..] and size drops by 1; capacity and array unchanged |
| EdfQueue.ProcQueue.Pop | src/PA3/edf.c:121-130 | returns the old front; contents become old[1..], the same result as PopAt(0) |
| EdfQueue.ProcQueue.PrintQueue | src/PA3/edf.c:153-158 | lists pid and remaining CPU time of every queued instance, front first |
| EdfSpec.FirstMinBelowSpec | src/PA3/edf.c:165-175 | the shared scan returns -1 iff no value is below the bound; otherwise a value below the bound that is a minimum and strictly smaller than every earlier value (ties go to the lowest index) |
| EdfSchedule.MinInd | src/PA3/edf.c:165-175 | min_ind returns exactly that scan of the first len values against INT_MAX |
| EdfSchedule.GetEarliestDeadline | src/PA3/edf.c:218-230 | get_earliest_deadline returns that scan of the queued deadlines against curr_deadline: -1 iff none is strictly earlier, else the first earliest |
| EdfSchedule.CheckSetPrintDeadlines | src/PA3/edf.c:182-211 | in place, exactly the instances due at t get due_by = t + period and all else is unchanged; the printed lines are MissEvents of the queue before the pass |
| EdfSchedule.NewMissedArrays | src/PA3/edf.c:183-187 | two fresh arrays of num_procs slots, every pid slot INT_MAX |
| EdfSchedule.MarkMissed | src/PA3/edf.c:190-198 | after the marking loop the queue has been through the deadline pass, and the first num_missed slots hold the due instances in queue order with their pids; the other pid slots stay INT_MAX |
| EdfSchedule.MarkOne | src/PA3/edf.c:191-197 | one round updates one instance's deadline and fills the next missed slot when it is due |
| EdfSchedule.MarkUpToSpec | src/PA3/edf.c:190-198 | after n rounds: the first n values are deadline-passed, the filled slots list the due positions below n in order, and the rest stay INT_MAX |
| EdfSchedule.ReportMisses | src/PA3/edf.c:200-210 | the printing loop emits the reports in SelectReports order over the missed pids |
| EdfSchedule.ReportRound | src/PA3/edf.c:201-209 | one round emits the report of the first smallest pid, retires its slot with INT_MAX and lowers the count |
| EdfSchedule.ReportNext | src/PA3/edf.c:202-208 | min_ind over the padded pid array picks the first smallest remaining pid; the line printed is that instance's miss report, and exactly its slot becomes INT_MAX |
| EdfTheorems.MissedIdxSpec | src/PA3/edf.c:190-198 | the due positions are listed in increasing order, and every position due at t is listed |
| EdfTheorems.SelectOrderTakes | src/PA3/edf.c:200-210 | selecting remaining times takes remaining positions with keys below INT_MAX, and all of them when remaining is their count |
| EdfTheorems.SelectOrderSorted | src/PA3/edf.c:200-210 | the selected positions are distinct, their keys non-decreasing, and equal keys in position order (a stable sort) |
| EdfTheorems.SelectReportsOrder | src/PA3/edf.c:200-210 | the reports come out in the order of the selected positions |
| EdfTheorems.MissReportsSorted | src/PA3/edf.c:180-211 | the miss reports of a tick are those of exactly the instances due at t, each once, with cpu_time - running_time and t + period, in ascending pid order, and equal pids in queue order |
| EdfProps.ArrivalsExactly | src/PA3/edf.c:251-257 | tick t admits exactly the new instances of the tasks whose period divides t |
| EdfProps.ArrivalsOk | src/PA3/edf.c:251-257 | every admitted instance is unfinished, due within one period of the next tick, with waiting time 0 |
| EdfProps.ArrivalsCount | src/PA3/edf.c:251-257 | the admissions of tick n bring the count of admitted instances from ticks 0..n-1 to ticks 0..n |
| EdfTheorems.ArrivalCountClosed | src/PA3/edf.c:251-252 | the ticks 0..n-1 hold ceil(n / p) multiples of p |
| EdfTheorems.HorizonArrivals | src/PA3/edf.c:251-252 | when p divides the horizon, the ticks 0..maxTime-1 hold exactly maxTime / p multiples of p |
| EdfTheorems.AdmittedOverHorizon | src/PA3/edf.c:245-258 | when every period divides the horizon, the number of instances the run admits in all is the sum, over the tasks, of maxTime / period |
| EdfTheorems.ArrivalsOfTask | src/PA3/edf.c:251-257 | with distinct pids, tick t admits one instance of task i when its period divides t and none otherwise |
| EdfTheorems.AdmittedOfTask | src/PA3/edf.c:245-258 | with distinct pids, the ticks 0..n-1 admit exactly as many instances of task i as they hold multiples of its period |
| EdfTheorems.TaskOverHorizon | src/PA3/edf.c:245-258 | with distinct pids and a period dividing the horizon, task i is admitted maxTime / period_i times over the run |
| EdfLoop.MainAdmissions | src/PA3/edf.c:329-358 | in the run main starts, process i + 1 is admitted lcm / period_i times |
| EdfLoop.AdmitOne | src/PA3/edf.c:251-257 | a task whose period divides t gets a fresh instance pushed at the tail, total_scheduled + 1 and should_print set; otherwise nothing changes |
| EdfLoop.AdmitArrivals | src/PA3/edf.c:250-258 | the queue's values become the old ones + Arrivals(procs, t), with one scheduled instance per arrival, and should_print iff something arrived |
| EdfLoop.AdmitPhase | src/PA3/edf.c:250-264 | the heap stands for AdmitStep: arrivals appended, a snapshot printed iff something arrived, old slots kept |
| EdfLoop.CheckAndAdmit | src/PA3/edf.c:246-264 | the heap stands for the deadline pass and then admission, and the queue is well formed for tick t + 1 |
| EdfLoop.Dispatch | src/PA3/edf.c:267-284 | the heap and the printed lines stand for DispatchStep; curr_proc is null iff curr_ind == -1, else queue[curr_ind] |
| EdfTheorems.DispatchIdle | src/PA3/edf.c:267-273 | an idle processor with a non-empty queue starts the first earliest-deadline instance and logs its start; nothing else changes |
| EdfTheorems.DispatchPreempts | src/PA3/edf.c:274-283 | a busy processor is preempted iff some queued deadline is strictly earlier; then the first earliest-deadline instance becomes current, the preempted one stays queued unchanged, and the log gains the preemption and the start line; otherwise the state is unchanged |
| EdfTheorems.DispatchEarliest | src/PA3/edf.c:267-284 | after dispatch, a non-empty queue has a current instance whose due_by is at most every queued due_by |
| EdfLoop.BumpRunning | src/PA3/edf.c:288 | exactly the current instance gets running_time + 1 |
| EdfLoop.EndCurrent | src/PA3/edf.c:289-296 | a finished instance leaves the queue by pop_at, the others keep their order |
| EdfLoop.RunCurrent | src/PA3/edf.c:287-298 | the heap stands for RunStep: the current instance runs; when running_time == cpu_time it ends at t + 1, its wait joins the total, it is removed and curr is cleared |
| EdfTheorems.RunStepWork | src/PA3/edf.c:287-298 | the run step adds exactly 1 ms of running time over all instances when busy and none when idle, and loses no waiting time |
| EdfLoop.WaitOne | src/PA3/edf.c:304 | one instance's waiting_time + 1, all others unchanged |
| EdfLoop.IncrementWaits | src/PA3/edf.c:301-306 | every queued instance except the current one waits one more ms |
| EdfTheorems.WaitStepWaits | src/PA3/edf.c:301-306 | the total queued wait grows by the queue length, minus one when an instance is current; running times do not change |
| EdfLoop.DispatchAndRun | src/PA3/edf.c:267-306 | the heap stands for dispatch, then the run step, then the wait step, and at most the current slot leaves the queue |
| EdfProps.TickOk | src/PA3/edf.c:245-307 | a tick keeps the run invariant: queued instances unfinished and due within one period, finished ones ran exactly their CPU time, every admitted instance completed or queued, total_wait the sum over completed ones |
| EdfTheorems.TicksInv | src/PA3/edf.c:245-307 | up to the horizon, the state after n ticks satisfies that invariant (so running_time < cpu_time for every queued instance) |
| EdfProps.QueueBelowMax | src/PA3/edf.c:269-270 | under the invariant every queued deadline and pid is below INT_MAX, so the idle dispatch never reads queue[-1] |
| EdfLoop.RunTick | src/PA3/edf.c:245-307 | one loop iteration moves the heap, the counters and the log exactly as Tick |
| EdfLoop.Step | src/PA3/edf.c:245-307 | one iteration carries the loop invariant from tick t to tick t + 1 |
| EdfLoop.SumRemaining | src/PA3/edf.c:310-313 | the closing loop adds the waits of all still-queued instances |
| EdfLoop.Finish | src/PA3/edf.c:308-316 | the horizon line, then the summary with the full wait total and total_scheduled |
| EdfLoop.SchedulingLoop | src/PA3/edf.c:237-321 | the lines printed by scheduling_loop are exactly Simulate(procs, max_time) |
| EdfLoop.Schedule | src/PA3/edf.c:329-358 | main builds descriptors with pid i + 1, the horizon is LcmFold of the periods and a common multiple of each, and the run prints Simulate with them |
| EdfTheorems.TickShape | src/PA3/edf.c:276-281 | no tick breaks the rule that a preemption line is followed at once by a start line of the same tick |
| EdfTheorems.SimulateShape | src/PA3/edf.c:276-281 | in everything a run prints, every preemption line is followed at once by a start line of the same tick |
| EdfTheorems.SummaryOf | src/PA3/edf.c:308-316 | under the invariant at the horizon, the summary's wait total is the sum of waits over every instance ever created (completed plus queued), its count is the number admitted, and that count is the sum of maxTime / period when the periods divide the horizon |
| EdfTheorems.SummaryLine | src/PA3/edf.c:308-316 | the same for the end of an actual run: the last two lines are the horizon and that summary |
| MySyscall.StrnlenUser | src/PA2/my_syscall/my_syscall.c:8 | the length including the NUL when a NUL lies among the first count bytes (no NUL before it); count + 1 when the first count bytes hold none; 0 when memory ends before count bytes with no NUL in it |
| MySyscall.NulScan | src/PA2/my_syscall/my_syscall.c:8 | the same characterisation for the scan from byte i on |
| MySyscall.Syscall | src/PA2/my_syscall/my_syscall.c:8-33 | one call on a non-null buffer: -1 and the memory unchanged when the length is 0 or above 32; otherwise the vowel count of the first len bytes, and those bytes rewritten with the rest kept |
| MySyscall.Jgraham5Syscall | src/PA2/my_syscall/my_syscall.c:3-34 | a null pointer gives -1; otherwise the return value and the new user buffer are those of Syscall on the old contents |
| MySyscall.CopyFromUser | src/PA2/my_syscall/my_syscall.c:12-13 | a fresh kernel buffer of len bytes holding the first len user bytes |
| MySyscall.CopyToUser | src/PA2/my_syscall/my_syscall.c:29 | the user buffer's first bytes become the kernel buffer's, and the rest stays as it was |
| MySyscall.RewriteVowels | src/PA2/my_syscall/my_syscall.c:19-25 | the loop turns each vowel of the buffer into 'j', keeps the other bytes, and returns the vowel count |
| MySyscall.JifyAt | src/PA2/my_syscall/my_syscall.c:20-25 | byte i of the rewrite is 'j' exactly when byte i was a lower-case vowel, and is unchanged otherwise |
| MySyscall.VowelCountPositions | src/PA2/my_syscall/my_syscall.c:19-25 | the count equals the number of positions holding one of a e i o u y |
| MySyscall.JifyNoVowels | src/PA2/my_syscall/my_syscall.c:21-22 | no vowel survives the rewrite, and rewriting again changes nothing |
| MySyscall.JifyKeepsLength | src/PA2/my_syscall/my_syscall.c:8 | the rewrite moves no terminator, so strnlen_user sees the same length afterwards |
| MySyscall.SyscallRejects | src/PA2/my_syscall/my_syscall.c:8-11 | the call returns -1 iff strnlen_user gives 0 or more than 32, and then the buffer is unchanged |
| MySyscall.SyscallRewrites | src/PA2/my_syscall/my_syscall.c:19-33 | on success: 1 <= len <= 32; the buffer keeps its length; each of the first len bytes that is a vowel becomes 'j' and the others (upper-case vowels, NUL) stay; bytes past len are unchanged; no vowel remains; the result is the number of vowel positions |
| MySyscall.SyscallIdempotent | src/PA2/my_syscall/my_syscall.c:21-22 | a second call changes nothing and returns 0 (or -1 again for a rejected string) |
| MySyscall.LongStringRejected | src/PA2/syscall.c:6-10 | the 57-byte string gives -1 and stays unchanged |
| MySyscall.ShortStringRewritten | src/PA2/syscall.c:12-16 | "This will work for sure!" gives 6 and becomes "Thjs wjll wjrk fjr sjrj!" |

## Left out

- Terminal I/O: the `scanf` prompts of `main` become the parameters of `EdfLoop.Schedule`, and each `printf` line becomes an `Event` value. The text formatting is not modelled.
- The floating-point average waiting time (edf.c:317) is not modelled. The summary keeps the integer sum and count it divides.
- `malloc`, `realloc` and `free` are not modelled, nor is allocation failure. A completed instance leaves the queue but is not freed; the value-level run keeps it in `Sim.finished` so the wait total can be stated over every instance.
- The queue's `size` and `max` fields (edf.c:107-114) are unbounded integers. Instances that miss their deadlines stay queued, so the queue could in principle grow past 2^30 slots, where the C `max *= 2` would overflow. That 32-bit limit is not modelled, and neither is allocation failure.
- 32-bit arithmetic: integers are unbounded. The preconditions exclude overflow in these places:
  - `x * y` in `lcm` must fit (`Lcm`, `Fits`);
  - every deadline `maxTime + period` must stay at most INT_MAX (`TasksOk`);
  - pids must stay below INT_MAX.
- EdfSpec.Report: `total_wait` and `total_scheduled` (edf.c:242-243, 255, 292, 311) are exact, unbounded sums, and no precondition bounds them. A run can push the wait total past INT_MAX, where the C `int` overflows. For example, take tasks (1, 1000000, 1), (2, 1000000, 1) and (3, 1, 65536). The horizon is 65536, no instance completes, and the wait total reaches 65536 * 65537. The model's `Summary`, and so `EdfLoop.SchedulingLoop` and `EdfLoop.Schedule`, then carries the exact sum, not the value the C program would print.
- EdfArith.Lcm: proved to be a positive common multiple, not the least one. The admission counts need only a common multiple.
- EdfArith.Gcd: modelled for x > 0 and y >= 0 only, which covers every call lcm_periods makes with positive periods. Negative arguments, where C's `%` differs from Dafny's, are not modelled.
- EdfLoop.SchedulingLoop: requires at least one task, positive CPU times and periods, and deadlines below INT_MAX (`TasksOk`). Each clause has its own reason:
  - a zero period makes `t % procs[i].period` at edf.c:252 divide by zero;
  - a deadline at INT_MAX lets the idle dispatch get -1 from get_earliest_deadline and index `queue[-1]` at edf.c:269-270;
  - a CPU time of 0 or less gives an instance whose running time never equals its CPU time (edf.c:288-289), so it never completes, and the model requires positive CPU times;
  - with no tasks, `scheduling_loop` itself would run, but `main` calls `lcm_periods`, which reads `procs[0]` at edf.c:61.
- EdfQueue.ProcQueue.Push: requires that `proc` is not already queued (the queue holds distinct instances). The source never pushes an instance twice (the re-push at edf.c:278 is commented out).
- EdfSchedule.CheckSetPrintDeadlines: requires queued pids below INT_MAX. A pid equal to INT_MAX would make min_ind return -1 and the source index `missed_processes[-1]`.
- MySyscall.Jgraham5Syscall: user memory is the given array, with nothing readable past its end. The model does not produce the fault paths of `strncpy_from_user` and `copy_to_user` (lines 13-15 and 29-31, which return -1). A fault inside `strnlen_user` is modelled as the scan running off the array, returning 0.
- `printk` (my_syscall.c:17, 27) is output only and is not modelled.
- The PA4 and PA5 scull drivers and their user program are not part of this model. Nor is the hello-world module `src/PA2/module/jgraham5.c`.
- The split of scheduling_loop and check_set_print_deadlines into several methods follows the source's steps, not separate C functions. The loop bodies are unchanged.
