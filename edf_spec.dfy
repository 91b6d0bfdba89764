/*
 * Value-level specification of the EDF (earliest deadline first) scheduling
 * simulator of src/PA3/edf.c: the entities, the event log that stands for the
 * program's printf output, and one simulated tick as a composition of the
 * six steps of scheduling_loop. The imperative model (edf_queue.dfy,
 * edf_schedule.dfy) is proved to produce exactly these states and logs.
 */
module EdfSpec {

  /** INT_MAX of <limits.h> for the 32-bit `int` of the source. */
  const INT_MAX: int := 0x7fff_ffff

  /** A task descriptor: the `struct process` values that main builds once. */
  datatype Task = Task(pid: int, cpuTime: int, period: int)

  /** One periodic activation of a task: a heap `struct process` in the queue. */
  datatype Inst = Inst(pid: int, cpuTime: int, period: int,
                       runningTime: int, waitingTime: int, dueBy: int)

  /** One entry of a queue snapshot: pid and remaining CPU time. */
  datatype Entry = Entry(pid: int, left: int)

  /** The lines the simulator prints, as structured events. */
  datatype Event =
    | Miss(t: int, pid: int, left: int, newDeadline: int)
    | Snapshot(t: int, entries: seq<Entry>)
    | Start(t: int, pid: int)
    | Preempted(t: int, pid: int)
    | Ends(t: int, pid: int)
    | MaxTime(t: int)
    | Summary(totalWait: int, totalScheduled: int)

  /** The whole state of a run between two ticks. `finished` holds the
      instances that completed (the source frees them); it is kept so that
      the waiting-time total can be stated against all instances ever made. */
  datatype Sim = Sim(queue: seq<Inst>, cur: int, totalScheduled: int,
                     totalWait: int, log: seq<Event>, finished: seq<Inst>)

  ghost predicate PeriodsPositive(tasks: seq<Task>) {
    forall i :: 0 <= i < |tasks| ==> tasks[i].period > 0
  }

  /** make_process: a fresh instance of `task`, due one period after `t`. */
  function NewInst(task: Task, t: int): Inst {
    Inst(task.pid, task.cpuTime, task.period, 0, 0, t + task.period)
  }

  function DueBys(qs: seq<Inst>): (ds: seq<int>)
    ensures |ds| == |qs| && forall i :: 0 <= i < |qs| ==> ds[i] == qs[i].dueBy
  {
    seq(|qs|, i requires 0 <= i < |qs| => qs[i].dueBy)
  }

  /**
   * The scan shared by min_ind and get_earliest_deadline: the index of the
   * first strict minimum of `s` among the values strictly below `bound`,
   * or -1 when no value is below `bound`.
   */
  function FirstMinBelow(s: seq<int>, bound: int): (r: int)
    ensures -1 <= r < |s|
  {
    if s == [] then -1
    else
      var r := FirstMinBelow(s[..|s| - 1], bound);
      if s[|s| - 1] < (if r == -1 then bound else s[r]) then |s| - 1 else r
  }

  /**
   * What the scan finds: -1 exactly when no value is below `bound`, and
   * otherwise a value below `bound` that is a minimum of `s` and strictly
   * smaller than every value before it (ties go to the earliest index).
   */
  lemma {:induction false} FirstMinBelowSpec(s: seq<int>, bound: int)
    ensures var r := FirstMinBelow(s, bound);
      (r == -1 <==> (forall i :: 0 <= i < |s| ==> bound <= s[i])) &&
      (r != -1 ==> s[r] < bound && (forall i :: 0 <= i < |s| ==> s[r] <= s[i]) &&
                   (forall i :: 0 <= i < r ==> s[r] < s[i]))
  {
    if s != [] {
      var s' := s[..|s| - 1];
      FirstMinBelowSpec(s', bound);
      assert forall i :: 0 <= i < |s'| ==> s'[i] == s[i];
    }
  }

  // ---------------------------------------------------------------------
  // Step 1: the deadline pass (check_set_print_deadlines)
  // ---------------------------------------------------------------------

  /** Every instance due exactly at `t` gets its deadline moved one period on. */
  function DeadlinePass(qs: seq<Inst>, t: int): seq<Inst> {
    seq(|qs|, i requires 0 <= i < |qs| =>
      if qs[i].dueBy == t then qs[i].(dueBy := t + qs[i].period) else qs[i])
  }

  /** The positions below `n`, in queue order, of the instances due at `t`. */
  function MissedUpTo(qs: seq<Inst>, t: int, n: nat): (idx: seq<int>)
    requires n <= |qs|
    ensures |idx| <= n && forall k :: 0 <= k < |idx| ==> 0 <= idx[k] < n && qs[idx[k]].dueBy == t
  {
    if n == 0 then []
    else MissedUpTo(qs, t, n - 1) + (if qs[n - 1].dueBy == t then [n - 1] else [])
  }

  /** The queue positions, in queue order, of the instances due at `t`. */
  function MissedIdx(qs: seq<Inst>, t: int): (idx: seq<int>)
    ensures |idx| <= |qs| && forall k :: 0 <= k < |idx| ==> 0 <= idx[k] < |qs| && qs[idx[k]].dueBy == t
  {
    MissedUpTo(qs, t, |qs|)
  }

  /**
   * The printing order of the miss reports: repeatedly take the first strict
   * minimum of the remaining keys and overwrite it with INT_MAX, `remaining`
   * times (the while loop at the end of check_set_print_deadlines).
   */
  function SelectOrder(keys: seq<int>, remaining: nat): (order: seq<int>)
    ensures forall k :: 0 <= k < |order| ==> 0 <= order[k] < |keys|
    decreases remaining
  {
    if remaining == 0 then []
    else
      var j := FirstMinBelow(keys, INT_MAX);
      if j == -1 then [] else [j] + SelectOrder(keys[j := INT_MAX], remaining - 1)
  }

  function MissPids(qs: seq<Inst>, idx: seq<int>): (keys: seq<int>)
    requires forall k :: 0 <= k < |idx| ==> 0 <= idx[k] < |qs|
    ensures |keys| == |idx| && forall k :: 0 <= k < |idx| ==> keys[k] == qs[idx[k]].pid
  {
    seq(|idx|, k requires 0 <= k < |idx| => qs[idx[k]].pid)
  }

  /** The report printed for instance `p` missing its deadline at `t`. */
  function MissOf(p: Inst, t: int): Event {
    Miss(t, p.pid, p.cpuTime - p.runningTime, t + p.period)
  }

  /**
   * The reports in printing order: the selection of SelectOrder, applied to
   * `reports` (one report per key) as it goes.
   */
  function SelectReports(keys: seq<int>, reports: seq<Event>, remaining: nat): (out: seq<Event>)
    requires |keys| == |reports|
    decreases remaining
  {
    if remaining == 0 then []
    else
      var j := FirstMinBelow(keys, INT_MAX);
      if j == -1 then [] else [reports[j]] + SelectReports(keys[j := INT_MAX], reports, remaining - 1)
  }

  /** The reports of the instances at positions `idx`, in that order. */
  function Reports(qs: seq<Inst>, idx: seq<int>, t: int): (rs: seq<Event>)
    requires forall k :: 0 <= k < |idx| ==> 0 <= idx[k] < |qs|
    ensures |rs| == |idx| && forall k :: 0 <= k < |idx| ==> rs[k] == MissOf(qs[idx[k]], t)
  {
    seq(|idx|, k requires 0 <= k < |idx| => MissOf(qs[idx[k]], t))
  }

  /** The miss reports of tick `t` for queue `qs` (taken before the pass). */
  function MissEvents(qs: seq<Inst>, t: int): seq<Event> {
    var idx := MissedIdx(qs, t);
    SelectReports(MissPids(qs, idx), Reports(qs, idx, t), |idx|)
  }

  function DeadlineStep(s: Sim, t: int): (r: Sim)
    requires -1 <= s.cur < |s.queue|
    ensures -1 <= r.cur < |r.queue|
  {
    s.(queue := DeadlinePass(s.queue, t), log := s.log + MissEvents(s.queue, t))
  }

  // ---------------------------------------------------------------------
  // Steps 2 and 3: admission and the queue snapshot
  // ---------------------------------------------------------------------

  /** The instances admitted at tick `t`, in ascending descriptor order. */
  function Arrivals(tasks: seq<Task>, t: int): seq<Inst>
    requires PeriodsPositive(tasks)
  {
    if tasks == [] then []
    else
      var last := tasks[|tasks| - 1];
      Arrivals(tasks[..|tasks| - 1], t) + (if t % last.period == 0 then [NewInst(last, t)] else [])
  }

  /** print_queue: pid and remaining CPU time of each instance, oldest first. */
  function QueueListing(qs: seq<Inst>): seq<Entry> {
    seq(|qs|, i requires 0 <= i < |qs| => Entry(qs[i].pid, qs[i].cpuTime - qs[i].runningTime))
  }

  function AdmitStep(s: Sim, tasks: seq<Task>, t: int): (r: Sim)
    requires PeriodsPositive(tasks)
    requires -1 <= s.cur < |s.queue|
    ensures -1 <= r.cur < |r.queue|
  {
    var arrived := Arrivals(tasks, t);
    var q := s.queue + arrived;
    s.(queue := q, totalScheduled := s.totalScheduled + |arrived|,
       log := s.log + if |arrived| > 0 then [Snapshot(t, QueueListing(q))] else [])
  }

  // ---------------------------------------------------------------------
  // Step 4: dispatch or preemption
  // ---------------------------------------------------------------------

  /**
   * With no current instance, the earliest-deadline instance starts; with
   * one, an instance with a strictly earlier deadline preempts it. The
   * queue itself is not changed: a preempted instance stays where it is.
   * (When no deadline is below INT_MAX the source would index queue[-1];
   * the run's preconditions rule that out, see TicksInv.)
   */
  function DispatchStep(s: Sim, t: int): (r: Sim)
    requires -1 <= s.cur < |s.queue|
    ensures -1 <= r.cur < |r.queue|
  {
    if |s.queue| == 0 then s
    else if s.cur == -1 then
      var j := FirstMinBelow(DueBys(s.queue), INT_MAX);
      if j == -1 then s
      else s.(cur := j, log := s.log + [Start(t, s.queue[j].pid)])
    else
      var j := FirstMinBelow(DueBys(s.queue), s.queue[s.cur].dueBy);
      if j == -1 then s
      else s.(cur := j, log := s.log + [Preempted(t, s.queue[s.cur].pid), Start(t, s.queue[j].pid)])
  }

  // ---------------------------------------------------------------------
  // Step 5: run the current instance, complete it when it is done
  // ---------------------------------------------------------------------

  function RunStep(s: Sim, t: int): (r: Sim)
    requires -1 <= s.cur < |s.queue|
    ensures -1 <= r.cur < |r.queue|
  {
    if s.cur == -1 then s
    else
      var p := s.queue[s.cur].(runningTime := s.queue[s.cur].runningTime + 1);
      if p.runningTime == p.cpuTime then
        s.(queue := s.queue[..s.cur] + s.queue[s.cur + 1..], cur := -1,
           totalWait := s.totalWait + p.waitingTime,
           log := s.log + [Ends(t + 1, p.pid)], finished := s.finished + [p])
      else
        s.(queue := s.queue[s.cur := p])
  }

  // ---------------------------------------------------------------------
  // Step 6: every queued instance but the current one waits
  // ---------------------------------------------------------------------

  function AddWaits(qs: seq<Inst>, cur: int): seq<Inst> {
    seq(|qs|, i requires 0 <= i < |qs| =>
      if i == cur then qs[i] else qs[i].(waitingTime := qs[i].waitingTime + 1))
  }

  function WaitStep(s: Sim): (r: Sim)
    requires -1 <= s.cur < |s.queue|
    ensures -1 <= r.cur < |r.queue|
  {
    if |s.queue| != 0 then s.(queue := AddWaits(s.queue, s.cur)) else s
  }

  // ---------------------------------------------------------------------
  // The run
  // ---------------------------------------------------------------------

  /** One iteration of the `for t` loop of scheduling_loop. */
  function Tick(tasks: seq<Task>, s: Sim, t: int): (r: Sim)
    requires PeriodsPositive(tasks)
    requires -1 <= s.cur < |s.queue|
    ensures -1 <= r.cur < |r.queue|
  {
    WaitStep(RunStep(DispatchStep(AdmitStep(DeadlineStep(s, t), tasks, t), t), t))
  }

  const Init: Sim := Sim([], -1, 0, 0, [], [])

  /** The state after ticks 0 .. n-1. */
  function Ticks(tasks: seq<Task>, n: nat): (r: Sim)
    requires PeriodsPositive(tasks)
    ensures -1 <= r.cur < |r.queue|
  {
    if n == 0 then Init else Tick(tasks, Ticks(tasks, n - 1), n - 1)
  }

  function SumWaits(qs: seq<Inst>): int {
    if qs == [] then 0 else SumWaits(qs[..|qs| - 1]) + qs[|qs| - 1].waitingTime
  }

  /** Everything scheduling_loop prints for `maxTime` ticks, summary included. */
  function Simulate(tasks: seq<Task>, maxTime: nat): seq<Event>
    requires PeriodsPositive(tasks)
  {
    Report(Ticks(tasks, maxTime), maxTime)
  }

  function Report(s: Sim, maxTime: nat): seq<Event> {
    s.log + [MaxTime(maxTime), Summary(s.totalWait + SumWaits(s.queue), s.totalScheduled)]
  }
}
