/*
 * What a whole EDF run promises: the invariant holds at every tick, every
 * task is admitted once per period, the miss reports of a tick come out in
 * ascending pid order, dispatch picks the earliest deadline and preempts
 * only for a strictly earlier one, a preemption line is always followed by
 * the start line of its replacement, and the summary counts every instance
 * and every millisecond of waiting.
 */
module EdfTheorems {
  import opened EdfSpec
  import opened EdfArith
  import opened EdfProps

  // ---------------------------------------------------------------------
  // The invariant over the whole run
  // ---------------------------------------------------------------------

  /** Up to the horizon, the state `s` after n ticks satisfies the run invariant. */
  lemma TicksInv(tasks: seq<Task>, maxTime: int, n: nat, s: Sim)
    requires TasksOk(tasks, maxTime) && n <= maxTime && s == Ticks(tasks, n)
    ensures Inv(tasks, maxTime, s, n)
  {
    var r := Ticks(tasks, 0);
    InitOk(tasks, maxTime, 0);
    for t := 0 to n
      invariant r == Ticks(tasks, t) && Inv(tasks, maxTime, r, t)
    {
      var r' := Tick(tasks, r, t);
      TickOk(tasks, maxTime, r, t, r');
      r := r';
    }
  }

  // ---------------------------------------------------------------------
  // Admission counts
  // ---------------------------------------------------------------------

  /** The ticks 0 .. n-1 contain ceil(n / p) multiples of p. */
  lemma {:induction false} ArrivalCountClosed(p: int, n: nat)
    requires p > 0
    ensures ArrivalCount(p, n) == (n + p - 1) / p
  {
    if n == 0 {
      DivUnique(p - 1, p, 0, p - 1);
    } else {
      ArrivalCountClosed(p, n - 1);
      var m := n - 1;
      var q, r := m / p, m % p;
      assert m == q * p + r;
      if r == 0 {
        DivUnique(m + p - 1, p, q, p - 1);
        DivUnique(n + p - 1, p, q + 1, 0);
      } else {
        DivUnique(m + p - 1, p, q + 1, r - 1);
        DivUnique(n + p - 1, p, q + 1, r);
      }
    }
  }

  /** Over a horizon that p divides, a task of period p is admitted horizon / p times. */
  lemma HorizonArrivals(p: int, maxTime: nat)
    requires p > 0 && maxTime % p == 0
    ensures ArrivalCount(p, maxTime) == maxTime / p
  {
    ArrivalCountClosed(p, maxTime);
    var q := maxTime / p;
    assert maxTime == q * p;
    DivUnique(maxTime + p - 1, p, q, p - 1);
  }

  /** The admissions summed over the tasks, each task contributing maxTime / period. */
  function PerPeriod(tasks: seq<Task>, maxTime: nat): int
    requires PeriodsPositive(tasks)
  {
    if tasks == [] then 0
    else PerPeriod(tasks[..|tasks| - 1], maxTime) + maxTime / tasks[|tasks| - 1].period
  }

  /** When every period divides the horizon, the run admits the sum of horizon / period. */
  lemma {:induction false} AdmittedOverHorizon(tasks: seq<Task>, maxTime: nat)
    requires PeriodsPositive(tasks)
    requires forall i :: 0 <= i < |tasks| ==> maxTime % tasks[i].period == 0
    ensures Admitted(tasks, maxTime) == PerPeriod(tasks, maxTime)
  {
    if tasks != [] {
      AdmittedOverHorizon(tasks[..|tasks| - 1], maxTime);
      HorizonArrivals(tasks[|tasks| - 1].period, maxTime);
    }
  }

  /** How many of the instances `xs` belong to the task with pid `pid`. */
  function CountPid(xs: seq<Inst>, pid: int): nat {
    if xs == [] then 0 else CountPid(xs[..|xs| - 1], pid) + if xs[|xs| - 1].pid == pid then 1 else 0
  }

  lemma {:induction false} CountPidAppend(a: seq<Inst>, b: seq<Inst>, pid: int)
    ensures CountPid(a + b, pid) == CountPid(a, pid) + CountPid(b, pid)
    decreases |b|
  {
    if b == [] {
      assert a + b == a;
    } else {
      assert (a + b)[..|a + b| - 1] == a + b[..|b| - 1];
      CountPidAppend(a, b[..|b| - 1], pid);
    }
  }

  /** The instances of the task with pid `pid` that ticks 0 .. n-1 admit. */
  function AdmittedOf(tasks: seq<Task>, pid: int, n: nat): nat
    requires PeriodsPositive(tasks)
  {
    if n == 0 then 0 else AdmittedOf(tasks, pid, n - 1) + CountPid(Arrivals(tasks, n - 1), pid)
  }

  /** Pids no descriptor carries get no instance. */
  lemma {:induction false} NoArrivalsOf(tasks: seq<Task>, pid: int, t: int)
    requires PeriodsPositive(tasks)
    requires forall j :: 0 <= j < |tasks| ==> tasks[j].pid != pid
    ensures CountPid(Arrivals(tasks, t), pid) == 0
  {
    if tasks != [] {
      var front := tasks[..|tasks| - 1];
      var last := tasks[|tasks| - 1];
      assert forall j :: 0 <= j < |front| ==> front[j] == tasks[j];
      NoArrivalsOf(front, pid, t);
      var tail := if t % last.period == 0 then [NewInst(last, t)] else [];
      CountPidAppend(Arrivals(front, t), tail, pid);
      assert CountPid(tail, pid) == 0 by {
        if tail != [] {
          assert tail[..0] == [];
        }
      }
    }
  }

  /**
   * When pids are distinct, tick `t` admits one instance of descriptor `i`
   * when its period divides `t` and none otherwise.
   */
  lemma {:induction false} ArrivalsOfTask(tasks: seq<Task>, i: int, t: int)
    requires PeriodsPositive(tasks) && 0 <= i < |tasks|
    requires forall j :: 0 <= j < |tasks| && j != i ==> tasks[j].pid != tasks[i].pid
    ensures CountPid(Arrivals(tasks, t), tasks[i].pid) == if t % tasks[i].period == 0 then 1 else 0
  {
    var pid := tasks[i].pid;
    var front := tasks[..|tasks| - 1];
    var last := tasks[|tasks| - 1];
    assert forall j :: 0 <= j < |front| ==> front[j] == tasks[j];
    var tail := if t % last.period == 0 then [NewInst(last, t)] else [];
    assert Arrivals(tasks, t) == Arrivals(front, t) + tail;
    CountPidAppend(Arrivals(front, t), tail, pid);
    if tail != [] {
      assert tail[..0] == [];
    }
    if i == |tasks| - 1 {
      NoArrivalsOf(front, pid, t);
    } else {
      ArrivalsOfTask(front, i, t);
    }
  }

  /** Over ticks 0 .. n-1, descriptor `i` is admitted once per multiple of its period. */
  lemma {:induction false} AdmittedOfTask(tasks: seq<Task>, i: int, n: nat)
    requires PeriodsPositive(tasks) && 0 <= i < |tasks|
    requires forall j :: 0 <= j < |tasks| && j != i ==> tasks[j].pid != tasks[i].pid
    ensures AdmittedOf(tasks, tasks[i].pid, n) == ArrivalCount(tasks[i].period, n)
  {
    if n > 0 {
      AdmittedOfTask(tasks, i, n - 1);
      ArrivalsOfTask(tasks, i, n - 1);
    }
  }

  /** When its period divides the horizon, descriptor `i` is admitted horizon / period times. */
  lemma TaskOverHorizon(tasks: seq<Task>, i: int, maxTime: nat)
    requires PeriodsPositive(tasks) && 0 <= i < |tasks|
    requires forall j :: 0 <= j < |tasks| && j != i ==> tasks[j].pid != tasks[i].pid
    requires maxTime % tasks[i].period == 0
    ensures AdmittedOf(tasks, tasks[i].pid, maxTime) == maxTime / tasks[i].period
  {
    AdmittedOfTask(tasks, i, maxTime);
    HorizonArrivals(tasks[i].period, maxTime);
  }

  // ---------------------------------------------------------------------
  // The order of the miss reports
  // ---------------------------------------------------------------------

  /** A count of zero means every key is at or above the bound. */
  lemma {:induction false} CountBelowZero(s: seq<int>, bound: int)
    requires CountBelow(s, bound) == 0
    ensures forall i :: 0 <= i < |s| ==> bound <= s[i]
  {
    if s != [] {
      CountBelowZero(s[..|s| - 1], bound);
    }
  }

  /**
   * Taking the first strict minimum below INT_MAX `remaining` times takes
   * `remaining` positions whose keys are below INT_MAX, and, when `remaining`
   * is the number of such keys, every one of them.
   */
  lemma {:induction false} SelectOrderTakes(keys: seq<int>, remaining: nat)
    requires remaining <= CountBelow(keys, INT_MAX)
    ensures var o := SelectOrder(keys, remaining);
      |o| == remaining &&
      (forall k :: 0 <= k < |o| ==> keys[o[k]] < INT_MAX) &&
      (remaining == CountBelow(keys, INT_MAX) ==>
        forall i :: 0 <= i < |keys| && keys[i] < INT_MAX ==> i in o)
    decreases remaining
  {
    if remaining == 0 {
      if remaining == CountBelow(keys, INT_MAX) {
        CountBelowZero(keys, INT_MAX);
      }
    } else {
      CountBelowFound(keys, INT_MAX);
      FirstMinBelowSpec(keys, INT_MAX);
      var j := FirstMinBelow(keys, INT_MAX);
      var keys' := keys[j := INT_MAX];
      CountBelowRemove(keys, j, INT_MAX, INT_MAX);
      SelectOrderTakes(keys', remaining - 1);
      var o' := SelectOrder(keys', remaining - 1);
      var o := SelectOrder(keys, remaining);
      assert o == [j] + o';
      forall k | 0 <= k < |o| ensures keys[o[k]] < INT_MAX {
        if k > 0 {
          assert o[k] == o'[k - 1] && keys'[o'[k - 1]] < INT_MAX;
        }
      }
      if remaining == CountBelow(keys, INT_MAX) {
        forall i | 0 <= i < |keys| && keys[i] < INT_MAX ensures i in o {
          if i != j {
            assert keys'[i] < INT_MAX;
          }
        }
      }
    }
  }

  /**
   * `o` lists distinct positions of `keys` in a stable sorted order: keys
   * non-decreasing, equal keys in position order.
   */
  ghost predicate StableOrder(keys: seq<int>, o: seq<int>) {
    (forall k :: 0 <= k < |o| ==> 0 <= o[k] < |keys|) &&
    forall k, l :: 0 <= k < l < |o| ==>
      o[k] != o[l] && keys[o[k]] <= keys[o[l]] && (keys[o[k]] == keys[o[l]] ==> o[k] < o[l])
  }

  /**
   * Putting the first minimum j of the keys in front of a stable order of
   * the other keys (j overwritten with INT_MAX) gives a stable order.
   */
  lemma StableOrderCons(keys: seq<int>, j: int, o: seq<int>)
    requires 0 <= j < |keys| && keys[j] < INT_MAX
    requires forall i :: 0 <= i < |keys| ==> keys[j] <= keys[i]
    requires forall i :: 0 <= i < j ==> keys[j] < keys[i]
    requires StableOrder(keys[j := INT_MAX], o)
    requires forall k :: 0 <= k < |o| ==> keys[j := INT_MAX][o[k]] < INT_MAX
    ensures StableOrder(keys, [j] + o)
  {
    var keys' := keys[j := INT_MAX];
    var o2 := [j] + o;
    assert forall k :: 0 <= k < |o| ==> o[k] != j && keys[o[k]] == keys'[o[k]];
    forall k, l | 0 <= k < l < |o2|
      ensures o2[k] != o2[l] && keys[o2[k]] <= keys[o2[l]] && (keys[o2[k]] == keys[o2[l]] ==> o2[k] < o2[l])
    {
      var b := o[l - 1];
      assert o2[l] == b;
      if k == 0 {
        assert b < j ==> keys[j] < keys[b];
      } else {
        assert o2[k] == o[k - 1];
      }
    }
  }

  /**
   * The positions SelectOrder takes form a stable sort by key: distinct,
   * keys non-decreasing, equal keys in position order.
   */
  lemma {:induction false} SelectOrderSorted(keys: seq<int>, remaining: nat)
    requires remaining <= CountBelow(keys, INT_MAX)
    ensures StableOrder(keys, SelectOrder(keys, remaining))
    decreases remaining
  {
    if remaining > 0 {
      CountBelowFound(keys, INT_MAX);
      FirstMinBelowSpec(keys, INT_MAX);
      var j := FirstMinBelow(keys, INT_MAX);
      var keys' := keys[j := INT_MAX];
      CountBelowRemove(keys, j, INT_MAX, INT_MAX);
      SelectOrderTakes(keys', remaining - 1);
      SelectOrderSorted(keys', remaining - 1);
      StableOrderCons(keys, j, SelectOrder(keys', remaining - 1));
    }
  }

  /** The reports come out in the order SelectOrder takes their keys. */
  lemma {:induction false} SelectReportsOrder(keys: seq<int>, reports: seq<Event>, remaining: nat)
    requires |keys| == |reports|
    ensures var o := SelectOrder(keys, remaining);
      SelectReports(keys, reports, remaining) == seq(|o|, k requires 0 <= k < |o| => reports[o[k]])
    decreases remaining
  {
    if remaining > 0 && FirstMinBelow(keys, INT_MAX) != -1 {
      var j := FirstMinBelow(keys, INT_MAX);
      SelectReportsOrder(keys[j := INT_MAX], reports, remaining - 1);
    }
  }

  /** MissedUpTo lists, in increasing order, every position below n that is due at t. */
  lemma {:induction false} MissedUpToSpec(qs: seq<Inst>, t: int, n: nat)
    requires n <= |qs|
    ensures var idx := MissedUpTo(qs, t, n);
      (forall k, l :: 0 <= k < l < |idx| ==> idx[k] < idx[l]) &&
      (forall i :: 0 <= i < n && qs[i].dueBy == t ==> i in idx)
  {
    if n > 0 {
      MissedUpToSpec(qs, t, n - 1);
    }
  }

  /** MissedIdx lists, in increasing order, every position that is due at t. */
  lemma MissedIdxSpec(qs: seq<Inst>, t: int)
    ensures var idx := MissedIdx(qs, t);
      (forall k, l :: 0 <= k < l < |idx| ==> idx[k] < idx[l]) &&
      (forall i :: 0 <= i < |qs| && qs[i].dueBy == t ==> i in idx)
  {
    MissedUpToSpec(qs, t, |qs|);
  }

  /** The queue positions of the miss reports of tick t, in printing order. */
  function PrintOrder(qs: seq<Inst>, t: int): (po: seq<int>)
    ensures forall k :: 0 <= k < |po| ==> 0 <= po[k] < |qs| && qs[po[k]].dueBy == t
  {
    var idx := MissedIdx(qs, t);
    var o := SelectOrder(MissPids(qs, idx), |idx|);
    seq(|o|, k requires 0 <= k < |o| => idx[o[k]])
  }

  /** The miss reports are the reports of the positions PrintOrder lists, in that order. */
  lemma MissReportsAre(qs: seq<Inst>, t: int)
    ensures var po := PrintOrder(qs, t); var out := MissEvents(qs, t);
      |out| == |po| && forall k :: 0 <= k < |po| ==> out[k] == MissOf(qs[po[k]], t)
  {
    var idx := MissedIdx(qs, t);
    var keys := MissPids(qs, idx);
    SelectReportsOrder(keys, Reports(qs, idx, t), |idx|);
  }

  /** Every instance due at t is reported. */
  lemma PrintOrderComplete(qs: seq<Inst>, t: int)
    requires forall i :: 0 <= i < |qs| ==> qs[i].pid < INT_MAX
    ensures var po := PrintOrder(qs, t);
      forall i :: 0 <= i < |qs| && qs[i].dueBy == t ==> i in po
  {
    var idx := MissedIdx(qs, t);
    var keys := MissPids(qs, idx);
    MissedIdxSpec(qs, t);
    CountBelowAll(keys, INT_MAX);
    SelectOrderTakes(keys, |idx|);
    var o := SelectOrder(keys, |idx|);
    var po := PrintOrder(qs, t);
    forall i | 0 <= i < |qs| && qs[i].dueBy == t ensures i in po {
      var m :| 0 <= m < |idx| && idx[m] == i;
      assert keys[m] < INT_MAX;
      var k :| 0 <= k < |o| && o[k] == m;
      assert po[k] == i;
    }
  }

  /** Reported positions are distinct, pids ascend, and equal pids come in queue order. */
  lemma PrintOrderSorted(qs: seq<Inst>, t: int)
    requires forall i :: 0 <= i < |qs| ==> qs[i].pid < INT_MAX
    ensures var po := PrintOrder(qs, t);
      forall k, l :: 0 <= k < l < |po| ==>
        po[k] != po[l] && qs[po[k]].pid <= qs[po[l]].pid &&
        (qs[po[k]].pid == qs[po[l]].pid ==> po[k] < po[l])
  {
    var idx := MissedIdx(qs, t);
    var keys := MissPids(qs, idx);
    MissedIdxSpec(qs, t);
    CountBelowAll(keys, INT_MAX);
    SelectOrderSorted(keys, |idx|);
    var o := SelectOrder(keys, |idx|);
    var po := PrintOrder(qs, t);
    forall k, l | 0 <= k < l < |po|
      ensures po[k] != po[l] && qs[po[k]].pid <= qs[po[l]].pid &&
        (qs[po[k]].pid == qs[po[l]].pid ==> po[k] < po[l])
    {
      assert po[k] == idx[o[k]] && po[l] == idx[o[l]];
      assert keys[o[k]] == qs[po[k]].pid && keys[o[l]] == qs[po[l]].pid;
      assert o[k] != o[l] && 0 <= o[k] < |idx| && 0 <= o[l] < |idx|;
      if o[k] < o[l] {
        assert idx[o[k]] < idx[o[l]];
      } else {
        assert idx[o[l]] < idx[o[k]];
      }
    }
  }

  /**
   * The miss reports of a tick are the reports of exactly the instances due
   * at that tick, each once, in ascending pid order, and instances of the same
   * pid in queue order.
   */
  lemma MissReportsSorted(qs: seq<Inst>, t: int)
    requires forall i :: 0 <= i < |qs| ==> qs[i].pid < INT_MAX
    ensures var po := PrintOrder(qs, t); var out := MissEvents(qs, t);
      |out| == |po| &&
      (forall k :: 0 <= k < |po| ==> out[k] == MissOf(qs[po[k]], t)) &&
      (forall i :: 0 <= i < |qs| && qs[i].dueBy == t ==> i in po) &&
      (forall k, l :: 0 <= k < l < |po| ==>
        po[k] != po[l] && qs[po[k]].pid <= qs[po[l]].pid &&
        (qs[po[k]].pid == qs[po[l]].pid ==> po[k] < po[l]))
  {
    MissReportsAre(qs, t);
    PrintOrderComplete(qs, t);
    PrintOrderSorted(qs, t);
  }

  // ---------------------------------------------------------------------
  // Dispatch and preemption
  // ---------------------------------------------------------------------

  /**
   * An idle processor with a non-empty queue, every deadline below INT_MAX,
   * starts an instance of earliest deadline, the first such in queue order,
   * and logs its start; nothing else changes.
   */
  lemma DispatchIdle(s: Sim, t: int)
    requires -1 <= s.cur < |s.queue| && s.cur == -1 && |s.queue| > 0
    requires forall i :: 0 <= i < |s.queue| ==> s.queue[i].dueBy < INT_MAX
    ensures var r := DispatchStep(s, t); var q := s.queue;
      r.(cur := s.cur, log := s.log) == s && 0 <= r.cur < |q| &&
      (forall i :: 0 <= i < |q| ==> q[r.cur].dueBy <= q[i].dueBy) &&
      (forall i :: 0 <= i < r.cur ==> q[r.cur].dueBy < q[i].dueBy) &&
      r.log == s.log + [Start(t, q[r.cur].pid)]
  {
    var ds := DueBys(s.queue);
    FirstMinBelowSpec(ds, INT_MAX);
    assert ds[0] < INT_MAX;
  }

  /**
   * A busy processor is preempted exactly when some queued deadline is
   * strictly earlier than the current one. Then an instance of earliest
   * deadline, the first such in queue order, becomes current, the preempted
   * instance stays queued as it was, and the log gains the preemption line
   * followed by the start line; otherwise nothing changes.
   */
  lemma DispatchPreempts(s: Sim, t: int)
    requires 0 <= s.cur < |s.queue|
    ensures var r := DispatchStep(s, t); var q := s.queue;
      r.queue == s.queue && r.(cur := s.cur, log := s.log) == s &&
      (r.cur != s.cur <==> exists i :: 0 <= i < |q| && q[i].dueBy < q[s.cur].dueBy) &&
      (r.cur == s.cur ==> r == s) &&
      (r.cur != s.cur ==>
        q[r.cur].dueBy < q[s.cur].dueBy &&
        (forall i :: 0 <= i < |q| ==> q[r.cur].dueBy <= q[i].dueBy) &&
        (forall i :: 0 <= i < r.cur ==> q[r.cur].dueBy < q[i].dueBy) &&
        r.log == s.log + [Preempted(t, q[s.cur].pid), Start(t, q[r.cur].pid)])
  {
    var q := s.queue;
    var ds := DueBys(q);
    FirstMinBelowSpec(ds, q[s.cur].dueBy);
    var j := FirstMinBelow(ds, q[s.cur].dueBy);
    if j != -1 {
      assert j != s.cur;
    }
  }

  /**
   * Under the run invariant, after the dispatch step a non-empty queue has a
   * current instance and its deadline is the earliest queued.
   */
  lemma DispatchEarliest(s: Sim, t: int, maxTime: int)
    requires -1 <= s.cur < |s.queue| && QueueOk(s.queue, t + 1, maxTime) && t + 1 <= maxTime
    ensures var r := DispatchStep(s, t);
      |r.queue| > 0 ==> r.cur != -1 && forall i :: 0 <= i < |r.queue| ==> r.queue[r.cur].dueBy <= r.queue[i].dueBy
  {
    QueueBelowMax(s.queue, t + 1, maxTime);
    if s.cur == -1 {
      if |s.queue| > 0 {
        DispatchIdle(s, t);
      }
    } else {
      DispatchPreempts(s, t);
    }
  }

  // ---------------------------------------------------------------------
  // The shape of the log
  // ---------------------------------------------------------------------

  /** Every preemption line is followed at once by a start line of the same tick. */
  ghost predicate StartFollowsPreempt(log: seq<Event>) {
    forall k :: 0 <= k < |log| && log[k].Preempted? ==>
      k + 1 < |log| && log[k + 1].Start? && log[k + 1].t == log[k].t
  }

  lemma StartFollowsAppend(a: seq<Event>, b: seq<Event>)
    requires StartFollowsPreempt(a) && StartFollowsPreempt(b)
    ensures StartFollowsPreempt(a + b)
  {
    var c := a + b;
    forall k | 0 <= k < |c| && c[k].Preempted?
      ensures k + 1 < |c| && c[k + 1].Start? && c[k + 1].t == c[k].t
    {
      if k < |a| {
        assert c[k] == a[k] && c[k + 1] == a[k + 1];
      } else {
        assert c[k] == b[k - |a|] && c[k + 1] == b[k + 1 - |a|];
      }
    }
  }

  /** The deadline step logs only miss reports. */
  lemma DeadlineStepShape(s: Sim, t: int)
    requires -1 <= s.cur < |s.queue|
    ensures StartFollowsPreempt(s.log) ==> StartFollowsPreempt(DeadlineStep(s, t).log)
  {
    MissReportsAre(s.queue, t);
    var m := MissEvents(s.queue, t);
    assert forall k :: 0 <= k < |m| ==> m[k].Miss?;
    if StartFollowsPreempt(s.log) {
      StartFollowsAppend(s.log, m);
    }
  }

  /** Admission logs at most a queue snapshot. */
  lemma AdmitStepShape(tasks: seq<Task>, s: Sim, t: int)
    requires PeriodsPositive(tasks) && -1 <= s.cur < |s.queue|
    ensures StartFollowsPreempt(s.log) ==> StartFollowsPreempt(AdmitStep(s, tasks, t).log)
  {
    var r := AdmitStep(s, tasks, t);
    var seg := r.log[|s.log|..];
    assert s.log + seg == r.log;
    if StartFollowsPreempt(s.log) {
      StartFollowsAppend(s.log, seg);
    }
  }

  /** Dispatch logs nothing, a start line, or a preemption line and then a start line. */
  lemma DispatchStepShape(s: Sim, t: int)
    requires -1 <= s.cur < |s.queue|
    ensures StartFollowsPreempt(s.log) ==> StartFollowsPreempt(DispatchStep(s, t).log)
  {
    var r := DispatchStep(s, t);
    var seg := r.log[|s.log|..];
    assert s.log + seg == r.log;
    if StartFollowsPreempt(s.log) {
      StartFollowsAppend(s.log, seg);
    }
  }

  /** The run step logs at most a completion line. */
  lemma RunStepShape(s: Sim, t: int)
    requires -1 <= s.cur < |s.queue|
    ensures StartFollowsPreempt(s.log) ==> StartFollowsPreempt(RunStep(s, t).log)
  {
    var r := RunStep(s, t);
    var seg := r.log[|s.log|..];
    assert s.log + seg == r.log;
    if StartFollowsPreempt(s.log) {
      StartFollowsAppend(s.log, seg);
    }
  }

  /** No tick breaks the shape. */
  lemma TickShape(tasks: seq<Task>, s: Sim, t: int)
    requires PeriodsPositive(tasks) && -1 <= s.cur < |s.queue|
    ensures StartFollowsPreempt(s.log) ==> StartFollowsPreempt(Tick(tasks, s, t).log)
  {
    var s1 := DeadlineStep(s, t);
    var s2 := AdmitStep(s1, tasks, t);
    var s3 := DispatchStep(s2, t);
    DeadlineStepShape(s, t);
    AdmitStepShape(tasks, s1, t);
    DispatchStepShape(s2, t);
    RunStepShape(s3, t);
  }

  /** In everything a run prints, a preemption line is always followed by a start line. */
  lemma SimulateShape(tasks: seq<Task>, maxTime: nat)
    requires PeriodsPositive(tasks)
    ensures StartFollowsPreempt(Simulate(tasks, maxTime))
  {
    var r := Ticks(tasks, 0);
    for t := 0 to maxTime
      invariant r == Ticks(tasks, t) && StartFollowsPreempt(r.log)
    {
      TickShape(tasks, r, t);
      r := Tick(tasks, r, t);
    }
    var tail := [MaxTime(maxTime), Summary(r.totalWait + SumWaits(r.queue), r.totalScheduled)];
    StartFollowsAppend(r.log, tail);
  }

  // ---------------------------------------------------------------------
  // Running and waiting time
  // ---------------------------------------------------------------------

  function SumRunning(qs: seq<Inst>): int {
    if qs == [] then 0 else SumRunning(qs[..|qs| - 1]) + qs[|qs| - 1].runningTime
  }

  lemma {:induction false} SumRunningAppend(a: seq<Inst>, b: seq<Inst>)
    ensures SumRunning(a + b) == SumRunning(a) + SumRunning(b)
    decreases |b|
  {
    if b == [] {
      assert a + b == a;
    } else {
      assert (a + b)[..|a + b| - 1] == a + b[..|b| - 1];
      SumRunningAppend(a, b[..|b| - 1]);
    }
  }

  /** Both sums split around position i. */
  lemma SumsAround(qs: seq<Inst>, i: int)
    requires 0 <= i < |qs|
    ensures SumRunning(qs) == SumRunning(qs[..i]) + qs[i].runningTime + SumRunning(qs[i + 1..])
    ensures SumWaits(qs) == SumWaits(qs[..i]) + qs[i].waitingTime + SumWaits(qs[i + 1..])
  {
    assert qs == qs[..i] + [qs[i]] + qs[i + 1..];
    SumRunningAppend(qs[..i] + [qs[i]], qs[i + 1..]);
    SumRunningAppend(qs[..i], [qs[i]]);
    SumWaitsAppend(qs[..i] + [qs[i]], qs[i + 1..]);
    SumWaitsAppend(qs[..i], [qs[i]]);
  }

  /**
   * The run step does one millisecond of work when an instance is current
   * and none otherwise, and loses no waiting time: a completed instance's
   * waits move from the queue into the running total.
   */
  lemma RunStepWork(s: Sim, t: int)
    requires -1 <= s.cur < |s.queue|
    ensures var r := RunStep(s, t);
      SumRunning(r.queue) + SumRunning(r.finished) ==
        SumRunning(s.queue) + SumRunning(s.finished) + (if s.cur == -1 then 0 else 1) &&
      SumWaits(r.queue) + r.totalWait == SumWaits(s.queue) + s.totalWait
  {
    if s.cur != -1 {
      var q, c := s.queue, s.cur;
      var p := q[c].(runningTime := q[c].runningTime + 1);
      SumsAround(q, c);
      if p.runningTime == p.cpuTime {
        SumRunningAppend(q[..c], q[c + 1..]);
        SumWaitsAppend(q[..c], q[c + 1..]);
        SumRunningAppend(s.finished, [p]);
      } else {
        SumsAround(q[c := p], c);
        assert q[c := p][..c] == q[..c] && q[c := p][c + 1..] == q[c + 1..];
      }
    }
  }

  lemma {:induction false} AddWaitsSums(qs: seq<Inst>, cur: int)
    ensures SumWaits(AddWaits(qs, cur)) == SumWaits(qs) + |qs| - (if 0 <= cur < |qs| then 1 else 0)
    ensures SumRunning(AddWaits(qs, cur)) == SumRunning(qs)
  {
    if qs != [] {
      var w := AddWaits(qs, cur);
      assert w[..|w| - 1] == AddWaits(qs[..|qs| - 1], cur);
      AddWaitsSums(qs[..|qs| - 1], cur);
    }
  }

  /**
   * The wait step adds one millisecond of waiting for every queued instance
   * but the current one, and no running time.
   */
  lemma WaitStepWaits(s: Sim)
    requires -1 <= s.cur < |s.queue|
    ensures var r := WaitStep(s);
      SumWaits(r.queue) == SumWaits(s.queue) + |s.queue| - (if s.cur == -1 then 0 else 1) &&
      SumRunning(r.queue) == SumRunning(s.queue)
  {
    AddWaitsSums(s.queue, s.cur);
  }

  // ---------------------------------------------------------------------
  // The summary line
  // ---------------------------------------------------------------------

  /**
   * The last two lines printed after a state that satisfies the invariant
   * at the horizon: the wait total is the sum of the waits of every instance
   * ever admitted (completed or still queued), and the count is the number
   * admitted, maxTime / period per task when every period divides the horizon.
   */
  lemma SummaryOf(tasks: seq<Task>, maxTime: nat, s: Sim)
    requires TasksOk(tasks, maxTime) && Inv(tasks, maxTime, s, maxTime)
    ensures var out := Report(s, maxTime);
      |out| >= 2 && out[|out| - 2] == MaxTime(maxTime) &&
      out[|out| - 1] == Summary(SumWaits(s.finished + s.queue), Admitted(tasks, maxTime)) &&
      |s.finished| + |s.queue| == Admitted(tasks, maxTime) &&
      ((forall i :: 0 <= i < |tasks| ==> maxTime % tasks[i].period == 0) ==>
        out[|out| - 1].totalScheduled == PerPeriod(tasks, maxTime))
  {
    SumWaitsAppend(s.finished, s.queue);
    if forall i :: 0 <= i < |tasks| ==> maxTime % tasks[i].period == 0 {
      AdmittedOverHorizon(tasks, maxTime);
    }
  }

  /** The summary of a whole run, as SummaryOf states it, for the state after maxTime ticks. */
  lemma SummaryLine(tasks: seq<Task>, maxTime: nat, s: Sim)
    requires TasksOk(tasks, maxTime) && s == Ticks(tasks, maxTime)
    ensures var out := Simulate(tasks, maxTime);
      |out| >= 2 && out[|out| - 2] == MaxTime(maxTime) &&
      out[|out| - 1] == Summary(SumWaits(s.finished + s.queue), Admitted(tasks, maxTime)) &&
      |s.finished| + |s.queue| == Admitted(tasks, maxTime) &&
      ((forall i :: 0 <= i < |tasks| ==> maxTime % tasks[i].period == 0) ==>
        out[|out| - 1].totalScheduled == PerPeriod(tasks, maxTime))
  {
    TicksInv(tasks, maxTime, maxTime, s);
    SummaryOf(tasks, maxTime, s);
  }
}
