/*
 * Properties of the value-level EDF run: the state invariant every tick
 * preserves, how many instances are admitted, the order of the miss reports,
 * what dispatch chooses, and the shape of the event log.
 */
module EdfProps {
  import opened EdfSpec
  import opened EdfArith

  // ---------------------------------------------------------------------
  // Well-formed inputs and the state invariant
  // ---------------------------------------------------------------------

  /**
   * The descriptors the run is started with: positive CPU times and periods,
   * pids below INT_MAX (the miss-report sort uses INT_MAX as "done"), and
   * every deadline the run can set (at most maxTime - 1 + period) below
   * INT_MAX, so that get_earliest_deadline called with INT_MAX finds one.
   */
  ghost predicate TasksOk(tasks: seq<Task>, maxTime: int) {
    forall i :: 0 <= i < |tasks| ==>
      0 < tasks[i].cpuTime && 0 < tasks[i].period &&
      tasks[i].pid < INT_MAX && maxTime + tasks[i].period <= INT_MAX
  }

  /** A queued instance at the start of tick `t`: not yet done, due in [t, t + period). */
  ghost predicate InstOk(p: Inst, t: int, maxTime: int) {
    0 <= p.runningTime < p.cpuTime && 0 <= p.waitingTime && 0 < p.period &&
    t <= p.dueBy < t + p.period && maxTime + p.period <= INT_MAX && p.pid < INT_MAX
  }

  ghost predicate QueueOk(qs: seq<Inst>, t: int, maxTime: int) {
    forall i {:trigger InstOk(qs[i], t, maxTime)} :: 0 <= i < |qs| ==> InstOk(qs[i], t, maxTime)
  }

  /** How many of the ticks 0 .. n-1 are multiples of `p`. */
  function ArrivalCount(p: int, n: nat): (c: nat)
    requires p > 0
  {
    if n == 0 then 0 else ArrivalCount(p, n - 1) + if (n - 1) % p == 0 then 1 else 0
  }

  /** How many instances the ticks 0 .. n-1 admit in all. */
  function Admitted(tasks: seq<Task>, n: nat): nat
    requires PeriodsPositive(tasks)
  {
    if tasks == [] then 0
    else Admitted(tasks[..|tasks| - 1], n) + ArrivalCount(tasks[|tasks| - 1].period, n)
  }

  /**
   * The invariant of the run at the start of tick `t`: every queued instance
   * is unfinished and due within one period; every completed instance ran
   * exactly its CPU time; every admitted instance is either completed or
   * queued; and the running wait total is the sum over the completed ones.
   */
  ghost predicate Inv(tasks: seq<Task>, maxTime: int, s: Sim, t: nat)
    requires PeriodsPositive(tasks)
  {
    -1 <= s.cur < |s.queue| &&
    QueueOk(s.queue, t, maxTime) &&
    (forall k :: 0 <= k < |s.finished| ==> s.finished[k].runningTime == s.finished[k].cpuTime) &&
    |s.finished| + |s.queue| == s.totalScheduled == Admitted(tasks, t) &&
    s.totalWait == SumWaits(s.finished)
  }

  // ---------------------------------------------------------------------
  // Sums
  // ---------------------------------------------------------------------

  lemma {:induction false} SumWaitsAppend(a: seq<Inst>, b: seq<Inst>)
    ensures SumWaits(a + b) == SumWaits(a) + SumWaits(b)
    decreases |b|
  {
    if b == [] {
      assert a + b == a;
    } else {
      assert (a + b)[..|a + b| - 1] == a + b[..|b| - 1];
      SumWaitsAppend(a, b[..|b| - 1]);
    }
  }

  // ---------------------------------------------------------------------
  // Admission
  // ---------------------------------------------------------------------

  /** Tick `n` admits exactly one instance of every task whose period divides `n`. */
  lemma {:induction false} ArrivalsCount(tasks: seq<Task>, n: nat)
    requires PeriodsPositive(tasks)
    ensures Admitted(tasks, n) + |Arrivals(tasks, n)| == Admitted(tasks, n + 1)
  {
    if tasks != [] {
      ArrivalsCount(tasks[..|tasks| - 1], n);
    }
  }

  /** The arrivals of tick `t` are fresh instances due at t + period. */
  lemma {:induction false} ArrivalsOk(tasks: seq<Task>, t: nat, maxTime: int)
    requires TasksOk(tasks, maxTime)
    ensures QueueOk(Arrivals(tasks, t), t + 1, maxTime)
    ensures forall k :: 0 <= k < |Arrivals(tasks, t)| ==> Arrivals(tasks, t)[k].waitingTime == 0
  {
    if tasks != [] {
      ArrivalsOk(tasks[..|tasks| - 1], t, maxTime);
    }
  }

  /**
   * Which instances tick `t` admits: exactly the new instances of the tasks
   * whose period divides t.
   */
  lemma {:induction false} ArrivalsExactly(tasks: seq<Task>, t: int)
    requires PeriodsPositive(tasks)
    ensures forall x :: x in Arrivals(tasks, t) <==>
      exists i :: 0 <= i < |tasks| && t % tasks[i].period == 0 && x == NewInst(tasks[i], t)
  {
    if tasks != [] {
      var front := tasks[..|tasks| - 1];
      ArrivalsExactly(front, t);
      assert forall i :: 0 <= i < |front| ==> front[i] == tasks[i];
      forall x | exists i :: 0 <= i < |tasks| && t % tasks[i].period == 0 && x == NewInst(tasks[i], t)
        ensures x in Arrivals(tasks, t)
      {
        var i :| 0 <= i < |tasks| && t % tasks[i].period == 0 && x == NewInst(tasks[i], t);
        if i < |front| {
          assert x in Arrivals(front, t);
        }
      }
    }
  }

  // ---------------------------------------------------------------------
  // One tick preserves the invariant
  // ---------------------------------------------------------------------

  lemma DeadlineStepOk(s: Sim, t: nat, maxTime: int)
    requires -1 <= s.cur < |s.queue| && QueueOk(s.queue, t, maxTime)
    ensures QueueOk(DeadlineStep(s, t).queue, t + 1, maxTime)
  {
    var q := DeadlineStep(s, t).queue;
    forall i | 0 <= i < |q| ensures InstOk(q[i], t + 1, maxTime) {
      assert InstOk(s.queue[i], t, maxTime);
    }
  }

  lemma RunStepOk(s: Sim, t: nat, maxTime: int)
    requires -1 <= s.cur < |s.queue| && QueueOk(s.queue, t + 1, maxTime)
    requires forall k :: 0 <= k < |s.finished| ==> s.finished[k].runningTime == s.finished[k].cpuTime
    requires s.totalWait == SumWaits(s.finished)
    ensures var r := RunStep(s, t);
      QueueOk(r.queue, t + 1, maxTime) &&
      (forall k :: 0 <= k < |r.finished| ==> r.finished[k].runningTime == r.finished[k].cpuTime) &&
      |r.finished| + |r.queue| == |s.finished| + |s.queue| &&
      r.totalScheduled == s.totalScheduled && r.totalWait == SumWaits(r.finished)
  {
    if s.cur != -1 {
      var q := s.queue;
      var p := q[s.cur].(runningTime := q[s.cur].runningTime + 1);
      assert InstOk(q[s.cur], t + 1, maxTime);
      if p.runningTime == p.cpuTime {
        QueueOkRemove(q, s.cur, t + 1, maxTime);
        assert (s.finished + [p])[..|s.finished|] == s.finished;
      } else {
        QueueOkUpdate(q, s.cur, p, t + 1, maxTime);
      }
    }
  }

  /** Removing one instance keeps the rest well formed. */
  lemma QueueOkRemove(qs: seq<Inst>, j: int, t: int, maxTime: int)
    requires 0 <= j < |qs| && QueueOk(qs, t, maxTime)
    ensures QueueOk(qs[..j] + qs[j + 1..], t, maxTime)
  {
    var q' := qs[..j] + qs[j + 1..];
    forall i | 0 <= i < |q'| ensures InstOk(q'[i], t, maxTime) {
      assert q'[i] == qs[if i < j then i else i + 1];
    }
  }

  /** Replacing one instance by a well-formed one keeps the queue well formed. */
  lemma QueueOkUpdate(qs: seq<Inst>, j: int, p: Inst, t: int, maxTime: int)
    requires 0 <= j < |qs| && QueueOk(qs, t, maxTime) && InstOk(p, t, maxTime)
    ensures QueueOk(qs[j := p], t, maxTime)
  {
    var q' := qs[j := p];
    forall i | 0 <= i < |q'| ensures InstOk(q'[i], t, maxTime) {
      if i != j {
        assert q'[i] == qs[i];
      }
    }
  }

  lemma AdmitStepOk(tasks: seq<Task>, maxTime: int, s: Sim, t: nat)
    requires TasksOk(tasks, maxTime)
    requires -1 <= s.cur < |s.queue| && QueueOk(s.queue, t + 1, maxTime)
    requires s.totalScheduled == Admitted(tasks, t)
    ensures var r := AdmitStep(s, tasks, t);
      QueueOk(r.queue, t + 1, maxTime) && r.finished == s.finished && r.totalWait == s.totalWait &&
      |r.queue| - |s.queue| == r.totalScheduled - s.totalScheduled && r.totalScheduled == Admitted(tasks, t + 1)
  {
    ArrivalsOk(tasks, t, maxTime);
    ArrivalsCount(tasks, t);
    var arr := Arrivals(tasks, t);
    var q := s.queue + arr;
    assert forall i :: 0 <= i < |q| ==> q[i] == if i < |s.queue| then s.queue[i] else arr[i - |s.queue|];
  }

  lemma WaitStepOk(s: Sim, t: nat, maxTime: int)
    requires -1 <= s.cur < |s.queue| && QueueOk(s.queue, t + 1, maxTime)
    ensures var r := WaitStep(s);
      QueueOk(r.queue, t + 1, maxTime) && r.(queue := s.queue) == s && |r.queue| == |s.queue|
  {
    var r := WaitStep(s);
    forall i | 0 <= i < |r.queue| ensures InstOk(r.queue[i], t + 1, maxTime) {
      assert InstOk(s.queue[i], t + 1, maxTime);
    }
  }

  /**
   * The invariant between the steps of tick `t`: as Inv, but with the
   * queue already checked against the deadlines of tick t + 1 and with
   * `admitted` instances scheduled so far.
   */
  ghost predicate MidTick(s: Sim, t: int, maxTime: int, admitted: int) {
    -1 <= s.cur < |s.queue| &&
    QueueOk(s.queue, t + 1, maxTime) &&
    (forall k :: 0 <= k < |s.finished| ==> s.finished[k].runningTime == s.finished[k].cpuTime) &&
    |s.finished| + |s.queue| == s.totalScheduled == admitted &&
    s.totalWait == SumWaits(s.finished)
  }

  lemma DeadlineStepMid(tasks: seq<Task>, maxTime: int, s: Sim, t: nat)
    requires TasksOk(tasks, maxTime) && Inv(tasks, maxTime, s, t)
    ensures MidTick(DeadlineStep(s, t), t, maxTime, Admitted(tasks, t))
  {
    DeadlineStepOk(s, t, maxTime);
  }

  lemma AdmitStepMid(tasks: seq<Task>, maxTime: int, s: Sim, t: nat)
    requires TasksOk(tasks, maxTime) && MidTick(s, t, maxTime, Admitted(tasks, t))
    ensures MidTick(AdmitStep(s, tasks, t), t, maxTime, Admitted(tasks, t + 1))
  {
    AdmitStepOk(tasks, maxTime, s, t);
  }

  lemma DispatchStepMid(s: Sim, t: nat, maxTime: int, admitted: int)
    requires MidTick(s, t, maxTime, admitted)
    ensures MidTick(DispatchStep(s, t), t, maxTime, admitted)
  {
    var r := DispatchStep(s, t);
    assert r.queue == s.queue && r.finished == s.finished;
  }

  lemma RunStepMid(s: Sim, t: nat, maxTime: int, admitted: int)
    requires MidTick(s, t, maxTime, admitted)
    ensures MidTick(RunStep(s, t), t, maxTime, admitted)
  {
    RunStepOk(s, t, maxTime);
  }

  lemma WaitStepMid(s: Sim, t: nat, maxTime: int, admitted: int)
    requires MidTick(s, t, maxTime, admitted)
    ensures MidTick(WaitStep(s), t, maxTime, admitted)
  {
    WaitStepOk(s, t, maxTime);
  }

  /** Every tick keeps the invariant (and so the counters stay consistent). */
  lemma TickOk(tasks: seq<Task>, maxTime: int, s: Sim, t: nat, r: Sim)
    requires TasksOk(tasks, maxTime)
    requires Inv(tasks, maxTime, s, t) && r == Tick(tasks, s, t)
    ensures Inv(tasks, maxTime, r, t + 1)
  {
    var s1 := DeadlineStep(s, t);
    DeadlineStepMid(tasks, maxTime, s, t);
    var s2 := AdmitStep(s1, tasks, t);
    AdmitStepMid(tasks, maxTime, s1, t);
    var s3 := DispatchStep(s2, t);
    DispatchStepMid(s2, t, maxTime, Admitted(tasks, t + 1));
    var s4 := RunStep(s3, t);
    RunStepMid(s3, t, maxTime, Admitted(tasks, t + 1));
    WaitStepMid(s4, t, maxTime, Admitted(tasks, t + 1));
  }

  lemma InitOk(tasks: seq<Task>, maxTime: int, n: nat)
    requires TasksOk(tasks, maxTime)
    requires n == 0
    ensures Inv(tasks, maxTime, Ticks(tasks, n), n)
  {
    AdmittedZero(tasks);
  }

  lemma {:induction false} AdmittedZero(tasks: seq<Task>)
    requires PeriodsPositive(tasks)
    ensures Admitted(tasks, 0) == 0
  {
    if tasks != [] {
      AdmittedZero(tasks[..|tasks| - 1]);
    }
  }

  /** Dispatch, the run step and the wait step admit nothing. */
  lemma DispatchRunWaitScheduled(s: Sim, t: int)
    requires -1 <= s.cur < |s.queue|
    ensures WaitStep(RunStep(DispatchStep(s, t), t)).totalScheduled == s.totalScheduled
  {
    var s3 := DispatchStep(s, t);
    assert s3.totalScheduled == s.totalScheduled;
    var s4 := RunStep(s3, t);
    assert s4.totalScheduled == s.totalScheduled;
  }

  /** Up to the horizon, queued pids and deadlines stay below INT_MAX. */
  lemma QueueBelowMax(qs: seq<Inst>, t: int, maxTime: int)
    requires QueueOk(qs, t, maxTime) && t <= maxTime
    ensures forall k :: 0 <= k < |qs| ==> qs[k].pid < INT_MAX && qs[k].dueBy < INT_MAX
  {
    forall k | 0 <= k < |qs| ensures qs[k].pid < INT_MAX && qs[k].dueBy < INT_MAX {
      assert InstOk(qs[k], t, maxTime);
    }
  }

  // ---------------------------------------------------------------------
  // The selection scan and the miss-report loop
  // ---------------------------------------------------------------------

  /** Values at or above the bound after position m do not change the scan. */
  lemma {:induction false} FirstMinBelowPad(s: seq<int>, m: int, bound: int)
    requires 0 <= m <= |s| && forall k :: m <= k < |s| ==> bound <= s[k]
    ensures FirstMinBelow(s, bound) == FirstMinBelow(s[..m], bound)
    decreases |s|
  {
    if m == |s| {
      assert s[..m] == s;
    } else {
      assert s[..|s| - 1][..m] == s[..m];
      FirstMinBelowPad(s[..|s| - 1], m, bound);
      FirstMinBelowSpec(s[..|s| - 1], bound);
    }
  }

  /** How many values of `s` are below `bound`. */
  function CountBelow(s: seq<int>, bound: int): (c: nat)
    ensures c <= |s|
  {
    if s == [] then 0 else CountBelow(s[..|s| - 1], bound) + if s[|s| - 1] < bound then 1 else 0
  }

  lemma {:induction false} CountBelowAll(s: seq<int>, bound: int)
    requires forall k :: 0 <= k < |s| ==> s[k] < bound
    ensures CountBelow(s, bound) == |s|
  {
    if s != [] {
      CountBelowAll(s[..|s| - 1], bound);
    }
  }

  /** A positive count means the scan finds something. */
  lemma {:induction false} CountBelowFound(s: seq<int>, bound: int)
    requires CountBelow(s, bound) > 0
    ensures FirstMinBelow(s, bound) != -1
  {
    if s[|s| - 1] >= bound {
      CountBelowFound(s[..|s| - 1], bound);
      FirstMinBelowSpec(s[..|s| - 1], bound);
    }
  }

  /** Overwriting one value below the bound with one at or above it lowers the count by one. */
  lemma {:induction false} CountBelowRemove(s: seq<int>, j: int, v: int, bound: int)
    requires 0 <= j < |s| && s[j] < bound <= v
    ensures CountBelow(s[j := v], bound) == CountBelow(s, bound) - 1
  {
    var s' := s[j := v];
    if j == |s| - 1 {
      assert s'[..|s'| - 1] == s[..|s| - 1];
    } else {
      assert s'[..|s'| - 1] == s[..|s| - 1][j := v];
      CountBelowRemove(s[..|s| - 1], j, v, bound);
    }
  }
}
