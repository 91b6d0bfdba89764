/*
 * scheduling_loop and main of src/PA3/edf.c over the heap model: the ready
 * queue, the current-instance pointer and index, the two counters and the
 * printed lines (as an event log). Each tick is proved to move the heap
 * state exactly as EdfSpec.Tick moves the value-level state, so the whole
 * run prints EdfSpec.Simulate.
 */
module EdfLoop {
  import opened EdfSpec
  import opened EdfArith
  import opened EdfQueue
  import opened EdfProps
  import opened EdfSchedule
  import EdfTheorems

  /**
   * The heap state stands for `s`: the queue holds instances with the
   * values of s.queue, and curr_proc is null exactly when curr_ind is -1,
   * and otherwise is the instance at curr_ind.
   */
  ghost predicate Models(rq: ProcQueue, currProc: Process?, currInd: int, s: Sim)
    reads rq, rq.queue, Slots(rq.queue, rq.size)
  {
    rq.Valid() && Insts(rq.queue, rq.size) == s.queue && currInd == s.cur &&
    (currInd == -1 <==> currProc == null) &&
    (currInd != -1 ==> 0 <= currInd < rq.size && currProc == rq.queue[currInd])
  }

  /** The queue is well formed and its slots hold `objs`, whose values are `vals`. */
  ghost predicate Holds(rq: ProcQueue, vals: seq<Inst>, objs: seq<Process?>)
    reads rq, rq.queue, Slots(rq.queue, rq.size)
  {
    rq.Valid() && Insts(rq.queue, rq.size) == vals && rq.queue[..rq.size] == objs
  }

  /**
   * The admission loop of scheduling_loop (edf.c:250-258): in descriptor
   * order, every task whose period divides `t` gets a fresh instance pushed
   * at the tail, one more scheduled instance, and a request to print.
   */
  method AdmitArrivals(rq: ProcQueue, procs: seq<Task>, t: int, totalScheduled: int,
                       ghost vals0: seq<Inst>, ghost objs0: seq<Process?>)
    returns (ts: int, shouldPrint: bool, ghost added: seq<Process?>)
    requires Holds(rq, vals0, objs0) && PeriodsPositive(procs)
    modifies rq, rq.queue
    ensures Holds(rq, vals0 + Arrivals(procs, t), objs0 + added)
    ensures fresh(Elems(added))
    ensures rq.queue == old(rq.queue) || fresh(rq.queue)
    ensures ts == totalScheduled + |Arrivals(procs, t)| && shouldPrint == (|Arrivals(procs, t)| > 0)
  {
    ts, shouldPrint, added := totalScheduled, false, [];
    for i := 0 to |procs|
      invariant Holds(rq, vals0 + Arrivals(procs[..i], t), objs0 + added)
      invariant fresh(Elems(added))
      invariant rq.queue == old(rq.queue) || fresh(rq.queue)
      invariant ts == totalScheduled + |Arrivals(procs[..i], t)|
      invariant shouldPrint == (|Arrivals(procs[..i], t)| > 0)
    {
      assert procs[..i + 1][..i] == procs[..i];
      ghost var made;
      ts, shouldPrint, made := AdmitOne(rq, procs[i], t, ts, shouldPrint, vals0 + Arrivals(procs[..i], t), objs0 + added);
      ElemsAppend(added, made);
      AppendAssoc(objs0, added, made);
      added := added + made;
    }
    assert procs[..|procs|] == procs;
  }

  /**
   * One round of the admission loop (edf.c:251-257): a task whose period
   * divides `t` gets a fresh instance, pushed at the tail.
   */
  method AdmitOne(rq: ProcQueue, proc: Task, t: int, totalScheduled: int, shouldPrint: bool,
                  ghost vals: seq<Inst>, ghost objs: seq<Process?>)
    returns (ts: int, toPrint: bool, ghost made: seq<Process?>)
    requires Holds(rq, vals, objs) && proc.period > 0
    modifies rq, rq.queue
    ensures Holds(rq, vals + if t % proc.period == 0 then [NewInst(proc, t)] else [], objs + made)
    ensures fresh(Elems(made))
    ensures rq.queue == old(rq.queue) || fresh(rq.queue)
    ensures if t % proc.period == 0 then ts == totalScheduled + 1 && toPrint
      else ts == totalScheduled && toPrint == shouldPrint
  {
    ts, toPrint, made := totalScheduled, shouldPrint, [];
    if t % proc.period == 0 {
      var newProc := MakeProcess(proc, t);
      rq.Push(newProc);
      made := [newProc];
      assert Elems(made) == {newProc} by {
        assert made[0] == newProc;
        forall o | o in Elems(made) ensures o == newProc { }
      }
      ghost var vals' := vals + [NewInst(proc, t)];
      assert rq.queue[..rq.size] == objs + made;
      assert Insts(rq.queue, rq.size) == vals' by {
        forall k | 0 <= k < rq.size ensures Insts(rq.queue, rq.size)[k] == vals'[k] {
          if k < |vals| {
            assert rq.queue[k] == objs[k];
          }
        }
      }
      ts := totalScheduled + 1;
      toPrint := true;
    } else {
      assert objs + made == objs;
    }
  }

  /**
   * Dispatch (edf.c:267-284): with no current instance the earliest-deadline
   * instance starts; with one, an instance with a strictly earlier deadline
   * preempts it and starts. Deadlines below INT_MAX (which the run keeps,
   * see QueueBelowMax) make sure an idle processor always finds one.
   */
  method Dispatch(rq: ProcQueue, currProc: Process?, currInd: int, t: int, ghost s: Sim)
    returns (proc: Process?, ind: int, events: seq<Event>)
    requires Models(rq, currProc, currInd, s)
    requires forall k :: 0 <= k < |s.queue| ==> s.queue[k].dueBy < INT_MAX
    ensures Models(rq, proc, ind, DispatchStep(s, t)) && s.log + events == DispatchStep(s, t).log
  {
    proc, ind, events := currProc, currInd, [];
    if rq.size != 0 {
      if currProc == null {
        var earliestDl := GetEarliestDeadline(rq.queue, rq.size, t, INT_MAX);
        FirstMinBelowSpec(DueBys(s.queue), INT_MAX);
        proc := rq.queue[earliestDl];
        ind := earliestDl;
        events := [Start(t, proc.pid)];
      } else {
        var earliestDl := GetEarliestDeadline(rq.queue, rq.size, t, currProc.dueBy);
        if earliestDl != -1 {
          events := [Preempted(t, currProc.pid)];
          proc := rq.queue[earliestDl];
          ind := earliestDl;
          events := events + [Start(t, proc.pid)];
        }
      }
    }
  }

  /**
   * The run step (edf.c:287-298): the current instance runs one more
   * millisecond; when it reaches its CPU time it ends at t + 1, its wait is
   * added to the total, and it leaves the queue.
   */
  method RunCurrent(rq: ProcQueue, currProc: Process?, currInd: int, t: int, totalWait: int,
                    ghost s: Sim, ghost objs: seq<Process?>)
    returns (proc: Process?, ind: int, tw: int, events: seq<Event>, ghost removed: int)
    requires Models(rq, currProc, currInd, s) && totalWait == s.totalWait && rq.queue[..rq.size] == objs
    modifies rq`size, rq.queue, currProc
    ensures Models(rq, proc, ind, RunStep(s, t)) && tw == RunStep(s, t).totalWait
    ensures s.log + events == RunStep(s, t).log
    ensures rq.queue == old(rq.queue) && -1 <= removed < |objs|
    ensures rq.queue[..rq.size] == Without(objs, removed)
  {
    proc, ind, tw, events, removed := currProc, currInd, totalWait, [], -1;
    if currProc != null {
      ghost var qs := s.queue;
      ghost var p := BumpRunning(rq, currProc, currInd, qs, objs);
      if currProc.runningTime == currProc.cpuTime {
        events := [Ends(t + 1, currProc.pid)];
        tw := tw + currProc.waitingTime;
        EndCurrent(rq, currInd, qs[currInd := p], objs);
        assert qs[currInd := p][..currInd] + qs[currInd := p][currInd + 1..] == qs[..currInd] + qs[currInd + 1..];
        proc, ind, removed := null, -1, currInd;
      }
    }
  }

  /** The running instance gets one more millisecond (edf.c:288). */
  method BumpRunning(rq: ProcQueue, currProc: Process, currInd: int, ghost qs: seq<Inst>, ghost objs: seq<Process?>)
    returns (ghost p: Inst)
    requires Holds(rq, qs, objs) && 0 <= currInd < rq.size && currProc == rq.queue[currInd]
    modifies currProc
    ensures p == qs[currInd].(runningTime := qs[currInd].runningTime + 1) && p == currProc.Value()
    ensures Holds(rq, qs[currInd := p], objs)
  {
    currProc.runningTime := currProc.runningTime + 1;
    p := currProc.Value();
    assert Insts(rq.queue, rq.size) == qs[currInd := p] by {
      forall k | 0 <= k < rq.size ensures Insts(rq.queue, rq.size)[k] == qs[currInd := p][k] {
        if k != currInd {
          assert rq.queue[k] != currProc;
        }
      }
    }
  }

  /** A finished instance leaves the queue (edf.c:289-296). */
  method EndCurrent(rq: ProcQueue, currInd: int, ghost vals: seq<Inst>, ghost objs: seq<Process?>)
    requires Holds(rq, vals, objs) && 0 <= currInd < rq.size
    modifies rq`size, rq.queue
    ensures rq.queue == old(rq.queue)
    ensures Holds(rq, vals[..currInd] + vals[currInd + 1..], Without(objs, currInd))
  {
    var popped := rq.PopAt(currInd);
    assert Insts(rq.queue, rq.size) == vals[..currInd] + vals[currInd + 1..] by {
      forall k | 0 <= k < rq.size
        ensures Insts(rq.queue, rq.size)[k] == (vals[..currInd] + vals[currInd + 1..])[k]
      {
        var j := if k < currInd then k else k + 1;
        assert rq.queue[k] == objs[j];
      }
    }
  }

  /**
   * The wait step (edf.c:301-306): every queued instance except the current
   * one waits one more millisecond.
   */
  method IncrementWaits(rq: ProcQueue, currProc: Process?, currInd: int, ghost s: Sim)
    requires Models(rq, currProc, currInd, s)
    modifies Slots(rq.queue, rq.size)
    ensures Models(rq, currProc, currInd, WaitStep(s))
  {
    if rq.size != 0 {
      ghost var qs := Insts(rq.queue, rq.size);
      ghost var waited := AddWaits(qs, currInd);
      ghost var vals := qs;
      for i := 0 to rq.size
        invariant Insts(rq.queue, rq.size) == vals
        invariant |vals| == rq.size && forall k :: 0 <= k < rq.size ==> vals[k] == if k < i then waited[k] else qs[k]
      {
        if i == currInd {
          continue;
        }
        vals := WaitOne(rq.queue, rq.size, i, vals);
      }
      assert vals == waited;
    }
  }

  /** One round of the wait loop (edf.c:304): the instance in slot `i` waits one more millisecond. */
  method WaitOne(procs: array<Process?>, numProcs: int, i: int, ghost vals: seq<Inst>)
    returns (ghost vals': seq<Inst>)
    requires Distinct(procs, numProcs) && 0 <= i < numProcs && Insts(procs, numProcs) == vals
    modifies procs[i]
    ensures vals' == vals[i := vals[i].(waitingTime := vals[i].waitingTime + 1)]
    ensures Insts(procs, numProcs) == vals'
  {
    var p := procs[i];
    p.waitingTime := p.waitingTime + 1;
    vals' := vals[i := vals[i].(waitingTime := vals[i].waitingTime + 1)];
    assert Insts(procs, numProcs) == vals' by {
      forall k | 0 <= k < numProcs ensures Insts(procs, numProcs)[k] == vals'[k] {
        if k != i {
          assert procs[k] != p;
        }
      }
    }
  }

  /** The closing sum (edf.c:310-313): the waits of the instances still queued join the total. */
  method SumRemaining(rq: ProcQueue, totalWait: int) returns (tw: int)
    requires rq.Valid()
    ensures tw == totalWait + SumWaits(Insts(rq.queue, rq.size))
  {
    ghost var qs := Insts(rq.queue, rq.size);
    tw := totalWait;
    for i := 0 to rq.size
      invariant tw == totalWait + SumWaits(qs[..i])
    {
      assert qs[..i + 1][..i] == qs[..i];
      tw := tw + rq.queue[i].waitingTime;
    }
    assert qs[..rq.size] == qs;
  }

  /**
   * The first half of a tick (edf.c:246-264): the deadline pass, admission
   * and, when something was admitted, the queue snapshot. The instances
   * already queued stay in their slots; the admitted ones are fresh.
   */
  method CheckAndAdmit(rq: ProcQueue, procs: seq<Task>, maxTime: int, t: int,
                       currProc: Process?, currInd: int, totalScheduled: int,
                       log: seq<Event>, ghost s: Sim)
    returns (ts: int, log': seq<Event>, ghost added: seq<Process?>)
    requires TasksOk(procs, maxTime) && 0 <= t < maxTime && Inv(procs, maxTime, s, t)
    requires Models(rq, currProc, currInd, s) && totalScheduled == s.totalScheduled && log == s.log
    modifies rq, rq.queue, Slots(rq.queue, rq.size)
    ensures var r := AdmitStep(DeadlineStep(s, t), procs, t);
      Models(rq, currProc, currInd, r) && ts == r.totalScheduled && log' == r.log &&
      QueueOk(r.queue, t + 1, maxTime)
    ensures rq.queue == old(rq.queue) || fresh(rq.queue)
    ensures rq.queue[..rq.size] == old(rq.queue[..rq.size]) + added
    ensures fresh(Elems(added))
  {
    ghost var s1 := DeadlineStep(s, t);
    QueueBelowMax(s.queue, t, maxTime);
    var printed := CheckSetPrintDeadlines(rq.queue, rq.size, t);
    log' := log + printed;
    assert Models(rq, currProc, currInd, s1);
    DeadlineStepOk(s, t, maxTime);
    AdmitStepOk(procs, maxTime, s1, t);
    ts, log', added := AdmitPhase(rq, procs, t, currProc, currInd, totalScheduled, log', s1);
  }

  /**
   * The admission half of a tick (edf.c:250-264): the arrivals are pushed
   * behind the instances already queued, which keep their slots, and the
   * queue is printed when something arrived.
   */
  method AdmitPhase(rq: ProcQueue, procs: seq<Task>, t: int, currProc: Process?, currInd: int,
                    totalScheduled: int, log: seq<Event>, ghost s: Sim)
    returns (ts: int, log': seq<Event>, ghost added: seq<Process?>)
    requires PeriodsPositive(procs)
    requires Models(rq, currProc, currInd, s) && totalScheduled == s.totalScheduled && log == s.log
    modifies rq, rq.queue
    ensures var r := AdmitStep(s, procs, t);
      Models(rq, currProc, currInd, r) && ts == r.totalScheduled && log' == r.log
    ensures rq.queue == old(rq.queue) || fresh(rq.queue)
    ensures rq.queue[..rq.size] == old(rq.queue[..rq.size]) + added
    ensures fresh(Elems(added))
  {
    ghost var objs := rq.queue[..rq.size];
    assert currInd != -1 ==> objs[currInd] == currProc;
    var shouldPrint;
    ts, shouldPrint, added := AdmitArrivals(rq, procs, t, totalScheduled, s.queue, objs);
    ghost var after := rq.queue[..rq.size];
    if currInd != -1 {
      PrefixAt(after, objs, added, currInd);
      assert rq.queue[currInd] == after[currInd];
    }
    log' := log;
    if shouldPrint {
      var entries := rq.PrintQueue();
      log' := log' + [Snapshot(t, entries)];
    }
  }

  /**
   * The second half of a tick (edf.c:267-306): dispatch or preemption, the
   * run step and the wait step. At most the current instance leaves the
   * queue (slot `removed`); the others keep their order.
   */
  method DispatchAndRun(rq: ProcQueue, maxTime: int, t: int, currProc: Process?, currInd: int,
                        totalWait: int, log: seq<Event>, ghost s: Sim, ghost objs: seq<Process?>)
    returns (proc: Process?, ind: int, tw: int, log': seq<Event>, ghost removed: int)
    requires Models(rq, currProc, currInd, s) && totalWait == s.totalWait && log == s.log
    requires rq.queue[..rq.size] == objs
    requires 0 <= t < maxTime && QueueOk(s.queue, t + 1, maxTime)
    modifies rq`size, rq.queue, Slots(rq.queue, rq.size)
    ensures var r := WaitStep(RunStep(DispatchStep(s, t), t));
      Models(rq, proc, ind, r) && tw == r.totalWait && log' == r.log
    ensures rq.queue == old(rq.queue)
    ensures -1 <= removed < |objs| && rq.queue[..rq.size] == Without(objs, removed)
  {
    QueueBelowMax(s.queue, t + 1, maxTime);
    SlotsElems(rq.queue, rq.size);
    var events;
    proc, ind, events := Dispatch(rq, currProc, currInd, t, s);
    log' := log + events;
    ghost var s4 := RunStep(DispatchStep(s, t), t);
    proc, ind, tw, events, removed := RunCurrent(rq, proc, ind, t, totalWait, DispatchStep(s, t), objs);
    log' := log' + events;
    SlotsElems(rq.queue, rq.size);
    ElemsRemove(objs, removed);
    NotASlot(rq);
    IncrementWaits(rq, proc, ind, s4);
  }

  /**
   * One iteration of the `for t` loop of scheduling_loop (edf.c:245-307):
   * the heap state afterwards stands for Tick(procs, s, t), and the lines
   * printed are the ones Tick appends to the log. The queue afterwards holds
   * only instances it held before or instances made during the tick.
   */
  method RunTick(rq: ProcQueue, procs: seq<Task>, maxTime: int, t: int,
                 currProc: Process?, currInd: int, totalScheduled: int, totalWait: int,
                 log: seq<Event>, ghost s: Sim, ghost objs: seq<Process?>, ghost fp: set<object?>)
    returns (proc: Process?, ind: int, ts: int, tw: int, log': seq<Event>,
             ghost objs': seq<Process?>, ghost made: set<object?>)
    requires TasksOk(procs, maxTime) && 0 <= t < maxTime && Inv(procs, maxTime, s, t)
    requires Models(rq, currProc, currInd, s) && rq.queue[..rq.size] == objs
    requires totalScheduled == s.totalScheduled && totalWait == s.totalWait && log == s.log
    requires rq in fp && rq.queue in fp && Elems(objs) <= fp
    modifies fp
    ensures var r := Tick(procs, s, t);
      Models(rq, proc, ind, r) && ts == r.totalScheduled && tw == r.totalWait && log' == r.log
    ensures rq.queue[..rq.size] == objs'
    ensures rq.queue in fp + made && Elems(objs') <= fp + made && fresh(made)
  {
    SlotsElems(rq.queue, rq.size);
    ghost var added, removed;
    ts, log', added := CheckAndAdmit(rq, procs, maxTime, t, currProc, currInd, totalScheduled, log, s);
    ghost var q := rq.queue;
    ghost var grown: set<object?> := if q in fp then {} else {q};
    assert fresh(grown);
    ElemsAppend(objs, added);
    SlotsElems(rq.queue, rq.size);
    ghost var s2 := AdmitStep(DeadlineStep(s, t), procs, t);
    DispatchRunWaitScheduled(s2, t);
    proc, ind, tw, log', removed :=
      DispatchAndRun(rq, maxTime, t, currProc, currInd, totalWait, log', s2, objs + added);
    ElemsRemove(objs + added, removed);
    objs' := Without(objs + added, removed);
    made := grown + Elems(added);
    assert fresh(Elems(added));
  }

  /**
   * The state of scheduling_loop at the head of iteration `t`: the heap
   * stands for Ticks(procs, t), the counters and the printed lines are its
   * own, and the queue slots hold the instances `objs`.
   */
  ghost predicate Running(procs: seq<Task>, maxTime: int, t: nat, rq: ProcQueue, currProc: Process?,
                          currInd: int, ts: int, tw: int, log: seq<Event>, s: Sim, objs: seq<Process?>)
    reads rq, rq.queue, Slots(rq.queue, rq.size)
  {
    TasksOk(procs, maxTime) && s == Ticks(procs, t) && Inv(procs, maxTime, s, t) &&
    Models(rq, currProc, currInd, s) && ts == s.totalScheduled && tw == s.totalWait && log == s.log &&
    rq.queue[..rq.size] == objs
  }

  /** One iteration of the loop, from the state at tick `t` to the state at tick `t + 1`. */
  method Step(rq: ProcQueue, procs: seq<Task>, maxTime: int, t: nat,
              currProc: Process?, currInd: int, totalScheduled: int, totalWait: int,
              log: seq<Event>, ghost s: Sim, ghost objs: seq<Process?>, ghost fp: set<object?>)
    returns (proc: Process?, ind: int, ts: int, tw: int, log': seq<Event>,
             ghost s': Sim, ghost objs': seq<Process?>, ghost made: set<object?>)
    requires t < maxTime
    requires Running(procs, maxTime, t, rq, currProc, currInd, totalScheduled, totalWait, log, s, objs)
    requires rq in fp && rq.queue in fp && Elems(objs) <= fp
    modifies fp
    ensures Running(procs, maxTime, t + 1, rq, proc, ind, ts, tw, log', s', objs')
    ensures rq.queue in fp + made && Elems(objs') <= fp + made && fresh(made)
  {
    proc, ind, ts, tw, log', objs', made :=
      RunTick(rq, procs, maxTime, t, currProc, currInd, totalScheduled, totalWait, log, s, objs, fp);
    s' := Tick(procs, s, t);
    TickOk(procs, maxTime, s, t, s');
  }

  /**
   * The lines after the loop (edf.c:308-317): the horizon, then the summary
   * whose wait total adds the waits of the instances still queued.
   */
  method Finish(rq: ProcQueue, maxTime: nat, totalScheduled: int, totalWait: int,
                log: seq<Event>, ghost s: Sim)
    returns (log': seq<Event>)
    requires rq.Valid() && Insts(rq.queue, rq.size) == s.queue
    requires totalScheduled == s.totalScheduled && totalWait == s.totalWait && log == s.log
    ensures log' == Report(s, maxTime)
  {
    log' := log + [MaxTime(maxTime)];
    var tw := SumRemaining(rq, totalWait);
    assert Insts(rq.queue, rq.size) == s.queue;
    log' := log' + [Summary(tw, totalScheduled)];
    assert log' == log + [MaxTime(maxTime), Summary(tw, totalScheduled)];
  }

  /**
   * scheduling_loop (edf.c:237-321): `maxTime` ticks from an empty queue,
   * then the horizon line and the summary, whose wait total also counts the
   * instances still queued. The printed lines are exactly Simulate's.
   */
  method SchedulingLoop(procs: seq<Task>, maxTime: int) returns (log: seq<Event>)
    requires |procs| >= 1 && maxTime >= 0 && TasksOk(procs, maxTime)
    ensures log == Simulate(procs, maxTime)
  {
    var readyQueue := new ProcQueue(|procs|);
    var currProc: Process? := null;
    var currInd := -1;
    var totalScheduled, totalWait := 0, 0;
    log := [];
    ghost var s := Ticks(procs, 0);
    ghost var objs: seq<Process?> := [];
    ghost var fp: set<object?> := {readyQueue, readyQueue.queue};
    InitOk(procs, maxTime, 0);
    for t := 0 to maxTime
      invariant Running(procs, maxTime, t, readyQueue, currProc, currInd, totalScheduled, totalWait, log, s, objs)
      invariant readyQueue in fp && readyQueue.queue in fp && Elems(objs) <= fp && fresh(fp)
    {
      ghost var made;
      ghost var fp0 := fp;
      currProc, currInd, totalScheduled, totalWait, log, s, objs, made :=
        Step(readyQueue, procs, maxTime, t, currProc, currInd, totalScheduled, totalWait, log, s, objs, fp);
      assert fresh(made) && fresh(fp0);
      assert fresh(fp0 + made);
      fp := fp0 + made;
    }
    log := Finish(readyQueue, maxTime, totalScheduled, totalWait, log, s);
  }

  /** The descriptors main builds: pid i + 1 with the i-th CPU time and period. */
  function Descriptors(cpuTimes: seq<int>, periods: seq<int>): (procs: seq<Task>)
    requires |cpuTimes| == |periods|
    ensures |procs| == |periods| && Periods(procs) == periods
    ensures forall i :: 0 <= i < |procs| ==> procs[i] == Task(i + 1, cpuTimes[i], periods[i])
  {
    seq(|periods|, i requires 0 <= i < |periods| => Task(i + 1, cpuTimes[i], periods[i]))
  }

  /**
   * main (edf.c:329-358): build one descriptor per process read in (pids 1 .. n), then run
   * scheduling_loop up to the lcm of the periods. The run has the admission
   * counts of SummaryLine with every period dividing the horizon.
   */
  method Schedule(cpuTimes: seq<int>, periods: seq<int>) returns (maxTime: int, log: seq<Event>)
    requires 1 <= |cpuTimes| == |periods| < INT_MAX
    requires forall i :: 0 <= i < |periods| ==> cpuTimes[i] > 0 && periods[i] > 0
    requires Fits(periods)
    requires forall i :: 0 <= i < |periods| ==> LcmFold(periods) + periods[i] <= INT_MAX
    ensures maxTime == LcmFold(periods) && maxTime > 0
    ensures forall i :: 0 <= i < |periods| ==> maxTime % periods[i] == 0
    ensures log == Simulate(Descriptors(cpuTimes, periods), maxTime)
  {
    var n := |periods|;
    var processes := new Task[n];
    for i := 0 to n
      invariant forall k :: 0 <= k < i ==> processes[k] == Task(k + 1, cpuTimes[k], periods[k])
    {
      processes[i] := Task(i + 1, cpuTimes[i], periods[i]);
    }
    assert processes[..] == Descriptors(cpuTimes, periods);
    maxTime := LcmPeriods(processes[..]);
    log := SchedulingLoop(processes[..], maxTime);
  }

  /** In the run main starts, process i + 1 is admitted horizon / period_i times. */
  lemma MainAdmissions(cpuTimes: seq<int>, periods: seq<int>, i: int)
    requires 1 <= |cpuTimes| == |periods|
    requires forall j :: 0 <= j < |periods| ==> periods[j] > 0
    requires Fits(periods) && 0 <= i < |periods|
    ensures EdfTheorems.AdmittedOf(Descriptors(cpuTimes, periods), i + 1, LcmFold(periods))
            == LcmFold(periods) / periods[i]
  {
    var procs := Descriptors(cpuTimes, periods);
    assert procs[i].pid == i + 1 && procs[i].period == periods[i];
    EdfTheorems.TaskOverHorizon(procs, i, LcmFold(periods));
  }
}
