/*
 * The array scans of src/PA3/edf.c (min_ind, get_earliest_deadline) and
 * the deadline pass check_set_print_deadlines, which updates instances in
 * place and prints the miss reports. Each method is proved to produce the
 * state and the event log of the value-level definitions in EdfSpec.
 */
module EdfSchedule {
  import opened EdfSpec
  import opened EdfArith
  import opened EdfQueue
  import opened EdfProps

  /**
   * min_ind (edf.c:165-175): the index of the first strict minimum among the
   * first `len` values below INT_MAX, or -1 when there is none.
   */
  method MinInd(arr: array<int>, len: int) returns (currInd: int)
    requires 0 <= len <= arr.Length
    ensures currInd == FirstMinBelow(arr[..len], INT_MAX)
  {
    var currMin := INT_MAX;
    currInd := -1;
    for i := 0 to len
      invariant currInd == FirstMinBelow(arr[..i], INT_MAX)
      invariant currMin == if currInd == -1 then INT_MAX else arr[currInd]
    {
      assert arr[..i + 1][..i] == arr[..i];
      if arr[i] < currMin {
        currMin := arr[i];
        currInd := i;
      }
    }
  }

  /**
   * get_earliest_deadline (edf.c:218-230): the index of the first queued
   * instance with the earliest deadline strictly before `currDeadline`, or
   * -1 when no instance is due that early.
   */
  method GetEarliestDeadline(procs: array<Process?>, numProcs: int, t: int, currDeadline: int)
    returns (earliestInd: int)
    requires Live(procs, numProcs)
    ensures earliestInd == FirstMinBelow(DueBys(Insts(procs, numProcs)), currDeadline)
  {
    ghost var ds := DueBys(Insts(procs, numProcs));
    var earliestDl := currDeadline;
    earliestInd := -1;
    for i := 0 to numProcs
      invariant earliestInd == FirstMinBelow(ds[..i], currDeadline)
      invariant earliestDl == if earliestInd == -1 then currDeadline else ds[earliestInd]
    {
      assert ds[..i + 1][..i] == ds[..i];
      if procs[i].dueBy < earliestDl {
        earliestDl := procs[i].dueBy;
        earliestInd := i;
      }
    }
    assert ds[..numProcs] == ds;
  }

  /**
   * check_set_print_deadlines (edf.c:182-211): every instance due at `t`
   * gets the deadline t + period, in place, and the miss reports come out
   * in ascending pid order (queue order among equal pids).
   */
  method CheckSetPrintDeadlines(procs: array<Process?>, numProcs: int, t: int)
    returns (printed: seq<Event>)
    requires Distinct(procs, numProcs)
    requires forall i :: 0 <= i < numProcs ==> procs[i].pid < INT_MAX
    modifies Slots(procs, numProcs)
    ensures Insts(procs, numProcs) == DeadlinePass(old(Insts(procs, numProcs)), t)
    ensures printed == MissEvents(old(Insts(procs, numProcs)), t)
  {
    ghost var qs := Insts(procs, numProcs);
    var missedProcesses, missedPids := NewMissedArrays(numProcs);
    var numMissed := MarkMissed(procs, numProcs, t, missedProcesses, missedPids, qs);
    ghost var after := Insts(procs, numProcs);
    printed := ReportMisses(missedProcesses, missedPids, numMissed, t, Reports(qs, MissedIdx(qs, t), t));
    assert Insts(procs, numProcs) == after;
  }

  /** The two missed arrays of check_set_print_deadlines (edf.c:183-186), every pid slot INT_MAX. */
  method NewMissedArrays(n: nat) returns (missedProcesses: array<Process?>, missedPids: array<int>)
    ensures fresh(missedProcesses) && fresh(missedPids)
    ensures missedProcesses.Length == missedPids.Length == n
    ensures forall k :: 0 <= k < n ==> missedPids[k] == INT_MAX
  {
    missedProcesses := new Process?[n];
    missedPids := new int[n];
    for i := 0 to n
      modifies missedPids
      invariant forall k :: 0 <= k < i ==> missedPids[k] == INT_MAX
    {
      missedPids[i] := INT_MAX;
    }
  }

  /** What the marking loop has built: the instance values, the two missed arrays and their fill. */
  datatype Marks = Marks(vals: seq<Inst>, refs: seq<Process?>, pids: seq<int>, num: int)

  ghost predicate MarksOk(m: Marks, ps: seq<Process?>, i: int) {
    0 <= m.num <= i <= |m.vals| == |m.refs| == |m.pids| == |ps|
  }

  /** One round of the marking loop, on values: slot `i` is checked against `t`. */
  ghost function MarkStep(m: Marks, ps: seq<Process?>, i: int, t: int): (r: Marks)
    requires MarksOk(m, ps, i) && i < |ps|
    ensures MarksOk(r, ps, i + 1)
  {
    if m.vals[i].dueBy == t then
      Marks(m.vals[i := m.vals[i].(dueBy := t + m.vals[i].period)], m.refs[m.num := ps[i]],
            m.pids[m.num := m.vals[i].pid], m.num + 1)
    else m
  }

  /** The first `n` rounds of the marking loop, from `m0`. */
  ghost function MarkUpTo(m0: Marks, ps: seq<Process?>, t: int, n: nat): (r: Marks)
    requires MarksOk(m0, ps, 0) && n <= |ps|
    ensures MarksOk(r, ps, n)
  {
    if n == 0 then m0 else MarkStep(MarkUpTo(m0, ps, t, n - 1), ps, n - 1, t)
  }

  /**
   * After `n` rounds from the INT_MAX-padded start, the first `n` values
   * have been through the deadline pass, and the filled slots list, in
   * queue order, the instances due at `t` and their pids.
   */
  lemma {:induction false} MarkUpToSpec(qs: seq<Inst>, refs0: seq<Process?>, ps: seq<Process?>, t: int, n: nat)
    requires |qs| == |refs0| == |ps| && n <= |ps|
    ensures var m := MarkUpTo(Marks(qs, refs0, seq(|qs|, _ => INT_MAX), 0), ps, t, n);
      var idx := MissedUpTo(qs, t, n);
      m.num == |idx| &&
      (forall k :: 0 <= k < |qs| ==> m.vals[k] == if k < n then DeadlinePass(qs, t)[k] else qs[k]) &&
      (forall k :: 0 <= k < m.num ==> m.refs[k] == ps[idx[k]] && m.pids[k] == qs[idx[k]].pid) &&
      forall k :: m.num <= k < |qs| ==> m.pids[k] == INT_MAX
  {
    if n > 0 {
      MarkUpToSpec(qs, refs0, ps, t, n - 1);
    }
  }

  /**
   * The marking loop of check_set_print_deadlines (edf.c:190-198): in queue
   * order, every instance due at `t` gets the deadline t + period and is
   * recorded, with its pid, in the next slot of the missed arrays.
   */
  method MarkMissed(procs: array<Process?>, numProcs: int, t: int,
                    missedProcesses: array<Process?>, missedPids: array<int>, ghost qs: seq<Inst>)
    returns (numMissed: int)
    requires Distinct(procs, numProcs) && missedProcesses != procs && Insts(procs, numProcs) == qs
    requires forall i :: 0 <= i < numProcs ==> qs[i].pid < INT_MAX
    requires missedProcesses.Length == missedPids.Length == numProcs
    requires forall k :: 0 <= k < numProcs ==> missedPids[k] == INT_MAX
    modifies Slots(procs, numProcs), missedProcesses, missedPids
    ensures Insts(procs, numProcs) == DeadlinePass(qs, t)
    ensures var idx := MissedIdx(qs, t);
      numMissed == |idx| && missedPids[..numMissed] == MissPids(qs, idx) &&
      MissedFacts(missedProcesses, missedPids, numMissed, t, Reports(qs, idx, t))
  {
    ghost var ps := procs[..numProcs];
    ghost var m0 := Marks(qs, missedProcesses[..], missedPids[..], 0);
    assert missedPids[..] == seq(numProcs, _ => INT_MAX);
    ghost var m := m0;
    numMissed := 0;
    for i := 0 to numProcs
      invariant procs[..numProcs] == ps
      invariant m == MarkUpTo(m0, ps, t, i)
      invariant Insts(procs, numProcs) == m.vals && missedProcesses[..] == m.refs && missedPids[..] == m.pids
      invariant numMissed == m.num
    {
      numMissed, m := MarkOne(procs, numProcs, i, t, missedProcesses, missedPids, numMissed, ps, m);
    }
    MarkUpToSpec(qs, m0.refs, ps, t, numProcs);
    MarkedReports(procs, numProcs, missedProcesses, missedPids, numMissed, t, qs, ps, m);
  }

  /**
   * One round of the marking loop (edf.c:191-197): if the instance in slot
   * `i` is due at `t`, its deadline moves to t + period and it takes the
   * next slot of the missed arrays.
   */
  method MarkOne(procs: array<Process?>, numProcs: int, i: int, t: int,
                 missedProcesses: array<Process?>, missedPids: array<int>, numMissed: int,
                 ghost ps: seq<Process?>, ghost m: Marks)
    returns (num: int, ghost m': Marks)
    requires Distinct(procs, numProcs) && missedProcesses != procs && procs[..numProcs] == ps
    requires MarksOk(m, ps, i) && i < numProcs && numMissed == m.num
    requires Insts(procs, numProcs) == m.vals && missedProcesses[..] == m.refs && missedPids[..] == m.pids
    modifies procs[i], missedProcesses, missedPids
    ensures m' == MarkStep(m, ps, i, t) && num == m'.num
    ensures Insts(procs, numProcs) == m'.vals && missedProcesses[..] == m'.refs && missedPids[..] == m'.pids
  {
    m' := m;
    num := numMissed;
    var p := procs[i];
    if p.dueBy == t {
      p.dueBy := t + p.period;
      ghost var vals := m.vals[i := m.vals[i].(dueBy := t + m.vals[i].period)];
      assert Insts(procs, numProcs) == vals by {
        forall k | 0 <= k < numProcs ensures Insts(procs, numProcs)[k] == vals[k] {
          if k != i {
            assert procs[k] != p;
          }
        }
      }
      missedProcesses[numMissed] := p;
      missedPids[numMissed] := p.pid;
      num := numMissed + 1;
      m' := Marks(vals, m.refs[numMissed := p], m.pids[numMissed := m.vals[i].pid], num);
    }
  }

  /** The missed arrays as the printing loop expects them, with the report each slot stands for. */
  ghost predicate MissedFacts(missedProcesses: array<Process?>, missedPids: array<int>, numMissed: int,
                              t: int, reports: seq<Event>)
    reads missedProcesses, missedPids, set k | 0 <= k < numMissed && k < missedProcesses.Length :: missedProcesses[k]
  {
    missedProcesses.Length == missedPids.Length &&
    numMissed == |reports| <= missedPids.Length &&
    (forall k :: 0 <= k < numMissed ==> missedPids[k] < INT_MAX) &&
    (forall k :: numMissed <= k < missedPids.Length ==> missedPids[k] == INT_MAX) &&
    MissLines(missedProcesses, numMissed, t, reports)
  }

  /** Slot `k` of the first `n` holds the instance whose miss line is `reports[k]`. */
  ghost predicate MissLines(missedProcesses: array<Process?>, n: int, t: int, reports: seq<Event>)
    reads missedProcesses, set k | 0 <= k < n && k < missedProcesses.Length :: missedProcesses[k]
  {
    n == |reports| <= missedProcesses.Length &&
    forall k :: 0 <= k < n ==> (missedProcesses[k] != null &&
      reports[k] == Miss(t, missedProcesses[k].pid, missedProcesses[k].cpuTime - missedProcesses[k].runningTime,
                         t + missedProcesses[k].period))
  }

  /** After the marking loop, each filled slot carries the report of its instance. */
  lemma MarkedReports(procs: array<Process?>, numProcs: int, missedProcesses: array<Process?>, missedPids: array<int>,
                      numMissed: int, t: int, qs: seq<Inst>, ps: seq<Process?>, m: Marks)
    requires Live(procs, numProcs) && procs[..numProcs] == ps && |qs| == numProcs
    requires forall i :: 0 <= i < numProcs ==> qs[i].pid < INT_MAX
    requires MarksOk(m, ps, numProcs) && numMissed == m.num == |MissedIdx(qs, t)|
    requires Insts(procs, numProcs) == m.vals && missedProcesses[..] == m.refs && missedPids[..] == m.pids
    requires forall k :: 0 <= k < |qs| ==> m.vals[k] == DeadlinePass(qs, t)[k]
    requires forall k :: 0 <= k < m.num ==> m.refs[k] == ps[MissedIdx(qs, t)[k]] && m.pids[k] == qs[MissedIdx(qs, t)[k]].pid
    requires forall k :: m.num <= k < |qs| ==> m.pids[k] == INT_MAX
    ensures Insts(procs, numProcs) == DeadlinePass(qs, t)
    ensures var idx := MissedIdx(qs, t);
      missedPids[..numMissed] == MissPids(qs, idx) &&
      MissedFacts(missedProcesses, missedPids, numMissed, t, Reports(qs, idx, t))
  {
    var idx := MissedIdx(qs, t);
    forall k | 0 <= k < numMissed
      ensures missedProcesses[k] == procs[idx[k]] && procs[idx[k]].Value() == DeadlinePass(qs, t)[idx[k]]
    {
    }
  }

  /**
   * The printing loop of check_set_print_deadlines (edf.c:200-210): select
   * the smallest remaining pid with min_ind over the whole INT_MAX-padded
   * array, report that instance, and retire its slot with INT_MAX.
   */
  method ReportMisses(missedProcesses: array<Process?>, missedPids: array<int>, numMissed: int,
                      t: int, ghost reports: seq<Event>)
    returns (printed: seq<Event>)
    requires MissedFacts(missedProcesses, missedPids, numMissed, t, reports)
    modifies missedPids
    ensures printed == SelectReports(old(missedPids[..numMissed]), reports, numMissed)
  {
    ghost var m := numMissed;
    ghost var keys := missedPids[..m];
    ghost var tail := missedPids[m..];
    ghost var all := SelectReports(keys, reports, m);
    assert missedPids[..] == keys + tail;
    CountBelowAll(keys, INT_MAX);
    var numMissed := numMissed;
    printed := [];
    while numMissed != 0
      invariant |keys| == m && missedPids[..] == keys + tail
      invariant 0 <= numMissed == CountBelow(keys, INT_MAX)
      invariant printed + SelectReports(keys, reports, numMissed) == all
      invariant MissLines(missedProcesses, m, t, reports)
    {
      printed, numMissed, keys := ReportRound(missedProcesses, missedPids, t, printed, numMissed, keys, tail, reports);
    }
  }

  /**
   * One whole round of the printing loop (edf.c:201-209): ReportNext's
   * line and slot update, then the count decrement, tracked against the
   * selection on the keys.
   */
  method ReportRound(missedProcesses: array<Process?>, missedPids: array<int>, t: int,
                     printed: seq<Event>, numMissed: int, ghost keys: seq<int>, ghost tail: seq<int>,
                     ghost reports: seq<Event>)
    returns (printed': seq<Event>, numMissed': int, ghost keys': seq<int>)
    requires missedProcesses.Length == missedPids.Length && |keys| == |reports|
    requires missedPids[..] == keys + tail && forall k :: 0 <= k < |tail| ==> tail[k] == INT_MAX
    requires 0 < numMissed == CountBelow(keys, INT_MAX)
    requires MissLines(missedProcesses, |keys|, t, reports)
    modifies missedPids
    ensures |keys'| == |keys| && missedPids[..] == keys' + tail
    ensures 0 <= numMissed' == CountBelow(keys', INT_MAX) && numMissed' < numMissed
    ensures printed' + SelectReports(keys', reports, numMissed') == printed + SelectReports(keys, reports, numMissed)
    ensures MissLines(missedProcesses, |keys|, t, reports)
  {
    SelectStep(printed, keys, reports, numMissed);
    var report := ReportNext(missedProcesses, missedPids, t, keys, tail, reports);
    printed' := printed + [report];
    keys' := keys[FirstMinBelow(keys, INT_MAX) := INT_MAX];
    numMissed' := numMissed - 1;
  }

  /**
   * The body of a printing round up to the count decrement (edf.c:202-208): min_ind over the whole
   * padded array picks the smallest remaining pid; its instance is reported
   * and its slot retired with INT_MAX.
   */
  method ReportNext(missedProcesses: array<Process?>, missedPids: array<int>,
                    t: int, ghost keys: seq<int>, ghost tail: seq<int>, ghost reports: seq<Event>)
    returns (report: Event)
    requires missedProcesses.Length == missedPids.Length && |keys| == |reports|
    requires missedPids[..] == keys + tail && forall k :: 0 <= k < |tail| ==> tail[k] == INT_MAX
    requires CountBelow(keys, INT_MAX) > 0
    requires MissLines(missedProcesses, |keys|, t, reports)
    modifies missedPids
    ensures var j := FirstMinBelow(keys, INT_MAX);
      0 <= j < |keys| && report == reports[j] && missedPids[..] == keys[j := INT_MAX] + tail
    ensures MissLines(missedProcesses, |keys|, t, reports)
  {
    var currMinInd := MinInd(missedPids, missedPids.Length);
    ghost var padded := missedPids[..];
    assert padded[..|padded|] == missedPids[..missedPids.Length] && padded[..|keys|] == keys;
    PaddedScan(padded, |keys|);
    CountBelowFound(keys, INT_MAX);
    var mp := missedProcesses[currMinInd];
    report := Miss(t, mp.pid, mp.cpuTime - mp.runningTime, t + mp.period);
    missedPids[currMinInd] := INT_MAX;
    assert missedPids[..] == padded[currMinInd := INT_MAX];
    assert padded[currMinInd := INT_MAX] == keys[currMinInd := INT_MAX] + tail;
  }

  /**
   * One round of the selection: it picks a key below INT_MAX, leaves one
   * fewer, and its report comes next after those already printed.
   */
  lemma SelectStep(printed: seq<Event>, keys: seq<int>, reports: seq<Event>, n: nat)
    requires n > 0 && n == CountBelow(keys, INT_MAX) && |keys| == |reports|
    ensures var j := FirstMinBelow(keys, INT_MAX);
      0 <= j < |keys| && keys[j] < INT_MAX && CountBelow(keys[j := INT_MAX], INT_MAX) == n - 1 &&
      printed + SelectReports(keys, reports, n) == (printed + [reports[j]]) + SelectReports(keys[j := INT_MAX], reports, n - 1)
  {
    CountBelowFound(keys, INT_MAX);
    FirstMinBelowSpec(keys, INT_MAX);
    var j := FirstMinBelow(keys, INT_MAX);
    CountBelowRemove(keys, j, INT_MAX, INT_MAX);
    var rest := SelectReports(keys[j := INT_MAX], reports, n - 1);
    assert SelectReports(keys, reports, n) == [reports[j]] + rest;
    assert (printed + [reports[j]]) + rest == printed + ([reports[j]] + rest);
  }

  /** The scan over the padded array finds what the scan over its prefix finds. */
  lemma PaddedScan(a: seq<int>, m: int)
    requires 0 <= m <= |a| && forall k :: m <= k < |a| ==> a[k] == INT_MAX
    ensures FirstMinBelow(a[..|a|], INT_MAX) == FirstMinBelow(a[..m], INT_MAX)
  {
    assert a[..|a|] == a;
    FirstMinBelowPad(a, m, INT_MAX);
  }
}
