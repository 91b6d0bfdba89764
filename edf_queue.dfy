/*
 * The heap side of src/PA3/edf.c: `struct process` instances whose counters
 * and deadline are updated in place, and `struct proc_queue`, an array of
 * instance pointers that doubles when full and closes gaps by shifting.
 */
module EdfQueue {
  import opened EdfSpec

  /** A task instance on the heap (`struct process`, edf.c:17-24). */
  class Process {
    var pid: int
    var cpuTime: int
    var period: int
    var runningTime: int
    var waitingTime: int
    var dueBy: int

    /** The instance's current field values. */
    function Value(): Inst
      reads this
    {
      Inst(pid, cpuTime, period, runningTime, waitingTime, dueBy)
    }
  }

  /**
   * make_process (edf.c:88-100): a new heap copy of descriptor `proc`, due
   * one period after `t`, with both counters at zero.
   */
  method MakeProcess(proc: Task, t: int) returns (p: Process)
    ensures fresh(p)
    ensures p.Value() == Inst(proc.pid, proc.cpuTime, proc.period, 0, 0, t + proc.period)
    ensures p.Value() == NewInst(proc, t)
  {
    p := new Process;
    p.cpuTime := proc.cpuTime;
    p.period := proc.period;
    p.pid := proc.pid;
    p.dueBy := t + p.period;
    p.runningTime := 0;
    p.waitingTime := 0;
  }

  /** The first `n` slots of `procs` hold instances (no null pointer). */
  ghost predicate Live(procs: array<Process?>, n: int)
    reads procs
  {
    0 <= n <= procs.Length && forall i :: 0 <= i < n ==> procs[i] != null
  }

  /** ... and no instance occupies two slots. */
  ghost predicate Distinct(procs: array<Process?>, n: int)
    reads procs
  {
    Live(procs, n) && forall i, j :: 0 <= i < j < n ==> procs[i] != procs[j]
  }

  /** The instances in the first `n` slots, as a set of objects. */
  ghost function Slots(procs: array<Process?>, n: int): set<Process?>
    reads procs
  {
    set i | 0 <= i < n && i < procs.Length :: procs[i]
  }

  /** The objects a sequence of slots holds. */
  ghost function Elems(objs: seq<Process?>): set<Process?> {
    set k | 0 <= k < |objs| :: objs[k]
  }

  lemma SlotsElems(procs: array<Process?>, n: int)
    requires 0 <= n <= procs.Length
    ensures Slots(procs, n) == Elems(procs[..n])
  {
    forall o | o in Elems(procs[..n]) ensures o in Slots(procs, n) {
      var k :| 0 <= k < n && procs[..n][k] == o;
      assert procs[k] == o;
    }
  }

  /** The slots left after closing the gap at slot `r`; -1 closes none. */
  ghost function Without(objs: seq<Process?>, r: int): (rest: seq<Process?>)
    requires -1 <= r < |objs|
  {
    if r == -1 then objs else objs[..r] + objs[r + 1..]
  }

  /** Closing a gap brings in no new object. */
  lemma ElemsRemove(objs: seq<Process?>, r: int)
    requires -1 <= r < |objs|
    ensures Elems(Without(objs, r)) <= Elems(objs)
  {
    var rest := Without(objs, r);
    forall o | o in Elems(rest) ensures o in Elems(objs) {
      var k :| 0 <= k < |rest| && rest[k] == o;
      assert o == objs[if k < r || r == -1 then k else k + 1];
    }
  }

  lemma ElemsAppend(objs: seq<Process?>, added: seq<Process?>)
    ensures Elems(objs + added) == Elems(objs) + Elems(added)
  {
    var all := objs + added;
    forall o | o in Elems(all) ensures o in Elems(objs) + Elems(added) {
      var k :| 0 <= k < |all| && all[k] == o;
      if k >= |objs| {
        assert o == added[k - |objs|];
      }
    }
    forall o | o in Elems(objs) + Elems(added) ensures o in Elems(all) {
      if o in Elems(objs) {
        var k :| 0 <= k < |objs| && objs[k] == o;
        assert all[k] == o;
      } else {
        var k :| 0 <= k < |added| && added[k] == o;
        assert all[|objs| + k] == o;
      }
    }
  }

  /** The values of the instances in the first `n` slots, in order. */
  ghost function Insts(procs: array<Process?>, n: int): (vs: seq<Inst>)
    requires Live(procs, n)
    reads procs, Slots(procs, n)
    ensures |vs| == n && forall i :: 0 <= i < n ==> vs[i] == procs[i].Value()
  {
    seq(n, i requires 0 <= i < n && procs[i] != null reads procs, Slots(procs, n) => procs[i].Value())
  }

  /** `struct proc_queue` (edf.c:28-32). */
  class ProcQueue {
    var size: int
    var max: int
    var queue: array<Process?>

    ghost predicate Valid()
      reads this, queue
    {
      Distinct(queue, size) && max == queue.Length && max >= 1
    }

    /** The queued instances, front first. */
    ghost function Contents(): seq<Process?>
      reads this, queue
      requires Valid()
    {
      queue[..size]
    }

    /** make_queue (edf.c:73-81): an empty queue with room for `numProc`. */
    constructor (numProc: int)
      requires numProc >= 1
      ensures Valid() && fresh(queue)
      ensures size == 0 && max == numProc
    {
      size := 0;
      max := numProc;
      queue := new Process?[numProc];
    }

    /**
     * push (edf.c:107-114): append `proc` at the tail; a full queue first
     * doubles its capacity, keeping its contents (the realloc).
     */
    method Push(proc: Process)
      requires Valid() && proc !in Contents()
      modifies this, queue
      ensures Valid()
      ensures Contents() == old(Contents()) + [proc]
      ensures size == old(size) + 1
      ensures max == if old(size) == old(max) then 2 * old(max) else old(max)
      ensures queue == old(queue) || fresh(queue)
    {
      if size == max {
        max := max * 2;
        var grown := new Process?[max];
        forall i | 0 <= i < size {
          grown[i] := queue[i];
        }
        queue := grown;
      }
      queue[size] := proc;
      size := size + 1;
    }

    /**
     * pop_at (edf.c:137-146): remove and return the instance at `index`,
     * shifting the ones behind it one slot forward.
     */
    method PopAt(index: int) returns (ret: Process)
      requires Valid() && 0 <= index < size
      modifies this`size, queue
      ensures Valid() && queue == old(queue) && max == old(max)
      ensures ret == old(Contents())[index]
      ensures Contents() == old(Contents())[..index] + old(Contents())[index + 1..]
      ensures size == old(size) - 1
    {
      ret := queue[index];
      for i := index to size - 1
        modifies queue
        invariant forall k :: 0 <= k < index ==> queue[k] == old(queue[k])
        invariant forall k :: index <= k < i ==> queue[k] == old(queue[k + 1])
        invariant forall k :: i <= k < size ==> queue[k] == old(queue[k])
      {
        queue[i] := queue[i + 1];
      }
      size := size - 1;
      assert Contents() == old(Contents())[..index] + old(Contents())[index + 1..] by {
        assert forall k :: 0 <= k < size ==>
          Contents()[k] == (old(Contents())[..index] + old(Contents())[index + 1..])[k];
      }
    }

    /**
     * pop (edf.c:121-130): remove and return the front instance, shifting
     * the rest forward; the same as pop_at at index 0.
     */
    method Pop() returns (ret: Process)
      requires Valid() && size >= 1
      modifies this`size, queue
      ensures Valid() && queue == old(queue) && max == old(max)
      ensures ret == old(Contents())[0]
      ensures Contents() == old(Contents())[1..]
      ensures size == old(size) - 1
    {
      ret := queue[0];
      for i := 0 to size - 1
        modifies queue
        invariant forall k :: 0 <= k < i ==> queue[k] == old(queue[k + 1])
        invariant forall k :: i <= k < size ==> queue[k] == old(queue[k])
      {
        queue[i] := queue[i + 1];
      }
      size := size - 1;
      assert Contents() == old(Contents())[1..] by {
        assert forall k :: 0 <= k < size ==> Contents()[k] == old(Contents())[1..][k];
      }
    }

    /** print_queue (edf.c:153-158): pid and remaining time of each instance. */
    method PrintQueue() returns (entries: seq<Entry>)
      requires Valid()
      ensures entries == QueueListing(Insts(queue, size))
    {
      entries := [];
      for i := 0 to size
        invariant entries == QueueListing(Insts(queue, size)[..i])
      {
        entries := entries + [Entry(queue[i].pid, queue[i].cpuTime - queue[i].runningTime)];
      }
      assert Insts(queue, size)[..size] == Insts(queue, size);
    }
  }

  lemma AppendAssoc(a: seq<Process?>, b: seq<Process?>, c: seq<Process?>)
    ensures a + b + c == a + (b + c)
  { }

  lemma PrefixAt(all: seq<Process?>, front: seq<Process?>, back: seq<Process?>, i: int)
    requires all == front + back && 0 <= i < |front|
    ensures all[i] == front[i]
  {
  }

  lemma NotASlot(rq: ProcQueue)
    ensures (rq as object?) !in Slots(rq.queue, rq.size) && (rq.queue as object?) !in Slots(rq.queue, rq.size)
  {
  }
}
