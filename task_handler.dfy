/**
 * The cooperative task scheduler's bookkeeping: a table of task slots whose
 * ids are slot + 1, a FIFO ready queue, the id of the running task (-1 for
 * the host), one-word mailboxes, and the stack size handed to the stack
 * allocator. The coroutine switch itself is abstracted to "the current id
 * changes".
 */
module Tasks {
  import opened Wrappers
  import Registers

  /** `receive`'s default argument: the running task. */
  const TASK_CURRENT: int := -1
  /** The id the host's entry task gets when the table is empty. */
  const ENTRY_POINT_TASK: int := 1

  /** A C `uint32_t` value. */
  type U32 = n: nat | n < 0x1_0000_0000

  /** A task's saved register file (`VMContext`): one word per register slot. */
  type Context = c: seq<bv32> | |c| == 32 witness seq(32, _ => 0)

  /** `TaskData`: the coroutine handle is left out. */
  datatype TaskData = TaskData(entryPoint: bv32, stackAddr: bv32, received: int, id: int, context: Context)

  /** The errors the scheduler raises, and the slot reads the source leaves undefined. */
  datatype TaskFault =
    | InvalidTaskToDispose
    | InvalidTaskToSend
      /** The source reads a slot that is out of range or empty: its behaviour is undefined. */
    | NoSuchTask(id: int)

  /** The register file a created task starts with: zero but for P0-P2 and SP. */
  function InitialContext(p0: bv32, p1: bv32, p2: bv32, stackAddr: bv32): (c: Context)
    ensures c[Registers.Slot(Registers.P0)] == p0 && c[Registers.Slot(Registers.P1)] == p1
    ensures c[Registers.Slot(Registers.P2)] == p2 && c[Registers.Slot(Registers.SP)] == stackAddr
    ensures forall k | 0 <= k < 32 && k != 1 && k != 12 && k != 13 && k != 14 :: c[k] == 0
  {
    seq(32, _ => 0 as bv32)[12 := p0][13 := p1][14 := p2][1 := stackAddr]
  }

  /** The slot `push_task` fills: the lowest empty one, or one past the end. */
  function LowestFreeSlot(tasks: seq<Option<TaskData>>): (k: nat)
    ensures k <= |tasks|
    ensures k < |tasks| ==> tasks[k].None?
    ensures forall j | 0 <= j < k :: tasks[j].Some?
  {
    if tasks == [] || tasks[0].None? then 0
    else 1 + LowestFreeSlot(tasks[1..])
  }

  /** The table after `push_task(t)`: `t` with id slot + 1 in the lowest free slot. */
  function Placed(tasks: seq<Option<TaskData>>, t: TaskData): seq<Option<TaskData>>
  {
    var k := LowestFreeSlot(tasks);
    if k < |tasks| then tasks[k := Some(t.(id := k + 1))] else tasks + [Some(t.(id := k + 1))]
  }

  /**
   * Pushing keeps every occupied slot, grows the table only when no slot is
   * free, and stores the new task under id slot + 1.
   */
  lemma {:induction false} PlacedEffect(tasks: seq<Option<TaskData>>, t: TaskData)
    ensures var r, k := Placed(tasks, t), LowestFreeSlot(tasks);
      && |r| == (if None in tasks then |tasks| else |tasks| + 1)
      && r[k] == Some(t.(id := k + 1))
      && forall j | 0 <= j < |tasks| && j != k :: r[j] == tasks[j]
  {
    var k := LowestFreeSlot(tasks);
    if None in tasks {
      var j :| 0 <= j < |tasks| && tasks[j] == None;
      assert k <= j;
    }
  }

  /** After a task at slot k is disposed, the next task created gets an id no larger than k + 1. */
  lemma {:induction false} DisposedIdIsReused(tasks: seq<Option<TaskData>>, k: nat)
    requires k < |tasks|
    ensures LowestFreeSlot(tasks[k := None]) <= k
    ensures (forall j | 0 <= j < k :: tasks[j].Some?) ==> LowestFreeSlot(tasks[k := None]) == k
  {
    var after := tasks[k := None];
    assert after[k].None?;
    assert forall j | 0 <= j < k :: after[j] == tasks[j];
  }

  /** The queue with the first occurrence of `x` erased (`unschedule_task`). */
  function RemoveFirst(q: seq<int>, x: int): (r: seq<int>)
    ensures x !in q ==> r == q
  {
    if q == [] then []
    else if q[0] == x then q[1..]
    else [q[0]] + RemoveFirst(q[1..], x)
  }

  /** Erasing the first occurrence, at index i, keeps the other entries in order. */
  lemma {:induction false} RemoveFirstAt(q: seq<int>, x: int, i: nat)
    requires i < |q| && q[i] == x
    requires forall j | 0 <= j < i :: q[j] != x
    ensures RemoveFirst(q, x) == q[..i] + q[i + 1..]
    decreases i
  {
    if i == 0 {
      assert q[..0] + q[1..] == q[1..];
    } else {
      var tail := q[1..];
      assert tail[i - 1] == x;
      RemoveFirstAt(tail, x, i - 1);
      assert tail[..i - 1] == q[1..i];
      assert tail[i..] == q[i + 1..];
      assert [q[0]] + q[1..i] == q[..i];
    }
  }

  /** Erasing removes exactly one occurrence of a queued `x` and nothing else. */
  lemma {:induction false} RemoveFirstCount(q: seq<int>, x: int)
    requires x in q
    ensures |RemoveFirst(q, x)| == |q| - 1
    ensures multiset(RemoveFirst(q, x)) == multiset(q) - multiset{x}
    decreases |q|
  {
    assert q == [q[0]] + q[1..];
    if q[0] != x {
      RemoveFirstCount(q[1..], x);
    }
  }

  /** The ready queue and the running task's id (-1: the host). */
  datatype Schedule = Schedule(queue: seq<int>, current: int)

  /** `switch_to_next_task`: the queue head runs next; with an empty queue the host resumes. */
  function Switched(s: Schedule): (r: Schedule)
    ensures s.queue == [] ==> r == Schedule([], -1)
    ensures s.queue != [] ==> [r.current] + r.queue == s.queue
  {
    if s.queue == [] then Schedule([], -1) else Schedule(s.queue[1..], s.queue[0])
  }

  /** `yield_current`: the running task goes to the back of the queue, then the head runs. */
  function Yielded(s: Schedule): Schedule
  {
    Switched(Schedule(s.queue + [s.current], s.current))
  }

  /** `n` yields in a row. */
  function Yields(s: Schedule, n: nat): Schedule
    decreases n
  {
    if n == 0 then s else Yields(Yielded(s), n - 1)
  }

  /** A yield hands over to the queue head and queues the yielding task last; alone, a task keeps running. */
  lemma {:induction false} YieldRotates(s: Schedule)
    ensures s.queue == [] ==> Yielded(s) == s
    ensures s.queue != [] ==> Yielded(s) == Schedule(s.queue[1..] + [s.current], s.queue[0])
  {
    if s.queue != [] {
      assert (s.queue + [s.current])[1..] == s.queue[1..] + [s.current];
    }
  }

  /** After k yields, 1 <= k <= |queue|, the k-th queued task runs and the queue has rotated by k. */
  lemma {:induction false} YieldsRunInQueueOrder(s: Schedule, k: nat)
    requires 1 <= k <= |s.queue|
    ensures Yields(s, k) == Schedule(s.queue[k..] + [s.current] + s.queue[..k - 1], s.queue[k - 1])
    decreases k
  {
    var q, c := s.queue, s.current;
    YieldsAfter(s, k - 1);
    if k == 1 {
      YieldRotates(s);
      assert q[..0] == [];
    } else {
      YieldsRunInQueueOrder(s, k - 1);
      var t := Yields(s, k - 1);
      YieldRotates(t);
      assert t.queue[0] == q[k - 1];
      assert t.queue[1..] == q[k..] + [c] + q[..k - 2];
      assert q[..k - 2] + [q[k - 2]] == q[..k - 1];
    }
  }

  /** Round robin: after one yield per queued task and one more, the schedule is back where it began. */
  lemma {:induction false} RoundRobin(s: Schedule)
    ensures Yields(s, |s.queue| + 1) == s
  {
    var n := |s.queue|;
    if n == 0 {
      YieldRotates(s);
    } else {
      YieldsRunInQueueOrder(s, n);
      YieldsAfter(s, n);
      var t := Yields(s, n);
      assert t == Schedule([s.current] + s.queue[..n - 1], s.queue[n - 1]);
      YieldRotates(t);
      assert s.queue[..n - 1] + [s.queue[n - 1]] == s.queue;
    }
  }

  /** `n + 1` yields are `n` yields and then one more. */
  lemma {:induction false} YieldsAfter(s: Schedule, n: nat)
    ensures Yields(s, n + 1) == Yielded(Yields(s, n))
    decreases n
  {
    if n > 0 {
      YieldsAfter(Yielded(s), n - 1);
    }
  }

  /** As `set_stack_size` is written: `s` padded by the residue of the previously stored size. */
  function StackSizeAsWritten(previous: int, s: nat): int
  {
    s + (if previous % 4 != 0 then 4 - previous % 4 else 0)
  }

  /** The first call, from the initial -1, stores s + 1, whatever s is: an aligned s comes out misaligned. */
  lemma {:induction false} StackSizeAsWrittenMisaligns(s: nat)
    ensures StackSizeAsWritten(-1, s) == s + 1
    ensures s % 4 == 0 ==> StackSizeAsWritten(-1, s) % 4 != 0
    ensures StackSizeAsWritten(-1, 8) == 9
  {
  }

  /** `s` rounded up to a multiple of 4: the padding is computed from `s` itself. */
  function AlignedStackSize(s: nat): (r: nat)
    ensures r % 4 == 0 && s <= r < s + 4
    ensures s % 4 == 0 ==> r == s
  {
    s + (if s % 4 != 0 then 4 - s % 4 else 0)
  }

  /** Written and aligned padding agree exactly when the previous size and `s` leave the same residue. */
  lemma {:induction false} StackSizeAgreement(previous: int, s: nat)
    ensures StackSizeAsWritten(previous, s) == AlignedStackSize(s) <==> previous % 4 == s % 4
  {
  }

  /** The host's tasks: the state behind `TaskHandler`. */
  class TaskHandler {
    var tasks: seq<Option<TaskData>>
    var queue: seq<int>
    var stackSize: int
    var entryPointContext: Context
    var current: int
    /** Whether the host supplied a stack allocator and a stack release callback. */
    const hasStackCreate: bool
    const hasStackFree: bool

    /** Every occupied slot holds a task with id slot + 1. */
    predicate Valid()
      reads this
    {
      forall i | 0 <= i < |tasks| && tasks[i].Some? :: tasks[i].value.id == i + 1
    }

    /** A new handler: no tasks, the host running, stack size -1. */
    constructor (hasStackCreate: bool, hasStackFree: bool)
      ensures Valid()
      ensures tasks == [] && queue == [] && current == -1 && stackSize == -1
      ensures this.hasStackCreate == hasStackCreate && this.hasStackFree == hasStackFree
    {
      this.hasStackCreate := hasStackCreate;
      this.hasStackFree := hasStackFree;
      tasks := [];
      queue := [];
      stackSize := -1;
      current := -1;
      entryPointContext := seq(32, _ => 0);
    }

    /** `task_valid`: the id names an occupied slot. */
    predicate TaskValid(id: int)
      reads this
    {
      1 <= id <= |tasks| && tasks[id - 1].Some?
    }

    /** `current_task`. */
    function CurrentTask(): int
      reads this
    {
      current
    }

    /** `receive`: the mailbox of task `from`, or of the running task for TASK_CURRENT. */
    function Receive(from: int): (r: Result<int, TaskFault>)
      reads this
      ensures from == TASK_CURRENT ==> (r.Ok? <==> TaskValid(current))
      ensures from == TASK_CURRENT && TaskValid(current) ==> r.value == tasks[current - 1].value.received
      ensures from != TASK_CURRENT && !(1 <= from <= |tasks|) ==> r == Ok(0)
      ensures from != TASK_CURRENT && 1 <= from <= |tasks| ==> (r.Ok? <==> TaskValid(from))
      ensures from != TASK_CURRENT && TaskValid(from) ==> r.value == tasks[from - 1].value.received
    {
      if from == TASK_CURRENT then
        if TaskValid(current) then Ok(tasks[current - 1].value.received) else Err(NoSuchTask(current))
      else if from <= 0 || from > |tasks| then Ok(0)
      else if tasks[from - 1].Some? then Ok(tasks[from - 1].value.received)
      else Err(NoSuchTask(from))
    }

    /** `current_task_context`: the host's entry context while no task runs. */
    function CurrentTaskContext(): (r: Result<Context, TaskFault>)
      reads this
      ensures current < 0 ==> r == Ok(entryPointContext)
      ensures current >= 0 ==> (r.Ok? <==> TaskValid(current))
      ensures current >= 0 && TaskValid(current) ==> r.value == tasks[current - 1].value.context
    {
      if current < 0 then Ok(entryPointContext)
      else if TaskValid(current) then Ok(tasks[current - 1].value.context)
      else Err(NoSuchTask(current))
    }

    /** `push_task`: searches the slots in order for the first empty one. */
    method PushTask(t: TaskData) returns (id: int)
      requires Valid()
      modifies this`tasks
      ensures Valid()
      ensures id == LowestFreeSlot(old(tasks)) + 1
      ensures tasks == Placed(old(tasks), t)
    {
      var i := 0;
      while i < |tasks|
        invariant 0 <= i <= |tasks|
        invariant forall j | 0 <= j < i :: tasks[j].Some?
      {
        if tasks[i].None? {
          tasks := tasks[i := Some(t.(id := i + 1))];
          return i + 1;
        }
        i := i + 1;
      }
      tasks := tasks + [Some(t.(id := |tasks| + 1))];
      id := |tasks|;
    }

    /** `schedule_task`: append to the ready queue. */
    method ScheduleTask(id: int)
      modifies this`queue
      ensures queue == old(queue) + [id]
    {
      queue := queue + [id];
    }

    /** `unschedule_task`: find the id in the queue and erase it, if present. */
    method UnscheduleTask(id: int)
      modifies this`queue
      ensures queue == RemoveFirst(old(queue), id)
    {
      var i := 0;
      while i < |queue| && queue[i] != id
        invariant 0 <= i <= |queue|
        invariant forall j | 0 <= j < i :: queue[j] != id
      {
        i := i + 1;
      }
      if i < |queue| {
        RemoveFirstAt(queue, id, i);
        queue := queue[..i] + queue[i + 1..];
      }
    }

    /** `switch_to_next_task`. */
    method SwitchToNextTask()
      modifies this`queue, this`current
      ensures Schedule(queue, current) == Switched(Schedule(old(queue), old(current)))
    {
      if queue == [] {
        current := -1;
      } else {
        current := queue[0];
        queue := queue[1..];
      }
    }

    /**
     * `create_task`: a task at `funcAddr` with P0-P2 set to the parameters and
     * SP to its stack, queued last. `granted` is what the host allocator
     * returns; `request` is the size passed to it, if there is one.
     */
    method CreateTask(funcAddr: bv32, p0: bv32, p1: bv32, p2: bv32, granted: bv32)
      returns (id: int, request: Option<int>)
      requires Valid()
      modifies this`tasks, this`queue
      ensures Valid()
      ensures request == if hasStackCreate then Some(stackSize) else None
      ensures id == LowestFreeSlot(old(tasks)) + 1 && TaskValid(id)
      ensures var stackAddr := if hasStackCreate then granted else 0;
        tasks == Placed(old(tasks), TaskData(funcAddr, stackAddr, 0, 0, InitialContext(p0, p1, p2, stackAddr)))
      ensures queue == old(queue) + [id]
    {
      var stackAddr: bv32 := 0;
      request := None;
      if hasStackCreate {
        stackAddr := granted;
        request := Some(stackSize);
      }
      id := PushTask(TaskData(funcAddr, stackAddr, 0, 0, InitialContext(p0, p1, p2, stackAddr)));
      ScheduleTask(id);
    }

    /** `run_entry_point_task`: the host's entry context becomes a task, queued and switched to. */
    method RunEntryPointTask() returns (id: int)
      requires Valid()
      modifies this`tasks, this`queue, this`current
      ensures Valid()
      ensures id == LowestFreeSlot(old(tasks)) + 1
      ensures tasks == Placed(old(tasks), TaskData(0, 0, 0, 0, entryPointContext))
      ensures Schedule(queue, current) == Switched(Schedule(old(queue) + [id], old(current)))
      ensures old(queue) == [] ==> current == id && CurrentTaskContext() == Ok(entryPointContext)
    {
      id := PushTask(TaskData(0, 0, 0, 0, entryPointContext));
      ScheduleTask(id);
      SwitchToNextTask();
    }

    /**
     * `dispose_task`: empties the slot and drops its id from the queue.
     * `freed` is the stack handed to the release callback, if any.
     */
    method DisposeTask(id: int) returns (r: Result<Option<bv32>, TaskFault>)
      requires Valid()
      modifies this`tasks, this`queue
      ensures Valid()
      ensures !(1 <= id <= |old(tasks)|) ==> r == Err(InvalidTaskToDispose)
      ensures 1 <= id <= |old(tasks)| && old(tasks[id - 1]).None? ==> r == Err(NoSuchTask(id))
      ensures r.Err? ==> tasks == old(tasks) && queue == old(queue)
      ensures r.Ok? <==> old(TaskValid(id))
      ensures r.Ok? ==> (var t := old(tasks[id - 1]).value;
        r.value == (if t.stackAddr != 0 && hasStackFree then Some(t.stackAddr) else None))
      ensures r.Ok? ==> tasks == old(tasks)[id - 1 := None] && !TaskValid(id)
      ensures r.Ok? ==> queue == RemoveFirst(old(queue), id)
    {
      if id <= 0 || id > |tasks| {
        return Err(InvalidTaskToDispose);
      }
      if tasks[id - 1].None? {
        return Err(NoSuchTask(id));
      }
      var t := tasks[id - 1].value;
      var freed := None;
      if t.stackAddr != 0 && hasStackFree {
        freed := Some(t.stackAddr);
      }
      tasks := tasks[id - 1 := None];
      UnscheduleTask(id);
      r := Ok(freed);
    }

    /** `send`: overwrites the target's mailbox only. */
    method Send(to: int, data: int) returns (fault: Option<TaskFault>)
      requires Valid()
      modifies this`tasks
      ensures Valid()
      ensures !(1 <= to <= |old(tasks)|) ==> fault == Some(NoSuchTask(to))
      ensures 1 <= to <= |old(tasks)| && old(tasks[to - 1]).None? ==> fault == Some(InvalidTaskToSend)
      ensures fault.None? <==> old(TaskValid(to))
      ensures fault.Some? ==> tasks == old(tasks)
      ensures fault.None? ==> tasks == old(tasks)[to - 1 := Some(old(tasks[to - 1]).value.(received := data))]
      ensures fault.None? ==> Receive(to) == Ok(data)
    {
      if to <= 0 || to > |tasks| {
        return Some(NoSuchTask(to));
      }
      if tasks[to - 1].None? {
        return Some(InvalidTaskToSend);
      }
      tasks := tasks[to - 1 := Some(tasks[to - 1].value.(received := data))];
      fault := None;
    }

    /** `yield_current`: round robin through the ready queue. */
    method YieldCurrent() returns (fault: Option<TaskFault>)
      requires Valid()
      modifies this`queue, this`current
      ensures Valid()
      ensures fault.None? <==> TaskValid(old(current))
      ensures fault.Some? ==> queue == old(queue) && current == old(current)
      ensures fault.None? ==> Schedule(queue, current) == Yielded(Schedule(old(queue), old(current)))
    {
      if !TaskValid(current) {
        return Some(NoSuchTask(current));
      }
      ScheduleTask(current);
      SwitchToNextTask();
      fault := None;
    }

    /**
     * `kill_current` (and `current_task_finished`, which has the same body):
     * the running task is disposed of and the next one switched to. The
     * result is DisposeTask's: the stack to hand to the free callback, if any.
     */
    method KillCurrent() returns (r: Result<Option<bv32>, TaskFault>)
      requires Valid()
      modifies this`tasks, this`queue, this`current
      ensures Valid()
      ensures r.Ok? <==> old(TaskValid(current))
      ensures r.Err? ==> tasks == old(tasks) && queue == old(queue) && current == old(current)
      ensures r.Ok? ==> (var t := old(tasks[current - 1]).value;
        r.value == (if t.stackAddr != 0 && hasStackFree then Some(t.stackAddr) else None))
      ensures r.Ok? ==> tasks == old(tasks)[old(current) - 1 := None]
      ensures r.Ok? ==>
        Schedule(queue, current) == Switched(Schedule(RemoveFirst(old(queue), old(current)), old(current)))
    {
      r := DisposeTask(current);
      if r.Err? {
        return;
      }
      SwitchToNextTask();
    }

    /**
     * `set_stack_size`, with the padding taken from `s` itself (see
     * `StackSizeAsWritten` for the code as written); the result is the stored
     * size truncated to 32 bits.
     */
    method SetStackSize(s: U32) returns (r: U32)
      requires Valid()
      modifies this`stackSize
      ensures Valid()
      ensures stackSize == AlignedStackSize(s)
      ensures r == stackSize % 0x1_0000_0000
    {
      stackSize := AlignedStackSize(s);
      r := stackSize % 0x1_0000_0000;
    }
  }
}
