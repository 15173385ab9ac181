/**
 * The VM services the lowered code can call through the constant pool, and
 * the table that gives each one its arity and whether it yields a value.
 */
module SpecialFunction {
  import opened Wrappers
  import Tasks

  /** `SpecialPoolFunction`, with the codes 0 to 9 of its enumeration. */
  datatype SpecialPoolFunction =
    | CREATE_TASK | DISPOSE_TASK | RECEIVE | RECEIVE_ANY | SEND
    | SET_STACK_SIZE | TASK_ALIVE | THIS_TASK | YIELD_TASK | KILL_CURRENT_TASK

  function Code(f: SpecialPoolFunction): (c: nat)
    ensures c < 10
  {
    match f
    case CREATE_TASK => 0
    case DISPOSE_TASK => 1
    case RECEIVE => 2
    case RECEIVE_ANY => 3
    case SEND => 4
    case SET_STACK_SIZE => 5
    case TASK_ALIVE => 6
    case THIS_TASK => 7
    case YIELD_TASK => 8
    case KILL_CURRENT_TASK => 9
  }

  /** Distinct services have distinct codes. */
  lemma {:induction false} CodeInjective(f: SpecialPoolFunction, g: SpecialPoolFunction)
    ensures Code(f) == Code(g) ==> f == g
  {
  }

  /** `SpecialPoolFunctionInfo`: the host function's name, arity and whether it returns a value. */
  datatype Info = Info(name: string, argCount: nat, hasReturnValue: bool)

  /** `SPECIAL_POOL_FUNCTION_INFOS`. */
  const INFOS: map<SpecialPoolFunction, Info> := map[
    CREATE_TASK := Info("task_create", 4, true),
    DISPOSE_TASK := Info("task_dispose", 1, false),
    RECEIVE := Info("task_receive", 0, true),
    RECEIVE_ANY := Info("task_receive_any", 1, true),
    SEND := Info("task_send", 2, false),
    SET_STACK_SIZE := Info("task_set_stack_size", 1, false),
    TASK_ALIVE := Info("task_alive", 1, true),
    THIS_TASK := Info("task_this", 0, true),
    YIELD_TASK := Info("task_yield", 0, false),
    KILL_CURRENT_TASK := Info("task_kill_current", 0, false)
  ]

  /** Every service has an entry (a map holds one per key), and every entry takes at most four arguments (P0-P3). */
  lemma {:induction false} EveryServiceListed(f: SpecialPoolFunction)
    ensures f in INFOS && INFOS[f].argCount <= 4
  {
    match f
    case CREATE_TASK =>
    case DISPOSE_TASK =>
    case RECEIVE =>
    case RECEIVE_ANY =>
    case SEND =>
    case SET_STACK_SIZE =>
    case TASK_ALIVE =>
    case THIS_TASK =>
    case YIELD_TASK =>
    case KILL_CURRENT_TASK =>
  }

  /** The arities and result flags the scheduler services are called with. */
  lemma {:induction false} ServiceSignatures()
    ensures INFOS[CREATE_TASK].argCount == 4 && INFOS[CREATE_TASK].hasReturnValue
    ensures INFOS[SEND].argCount == 2 && !INFOS[SEND].hasReturnValue
    ensures INFOS[YIELD_TASK].argCount == 0 && !INFOS[YIELD_TASK].hasReturnValue
    ensures INFOS[KILL_CURRENT_TASK].argCount == 0 && !INFOS[KILL_CURRENT_TASK].hasReturnValue
    ensures INFOS[RECEIVE].argCount == 0 && INFOS[RECEIVE].hasReturnValue
    ensures INFOS[THIS_TASK].argCount == 0 && INFOS[THIS_TASK].hasReturnValue
  {
  }

  /** `task_receive`: the running task's mailbox. */
  function TaskReceive(h: Tasks.TaskHandler): (r: Result<int, Tasks.TaskFault>)
    reads h
    ensures r.Ok? <==> h.TaskValid(h.current)
    ensures r.Ok? ==> r.value == h.tasks[h.current - 1].value.received
  {
    h.Receive(Tasks.TASK_CURRENT)
  }

  /** `task_receive_any`: task `id`'s mailbox, 0 for an id outside the table. */
  function TaskReceiveAny(h: Tasks.TaskHandler, id: int): (r: Result<int, Tasks.TaskFault>)
    reads h
    ensures id != Tasks.TASK_CURRENT && !(1 <= id <= |h.tasks|) ==> r == Ok(0)
    ensures id != Tasks.TASK_CURRENT && h.TaskValid(id) ==> r == Ok(h.tasks[id - 1].value.received)
  {
    h.Receive(id)
  }

  /** Asking for the mailbox of id -1 reads the running task's mailbox, like `task_receive`. */
  lemma {:induction false} ReceiveAnyOfMinusOne(h: Tasks.TaskHandler)
    ensures TaskReceiveAny(h, -1) == TaskReceive(h)
  {
  }

  /** `task_alive`: 1 for a live task id, 0 otherwise. */
  function TaskAlive(h: Tasks.TaskHandler, id: int): (r: int)
    reads h
    ensures r == 0 || r == 1
    ensures r == 1 <==> 1 <= id <= |h.tasks| && h.tasks[id - 1].Some?
  {
    if h.TaskValid(id) then 1 else 0
  }

  /** `task_this`: the running task's id, -1 while the host runs. */
  function TaskThis(h: Tasks.TaskHandler): (r: int)
    reads h
    ensures r == h.current
  {
    h.CurrentTask()
  }
}
