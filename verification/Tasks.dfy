/** Tasks and the context switch, kernel/task and the IRQ path of kernel/interrupt/init_idt.asm, as a machine
    that runs one task at a time, takes interrupts and switches on the timer. */
module Tasks {
  import opened Words
  import opened Wrappers
  import opened Trapframe

  const TIMER: nat := 32  // IRQ 0 is remapped to interrupt 32

  /** The kernel stack a task was given: boot.asm's for the boot task, a page for every other. */
  datatype Stack = Stack(low: nat, high: nat) {
    predicate Apart(other: Stack) { high <= other.low || other.high <= low }
  }

  /** struct task, and the stack its kernel side runs on. */
  datatype Task = Task(pid: nat, isUser: bool, trapframe: nat, kernelStackBase: nat, stack: Stack)

  /** The processor, memory, the TSS's esp0, the ring of tasks from head to tail, and the two globals. */
  datatype Machine = Machine(regs: Regs, mem: Memory, esp0: nat, tasks: seq<Task>, current: nat, ready: bool)

  /** What a new task starts from, what the current task was when it was interrupted, and what a task is when it
      goes on. */
  datatype Event = Created(task: nat, regs: Regs) | Saved(task: nat, regs: Regs) | Resumed(task: nat, regs: Regs)

  /** A machine with its history, newest event first. */
  datatype Traced = Traced(m: Machine, log: seq<Event>)

  // ---- interrupt entry, irq_common_stub up to the handler ----

  function Top(m: Machine): nat { StackTop(m.regs, m.esp0) }

  predicate HasTask(m: Machine) { m.current < |m.tasks| }

  /** The frame is pushed and task_update_trapframe records it. */
  function Enter(m: Machine, n: nat): Machine
    requires HasTask(m) && FrameSize(m.regs.cs) <= Top(m)
  {
    var tf := Top(m) - FrameSize(m.regs.cs);
    m.(mem := Save(m.mem, m.regs, Top(m), n), tasks := m.tasks[m.current := m.tasks[m.current].(trapframe := tf)])
  }

  /** The interrupt number irq_handler finds in the frame of the current task. */
  function NumberInFrame(m: Machine): nat
    requires HasTask(m)
  {
    Read(m.mem, m.tasks[m.current].trapframe + 36)
  }

  // ---- the two ways out ----

  /** The end of irq_common_stub. */
  function Leave(m: Machine): Machine
    requires HasTask(m)
  {
    m.(regs := Restore(m.mem, m.tasks[m.current].trapframe, KERNEL_DATA_SEG))
  }

  function NextTask(m: Machine): nat
    requires HasTask(m)
  {
    if m.current + 1 < |m.tasks| then m.current + 1 else 0
  }

  /** task_switch_asm: eflags in the frame is patched before it is popped. */
  function SwitchTo(m: Machine, next: nat): Machine
    requires next < |m.tasks|
  {
    var tf := m.tasks[next].trapframe;
    var mem := m.mem[tf + 52 := Enabled(Read(m.mem, tf + 52))];
    m.(mem := mem, current := next, regs := Restore(mem, tf, KERNEL_DATA_SEG))
  }

  /** scheduler: the TSS follows user tasks only. */
  function Schedule(m: Machine): Machine
    requires HasTask(m)
  {
    var next := NextTask(m);
    SwitchTo(m.(esp0 := if m.tasks[next].isUser then m.tasks[next].kernelStackBase else m.esp0), next)
  }

  predicate Switches(m: Machine, n: nat) { n == TIMER && m.ready }

  /** What follows the handler that irq_handler called for the number n it found. */
  function Exit(m: Machine, n: nat): Machine
    requires HasTask(m)
  {
    if Switches(m, n) then Schedule(m) else Leave(m)
  }

  // ---- task_create_kernel and task_create_user on the page they are given ----

  function CreateKernel(m: Machine, page: nat, eip: nat): Machine
    requires m.tasks != []
  {
    var base := page + PAGE_SIZE;
    m.(mem := KernelFrame(m.mem, page, eip),
       tasks := m.tasks + [Task(m.tasks[|m.tasks| - 1].pid + 1, false, base - KERNEL_BYTES, base, Stack(page, base))])
  }

  function CreateUser(m: Machine, page: nat, eip: nat): Machine
    requires m.tasks != []
  {
    var base := page + PAGE_SIZE;
    m.(mem := UserFrame(m.mem, page, eip),
       tasks := m.tasks + [Task(m.tasks[|m.tasks| - 1].pid + 1, true, base - FRAME_BYTES, base, Stack(page, base))])
  }

  // ---- steps ----

  /** The current task runs for a while; an interrupt comes and its handler leaves memory `mem`; a task is made. */
  datatype Step =
    | Execute(regs: Regs, mem: Memory)
    | Interrupt(number: nat, mem: Memory)
    | NewKernelTask(page: nat, eip: nat)
    | NewUserTask(page: nat, eip: nat)
    | SchedulerInit

  /** The words of task i's saved frame. */
  predicate InFrame(m: Machine, i: nat, a: nat)
    requires i < |m.tasks|
  {
    m.tasks[i].trapframe <= a < m.tasks[i].trapframe + FrameSize(Read(m.mem, m.tasks[i].trapframe + 48))
  }

  /** The new memory leaves the saved frames of all tasks but `except` alone. */
  ghost predicate Spares(m: Machine, mem: Memory, except: nat) {
    forall i: nat, a: nat | i < |m.tasks| && i != except && InFrame(m, i, a) :: Read(mem, a) == Read(m.mem, a)
  }

  /** A kernel stack pointer with room for a frame below it. */
  predicate Room(stack: Stack, esp: nat) { stack.low + KERNEL_BYTES <= esp <= stack.high }

  /** What the code that runs is trusted with. A task stays in its mode, keeps its stack pointer in its stack and
      leaves the frames of the others alone; a handler leaves every frame alone; a new task's page is in no stack. */
  ghost predicate Behaves(m: Machine, s: Step) {
    HasTask(m) && FrameSize(m.regs.cs) <= Top(m) &&
    match s
    case Execute(regs, mem) =>
      && UserMode(regs.cs) == UserMode(m.regs.cs) && Spares(m, mem, m.current)
      && (!UserMode(regs.cs) ==> regs.ss == m.regs.ss && Room(m.tasks[m.current].stack, regs.esp))
    case Interrupt(n, mem) => InterruptsOn(m.regs.eflags) && Spares(Enter(m, n), mem, |m.tasks|)
    case NewKernelTask(page, _) => PageFree(m, page)
    case NewUserTask(page, _) => PageFree(m, page)
    case SchedulerInit => true
  }

  predicate PageFree(m: Machine, page: nat) {
    !UserMode(m.regs.cs) && forall i | 0 <= i < |m.tasks| :: m.tasks[i].stack.Apart(Stack(page, page + PAGE_SIZE))
  }

  ghost function After(t: Traced, s: Step): Traced
    requires Behaves(t.m, s)
  {
    match s
    case Execute(regs, mem) => Traced(t.m.(regs := regs, mem := mem), t.log)
    case Interrupt(n, mem) =>
      var m := Exit(Enter(t.m, n).(mem := mem), NumberInFrame(Enter(t.m, n)));
      Traced(m, [Resumed(m.current, m.regs), Saved(t.m.current, t.m.regs)] + t.log)
    case NewKernelTask(page, eip) =>
      Traced(CreateKernel(t.m, page, eip), [Created(|t.m.tasks|, KernelStart(page + PAGE_SIZE, eip))] + t.log)
    case NewUserTask(page, eip) =>
      Traced(CreateUser(t.m, page, eip), [Created(|t.m.tasks|, UserStart(eip))] + t.log)
    case SchedulerInit => t.(m := t.m.(ready := true))
  }

  ghost function Run(t: Traced, steps: seq<Step>): Option<Traced>
    decreases |steps|
  {
    if steps == [] then Some(t)
    else if Behaves(t.m, steps[0]) then Run(After(t, steps[0]), steps[1..])
    else None
  }

  // ---- what the history must say ----

  /** The last event that fixed task i's context. */
  function LastContext(log: seq<Event>, i: nat): (r: Option<Event>)
    ensures r.Some? ==> !r.value.Resumed? && r.value.task == i
  {
    if log == [] then None
    else if !log[0].Resumed? && log[0].task == i then Some(log[0])
    else LastContext(log[1..], i)
  }

  /** The context a task must go on with: the very one it was interrupted in, or its initial one with interrupts
      enabled. */
  function Owed(e: Event): Regs { if e.Created? then Resumable(e.regs) else e.regs }

  /** Every task that went on did so with the context it was owed. */
  predicate Faithful(log: seq<Event>) {
    log != [] ==>
      && Faithful(log[1..])
      && (log[0].Resumed? ==>
            LastContext(log[1..], log[0].task).Some? && log[0].regs == Owed(LastContext(log[1..], log[0].task).value))
  }

  // ---- the invariant ----

  /** The ring: pids in order from 0, stacks apart, only created tasks in user mode. */
  ghost predicate RingOk(tasks: seq<Task>) {
    && tasks != [] && !tasks[0].isUser
    && (forall i | 0 <= i < |tasks| :: tasks[i].pid == i)
    && (forall i | 0 < i < |tasks| :: tasks[i].stack.high == tasks[i].kernelStackBase == tasks[i].stack.low + PAGE_SIZE)
    && (forall i, j | 0 <= i < j < |tasks| :: tasks[i].stack.Apart(tasks[j].stack))
  }

  /** A task that is not running: its frame lies in its stack, user frames at the very top, and holds the context
      it is owed, up to bit 9 of eflags. */
  ghost predicate Parked(m: Machine, log: seq<Event>, i: nat)
    requires i < |m.tasks|
  {
    var t := m.tasks[i];
    && UserMode(Read(m.mem, t.trapframe + 48)) == t.isUser
    && t.stack.low <= t.trapframe && t.trapframe + FrameSize(Read(m.mem, t.trapframe + 48)) <= t.stack.high
    && (t.isUser ==> t.trapframe + FRAME_BYTES == t.kernelStackBase)
    && LastContext(log, i).Some? && LastContext(log, i).value.regs == Restore(m.mem, t.trapframe, KERNEL_DATA_SEG)
    && (LastContext(log, i).value.Saved? ==> InterruptsOn(LastContext(log, i).value.regs.eflags))
  }

  /** The running task: in its mode, with esp0 naming its stack in user mode and its own stack in kernel mode. */
  predicate Running(m: Machine)
    requires HasTask(m)
  {
    var t := m.tasks[m.current];
    && UserMode(m.regs.cs) == t.isUser
    && (if t.isUser then m.esp0 == t.kernelStackBase else m.regs.ss == KERNEL_DATA_SEG && Room(t.stack, m.regs.esp))
  }

  ghost predicate Good(t: Traced) {
    && HasTask(t.m) && RingOk(t.m.tasks) && Running(t.m) && Faithful(t.log)
    && forall i | 0 <= i < |t.m.tasks| && i != t.m.current :: Parked(t.m, t.log, i)
  }

  /** task_init: the boot task alone, on boot.asm's stack. */
  function Booted(regs: Regs, mem: Memory, esp0: nat, stack: Stack): Traced {
    Traced(Machine(regs, mem, esp0, [Task(0, false, 0, 0, stack)], 0, false), [])
  }
}
