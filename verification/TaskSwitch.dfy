/** The task code as the kernel runs it: registers and the stack pushed and popped one word at a time, task
    structs linked in a ring. Each step is proved against the machine of module Tasks. */
module TaskSwitch {
  import opened Words
  import opened Trapframe
  import opened Tasks

  /** struct task. */
  class TaskStruct {
    var pid: nat
    var isUser: bool
    var trapframe: nat
    var kernelStackBase: nat
    var nextTask: TaskStruct?
    ghost const stack: Stack

    /** A struct in memory that was zero. */
    constructor (ghost stack: Stack)
      ensures pid == 0 && !isUser && trapframe == 0 && kernelStackBase == 0 && nextTask == null && this.stack == stack
    {
      pid, isUser, trapframe, kernelStackBase, nextTask := 0, false, 0, 0, null;
      this.stack := stack;
    }

    ghost function Value(): Task
      reads this
    {
      Task(pid, isUser, trapframe, kernelStackBase, stack)
    }
  }

  ghost function Pointee(t: TaskStruct?): set<TaskStruct> { if t == null then {} else {t} }

  ghost function Follower(ring: seq<TaskStruct>, i: nat): TaskStruct
    requires i < |ring|
  {
    if i + 1 < |ring| then ring[i + 1] else ring[0]
  }

  /** Each task points to the next, the last one to the first. */
  ghost predicate Ring(ring: seq<TaskStruct>)
    reads ring`nextTask
  {
    forall i {:trigger Follower(ring, i)} | 0 <= i < |ring| :: ring[i].nextTask == Follower(ring, i)
  }

  ghost predicate Distinct(ring: seq<TaskStruct>) {
    forall i, j | 0 <= i < j < |ring| :: ring[i] != ring[j]
  }

  /** A ring whose last task points to a new one that points to the first is a ring again. */
  lemma RingGrows(ring: seq<TaskStruct>, task: TaskStruct)
    requires ring != [] && Distinct(ring) && task !in ring
    requires forall i {:trigger Follower(ring, i)} | 0 <= i < |ring| - 1 :: ring[i].nextTask == Follower(ring, i)
    requires ring[|ring| - 1].nextTask == task && task.nextTask == ring[0]
    ensures Ring(ring + [task]) && Distinct(ring + [task])
  {
    forall i | 0 <= i < |ring| + 1 ensures (ring + [task])[i].nextTask == Follower(ring + [task], i) {
      if i + 1 < |ring| { assert Follower(ring + [task], i) == Follower(ring, i); }
    }
  }

  lemma FollowerIs(ring: seq<TaskStruct>, i: nat)
    requires Ring(ring) && i < |ring|
    ensures ring[i].nextTask == Follower(ring, i)
  {}

  ghost function Values(ring: seq<TaskStruct>): (ts: seq<Task>)
    reads ring
    ensures |ts| == |ring| && forall i | 0 <= i < |ring| :: ts[i] == ring[i].Value()
  {
    seq(|ring|, i requires 0 <= i < |ring| reads ring => ring[i].Value())
  }

  /** The patch of eflags leaves the rest of the frame. */
  lemma FramePatched(m: Memory, tf: nat, flags: nat, ss: nat)
    ensures Restore(m[tf + 52 := flags], tf, ss) == Restore(m, tf, ss).(eflags := flags)
  {}

  /** Without its bit 9 a word has interrupts off. */
  lemma FlagOff(eflags: nat)
    ensures InterruptsOn(eflags) ==> eflags >= 512 && !InterruptsOn(eflags - 512)
  {
    if InterruptsOn(eflags) { assert (eflags - 512) / 512 == eflags / 512 - 1; }
  }

  /** Whatever the handler leaves in the registers is replaced on the way out. */
  lemma ExitIgnoresRegs(m: Machine, n: nat, regs: Regs)
    requires HasTask(m)
    ensures Exit(m.(regs := regs), n) == Exit(m, n)
  {}

  class Kernel {
    var eax: nat
    var ecx: nat
    var edx: nat
    var ebx: nat
    var ebp: nat
    var esi: nat
    var edi: nat
    var esp: nat
    var eip: nat
    var eflags: nat
    var cs: nat
    var ds: nat
    var ss: nat
    var memory: Memory
    var tssEsp0: nat

    var currentTask: TaskStruct?
    var taskListHead: TaskStruct?
    var taskListTail: TaskStruct?
    var schedulerInitialized: bool

    ghost var ring: seq<TaskStruct>
    ghost var running: nat

    ghost predicate Valid()
      reads this, ring
    {
      && ring != [] && Ring(ring) && Distinct(ring) && running < |ring|
      && currentTask == ring[running] && taskListHead == ring[0] && taskListTail == ring[|ring| - 1]
    }

    ghost function Registers(): Regs
      reads this
    {
      Regs(eax, ecx, edx, ebx, ebp, esi, edi, esp, eip, eflags, cs, ds, ss)
    }

    ghost function State(): Machine
      reads this, ring
    {
      Machine(Registers(), memory, tssEsp0, Values(ring), running, schedulerInitialized)
    }

    /** Before task_init: tasks may have been created, but neither the ring nor a current task exists. */
    ghost predicate NoTasks()
      reads this
    {
      currentTask == null && taskListHead == null && ring == []
    }

    /** The zeroed globals. */
    constructor (mem: Memory, esp0: nat)
      ensures NoTasks() && taskListTail == null && memory == mem && tssEsp0 == esp0 && !schedulerInitialized
    {
      memory, tssEsp0, schedulerInitialized := mem, esp0, false;
      currentTask, taskListHead, taskListTail := null, null, null;
      ring, running := [], 0;
    }

    /** task_init: the boot task alone in the ring, whatever was created before. */
    method TaskInit(ghost stack: Stack)
      modifies this`currentTask, this`taskListHead, this`taskListTail, this`ring, this`running
      ensures Valid() && fresh(ring)
      ensures State() == Booted(Registers(), memory, tssEsp0, stack).m.(ready := schedulerInitialized)
    {
      var bootTask := new TaskStruct(stack);
      bootTask.pid := 0;
      bootTask.nextTask := bootTask;
      currentTask, taskListHead, taskListTail := bootTask, bootTask, bootTask;
      ring, running := [bootTask], 0;
    }

    method SchedulerInit()
      requires Valid()
      modifies this`schedulerInitialized
      ensures Valid() && State() == old(State()).(ready := true)
    {
      hide Ring;
      schedulerInitialized := true;
    }

    // ---- the stack ----

    method Push(w: nat)
      requires 4 <= esp
      modifies this`esp, this`memory
      ensures esp == old(esp) - 4 && memory == old(memory)[esp := w]
    {
      esp := esp - 4;
      memory := memory[esp := w];
    }

    method Pop() returns (w: nat)
      modifies this`esp
      ensures w == Read(memory, old(esp)) && esp == old(esp) + 4
    {
      w := Read(memory, esp);
      esp := esp + 4;
    }

    method Pushad()
      requires 32 <= esp
      modifies this`esp, this`memory
      ensures esp == old(esp) - 32 && memory == GeneralFrame(old(memory), old(Registers()), old(esp))
    {
      var top := esp;
      Push(eax);
      Push(ecx);
      Push(edx);
      Push(ebx);
      Push(top);
      Push(ebp);
      Push(esi);
      Push(edi);
    }

    /** popad skips the stack pointer it finds. */
    method Popad()
      modifies this`eax, this`ecx, this`edx, this`ebx, this`ebp, this`esi, this`edi, this`esp
      ensures esp == old(esp) + 32
      ensures edi == Read(memory, old(esp)) && esi == Read(memory, old(esp) + 4) && ebp == Read(memory, old(esp) + 8)
      ensures ebx == Read(memory, old(esp) + 16) && edx == Read(memory, old(esp) + 20)
      ensures ecx == Read(memory, old(esp) + 24) && eax == Read(memory, old(esp) + 28)
    {
      hide Read;
      edi := Pop();
      esi := Pop();
      ebp := Pop();
      var skipped := Pop();
      ebx := Pop();
      edx := Pop();
      ecx := Pop();
      eax := Pop();
    }

    method Iret()
      modifies this`eip, this`cs, this`eflags, this`esp, this`ss
      ensures eip == Read(memory, old(esp)) && cs == Read(memory, old(esp) + 4) && eflags == Read(memory, old(esp) + 8)
      ensures if UserMode(cs) then esp == Read(memory, old(esp) + 12) && ss == Read(memory, old(esp) + 16)
              else esp == old(esp) + 12 && ss == old(ss)
    {
      eip := Pop();
      cs := Pop();
      eflags := Pop();
      if UserMode(cs) {
        var userEsp := Pop();
        ss := Pop();
        esp := userEsp;
      }
    }

    // ---- interrupt entry ----

    /** What the processor does at an interrupt gate. */
    method HardwareEntry()
      requires FrameSize(cs) <= StackTop(Registers(), tssEsp0)
      modifies this`esp, this`memory, this`ss, this`cs, this`eflags
      ensures memory == HardwareFrame(old(memory), old(Registers()), StackTop(old(Registers()), tssEsp0))
      ensures esp == StackTop(old(Registers()), tssEsp0) - (if UserMode(old(cs)) then 20 else 12)
      ensures cs == KERNEL_CODE_SEG && ss == if UserMode(old(cs)) then KERNEL_DATA_SEG else old(ss)
      ensures !InterruptsOn(eflags)
    {
      FlagOff(eflags);
      var (userEsp, userSs, flags, code) := (esp, ss, eflags, cs);
      if UserMode(cs) {
        esp, ss := tssEsp0, KERNEL_DATA_SEG;
        Push(userSs);
        Push(userEsp);
      }
      Push(flags);
      Push(code);
      Push(eip);
      cs := KERNEL_CODE_SEG;
      eflags := if InterruptsOn(eflags) then eflags - 512 else eflags;
    }

    /** task_update_trapframe. */
    method TaskUpdateTrapframe(tf: nat)
      requires Valid() || NoTasks()
      modifies Pointee(currentTask)`trapframe
      ensures old(NoTasks()) ==> NoTasks()
      ensures old(Valid()) ==>
                var was := old(State());
                Valid() && State() == was.(tasks := was.tasks[running := was.tasks[running].(trapframe := tf)])
    {
      hide Ring;
      ghost var was := Values(ring);
      if currentTask != null {
        currentTask.trapframe := tf;
        assert Values(ring) == was[running := ring[running].Value()];
      }
    }

    /** The pushes of irq n and irq_common_stub. */
    method PushFrame(n: nat)
      requires FrameSize(cs) <= StackTop(Registers(), tssEsp0)
      modifies this`esp, this`memory, this`ss, this`cs, this`eflags
      ensures var (r, top) := (old(Registers()), StackTop(old(Registers()), tssEsp0));
              memory == Save(old(memory), r, top, n) && esp == top - FrameSize(r.cs)
      ensures cs == KERNEL_CODE_SEG && ss == if UserMode(old(cs)) then KERNEL_DATA_SEG else old(ss)
      ensures !InterruptsOn(eflags)
    {
      hide HardwareFrame, InterruptsOn;
      HardwareEntry();
      Push(0);
      Push(n);
      Pushad();
      Push(ds);
    }

    /** irq n and irq_common_stub, up to the call of the handler: it runs in kernel mode with the kernel's segments,
        interrupts off, and the frame with the interrupt's number under its stack pointer. */
    method IrqEntry(n: nat)
      requires Valid() && FrameSize(cs) <= Top(State())
      modifies this`esp, this`memory, this`ss, this`cs, this`eflags, this`ds, Pointee(currentTask)`trapframe
      ensures Valid() && State() == Enter(old(State()), n).(regs := Registers())
      ensures esp == ring[running].trapframe && ss == if UserMode(old(cs)) then KERNEL_DATA_SEG else old(ss)
      ensures cs == KERNEL_CODE_SEG && ds == KERNEL_DATA_SEG && !InterruptsOn(eflags)
      ensures Read(memory, esp + 36) == n
    {
      hide InterruptsOn;
      hide Save, StackTop, FrameSize, Ring, Distinct, NoTasks, Pointee, Values, UserMode, Read;
      ghost var was := State();
      PushFrame(n);
      ds := KERNEL_DATA_SEG;
      assert State() == was.(regs := Registers(), mem := memory);
      TaskUpdateTrapframe(esp);
      FrameWords(was.mem, was.regs, StackTop(was.regs, was.esp0), n);
    }

    // ---- interrupt exit ----

    /** pop ds, popad, add esp 8: everything of the frame at esp but what iret takes. */
    method PopFrame()
      modifies this`ds, this`eax, this`ecx, this`edx, this`ebx, this`ebp, this`esi, this`edi, this`esp
      ensures esp == old(esp) + 44
      ensures var r := Restore(memory, old(esp), ss);
              && ds == r.ds && edi == r.edi && esi == r.esi && ebp == r.ebp
              && ebx == r.ebx && edx == r.edx && ecx == r.ecx && eax == r.eax
    {
      hide Read;
      ds := Pop();
      Popad();
      esp := esp + 8;
    }

    /** The end of irq_common_stub. */
    method IrqExit()
      modifies this`ds, this`eax, this`ecx, this`edx, this`ebx, this`ebp, this`esi, this`edi, this`esp
      modifies this`eip, this`cs, this`eflags, this`ss
      ensures Registers() == Restore(memory, old(esp), old(ss))
    {
      hide Read;
      PopFrame();
      eflags := Enabled(eflags);
      Iret();
    }

    method GdtUpdateTss(userKernelStack: nat)
      modifies this`tssEsp0
      ensures tssEsp0 == userKernelStack
    {
      tssEsp0 := userKernelStack;
    }

    /** task_switch_asm, from kernel mode. */
    method TaskSwitchAsm(next: TaskStruct, ghost i: nat)
      requires Valid() && i < |ring| && next == ring[i] && ss == KERNEL_DATA_SEG
      modifies this`ds, this`eax, this`ecx, this`edx, this`ebx, this`ebp, this`esi, this`edi, this`esp
      modifies this`eip, this`cs, this`eflags, this`ss, this`memory, this`currentTask, this`running
      ensures Valid() && State() == SwitchTo(old(State()), i)
    {
      hide Read, Restore, Ring;
      ghost var was := State();
      assert was.tasks[i] == next.Value();
      currentTask := next;
      running := i;
      esp := next.trapframe;
      RestoreFrame();
      assert Values(ring) == was.tasks;
    }

    /** The rest of task_switch_asm, with esp at the frame. */
    method RestoreFrame()
      modifies this`ds, this`eax, this`ecx, this`edx, this`ebx, this`ebp, this`esi, this`edi, this`esp
      modifies this`eip, this`cs, this`eflags, this`ss, this`memory
      ensures memory == old(memory)[old(esp) + 52 := Enabled(Read(old(memory), old(esp) + 52))]
      ensures Registers() == Restore(memory, old(esp), old(ss))
    {
      hide Read;
      ghost var tf := esp;
      PopFrame();
      ghost var patched := Enabled(Read(memory, esp + 8));
      FramePatched(memory, tf, patched, ss);
      memory := memory[esp + 8 := Enabled(Read(memory, esp + 8))];
      Iret();
    }

    /** scheduler: true when it has switched and does not come back. */
    method Scheduler() returns (switched: bool)
      requires (Valid() && ss == KERNEL_DATA_SEG) || NoTasks()
      modifies this`ds, this`eax, this`ecx, this`edx, this`ebx, this`ebp, this`esi, this`edi, this`esp
      modifies this`eip, this`cs, this`eflags, this`ss, this`memory, this`currentTask, this`running, this`tssEsp0
      ensures old(NoTasks()) ==> NoTasks() && !switched && Registers() == old(Registers()) && memory == old(memory)
      ensures old(Valid()) ==>
                && Valid() && switched == old(schedulerInitialized)
                && State() == if switched then Schedule(old(State())) else old(State())
    {
      hide Ring;
      if Valid() { FollowerIs(ring, running); }
      if !schedulerInitialized {
        return false;
      }
      if currentTask == null || currentTask.nextTask == null {
        return false;
      }
      var nextTask := currentTask.nextTask;
      ghost var next := NextTask(State());
      assert State().tasks[next] == nextTask.Value();
      if nextTask.isUser {
        GdtUpdateTss(nextTask.kernelStackBase);
      }
      TaskSwitchAsm(nextTask, next);
      return true;
    }

    /** The body of a handler: it leaves memory `handled` and what it likes in the scratch registers. */
    method Handle(handled: Memory)
      requires Valid()
      modifies this`memory, this`eax, this`ecx, this`edx, this`eflags
      ensures Valid() && State() == old(State()).(mem := handled, regs := Registers())
    {
      hide Ring, Distinct, Follower, Values;
      ghost var was := State();
      memory := handled;
      eax, ecx, edx, eflags := *, *, *, *;
      assert Values(ring) == was.tasks;
    }

    /** irq_handler's dispatch and what follows: the timer's callback calls scheduler, which may not return. */
    method IrqReturn(n: nat)
      requires Valid() && esp == currentTask.trapframe && ss == KERNEL_DATA_SEG
      modifies this`ds, this`eax, this`ecx, this`edx, this`ebx, this`ebp, this`esi, this`edi, this`esp
      modifies this`eip, this`cs, this`eflags, this`ss, this`memory, this`currentTask, this`running, this`tssEsp0
      ensures Valid() && State() == Exit(old(State()), n)
    {
      hide Leave, Schedule, Ring;
      if n == TIMER {
        var switched := Scheduler();
        if switched {
          return;
        }
      }
      GoOn();
    }

    /** The end of irq_common_stub, on the frame of the interrupted task. */
    method GoOn()
      requires Valid() && esp == currentTask.trapframe && ss == KERNEL_DATA_SEG
      modifies this`ds, this`eax, this`ecx, this`edx, this`ebx, this`ebp, this`esi, this`edi, this`esp
      modifies this`eip, this`cs, this`eflags, this`ss
      ensures Valid() && State() == Leave(old(State()))
    {
      hide Restore, Ring;
      ghost var was := State();
      assert was.tasks[running] == currentTask.Value();
      IrqExit();
      assert Values(ring) == was.tasks;
    }

    /** An interrupt from its gate to the task that goes on; `handled` is memory as the handler leaves it. */
    method Irq(n: nat, handled: Memory)
      requires Valid() && FrameSize(cs) <= Top(State()) && (!UserMode(cs) ==> ss == KERNEL_DATA_SEG)
      modifies this, Pointee(currentTask)`trapframe
      ensures var entered := Enter(old(State()), n);
              Valid() && State() == Exit(entered.(mem := handled), NumberInFrame(entered))
    {
      hide Enter, Exit, Ring;
      ghost var entered := Enter(State(), n);
      IrqEntry(n);
      assert Read(memory, esp + 36) == NumberInFrame(entered);
      var intNo := Read(memory, esp + 36);
      Handle(handled);
      assert State() == entered.(mem := handled, regs := Registers());
      ExitIgnoresRegs(entered.(mem := handled), intNo, Registers());
      IrqReturn(intNo);
    }

    // ---- task creation ----

    /** The end of both creation functions: the task goes to the end of the ring, or, before task_init, becomes
        the tail of no list at all. */
    method Append(newTask: TaskStruct)
      requires (Valid() && newTask !in ring) || NoTasks()
      requires newTask.nextTask == taskListHead && newTask.pid == 0 && newTask != taskListTail
      modifies newTask`pid, Pointee(taskListTail)`nextTask, this`taskListTail, this`ring
      ensures taskListTail == newTask
      ensures old(NoTasks()) ==>
                && NoTasks()
                && newTask.Value() == old(newTask.Value()).(pid := if old(taskListTail) == null then 0
                                                                   else old(taskListTail.pid) + 1)
      ensures old(Valid()) ==>
                && Valid() && ring == old(ring) + [newTask]
                && var was := old(State());
                   var pid := was.tasks[|was.tasks| - 1].pid + 1;
                   State() == was.(tasks := was.tasks + [old(newTask.Value()).(pid := pid)])
    {
      hide Follower;
      ghost var (was, tasks) := (ring, Values(ring));
      if taskListTail != null {
        newTask.pid := taskListTail.pid + 1;
        taskListTail.nextTask := newTask;
      }
      taskListTail := newTask;
      if was != [] {
        assert tasks[|was| - 1] == old(taskListTail.Value());
        ring := ring + [newTask];
        RingGrows(was, newTask);
        assert Values(ring) == tasks + [newTask.Value()];
      }
    }

    /** The trapframe task_create_kernel builds at the top of the page. */
    method KernelTrapframe(kernelStackBase: nat, entry: nat) returns (tf: nat)
      requires PAGE_SIZE <= kernelStackBase
      modifies this`memory
      ensures tf == kernelStackBase - KERNEL_BYTES
      ensures memory == KernelFrame(old(memory), kernelStackBase - PAGE_SIZE, entry)
    {
      memory := Zeroed(memory, kernelStackBase - PAGE_SIZE);
      tf := kernelStackBase - (FRAME_BYTES - 8);
      memory := memory[tf + 44 := entry];
      memory := memory[tf + 52 := 0x2];
      memory := memory[tf + 48 := KERNEL_CODE_SEG];
      memory := memory[tf := KERNEL_DATA_SEG];
    }

    /** And task_create_user. */
    method UserTrapframe(kernelStackBase: nat, entry: nat) returns (tf: nat)
      requires PAGE_SIZE <= kernelStackBase
      modifies this`memory
      ensures tf == kernelStackBase - FRAME_BYTES
      ensures memory == UserFrame(old(memory), kernelStackBase - PAGE_SIZE, entry)
    {
      memory := Zeroed(memory, kernelStackBase - PAGE_SIZE);
      tf := kernelStackBase - FRAME_BYTES;
      memory := memory[tf + 44 := entry];
      memory := memory[tf + 52 := 0x2];
      memory := memory[tf + 48 := USER_CODE_SEG];
      memory := memory[tf := USER_DATA_SEG];
      memory := memory[tf + 60 := USER_DATA_SEG];
      memory := memory[tf + 56 := KERNEL_VIRT_BASE];
    }

    /** task_create_kernel up to the list; vmm_alloc_page returned `page`. */
    method KernelTask(page: nat, entry: nat) returns (newTask: TaskStruct)
      modifies this`memory
      ensures fresh(newTask) && newTask.nextTask == taskListHead
      ensures memory == KernelFrame(old(memory), page, entry)
      ensures var base := page + PAGE_SIZE;
              newTask.Value() == Task(0, false, base - KERNEL_BYTES, base, Stack(page, base))
    {
      hide KernelFrame;
      newTask := new TaskStruct(Stack(page, page + PAGE_SIZE));
      newTask.nextTask := taskListHead;
      newTask.kernelStackBase := page + PAGE_SIZE;
      newTask.trapframe := KernelTrapframe(newTask.kernelStackBase, entry);
    }

    /** task_create_user up to the list. */
    method UserTask(page: nat, entry: nat) returns (newTask: TaskStruct)
      modifies this`memory
      ensures fresh(newTask) && newTask.nextTask == taskListHead
      ensures memory == UserFrame(old(memory), page, entry)
      ensures var base := page + PAGE_SIZE;
              newTask.Value() == Task(0, true, base - FRAME_BYTES, base, Stack(page, base))
    {
      hide UserFrame;
      newTask := new TaskStruct(Stack(page, page + PAGE_SIZE));
      newTask.isUser := true;
      newTask.nextTask := taskListHead;
      newTask.kernelStackBase := page + PAGE_SIZE;
      newTask.trapframe := UserTrapframe(newTask.kernelStackBase, entry);
    }

    method TaskCreateKernel(page: nat, entry: nat)
      requires Valid() || NoTasks()
      modifies this`memory, this`taskListTail, this`ring, Pointee(taskListTail)`nextTask
      ensures taskListTail != null && fresh(taskListTail)
      ensures old(NoTasks()) ==> NoTasks() && memory == KernelFrame(old(memory), page, entry)
      ensures old(Valid()) ==>
                Valid() && State() == CreateKernel(old(State()), page, entry) && ring == old(ring) + [taskListTail]
    {
      hide KernelFrame, Ring, Distinct, Pointee, Values;
      var newTask := KernelTask(page, entry);
      Append(newTask);
    }

    method TaskCreateUser(page: nat, entry: nat)
      requires Valid() || NoTasks()
      modifies this`memory, this`taskListTail, this`ring, Pointee(taskListTail)`nextTask
      ensures taskListTail != null && fresh(taskListTail)
      ensures old(NoTasks()) ==> NoTasks() && memory == UserFrame(old(memory), page, entry)
      ensures old(Valid()) ==>
                Valid() && State() == CreateUser(old(State()), page, entry) && ring == old(ring) + [taskListTail]
    {
      hide UserFrame, Ring, Distinct, Pointee, Values;
      var newTask := UserTask(page, entry);
      Append(newTask);
    }
  }
}
