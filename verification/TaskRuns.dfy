/** Runs of the task machine: contexts survive preemption, kernel stacks do not creep, every task gets its turn. */
module TaskRuns {
  import opened Words
  import opened Wrappers
  import opened Trapframe
  import opened Tasks

  /** Nothing runs: every task, the interrupted one included, is parked. */
  ghost predicate AllParked(m: Machine, log: seq<Event>) {
    forall i | 0 <= i < |m.tasks| :: Parked(m, log, i)
  }

  /** A frame stays parked while its words and its last saved context stay. */
  lemma StaysParked(m: Machine, log: seq<Event>, m': Machine, log': seq<Event>, i: nat)
    requires i < |m.tasks| && Parked(m, log, i) && i < |m'.tasks| && m'.tasks[i] == m.tasks[i]
    requires forall a: nat | InFrame(m, i, a) :: Read(m'.mem, a) == Read(m.mem, a)
    requires LastContext(log', i) == LastContext(log, i)
    ensures Parked(m', log', i)
  {
    var tf := m.tasks[i].trapframe;
    assert InFrame(m, i, tf + 48);
    RestoreAgrees(m.mem, m'.mem, tf, KERNEL_DATA_SEG);
  }

  lemma FrameInStack(m: Machine, log: seq<Event>, i: nat, a: nat)
    requires i < |m.tasks| && Parked(m, log, i) && InFrame(m, i, a)
    ensures m.tasks[i].stack.low <= a < m.tasks[i].stack.high
  {}

  lemma SkipEvent(e: Event, log: seq<Event>, i: nat)
    ensures LastContext([e] + log, i) == if !e.Resumed? && e.task == i then Some(e) else LastContext(log, i)
  {
    assert ([e] + log)[1..] == log;
  }

  // ---- entry ----

  /** The frame goes into the running task's own stack, user frames to its very top. */
  lemma EntryInStack(m: Machine)
    requires HasTask(m) && RingOk(m.tasks) && Running(m)
    ensures FrameSize(m.regs.cs) <= Top(m)
    ensures var (t, tf) := (m.tasks[m.current], Top(m) - FrameSize(m.regs.cs));
            t.stack.low <= tf && Top(m) <= t.stack.high && (t.isUser ==> tf == t.kernelStackBase - FRAME_BYTES)
  {}

  /** The number irq_handler finds is that of the interrupt. */
  lemma NumberArrives(m: Machine, n: nat)
    requires HasTask(m) && FrameSize(m.regs.cs) <= Top(m)
    ensures NumberInFrame(Enter(m, n)) == n
  {
    hide Save;
    FrameWords(m.mem, m.regs, Top(m), n);
  }

  lemma EntryParksOthers(t: Traced, n: nat, i: nat)
    requires Good(t) && FrameSize(t.m.regs.cs) <= Top(t.m) && i < |t.m.tasks| && i != t.m.current
    ensures Parked(Enter(t.m, n), [Saved(t.m.current, t.m.regs)] + t.log, i)
  {
    EntryInStack(t.m);
    SkipEvent(Saved(t.m.current, t.m.regs), t.log, i);
    forall a: nat | InFrame(t.m, i, a) ensures Read(Enter(t.m, n).mem, a) == Read(t.m.mem, a) {
      FrameInStack(t.m, t.log, i, a);
      SaveFrame(t.m.mem, t.m.regs, Top(t.m), n, a);
    }
    StaysParked(t.m, t.log, Enter(t.m, n), [Saved(t.m.current, t.m.regs)] + t.log, i);
  }

  lemma EntryParksCurrent(t: Traced, n: nat)
    requires Good(t) && FrameSize(t.m.regs.cs) <= Top(t.m) && InterruptsOn(t.m.regs.eflags)
    ensures Parked(Enter(t.m, n), [Saved(t.m.current, t.m.regs)] + t.log, t.m.current)
  {
    hide Save, Restore;
    EntryInStack(t.m);
    SkipEvent(Saved(t.m.current, t.m.regs), t.log, t.m.current);
    SaveRestore(t.m.mem, t.m.regs, Top(t.m), n, KERNEL_DATA_SEG);
  }

  lemma EntryParks(t: Traced, n: nat, mem: Memory)
    requires Good(t) && Behaves(t.m, Interrupt(n, mem))
    ensures AllParked(Enter(t.m, n).(mem := mem), [Saved(t.m.current, t.m.regs)] + t.log)
    ensures RingOk(Enter(t.m, n).tasks)
  {
    var (m, log) := (Enter(t.m, n), [Saved(t.m.current, t.m.regs)] + t.log);
    forall i | 0 <= i < |m.tasks| ensures Parked(m.(mem := mem), log, i) {
      if i == t.m.current { EntryParksCurrent(t, n); } else { EntryParksOthers(t, n, i); }
      StaysParked(m, log, m.(mem := mem), log, i);
    }
  }

  // ---- exit ----

  /** The patched frame restores the saved context with interrupts enabled. */
  lemma PatchRestores(mem: Memory, tf: nat, ss: nat)
    ensures Restore(mem[tf + 52 := Enabled(Read(mem, tf + 52))], tf, ss) == Resumable(Restore(mem, tf, ss))
  {}

  lemma OwedIsResumable(e: Event)
    requires !e.Resumed? && (e.Saved? ==> InterruptsOn(e.regs.eflags))
    ensures Owed(e) == Resumable(e.regs)
  {}

  lemma SwitchGood(m: Machine, log: seq<Event>, next: nat)
    requires AllParked(m, log) && RingOk(m.tasks) && Faithful(log) && next < |m.tasks|
    requires m.tasks[next].isUser ==> m.esp0 == m.tasks[next].kernelStackBase
    ensures var m' := SwitchTo(m, next); Good(Traced(m', [Resumed(next, m'.regs)] + log))
  {
    var m' := SwitchTo(m, next);
    var e := Resumed(next, m'.regs);
    assert Parked(m, log, next) && ([e] + log)[1..] == log;
    OwedIsResumable(LastContext(log, next).value);
    PatchRestores(m.mem, m.tasks[next].trapframe, KERNEL_DATA_SEG);
    forall i | 0 <= i < |m.tasks| && i != next ensures Parked(m', [e] + log, i) {
      assert Parked(m, log, i);
      SkipEvent(e, log, i);
      forall a: nat | InFrame(m, i, a) ensures Read(m'.mem, a) == Read(m.mem, a) {
        FrameInStack(m, log, i, a);
      }
      StaysParked(m, log, m', [e] + log, i);
    }
  }

  lemma LeaveGood(m: Machine, log: seq<Event>)
    requires AllParked(m, log) && RingOk(m.tasks) && Faithful(log) && HasTask(m)
    requires m.tasks[m.current].isUser ==> m.esp0 == m.tasks[m.current].kernelStackBase
    requires LastContext(log, m.current).Some? && LastContext(log, m.current).value.Saved?
    ensures var m' := Leave(m); Good(Traced(m', [Resumed(m.current, m'.regs)] + log))
  {
    var m' := Leave(m);
    var e := Resumed(m.current, m'.regs);
    assert Parked(m, log, m.current) && ([e] + log)[1..] == log;
    forall i | 0 <= i < |m.tasks| && i != m.current ensures Parked(m', [e] + log, i) {
      assert Parked(m, log, i);
      SkipEvent(e, log, i);
      StaysParked(m, log, m', [e] + log, i);
    }
  }

  lemma InterruptGood(t: Traced, n: nat, mem: Memory)
    requires Good(t) && Behaves(t.m, Interrupt(n, mem))
    ensures Good(After(t, Interrupt(n, mem)))
  {
    EntryParks(t, n, mem);
    NumberArrives(t.m, n);
    var (m, log) := (Enter(t.m, n).(mem := mem), [Saved(t.m.current, t.m.regs)] + t.log);
    assert log[1..] == t.log;
    if Switches(m, n) {
      var next := NextTask(m);
      var m1 := m.(esp0 := if m.tasks[next].isUser then m.tasks[next].kernelStackBase else m.esp0);
      assert forall i | 0 <= i < |m.tasks| :: Parked(m, log, i) ==> Parked(m1, log, i);
      SwitchGood(m1, log, next);
    } else {
      LeaveGood(m, log);
    }
    assert forall e :: [e, Saved(t.m.current, t.m.regs)] + t.log == [e] + log;
  }

  // ---- running and creating ----

  lemma ExecuteGood(t: Traced, regs: Regs, mem: Memory)
    requires Good(t) && Behaves(t.m, Execute(regs, mem))
    ensures Good(After(t, Execute(regs, mem)))
  {
    forall i | 0 <= i < |t.m.tasks| && i != t.m.current ensures Parked(t.m.(regs := regs, mem := mem), t.log, i) {
      StaysParked(t.m, t.log, t.m.(regs := regs, mem := mem), t.log, i);
    }
  }

  /** A task made on a free page leaves the others alone. */
  lemma CreateGood(t: Traced, page: nat, mem: Memory, newTask: Task, e: Event)
    requires Good(t) && PageFree(t.m, page)
    requires forall a: nat | a < page || page + PAGE_SIZE <= a :: Read(mem, a) == Read(t.m.mem, a)
    requires newTask.pid == |t.m.tasks|
    requires newTask.stack == Stack(page, page + PAGE_SIZE) && newTask.kernelStackBase == page + PAGE_SIZE
    requires e.Created? && e.task == |t.m.tasks|
    requires Parked(t.m.(mem := mem, tasks := t.m.tasks + [newTask]), [e] + t.log, |t.m.tasks|)
    ensures Good(Traced(t.m.(mem := mem, tasks := t.m.tasks + [newTask]), [e] + t.log))
  {
    var m' := t.m.(mem := mem, tasks := t.m.tasks + [newTask]);
    assert ([e] + t.log)[1..] == t.log;
    forall i | 0 <= i < |t.m.tasks| && i != t.m.current ensures Parked(m', [e] + t.log, i) {
      SkipEvent(e, t.log, i);
      forall a: nat | InFrame(t.m, i, a) ensures Read(mem, a) == Read(t.m.mem, a) {
        FrameInStack(t.m, t.log, i, a);
      }
      StaysParked(t.m, t.log, m', [e] + t.log, i);
    }
  }

  lemma CreateKernelGood(t: Traced, page: nat, eip: nat)
    requires Good(t) && PageFree(t.m, page)
    ensures Good(After(t, NewKernelTask(page, eip)))
  {
    var m' := CreateKernel(t.m, page, eip);
    var (newTask, e) := (m'.tasks[|t.m.tasks|], Created(|t.m.tasks|, KernelStart(page + PAGE_SIZE, eip)));
    KernelStarts(t.m.mem, page, eip);
    SkipEvent(e, t.log, |t.m.tasks|);
    assert Read(m'.mem, newTask.trapframe + 48) == KERNEL_CODE_SEG;
    CreateGood(t, page, m'.mem, newTask, e);
  }

  lemma CreateUserGood(t: Traced, page: nat, eip: nat)
    requires Good(t) && PageFree(t.m, page)
    ensures Good(After(t, NewUserTask(page, eip)))
  {
    var m' := CreateUser(t.m, page, eip);
    var (newTask, e) := (m'.tasks[|t.m.tasks|], Created(|t.m.tasks|, UserStart(eip)));
    UserStarts(t.m.mem, page, eip, KERNEL_DATA_SEG);
    SkipEvent(e, t.log, |t.m.tasks|);
    assert Read(m'.mem, newTask.trapframe + 48) == USER_CODE_SEG;
    CreateGood(t, page, m'.mem, newTask, e);
  }

  lemma AfterGood(t: Traced, s: Step)
    requires Good(t) && Behaves(t.m, s)
    ensures Good(After(t, s))
  {
    hide Enter, Exit, CreateKernel, CreateUser;
    match s
    case Execute(regs, mem) => ExecuteGood(t, regs, mem);
    case Interrupt(n, mem) => InterruptGood(t, n, mem);
    case NewKernelTask(page, eip) => CreateKernelGood(t, page, eip);
    case NewUserTask(page, eip) => CreateUserGood(t, page, eip);
    case SchedulerInit => ReadyGood(t);
  }

  lemma ReadyGood(t: Traced)
    requires Good(t)
    ensures Good(t.(m := t.m.(ready := true)))
  {
    forall i | 0 <= i < |t.m.tasks| && i != t.m.current ensures Parked(t.m.(ready := true), t.log, i) {
      assert Parked(t.m, t.log, i);
    }
  }

  // ---- whole runs ----

  /** The invariant holds along every run. */
  lemma {:induction false} RunGood(t: Traced, steps: seq<Step>)
    requires Good(t) && Run(t, steps).Some?
    ensures Good(Run(t, steps).value)
    decreases |steps|
  {
    if steps != [] {
      AfterGood(t, steps[0]);
      RunGood(After(t, steps[0]), steps[1..]);
    }
  }

  lemma BootGood(regs: Regs, mem: Memory, esp0: nat, stack: Stack)
    requires !UserMode(regs.cs) && regs.ss == KERNEL_DATA_SEG && Room(stack, regs.esp)
    ensures Good(Booted(regs, mem, esp0, stack))
  {}

  lemma {:induction false} FaithfulAt(log: seq<Event>, k: nat)
    requires Faithful(log) && k < |log| && log[k].Resumed?
    ensures LastContext(log[k + 1..], log[k].task).Some?
    ensures log[k].regs == Owed(LastContext(log[k + 1..], log[k].task).value)
    decreases k
  {
    if k > 0 {
      FaithfulAt(log[1..], k - 1);
      assert log[1..][k..] == log[k + 1..];
    }
  }

  /** Context preservation: in any run from boot, whatever interrupts, switches and new tasks come in between, a
      task goes on with exactly the registers, segments, eip, eflags and stack pointer it was last interrupted
      with, or with its initial ones and interrupts enabled. */
  lemma ContextPreserved(regs: Regs, mem: Memory, esp0: nat, stack: Stack, steps: seq<Step>, k: nat)
    requires !UserMode(regs.cs) && regs.ss == KERNEL_DATA_SEG && Room(stack, regs.esp)
    requires var r := Run(Booted(regs, mem, esp0, stack), steps);
             r.Some? && k < |r.value.log| && r.value.log[k].Resumed?
    ensures var log := Run(Booted(regs, mem, esp0, stack), steps).value.log;
            && LastContext(log[k + 1..], log[k].task).Some?
            && log[k].regs == Owed(LastContext(log[k + 1..], log[k].task).value)
  {
    BootGood(regs, mem, esp0, stack);
    RunGood(Booted(regs, mem, esp0, stack), steps);
    FaithfulAt(Run(Booted(regs, mem, esp0, stack), steps).value.log, k);
  }

  /** User stack discipline: along every run, while a user task runs the TSS names its kernel stack, and its next
      interrupt builds the trapframe exactly one frame below the base, however often it was interrupted. */
  lemma UserStackDiscipline(t: Traced, steps: seq<Step>, n: nat)
    requires Good(t) && Run(t, steps).Some? && UserMode(Run(t, steps).value.m.regs.cs)
    ensures HasTask(Run(t, steps).value.m)
    ensures var m := Run(t, steps).value.m; var task := m.tasks[m.current];
            && task.isUser && m.esp0 == task.kernelStackBase && FrameSize(m.regs.cs) <= Top(m)
            && Enter(m, n).tasks[m.current].trapframe == task.kernelStackBase - FRAME_BYTES
  {
    RunGood(t, steps);
    EntryInStack(Run(t, steps).value.m);
  }

  /** A kernel task comes back to the stack pointer it was interrupted at: the frame takes 56 bytes and leaving it
      gives exactly those back, so kernel stacks do not creep; a new one starts with an empty stack. */
  lemma KernelStacksDoNotCreep(t: Traced, n: nat, mem: Memory)
    requires Good(t) && Behaves(t.m, Interrupt(n, mem))
    ensures var m := After(t, Interrupt(n, mem)).m; var task := m.tasks[m.current];
            !task.isUser ==>
              && task.stack.low <= task.trapframe && m.regs.esp == task.trapframe + KERNEL_BYTES <= task.stack.high
              && (m.current != t.m.current ==> LastContext(t.log, m.current).Some?
                                               && m.regs.esp == LastContext(t.log, m.current).value.regs.esp)
  {
    hide Save;
    EntryParks(t, n, mem);
    InterruptGood(t, n, mem);
    NumberArrives(t.m, n);
    var (m, log) := (Enter(t.m, n).(mem := mem), [Saved(t.m.current, t.m.regs)] + t.log);
    var m' := After(t, Interrupt(n, mem)).m;
    SkipEvent(Saved(t.m.current, t.m.regs), t.log, m'.current);
    assert Parked(m, log, m'.current);
  }

  // ---- round robin ----

  /** How many places j is ahead of the current task in the ring. */
  function Ahead(m: Machine, j: nat): nat
    requires HasTask(m) && j < |m.tasks|
  {
    if m.current <= j then j - m.current else j + |m.tasks| - m.current
  }

  function Timers(steps: seq<Step>): nat {
    if steps == [] then 0
    else (if IsTimer(steps[0]) then 1 else 0) + Timers(steps[1..])
  }

  function Creations(steps: seq<Step>): nat {
    if steps == [] then 0
    else (if IsNew(steps[0]) then 1 else 0) + Creations(steps[1..])
  }

  /** After k steps task j runs, and that took no more timer interrupts than it was ahead, and one for each task
      made meanwhile. */
  ghost predicate GetsItsTurn(t: Traced, steps: seq<Step>, j: nat, k: nat)
    requires HasTask(t.m) && j < |t.m.tasks|
  {
    && k <= |steps| && Run(t, steps[..k]).Some? && Run(t, steps[..k]).value.m.current == j
    && Timers(steps[..k]) <= Ahead(t.m, j) + Creations(steps[..k])
  }

  predicate IsTimer(s: Step) { s.Interrupt? && s.number == TIMER }

  predicate IsNew(s: Step) { s.NewKernelTask? || s.NewUserTask? }

  /** An interrupt moves on to the next task of the ring exactly when it is number 32 and the scheduler is on, and
      moves the TSS's stack exactly when that task is a user task. */
  lemma SwitchesExactly(t: Traced, n: nat, mem: Memory)
    requires Behaves(t.m, Interrupt(n, mem))
    ensures After(t, Interrupt(n, mem)).m.current ==
            if n == 32 && t.m.ready then (t.m.current + 1) % |t.m.tasks| else t.m.current
    ensures var (m, next) := (t.m, t.m.tasks[(t.m.current + 1) % |t.m.tasks|]);
            After(t, Interrupt(n, mem)).m.esp0 ==
            if n == 32 && m.ready && next.isUser then next.kernelStackBase else m.esp0
  {
    hide Save, Restore, Spares;
    NumberArrives(t.m, n);
  }

  /** A timer interrupt moves one place along the ring, a new task goes to its end. */
  lemma StepShape(t: Traced, s: Step)
    requires Behaves(t.m, s) && t.m.ready
    ensures var m := After(t, s).m;
            && HasTask(t.m) && m.ready && |m.tasks| == |t.m.tasks| + (if IsNew(s) then 1 else 0)
            && m.current == if IsTimer(s) then NextTask(t.m) else t.m.current
  {
    hide Save, Restore, KernelFrame, UserFrame, Spares, NumberInFrame;
    if s.Interrupt? { NumberArrives(t.m, s.number); }
  }

  lemma StepMoves(t: Traced, s: Step, j: nat)
    requires Behaves(t.m, s) && t.m.ready && j < |t.m.tasks| && t.m.current != j
    ensures var m := After(t, s).m;
            && HasTask(m) && m.ready && j < |m.tasks|
            && Ahead(m, j) + Timers([s]) <= Ahead(t.m, j) + Creations([s])
  {
    hide After, Behaves;
    assert [s][1..] == [];
    StepShape(t, s);
  }

  /** Bounded waiting: once the scheduler runs, a task d places ahead gets the processor within d + m timer
      interrupts, m being the number of tasks made meanwhile. */
  lemma {:induction false} BoundedWaiting(t: Traced, steps: seq<Step>, j: nat) returns (k: nat)
    requires HasTask(t.m) && t.m.ready && j < |t.m.tasks| && Run(t, steps).Some?
    requires Ahead(t.m, j) + Creations(steps) <= Timers(steps)
    ensures GetsItsTurn(t, steps, j, k)
    decreases |steps|
  {
    if t.m.current == j {
      assert steps[..0] == [];
      k := 0;
    } else {
      var (s, rest) := (steps[0], steps[1..]);
      StepMoves(t, s, j);
      assert [s][1..] == [];
      k := BoundedWaiting(After(t, s), rest, j);
      k := k + 1;
      assert steps[..k][1..] == rest[..k - 1];
    }
  }
}
