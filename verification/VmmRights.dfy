/** Rights of kernel addresses: along every run, whatever of the kernel's 1 GiB translates is writable and closed to
    user mode. */
module VmmRights {
  import opened Words
  import opened Wrappers
  import opened PhysicalMemory
  import opened Paging
  import opened FreeList
  import opened Vmm
  import opened VmmInvariant
  import opened VmmSteps
  import opened VmmRuns

  /** Only the first n directory entries of the kernel are there, writable and not for user mode, and what their
      tables have is writable. */
  ghost predicate KernelRights(ram: Ram, cr3: Frame, n: nat)
    requires n <= MAX_BLOCKS
  {
    && (forall j: nat | j < MAX_BLOCKS && DirEntry(ram, cr3, j).present ::
          j < n && DirEntry(ram, cr3, j).rw && !DirEntry(ram, cr3, j).user)
    && (forall j: nat, k: nat | j < n && k < PAGE_TABLE_INDICES && E(ram, cr3, j, k).present :: E(ram, cr3, j, k).rw)
  }

  /** What the walk makes of that. */
  lemma RightsAt(ram: Ram, cr3: Frame, n: nat, va: Addr)
    requires n <= MAX_BLOCKS && KernelRights(ram, cr3, n) && KERNEL_VIRT_BASE <= va
    ensures Translate(ram, cr3, va).Some? ==>
              Translate(ram, cr3, va).value.rw && !Translate(ram, cr3, va).value.user
  {
    var j := DirIndex(va) - KERNEL_DIR;
    if DirEntry(ram, cr3, j).present {
      assert E(ram, cr3, j, TableIndex(va)) == ram[ram[cr3][DirIndex(va)].frame][TableIndex(va)];
    }
  }

  /** Kernel addresses are the kernel's alone, and it may write to all it has. */
  ghost predicate Protected(vm: Vm) {
    forall va: Addr | KERNEL_VIRT_BASE <= va && Translate(vm.ram, vm.cr3, va).Some? ::
      Translate(vm.ram, vm.cr3, va).value.rw && !Translate(vm.ram, vm.cr3, va).value.user
  }

  lemma RightsProtect(vm: Vm)
    requires |vm.blocks| <= MAX_BLOCKS && KernelRights(vm.ram, vm.cr3, |vm.blocks|)
    ensures Protected(vm)
  {
    forall va: Addr | KERNEL_VIRT_BASE <= va && Translate(vm.ram, vm.cr3, va).Some?
      ensures Translate(vm.ram, vm.cr3, va).value.rw && !Translate(vm.ram, vm.cr3, va).value.user
    {
      RightsAt(vm.ram, vm.cr3, |vm.blocks|, va);
    }
  }

  // ---- one step ----

  lemma GrownDirectory(ram: Ram, cr3: Frame, n: nat, owners: Owners, e: Entry, j: nat)
    requires Linked(ram, cr3, n) && Owned(ram, cr3, n, owners) && n < MAX_BLOCKS && e.frame !in owners
    requires j < MAX_BLOCKS
    ensures DirEntry(Grown(ram, cr3, n, e), cr3, j) ==
            if j == n then Entry(true, true, false, false, e.frame) else DirEntry(ram, cr3, j)
  {
    TablesDiffer(ram, cr3, n, owners, n - 1, n - 1);
  }

  lemma GrownRights(ram: Ram, cr3: Frame, n: nat, owners: Owners, e: Entry)
    requires Linked(ram, cr3, n) && Owned(ram, cr3, n, owners) && n < MAX_BLOCKS && e.frame !in owners && e.rw
    requires KernelRights(ram, cr3, n)
    ensures KernelRights(Grown(ram, cr3, n, e), cr3, n + 1)
  {
    var ram' := Grown(ram, cr3, n, e);
    GrownLocal(ram, cr3, n, owners, e);
    forall j: nat | j < MAX_BLOCKS && DirEntry(ram', cr3, j).present
      ensures j < n + 1 && DirEntry(ram', cr3, j).rw && !DirEntry(ram', cr3, j).user
    {
      GrownDirectory(ram, cr3, n, owners, e, j);
    }
  }

  lemma MiddleRights(vm: Vm, owners: Owners)
    requires VmOk(vm, owners) && FindBlock(vm.blocks, 0) < |vm.blocks| && |NextBlocks(vm.blocks)| <= MAX_BLOCKS
    requires Extra(vm.blocks) != [] ==> !Alloc(vm.pool).0.warned
    requires KernelRights(vm.ram, vm.cr3, |vm.blocks|)
    ensures KernelRights(Middle(vm).ram, vm.cr3, |NextBlocks(vm.blocks)|)
  {
    var n := |vm.blocks|;
    if Extra(vm.blocks) != [] {
      PoolRises(vm.pool, owners);
      GrownRights(vm.ram, vm.cr3, n, owners, MappedEntry(E(vm.ram, vm.cr3, n - 1, SLOT), Alloc(vm.pool).1));
    }
  }

  lemma TouchRights(m: Vm, heap: seq<Block>, marks: seq<nat>, owners: Owners, i: nat, p: nat)
    requires Ready(m, marks, owners, i, p) && KernelRights(m.ram, m.cr3, |m.blocks|)
    ensures Touch(m, heap, i, PageVa(i, p)).Done?
    ensures KernelRights(Touch(m, heap, i, PageVa(i, p)).value.vm.ram, m.cr3, |m.blocks|)
  {
    TouchAt(m, heap, marks, owners, i, p);
    EntryLocal(m.ram, m.cr3, |marks|, owners, i, p, MappedEntry(E(m.ram, m.cr3, i, p), Alloc(m.pool).1));
  }

  /** Every allocation keeps the rights, growth included. */
  lemma AllocRights(vm: Vm, heap: seq<Block>, owners: Owners)
    requires VmOk(vm, owners) && AllocPage(vm, heap).Done? && Sound(AllocPage(vm, heap).value.vm)
    requires KernelRights(vm.ram, vm.cr3, |vm.blocks|)
    ensures var r := AllocPage(vm, heap).value.vm;
            r.cr3 == vm.cr3 && |r.blocks| <= MAX_BLOCKS && KernelRights(r.ram, r.cr3, |r.blocks|)
  {
    hide AllocPage, Touch, Ready, KernelRights, Middle;
    AllocIsTouch(vm, heap, owners);
    var (i, p) := Pick(vm.blocks);
    var middle := MiddleReady(vm, owners);
    var after := AllocKeeps(vm, heap, owners);
    PageAtIs(vm.blocks[i], i, p);
    MiddleRights(vm, owners);
    MiddleBlocks(vm);
    TouchRights(Middle(vm), MiddleHeap(vm, heap), TableMarks(vm.blocks), middle, i, p);
  }

  lemma MiddleBlocks(vm: Vm)
    requires FindBlock(vm.blocks, 0) < |vm.blocks|
    ensures Middle(vm).blocks == NextBlocks(vm.blocks) && Middle(vm).cr3 == vm.cr3
  {}

  lemma StoreRights(vm: Vm, owners: Owners, a: Addr, e: Entry)
    requires VmOk(vm, owners) && StoreAt(vm, a, e).Some? && Misses(vm, a)
    requires KernelRights(vm.ram, vm.cr3, |vm.blocks|)
    ensures KernelRights(StoreAt(vm, a, e).value.ram, vm.cr3, |vm.blocks|)
  {
    var f := Walk(vm.ram, vm.cr3, a).value;
    FillRights(vm.ram, vm.cr3, Marks(vm.blocks), owners, f, vm.ram[f][a % PAGE_SIZE / 4 := e]);
  }

  lemma FillRights(ram: Ram, cr3: Frame, marks: seq<nat>, owners: Owners, f: Frame, t: Table)
    requires TablesOk(ram, cr3, marks, owners) && NoTable(ram, cr3, |marks|, f) && KernelRights(ram, cr3, |marks|)
    ensures KernelRights(WithTable(ram, f, t), cr3, |marks|)
  {
    FillKeeps(ram, cr3, marks, owners, f, t);
    var ram' := WithTable(ram, f, t);
    forall j: nat, k: nat | j < |marks| && k < PAGE_TABLE_INDICES ensures E(ram', cr3, j, k) == E(ram, cr3, j, k) {
      assert DirEntry(ram', cr3, j) == DirEntry(ram, cr3, j);
    }
  }

  lemma StepRights(vm: Vm, owners: Owners, op: Op)
    requires VmOk(vm, owners) && Step(vm, op).Some? && Sound(Step(vm, op).value)
    requires op.StoreOp? ==> Misses(vm, op.a)
    requires KernelRights(vm.ram, vm.cr3, |vm.blocks|)
    ensures var vm' := Step(vm, op).value;
            vm'.cr3 == vm.cr3 && |vm'.blocks| <= MAX_BLOCKS && KernelRights(vm'.ram, vm'.cr3, |vm'.blocks|)
  {
    hide AllocPage, KernelRights;
    match op {
      case AllocOp(heap) => AllocRights(vm, heap, owners);
      case FreeOp(page) => FreeKeeps(vm, owners, page);
      case StoreOp(a, word) => StoreRights(vm, owners, a, word);
    }
  }

  // ---- whole runs ----

  lemma {:induction false} RunRights(vm: Vm, owners: Owners, ops: seq<Op>)
    requires VmOk(vm, owners) && Run(vm, ops).Some? && Sound(Run(vm, ops).value) && StoresMiss(vm, ops)
    requires KernelRights(vm.ram, vm.cr3, |vm.blocks|)
    ensures var vm' := Run(vm, ops).value;
            |vm'.blocks| <= MAX_BLOCKS && KernelRights(vm'.ram, vm'.cr3, |vm'.blocks|)
    decreases |ops|
  {
    hide AllocPage, FreePage, StoreAt, Misses, VmOk, KernelRights;
    if ops != [] {
      var vm' := Step(vm, ops[0]).value;
      RunSound(vm', ops[1..]);
      var owners' := StepKeeps(vm, owners, ops[0]);
      StepRights(vm, owners, ops[0]);
      RunRights(vm', owners', ops[1..]);
    } else {
      VmOkSize(vm, owners);
    }
  }

  lemma VmOkSize(vm: Vm, owners: Owners)
    requires VmOk(vm, owners)
    ensures |vm.blocks| <= MAX_BLOCKS
  {}

  lemma BootRights(ram: Ram, pool: LivePool)
    requires FreshPool(pool) && Init(ram, pool).Some?
    requires V2P(Init(ram, pool).value.pageTable) / PAGE_SIZE + 1 < PAGE_TABLE_INDICES
    ensures var vm := Boot(Init(ram, pool).value);
            |vm.blocks| == 1 && KernelRights(vm.ram, vm.cr3, |vm.blocks|)
  {
    var s0 := pool.start / PAGE_SIZE;
    BootShape(ram, pool, s0);
    var vm := Boot(Init(ram, pool).value);
    assert vm.ram[s0 + 1] == FirstTable();
    assert DirEntry(vm.ram, s0, 0) == Entry(true, true, false, true, s0 + 1);
    assert forall j: nat | 0 < j < MAX_BLOCKS :: DirEntry(vm.ram, s0, j) == EMPTY;
  }

  /** In every state reached from boot by allocations, frees and stores that miss the tables, kernel addresses that
      translate are writable and closed to user mode. */
  lemma ReachableRights(ram: Ram, pool: LivePool, ops: seq<Op>, vm: Vm)
    requires FreshPool(pool) && Init(ram, pool).Some?
    requires V2P(Init(ram, pool).value.pageTable) / PAGE_SIZE + 1 < PAGE_TABLE_INDICES
    requires Run(Boot(Init(ram, pool).value), ops) == Some(vm) && Sound(vm)
    requires StoresMiss(Boot(Init(ram, pool).value), ops)
    ensures Protected(vm)
  {
    hide VmOk, KernelRights, Run, StoresMiss;
    var owners := BootOk(ram, pool);
    BootRights(ram, pool);
    RunRights(Boot(Init(ram, pool).value), owners, ops);
    RightsProtect(vm);
  }
}
