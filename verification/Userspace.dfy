/** paging_add_temp_userspace: two pages of the kernel become page tables for user space. */
module Userspace {
  import opened Words
  import opened Wrappers
  import opened PhysicalMemory
  import opened Paging
  import opened FreeList
  import opened Vmm
  import opened VmmInvariant
  import opened VmmSteps
  import opened VmmRuns
  import opened VmmRights
  import opened VmmFacts
  import opened Trapframe

  const STACK_VA: Addr := 0xBFFF_F000  // KERNEL_VIRT_BASE - PAGE_SIZE

  function UserEntry(frame: Frame): Entry { Entry(true, true, true, true, frame) }

  /** The identity table the loop writes. */
  function UserTable(): (t: Table)
    ensures forall k | 0 <= k < PAGE_TABLE_INDICES :: t[k] == UserEntry(k)
  {
    seq(PAGE_TABLE_INDICES, k requires 0 <= k < PAGE_TABLE_INDICES => UserEntry(k))
  }

  function WithPool(vm: Vm, pool: LivePool): Vm { vm.(pool := pool) }

  /** The first half: a page filled with the identity table and entered at directory index 0. */
  function AddIdentity(vm: Vm, heap: seq<Block>): Outcome<Result> {
    var r :- AllocPage(vm, heap);
    match StoreTable(r.vm.ram, r.vm.cr3, r.addr, UserTable())
    case None => PageFault
    case Some(ram) =>
      var vm' :- EnterTable(WithRam(r.vm, ram), r.addr, 0);
      Done(Result(vm', r.heap, r.addr))
  }

  /** The directory entry for a table the kernel knows by its virtual address. */
  function EnterTable(vm: Vm, table: Addr, index: nat): Outcome<Vm>
    requires index < PAGE_TABLE_INDICES
  {
    match GetPhysAddr(vm, table)
    case None => PageFault
    case Some(phys) =>
      match Store(vm.ram, vm.cr3, vm.directory, index, UserEntry(FrameOf(phys)))
      case None => PageFault
      case Some(ram) => Done(WithRam(vm, ram))
  }

  /** The second half: a page whose last entry maps the user stack. */
  function AddStack(vm: Vm, heap: seq<Block>): Outcome<Vm> {
    var r :- AllocPage(vm, heap);
    match Store(r.vm.ram, r.vm.cr3, r.addr, TableIndex(STACK_VA), UserEntry(FrameOf(Alloc(r.vm.pool).1)))
    case None => PageFault
    case Some(ram) => EnterTable(WithPool(WithRam(r.vm, ram), Alloc(r.vm.pool).0), r.addr, DirIndex(STACK_VA))
  }

  /** Both, each with the free list its allocation finds. */
  function AddUserspace(vm: Vm, first: seq<Block>, second: seq<Block>): Outcome<Vm> {
    var r :- AddIdentity(vm, first);
    AddStack(r.vm, second)
  }

  /** Directory entries below the kernel's are free for user space. */
  lemma EnterKeeps(ram: Ram, cr3: Frame, marks: seq<nat>, owners: Owners, index: nat, e: Entry)
    requires TablesOk(ram, cr3, marks, owners) && index < KERNEL_DIR
    ensures TablesOk(WithEntry(ram, cr3, index, e), cr3, marks, owners)
    ensures forall j: nat | j < MAX_BLOCKS :: DirEntry(WithEntry(ram, cr3, index, e), cr3, j) == DirEntry(ram, cr3, j)
  {
    var ram' := WithEntry(ram, cr3, index, e);
    forall j: nat, k: nat | j < |marks| && k < PAGE_TABLE_INDICES ensures E(ram', cr3, j, k) == E(ram, cr3, j, k) {
      assert DirEntry(ram', cr3, j) == DirEntry(ram, cr3, j);
      TablesDiffer(ram, cr3, |marks|, owners, j, j);
    }
    SameTables(ram, ram', cr3, marks, owners);
  }

  /** A user table written to a page that holds no kernel table, and entered below the kernel's entries, gives user
      mode nothing of the kernel's. */
  lemma EnteredRights(vm: Vm, owners: Owners, p: Frame, t: Table, index: nat)
    requires VmOk(vm, owners) && NoTable(vm.ram, vm.cr3, |vm.blocks|, p) && index < KERNEL_DIR
    requires KernelRights(vm.ram, vm.cr3, |vm.blocks|)
    ensures KernelRights(Entered(vm, p, t, index).ram, vm.cr3, |vm.blocks|)
  {
    var (n, marks) := (|vm.blocks|, Marks(vm.blocks));
    var ram := WithTable(vm.ram, p, t);
    var ram' := Entered(vm, p, t, index).ram;
    FillRights(vm.ram, vm.cr3, marks, owners, p, t);
    FillKeeps(vm.ram, vm.cr3, marks, owners, p, t);
    EnterKeeps(ram, vm.cr3, marks, owners, index, UserEntry(p));
    forall j: nat, k: nat | j < n && k < PAGE_TABLE_INDICES ensures E(ram', vm.cr3, j, k) == E(ram, vm.cr3, j, k) {
      assert DirEntry(ram', vm.cr3, j) == DirEntry(ram, vm.cr3, j);
      TablesDiffer(ram, vm.cr3, n, owners, j, j);
    }
  }

  lemma EnterOk(vm: Vm, owners: Owners, index: nat, e: Entry)
    requires VmOk(vm, owners) && index < KERNEL_DIR
    ensures VmOk(WithRam(vm, WithEntry(vm.ram, vm.cr3, index, e)), owners)
  {
    EnterKeeps(vm.ram, vm.cr3, Marks(vm.blocks), owners, index, e);
    PointersStay(vm, WithEntry(vm.ram, vm.cr3, index, e), vm.pool);
  }

  /** A page of the first block is entered under its own frame. */
  lemma EnterIs(vm: Vm, owners: Owners, p: nat, index: nat)
    requires VmOk(vm, owners) && p < PAGE_TABLE_INDICES && p != SLOT && index < KERNEL_DIR
    ensures PageVa(0, p) < WORDS
    ensures EnterTable(vm, PageVa(0, p), index) == Done(WithRam(vm, WithEntry(vm.ram, vm.cr3, index, UserEntry(p))))
  {
    PhysAddrReadsHead(vm, owners, 0, p);
    assert E(vm.ram, vm.cr3, 0, p).frame == p;
    SelfMap(vm.ram, vm.cr3, Marks(vm.blocks), owners, 0);
  }

  /** The state after table t is written to page p and entered at the index. */
  function Entered(vm: Vm, p: Frame, t: Table, index: nat): Vm
    requires index < PAGE_TABLE_INDICES
  {
    var ram := WithTable(vm.ram, p, t);
    WithRam(vm, WithEntry(ram, vm.cr3, index, UserEntry(p)))
  }

  /** One table filled and entered: a page of the first block that holds none of the kernel's own tables. */
  lemma TableAdded(vm: Vm, owners: Owners, p: nat, t: Table, index: nat)
    requires VmOk(vm, owners) && p < PAGE_TABLE_INDICES && p != SLOT && index < KERNEL_DIR
    requires NoTable(vm.ram, vm.cr3, |vm.blocks|, p)
    ensures PageVa(0, p) < WORDS
    ensures StoreTable(vm.ram, vm.cr3, PageVa(0, p), t) == Some(WithTable(vm.ram, p, t))
    ensures EnterTable(WithRam(vm, WithTable(vm.ram, p, t)), PageVa(0, p), index) == Done(Entered(vm, p, t, index))
    ensures VmOk(Entered(vm, p, t, index), owners)
  {
    var filled := WithRam(vm, WithTable(vm.ram, p, t));
    HeadWalks(vm, owners, p);
    FillOk(vm, owners, p, t);
    EnterIs(filled, owners, p, index);
    EnterOk(filled, owners, index, UserEntry(p));
  }

  // ---- both halves ----

  /** One block with room for two more pages, its own directory and table frames still reserved: the state
      kmain calls paging_add_temp_userspace in. */
  ghost predicate EarlyState(vm: Vm, pages: nat) {
    && |vm.blocks| == 1 && vm.blocks[0].highWaterMark + pages < HIGH_WATER_THRESHOLD
    && pages <= vm.blocks[0].freePages
    && vm.cr3 < PAGE_TABLE_INDICES && T(vm.ram, vm.cr3, 0) < PAGE_TABLE_INDICES
    && Taken(vm.blocks[0].bitmap, vm.cr3) && Taken(vm.blocks[0].bitmap, T(vm.ram, vm.cr3, 0))
  }

  /** The page the next allocation takes. */
  function NextPage(vm: Vm): nat
    requires vm.blocks != []
  {
    Scan(vm.blocks[0].bitmap)
  }

  /** An early allocation takes a page that backs no kernel table and changes nothing but the bitmap. */
  lemma EarlyAlloc(vm: Vm, heap: seq<Block>, owners: Owners, pages: nat)
    requires VmOk(vm, owners) && EarlyState(vm, pages) && 0 < pages
    ensures var p := NextPage(vm);
            && p < SLOT && PageVa(0, p) < WORDS && FindBlock(vm.blocks, 0) == 0
            && AllocPage(vm, heap) == Done(Result(WithTaken(vm, 0), heap, PageVa(0, p)))
            && VmOk(WithTaken(vm, 0), owners) && EarlyState(WithTaken(vm, 0), pages - 1)
            && NoTable(vm.ram, vm.cr3, 1, p)
  {
    hide AllocPage;
    assert DescOk(vm.blocks[0]);
    TakeOk(vm.blocks[0]);
    var p := NextPage(vm);
    PageAtIs(vm.blocks[0], 0, p);
    assert Extra(vm.blocks) == [];
    AllocFold(vm, heap);
    PlainMiddle(vm);
    HeadWalks(vm, owners, p);
    MapPageAt(vm.ram, vm.cr3, vm.pool, Marks(vm.blocks), owners, 0, p);
    EarlyTakes(vm, owners, pages);
  }

  lemma EarlyTakes(vm: Vm, owners: Owners, pages: nat)
    requires VmOk(vm, owners) && EarlyState(vm, pages) && 0 < pages && FindBlock(vm.blocks, 0) == 0
    ensures VmOk(WithTaken(vm, 0), owners) && EarlyState(WithTaken(vm, 0), pages - 1)
  {
    var vm' := WithTaken(vm, 0);
    assert DescOk(vm.blocks[0]);
    TakeOk(vm.blocks[0]);
    MarkHead(vm.ram, vm.cr3, Marks(vm.blocks), owners, vm'.blocks[0].highWaterMark);
    assert Marks(vm'.blocks) == Marks(vm.blocks)[0 := vm'.blocks[0].highWaterMark];
    PointersStay(vm, vm.ram, vm.pool);
  }

  /** The state after the first half. */
  function IdentityState(vm: Vm): Vm
    requires vm.blocks != [] && vm.blocks[0].freePages > 0 && NextPage(vm) < PAGE_TABLE_INDICES
  {
    Entered(WithTaken(vm, 0), NextPage(vm), UserTable(), 0)
  }

  lemma IdentityAdded(vm: Vm, heap: seq<Block>, owners: Owners, pages: nat)
    requires VmOk(vm, owners) && EarlyState(vm, pages) && 0 < pages
    ensures NextPage(vm) < SLOT && PageVa(0, NextPage(vm)) < WORDS
    ensures AddIdentity(vm, heap) == Done(Result(IdentityState(vm), heap, PageVa(0, NextPage(vm))))
    ensures VmOk(IdentityState(vm), owners) && EarlyState(IdentityState(vm), pages - 1)
  {
    EarlyAlloc(vm, heap, owners, pages);
    TableAdded(WithTaken(vm, 0), owners, NextPage(vm), UserTable(), 0);
    FillOk(WithTaken(vm, 0), owners, NextPage(vm), UserTable());
    var vm' := IdentityState(vm);
    assert DirEntry(vm'.ram, vm.cr3, 0) == DirEntry(vm.ram, vm.cr3, 0);
  }

  /** The stack's table: what the page held, with its last entry replaced. */
  function StackTable(vm: Vm): Table
    requires vm.blocks != [] && NextPage(vm) < PAGE_TABLE_INDICES
  {
    vm.ram[NextPage(vm)][TableIndex(STACK_VA) := UserEntry(FrameOf(Alloc(vm.pool).1))]
  }

  function StackState(vm: Vm): Vm
    requires vm.blocks != [] && vm.blocks[0].freePages > 0 && NextPage(vm) < PAGE_TABLE_INDICES
  {
    WithPool(Entered(WithTaken(vm, 0), NextPage(vm), StackTable(vm), DirIndex(STACK_VA)), Alloc(vm.pool).0)
  }

  lemma EnterIgnoresPool(vm: Vm, pool: LivePool, table: Addr, index: nat, vm': Vm)
    requires index < PAGE_TABLE_INDICES && EnterTable(vm, table, index) == Done(vm')
    ensures EnterTable(WithPool(vm, pool), table, index) == Done(WithPool(vm', pool))
  {}

  lemma StackAdded(vm: Vm, heap: seq<Block>, owners: Owners, pages: nat) returns (owners': Owners)
    requires VmOk(vm, owners) && EarlyState(vm, pages) && 0 < pages && !Alloc(vm.pool).0.warned
    ensures NextPage(vm) < SLOT && AddStack(vm, heap) == Done(StackState(vm))
    ensures VmOk(StackState(vm), owners')
  {
    hide AllocPage, EnterTable, Compact, PointersOk, BlocksOk, Alloc;
    EarlyAlloc(vm, heap, owners, pages);
    var p := NextPage(vm);
    var taken := WithTaken(vm, 0);
    var entered := Entered(taken, p, StackTable(vm), DirIndex(STACK_VA));
    TableAdded(taken, owners, p, StackTable(vm), DirIndex(STACK_VA));
    EnterIgnoresPool(WithRam(taken, WithTable(vm.ram, p, StackTable(vm))), Alloc(vm.pool).0, PageVa(0, p),
                     DirIndex(STACK_VA), entered);
    HeadWalks(taken, owners, p);
    assert WithEntry(vm.ram, p, TableIndex(STACK_VA), UserEntry(FrameOf(Alloc(vm.pool).1)))
           == WithTable(vm.ram, p, StackTable(vm));
    PoolStep(vm.pool, owners, Other);
    owners' := owners[FrameOf(Alloc(vm.pool).1) := Other];
    OtherOwner(entered, owners, Alloc(vm.pool).0, FrameOf(Alloc(vm.pool).1));
  }

  lemma IdentityRights(vm: Vm, heap: seq<Block>, owners: Owners, pages: nat)
    requires VmOk(vm, owners) && EarlyState(vm, pages) && 0 < pages && KernelRights(vm.ram, vm.cr3, 1)
    ensures NextPage(vm) < SLOT && KernelRights(IdentityState(vm).ram, vm.cr3, 1)
  {
    hide KernelRights;
    EarlyAlloc(vm, heap, owners, pages);
    EnteredRights(WithTaken(vm, 0), owners, NextPage(vm), UserTable(), 0);
  }

  lemma StackRights(vm: Vm, heap: seq<Block>, owners: Owners, pages: nat)
    requires VmOk(vm, owners) && EarlyState(vm, pages) && 0 < pages && KernelRights(vm.ram, vm.cr3, 1)
    ensures NextPage(vm) < SLOT && KernelRights(StackState(vm).ram, vm.cr3, 1)
  {
    hide KernelRights;
    EarlyAlloc(vm, heap, owners, pages);
    EnteredRights(WithTaken(vm, 0), owners, NextPage(vm), StackTable(vm), DirIndex(STACK_VA));
  }

  lemma OtherOwner(vm: Vm, owners: Owners, pool: LivePool, f: nat)
    requires VmOk(vm, owners) && f !in owners && FromPool(pool, owners[f := Other])
    ensures VmOk(WithPool(vm, pool), owners[f := Other])
  {
    PointersStay(vm, vm.ram, pool);
    assert WithPool(vm, pool) == vm.(ram := vm.ram, pool := pool);
  }

  /** Address va is user mode's to read and write, and translates to the frame. */
  predicate UserMaps(vm: Vm, va: Addr, f: Frame) {
    Translate(vm.ram, vm.cr3, va) == Some(Access(f, true, true, true))
  }

  /** So is every address of the user stack's page, in the frame. */
  ghost predicate UserStackMaps(vm: Vm, f: Frame) {
    forall va: Addr | STACK_VA <= va < KERNEL_VIRT_BASE :: UserMaps(vm, va, f)
  }

  /** paging_add_temp_userspace, called as early as kmain does, keeps the invariant, maps the first 4 MiB of user
      space to itself and the page below the kernel base to the pool's next frame, all of it present, writable and
      open to user mode; if kernel addresses were closed to user mode they still are. */
  lemma UserspaceKeeps(vm: Vm, first: seq<Block>, second: seq<Block>, owners: Owners) returns (owners': Owners)
    requires VmOk(vm, owners) && EarlyState(vm, 2) && !Alloc(vm.pool).0.warned
    ensures AddUserspace(vm, first, second).Done? && VmOk(AddUserspace(vm, first, second).value, owners')
    ensures var vm' := AddUserspace(vm, first, second).value;
            && (forall va: Addr | va < PAGE_TABLE_RANGE :: UserMaps(vm', va, FrameOf(va)))
            && UserStackMaps(vm', FrameOf(Alloc(vm.pool).1))
            && Walk(vm'.ram, vm'.cr3, STACK_VA) == Some(FrameOf(Alloc(vm.pool).1))
            && (KernelRights(vm.ram, vm.cr3, 1) ==> KernelRights(vm'.ram, vm'.cr3, 1))
            && vm'.pool == Alloc(vm.pool).0 && |vm'.blocks| == 1 && vm'.cr3 == vm.cr3
  {
    hide AddIdentity, AddStack, AllocPage, KernelRights, UserMaps, UserStackMaps, VmOk, Translate, Walk;
    IdentityAdded(vm, first, owners, 2);
    var vm1 := IdentityState(vm);
    if KernelRights(vm.ram, vm.cr3, 1) {
      IdentityRights(vm, first, owners, 2);
      StackRights(vm1, second, owners, 1);
    }
    owners' := StackAdded(vm1, second, owners, 1);
    EarlyAlloc(vm, first, owners, 2);
    EarlyAlloc(vm1, second, owners, 1);
    UserWalks(vm, vm1);
    StackWalks(StackState(vm1), FrameOf(Alloc(vm.pool).1));
  }

  lemma StackWalks(vm: Vm, f: Frame)
    requires UserStackMaps(vm, f)
    ensures Walk(vm.ram, vm.cr3, STACK_VA) == Some(f)
  {
    assert UserMaps(vm, STACK_VA, f);
    TranslateWalks(vm.ram, vm.cr3, STACK_VA);
  }

  lemma UserWalks(vm: Vm, vm1: Vm)
    requires vm.blocks != [] && vm.blocks[0].freePages > 0 && NextPage(vm) < SLOT && vm1 == IdentityState(vm)
    requires vm1.blocks[0].freePages > 0 && NextPage(vm1) < SLOT
    requires NextPage(vm) != vm.cr3 && NextPage(vm1) != vm.cr3
    ensures var vm' := StackState(vm1);
            && (forall va: Addr | va < PAGE_TABLE_RANGE :: UserMaps(vm', va, FrameOf(va)))
            && UserStackMaps(vm', FrameOf(Alloc(vm1.pool).1))
  {
    hide UserMaps, UserTable, Alloc;
    var vm' := StackState(vm1);
    var (p, q) := (NextPage(vm), NextPage(vm1));
    assert Taken(vm1.blocks[0].bitmap, p) && !Taken(vm1.blocks[0].bitmap, q);
    assert vm'.ram[vm.cr3][0] == UserEntry(p) && vm'.ram[p] == UserTable();
    assert vm'.ram[vm.cr3][DirIndex(STACK_VA)] == UserEntry(q) && vm'.ram[q] == StackTable(vm1);
    IdentityMaps(vm', p);
    StackMaps(vm', q, FrameOf(Alloc(vm1.pool).1));
  }

  lemma IdentityMaps(vm: Vm, p: Frame)
    requires vm.ram[vm.cr3][0] == UserEntry(p) && vm.ram[p] == UserTable()
    ensures forall va: Addr | va < PAGE_TABLE_RANGE :: UserMaps(vm, va, FrameOf(va))
  {
    forall va: Addr | va < PAGE_TABLE_RANGE ensures UserMaps(vm, va, FrameOf(va)) {
      assert DirIndex(va) == 0 && TableIndex(va) == FrameOf(va);
    }
  }

  lemma StackMaps(vm: Vm, q: Frame, f: Frame)
    requires vm.ram[vm.cr3][DirIndex(STACK_VA)] == UserEntry(q) && vm.ram[q][TableIndex(STACK_VA)] == UserEntry(f)
    ensures UserStackMaps(vm, f)
  {
    forall va: Addr | STACK_VA <= va < KERNEL_VIRT_BASE ensures UserMaps(vm, va, f) {
      assert DirIndex(va) == DirIndex(STACK_VA) && TableIndex(va) == TableIndex(STACK_VA);
    }
  }

  // ---- the user stack's frame ----

  /** With one block, every page of it translates to the frame of its own number. */
  lemma OneBlockWalks(vm: Vm, owners: Owners, k: nat)
    requires VmOk(vm, owners) && |vm.blocks| == 1 && k < PAGE_TABLE_INDICES
    ensures PageVa(0, k) < WORDS && Walk(vm.ram, vm.cr3, PageVa(0, k)) == Some(k)
  {
    WalkPage(vm.ram, vm.cr3, 1, 0, k);
    assert E(vm.ram, vm.cr3, 0, k).present && E(vm.ram, vm.cr3, 0, k).frame == k;
  }

  /** The user stack shares its frame with a page of the kernel's first block exactly when the pool's lowest free
      page, before the call, is one of the 1024 frames paging_init maps. */
  lemma UserStackShares(vm: Vm, first: seq<Block>, second: seq<Block>, owners: Owners)
    requires VmOk(vm, owners) && EarlyState(vm, 2) && !vm.pool.warned && vm.pool.HasFree()
    ensures AddUserspace(vm, first, second).Done?
    ensures var vm' := AddUserspace(vm, first, second).value;
            (exists k: nat :: k < PAGE_TABLE_INDICES && PageVa(0, k) < WORDS
                              && Walk(vm'.ram, vm'.cr3, PageVa(0, k)) == Walk(vm'.ram, vm'.cr3, STACK_VA))
            <==> NextFrame(vm.pool) < PAGE_TABLE_INDICES
  {
    hide AddUserspace, Walk, Alloc, EarlyState;
    NextFrameIs(vm.pool);
    var owners' := UserspaceKeeps(vm, first, second, owners);
    var vm' := AddUserspace(vm, first, second).value;
    var f := NextFrame(vm.pool);
    forall k: nat | k < PAGE_TABLE_INDICES
      ensures PageVa(0, k) < WORDS && Walk(vm'.ram, vm'.cr3, PageVa(0, k)) == Some(k)
    {
      OneBlockWalks(vm', owners', k);
    }
    if f < PAGE_TABLE_INDICES {
      assert Walk(vm'.ram, vm'.cr3, PageVa(0, f)) == Walk(vm'.ram, vm'.cr3, STACK_VA);
    }
  }

  // ---- kmain's order ----

  /** kmain's two allocations before the call: the stacks of task_create_kernel and task_create_user. */
  function BeforeUserspace(vm: Vm, h1: seq<Block>, h2: seq<Block>): Outcome<(Addr, Addr, Vm)> {
    var kernelStack :- AllocPage(vm, h1);
    var userStack :- AllocPage(kernelStack.vm, h2);
    Done((kernelStack.addr, userStack.addr, userStack.vm))
  }

  /** Boot leaves an early state when the kernel image leaves room for the pages. */
  lemma BootIsEarly(ram: Ram, pool: LivePool, pages: nat)
    requires FreshPool(pool) && pool.start / PAGE_SIZE + 2 + pages < HIGH_WATER_THRESHOLD && Init(ram, pool).Some?
    requires V2P(Init(ram, pool).value.pageTable) / PAGE_SIZE + 1 < PAGE_TABLE_INDICES
    ensures EarlyState(Boot(Init(ram, pool).value), pages)
  {
    var s0 := pool.start / PAGE_SIZE;
    BootShape(ram, pool, s0);
    var owners := BootOk(ram, pool);
    var vm := Boot(Init(ram, pool).value);
    assert DirEntry(vm.ram, vm.cr3, 0) == Entry(true, true, false, true, s0 + 1);
  }

  /** At kmain's call the state is early enough, nothing has been taken from the pool since boot, and the kernel
      task's stack is the page whose number is the pool's next frame. */
  lemma KmainIsEarly(ram: Ram, pool: LivePool, h1: seq<Block>, h2: seq<Block>) returns (owners: Owners)
    requires FreshPool(pool) && pool.start / PAGE_SIZE + 6 < HIGH_WATER_THRESHOLD && Init(ram, pool).Some?
    requires V2P(Init(ram, pool).value.pageTable) / PAGE_SIZE + 1 < PAGE_TABLE_INDICES
    ensures var (vm, r) := (Boot(Init(ram, pool).value), BeforeUserspace(Boot(Init(ram, pool).value), h1, h2));
            && r.Done? && EarlyState(r.value.2, 2) && VmOk(r.value.2, owners)
            && r.value.2.pool == vm.pool && !vm.pool.warned && vm.pool.HasFree() && !Alloc(vm.pool).0.warned
            && r.value.0 == PageVa(0, NextFrame(vm.pool)) && r.value.1 == PageVa(0, NextFrame(vm.pool) + 1)
            && NextFrame(vm.pool) == pool.start / PAGE_SIZE + 2
            && Run(vm, [AllocOp(h1), AllocOp(h2)]) == Some(r.value.2)
            && StoresMiss(vm, [AllocOp(h1), AllocOp(h2)])
  {
    var vm := Boot(Init(ram, pool).value);
    owners := BootOk(ram, pool);
    BootIsEarly(ram, pool, 4);
    FirstFrameAliases(ram, pool);
    PoolHasThird(ram, pool);
    EarlyTwice(vm, h1, h2, owners);
    BootShape(ram, pool, pool.start / PAGE_SIZE);
    SecondPage(pool.start / PAGE_SIZE + 2);
  }

  /** The page after the first free one of a block whose first n pages are reserved. */
  lemma SecondPage(n: nat)
    requires n + 1 < PAGE_TABLE_INDICES
    ensures Scan(Reserved(n)) == n && Scan(Put(Reserved(n), n, true)) == n + 1
  {
    assert !Taken(Reserved(n), n) && !Taken(Put(Reserved(n), n, true), n + 1);
    assert forall q | 0 <= q <= n :: Taken(Put(Reserved(n), n, true), q);
  }

  lemma PoolHasThird(ram: Ram, pool: LivePool)
    requires FreshPool(pool) && Init(ram, pool).Some?
    requires V2P(Init(ram, pool).value.pageTable) / PAGE_SIZE + 1 < PAGE_TABLE_INDICES
    ensures var p2 := Boot(Init(ram, pool).value).pool;
            p2.HasFree() && !p2.warned && !Alloc(p2).0.warned && NextFrame(p2) == FrameOf(Alloc(p2).1)
            && NextFrame(p2) == pool.start / PAGE_SIZE + 2
  {
    BootShape(ram, pool, pool.start / PAGE_SIZE);
    FirstFrames(pool);
    ThirdFrame(pool);
    var p2 := Alloc(Alloc(pool).0).0;
    ThirdIsFree(pool);
    NextFrameIs(p2);
  }

  lemma ThirdIsFree(pool: LivePool)
    requires FreshPool(pool)
    ensures Alloc(Alloc(pool).0).0.HasFree()
  {
    FirstFrames(pool);
    var p1 := Alloc(pool).0;
    assert LowestFree(pool.bitmap, 0, pool.Limit()) == 0;
    assert Taken(p1.bitmap, 0) && !Taken(p1.bitmap, 1);
    assert LowestFree(p1.bitmap, 0, p1.Limit()) == 1;
    assert !Taken(Alloc(p1).0.bitmap, 2);
  }

  lemma EarlyTwice(vm: Vm, h1: seq<Block>, h2: seq<Block>, owners: Owners)
    requires VmOk(vm, owners) && EarlyState(vm, 4)
    ensures var r := BeforeUserspace(vm, h1, h2);
            && r.Done? && EarlyState(r.value.2, 2) && VmOk(r.value.2, owners) && r.value.2.pool == vm.pool
            && PageVa(0, NextPage(vm)) < WORDS && r.value.0 == PageVa(0, NextPage(vm))
            && NextPage(vm) < PAGE_TABLE_INDICES
            && r.value.1 == PageVa(0, Scan(Put(vm.blocks[0].bitmap, NextPage(vm), true)))
            && Run(vm, [AllocOp(h1), AllocOp(h2)]) == Some(r.value.2)
            && StoresMiss(vm, [AllocOp(h1), AllocOp(h2)])
  {
    hide AllocPage, VmOk, FindBlock, Scan;
    EarlyAlloc(vm, h1, owners, 4);
    var vm1 := WithTaken(vm, 0);
    EarlyAlloc(vm1, h2, owners, 3);
    assert [AllocOp(h1), AllocOp(h2)][1..] == [AllocOp(h2)] && [AllocOp(h2)][1..] == [];
    assert Run(vm1, [AllocOp(h2)]) == Run(WithTaken(vm1, 0), []);
    assert StoresMiss(vm1, [AllocOp(h2)]);
  }

  /** The same for runs that add the user space early on, with stores that miss the kernel's tables. */
  lemma ReachableWithUserspace(ram: Ram, pool: LivePool, before: seq<Op>, first: seq<Block>, second: seq<Block>,
                               after: seq<Op>, vm: Vm, vm': Vm)
    requires FreshPool(pool) && Init(ram, pool).Some?
    requires V2P(Init(ram, pool).value.pageTable) / PAGE_SIZE + 1 < PAGE_TABLE_INDICES
    requires Run(Boot(Init(ram, pool).value), before) == Some(vm) && EarlyState(vm, 2) && !Alloc(vm.pool).0.warned
    requires AddUserspace(vm, first, second).Done?
    requires Run(AddUserspace(vm, first, second).value, after) == Some(vm') && Sound(vm')
    requires StoresMiss(Boot(Init(ram, pool).value), before)
    requires StoresMiss(AddUserspace(vm, first, second).value, after)
    ensures InShape(vm')
  {
    hide AddUserspace, EarlyState;
    var start := BootOk(ram, pool);
    AllocTakesLowest(vm.pool);
    SoundEarly(vm);
    var middle := RunKeeps(Boot(Init(ram, pool).value), start, before);
    var added := UserspaceKeeps(vm, first, second, middle);
    var last := RunKeeps(AddUserspace(vm, first, second).value, added, after);
    ShapeOf(vm', last);
  }

  lemma SoundEarly(vm: Vm)
    requires EarlyState(vm, 2) && !vm.pool.warned
    ensures Sound(vm)
  {}

  /** vm is reached from kmain's call by stores that miss the tables, allocations and frees. */
  ghost predicate AfterKmain(ram: Ram, pool: LivePool, heaps: (seq<Block>, seq<Block>, seq<Block>, seq<Block>),
                             ops: seq<Op>, vm: Vm)
    requires Init(ram, pool).Some? && V2P(Init(ram, pool).value.pageTable) / PAGE_SIZE + 1 < PAGE_TABLE_INDICES
  {
    var before := BeforeUserspace(Boot(Init(ram, pool).value), heaps.0, heaps.1);
    before.Done? ==>
      var added := AddUserspace(before.value.2, heaps.2, heaps.3);
      added.Done? ==> Run(added.value, ops) == Some(vm) && StoresMiss(added.value, ops)
  }

  /** And so for every run after kmain's call. */
  lemma ReachableFromKmain(ram: Ram, pool: LivePool, heaps: (seq<Block>, seq<Block>, seq<Block>, seq<Block>),
                           after: seq<Op>, vm': Vm)
    requires FreshPool(pool) && pool.start / PAGE_SIZE + 6 < HIGH_WATER_THRESHOLD && Init(ram, pool).Some?
    requires V2P(Init(ram, pool).value.pageTable) / PAGE_SIZE + 1 < PAGE_TABLE_INDICES
    requires AfterKmain(ram, pool, heaps, after, vm') && Sound(vm')
    ensures InShape(vm')
  {
    hide AddUserspace, EarlyState, BeforeUserspace;
    var owners := KmainIsEarly(ram, pool, heaps.0, heaps.1);
    var vm := BeforeUserspace(Boot(Init(ram, pool).value), heaps.0, heaps.1).value.2;
    var owners' := UserspaceKeeps(vm, heaps.2, heaps.3, owners);
    ReachableWithUserspace(ram, pool, [AllocOp(heaps.0), AllocOp(heaps.1)], heaps.2, heaps.3, after, vm, vm');
  }

  /** From kmain's call on user mode has its two mappings and no kernel address: the first 4 MiB and its stack are
      present, writable and open to it right after the call, and along every run after it whatever of the kernel's
      addresses translates is writable and closed to it. */
  lemma RightsFromKmain(ram: Ram, pool: LivePool, heaps: (seq<Block>, seq<Block>, seq<Block>, seq<Block>),
                        after: seq<Op>, vm': Vm)
    requires FreshPool(pool) && pool.start / PAGE_SIZE + 6 < HIGH_WATER_THRESHOLD && Init(ram, pool).Some?
    requires V2P(Init(ram, pool).value.pageTable) / PAGE_SIZE + 1 < PAGE_TABLE_INDICES
    requires AfterKmain(ram, pool, heaps, after, vm') && Sound(vm')
    ensures Protected(vm')
    ensures var before := BeforeUserspace(Boot(Init(ram, pool).value), heaps.0, heaps.1);
            && before.Done? && AddUserspace(before.value.2, heaps.2, heaps.3).Done?
            && var vm := AddUserspace(before.value.2, heaps.2, heaps.3).value;
               && Protected(vm)
               && (forall va: Addr | va < PAGE_TABLE_RANGE :: UserMaps(vm, va, FrameOf(va)))
               && UserStackMaps(vm, pool.start / PAGE_SIZE + 2)
  {
    hide AddUserspace, EarlyState, BeforeUserspace, Alloc, VmOk, Run, StoresMiss, KernelRights, UserMaps, UserStackMaps,
         Boot, Init, Protected;
    var boot := Boot(Init(ram, pool).value);
    var first := BootOk(ram, pool);
    var owners := KmainIsEarly(ram, pool, heaps.0, heaps.1);
    var vm := BeforeUserspace(boot, heaps.0, heaps.1).value.2;
    EarlySound(vm);
    NextFrameIs(vm.pool);
    BootRights(ram, pool);
    RunRights(boot, first, [AllocOp(heaps.0), AllocOp(heaps.1)]);
    var owners' := UserspaceKeeps(vm, heaps.2, heaps.3, owners);
    var added := AddUserspace(vm, heaps.2, heaps.3).value;
    RightsProtect(added);
    RunRights(added, owners', after);
    RightsProtect(vm');
  }

  lemma EarlySound(vm: Vm)
    requires EarlyState(vm, 2)
    ensures |vm.blocks| == 1 && (!vm.pool.warned ==> Sound(vm))
  {}

  lemma FourthFrame(pool: LivePool)
    requires FreshPool(pool)
    ensures NextFrame(Alloc(Alloc(Alloc(pool).0).0).0) == pool.start / PAGE_SIZE + 3
  {
    FirstFrames(pool);
    var p1 := Alloc(pool).0;
    var p2 := Alloc(p1).0;
    var p3 := Alloc(p2).0;
    assert LowestFree(pool.bitmap, 0, pool.Limit()) == 0;
    assert Taken(p1.bitmap, 0) && !Taken(p1.bitmap, 1);
    assert LowestFree(p1.bitmap, 0, p1.Limit()) == 1;
    assert Taken(p2.bitmap, 0) && Taken(p2.bitmap, 1) && !Taken(p2.bitmap, 2);
    assert LowestFree(p2.bitmap, 0, p2.Limit()) == 2;
    assert Taken(p3.bitmap, 0) && Taken(p3.bitmap, 1) && Taken(p3.bitmap, 2) && !Taken(p3.bitmap, 3);
    assert LowestFree(p3.bitmap, 0, p3.Limit()) == 3;
  }

  /** What kmain's first growth needs to know of the run before it. */
  lemma KmainPool(ram: Ram, pool: LivePool, heaps: (seq<Block>, seq<Block>, seq<Block>, seq<Block>), ops: seq<Op>,
                  vm: Vm) returns (owners: Owners)
    requires FreshPool(pool) && pool.start / PAGE_SIZE + 6 < HIGH_WATER_THRESHOLD && Init(ram, pool).Some?
    requires V2P(Init(ram, pool).value.pageTable) / PAGE_SIZE + 1 < PAGE_TABLE_INDICES
    requires AfterKmain(ram, pool, heaps, ops, vm) && |vm.blocks| == 1 && Sound(vm)
    ensures VmOk(vm, owners) && NextFrame(vm.pool) == pool.start / PAGE_SIZE + 3
  {
    hide AddUserspace, EarlyState, BeforeUserspace, Alloc, VmOk, StoresMiss, Run;
    var owners1 := KmainIsEarly(ram, pool, heaps.0, heaps.1);
    var boot := Boot(Init(ram, pool).value);
    var before := BeforeUserspace(boot, heaps.0, heaps.1).value.2;
    var owners2 := UserspaceKeeps(before, heaps.2, heaps.3, owners1);
    var added := AddUserspace(before, heaps.2, heaps.3).value;
    owners := RunKeeps(added, owners2, ops);
    OneBlockPool(added, ops, owners2);
    BootShape(ram, pool, pool.start / PAGE_SIZE);
    FourthFrame(pool);
  }

  /** In kmain's order the first growth puts block 1's page table where the user task's kernel stack is and clears
      it, and the word where an interrupt in user mode saves esp is the table's own slot. */
  lemma FirstTableFromKmain(ram: Ram, pool: LivePool, heaps: (seq<Block>, seq<Block>, seq<Block>, seq<Block>),
                            ops: seq<Op>, vm: Vm, heap: seq<Block>)
    requires FreshPool(pool) && pool.start / PAGE_SIZE + 6 < HIGH_WATER_THRESHOLD && Init(ram, pool).Some?
    requires V2P(Init(ram, pool).value.pageTable) / PAGE_SIZE + 1 < PAGE_TABLE_INDICES
    requires AfterKmain(ram, pool, heaps, ops, vm) && |vm.blocks| == 1 && GrowthDue(vm)
    requires AllocPage(vm, heap).Done? && Sound(AllocPage(vm, heap).value.vm)
    ensures BeforeUserspace(Boot(Init(ram, pool).value), heaps.0, heaps.1).Done?
    ensures var stack := BeforeUserspace(Boot(Init(ram, pool).value), heaps.0, heaps.1).value.1;
            var r := AllocPage(vm, heap).value.vm;
            && Walk(r.ram, r.cr3, stack) == Some(T(r.ram, r.cr3, 1)) && stack + PAGE_SIZE - 8 < WORDS
            && r.ram[T(r.ram, r.cr3, 1)] == Cleared()
            && forall e :: StoreAt(r, stack + PAGE_SIZE - 8, e) ==
                           Some(WithRam(r, WithEntry(r.ram, T(r.ram, r.cr3, 1), SLOT, e)))
  {
    hide AddUserspace, EarlyState, BeforeUserspace, Alloc, VmOk, StoresMiss, Run, AllocPage, Walk, Boot, Init,
         GrowthDue, FindBlock;
    AllocMonotone(vm, heap);
    var owners := KmainPool(ram, pool, heaps, ops, vm);
    var boot := KmainIsEarly(ram, pool, heaps.0, heaps.1);
    var owners' := TableFrame(vm, heap, owners);
    var r := AllocPage(vm, heap).value.vm;
    var k := pool.start / PAGE_SIZE + 3;
    HeadWalks(r, owners', k);
    PageAligned(k);
    SavedEsp(r.ram, r.cr3, PageVa(0, k));
  }

  /** The word eight bytes below a page's end is entry 1022 of the page seen as a table. */
  lemma SavedEsp(ram: Ram, cr3: Frame, page: Addr)
    requires page % PAGE_SIZE == 0
    ensures page + PAGE_SIZE - 8 < WORDS && Walk(ram, cr3, page + PAGE_SIZE - 8) == Walk(ram, cr3, page)
    ensures (page + PAGE_SIZE - 8) % PAGE_SIZE / 4 == SLOT
  {
    WordIndices(page / PAGE_SIZE, PAGE_SIZE - 8);
    assert page == page / PAGE_SIZE * PAGE_SIZE;
  }

  /** The word of memory behind a virtual address. */
  function Physical(ram: Ram, cr3: Frame, va: Addr): Option<nat> {
    match Walk(ram, cr3, va)
    case None => None
    case Some(f) => Some(f * PAGE_SIZE + va % PAGE_SIZE)
  }

  /** In kmain's order the user stack and the kernel task's stack are one frame. */
  lemma KmainStacksShare(ram: Ram, pool: LivePool, heaps: (seq<Block>, seq<Block>, seq<Block>, seq<Block>))
    requires FreshPool(pool) && pool.start / PAGE_SIZE + 6 < HIGH_WATER_THRESHOLD && Init(ram, pool).Some?
    requires V2P(Init(ram, pool).value.pageTable) / PAGE_SIZE + 1 < PAGE_TABLE_INDICES
    ensures var before := BeforeUserspace(Boot(Init(ram, pool).value), heaps.0, heaps.1);
            && before.Done? && AddUserspace(before.value.2, heaps.2, heaps.3).Done? && before.value.0 % PAGE_SIZE == 0
            && var vm := AddUserspace(before.value.2, heaps.2, heaps.3).value;
               Walk(vm.ram, vm.cr3, STACK_VA) == Walk(vm.ram, vm.cr3, before.value.0) != None
  {
    hide AddUserspace, EarlyState, BeforeUserspace, Alloc, VmOk, Walk;
    var owners := KmainIsEarly(ram, pool, heaps.0, heaps.1);
    var before := BeforeUserspace(Boot(Init(ram, pool).value), heaps.0, heaps.1).value;
    var owners' := UserspaceKeeps(before.2, heaps.2, heaps.3, owners);
    var f := NextFrame(before.2.pool);
    NextFrameIs(before.2.pool);
    OneBlockWalks(AddUserspace(before.2, heaps.2, heaps.3).value, owners', f);
    PageAligned(f);
  }

  /** So the first word a user task pushes is the saved eflags in the trapframe task_create_kernel built. */
  lemma FirstPushHitsTrapframe(ram: Ram, pool: LivePool, heaps: (seq<Block>, seq<Block>, seq<Block>, seq<Block>))
    requires FreshPool(pool) && pool.start / PAGE_SIZE + 6 < HIGH_WATER_THRESHOLD && Init(ram, pool).Some?
    requires V2P(Init(ram, pool).value.pageTable) / PAGE_SIZE + 1 < PAGE_TABLE_INDICES
    ensures var before := BeforeUserspace(Boot(Init(ram, pool).value), heaps.0, heaps.1);
            && before.Done? && AddUserspace(before.value.2, heaps.2, heaps.3).Done?
            && var (base, vm) := (before.value.0 + PAGE_SIZE, AddUserspace(before.value.2, heaps.2, heaps.3).value);
               && base - KERNEL_BYTES + 52 == base - 4 < WORDS
               && Physical(vm.ram, vm.cr3, KERNEL_VIRT_BASE - 4) == Physical(vm.ram, vm.cr3, base - 4) != None
  {
    hide AddUserspace, BeforeUserspace, Walk, Physical, Boot, Init;
    KmainStacksShare(ram, pool, heaps);
    var before := BeforeUserspace(Boot(Init(ram, pool).value), heaps.0, heaps.1).value;
    var vm := AddUserspace(before.2, heaps.2, heaps.3).value;
    SharedWord(vm.ram, vm.cr3, before.0, STACK_VA);
  }

  /** Pages with the same frame share their last word. */
  lemma SharedWord(ram: Ram, cr3: Frame, a: Addr, b: Addr)
    requires a % PAGE_SIZE == 0 && b % PAGE_SIZE == 0 && Walk(ram, cr3, a) == Walk(ram, cr3, b) != None
    ensures a + PAGE_SIZE - 4 < WORDS && b + PAGE_SIZE - 4 < WORDS
    ensures Physical(ram, cr3, a + PAGE_SIZE - 4) == Physical(ram, cr3, b + PAGE_SIZE - 4) != None
  {
    hide Walk;
    SamePage(ram, cr3, a);
    SamePage(ram, cr3, b);
  }

  lemma PageAligned(k: nat)
    ensures PageVa(0, k) % PAGE_SIZE == 0
  {
    assert PageVa(0, k) == PAGE_SIZE * (KERNEL_VIRT_BASE / PAGE_SIZE + k);
  }

  /** The last word of a page. */
  lemma SamePage(ram: Ram, cr3: Frame, page: Addr)
    requires page % PAGE_SIZE == 0
    ensures page + PAGE_SIZE - 4 < WORDS && Walk(ram, cr3, page + PAGE_SIZE - 4) == Walk(ram, cr3, page)
    ensures (page + PAGE_SIZE - 4) % PAGE_SIZE == PAGE_SIZE - 4
  {
    WordIndices(page / PAGE_SIZE, PAGE_SIZE - 4);
    assert page == page / PAGE_SIZE * PAGE_SIZE;
  }

  lemma WordIndices(q: nat, o: nat)
    requires q * PAGE_SIZE < WORDS && o < PAGE_SIZE
    ensures q * PAGE_SIZE + o < WORDS && (q * PAGE_SIZE + o) % PAGE_SIZE == o
    ensures DirIndex(q * PAGE_SIZE + o) == DirIndex(q * PAGE_SIZE)
    ensures TableIndex(q * PAGE_SIZE + o) == TableIndex(q * PAGE_SIZE)
  {
    assert (q * PAGE_SIZE + o) / PAGE_SIZE == q;
  }
}
