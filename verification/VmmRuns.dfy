/** Runs of the virtual page allocator from boot: what holds in every reachable state, which pages come out in
    which order, and where the code departs from its intent. */
module VmmRuns {
  import opened Words
  import opened Wrappers
  import opened PhysicalMemory
  import opened Paging
  import opened FreeList
  import opened Vmm
  import opened VmmInvariant
  import opened VmmSteps

  // ---- boot ----

  /** The state after paging_init and vmm_init. */
  function Boot(b: Booted): Vm
    requires V2P(b.pageTable) / PAGE_SIZE + 1 < PAGE_TABLE_INDICES
  {
    Vm(b.ram, b.cr3, b.directory, b.pool, [InitDesc(b.pageTable)], false)
  }

  /** A pool nothing has been taken from, starting above 1 MiB and low enough for the first block. */
  ghost predicate FreshPool(pool: LivePool) {
    && 32 <= pool.pageCount && !pool.warned
    && (forall p | 0 <= p < 32 * BITMAP_WORDS :: !Taken(pool.bitmap, p))
    && 0x10_0000 <= pool.start && pool.start / PAGE_SIZE + 2 < SLOT
  }

  lemma FirstFrames(pool: LivePool)
    requires FreshPool(pool)
    ensures var (p1, p2) := (Alloc(pool).0, Alloc(Alloc(pool).0).0);
            && Alloc(pool).1 == pool.start && Alloc(p1).1 == pool.start + PAGE_SIZE && !p2.warned
            && p2.Owns(pool.start) && p2.Owns(pool.start + PAGE_SIZE) && Compact(p2) && p2.start == pool.start
  {
    var p1 := Alloc(pool).0;
    AllocIsFresh(pool);
    AllocIsFresh(p1);
    assert LowestFree(pool.bitmap, 0, pool.Limit()) == 0;
    assert Taken(p1.bitmap, 0) && !Taken(p1.bitmap, 1);
    assert LowestFree(p1.bitmap, 0, p1.Limit()) == 1;
    var p2 := Alloc(p1).0;
    assert Taken(p2.bitmap, 0) && Taken(p2.bitmap, 1) && LowestFree(p2.bitmap, 0, p2.Limit()) >= 2;
  }

  lemma {:induction false} CountPrefix(bitmap: seq<Word>, m: nat, n: nat)
    requires m <= n <= 32 * |bitmap| && forall p | 0 <= p < n :: Taken(bitmap, p) <==> p < m
    ensures Count(bitmap, n) == m
    decreases n
  {
    if n > m { CountPrefix(bitmap, m, n - 1); }
    else if n > 0 { CountPrefix(bitmap, m - 1, n - 1); }
  }

  lemma BootTables(ram: Ram, d: Frame, t: Frame)
    requires d != t && d < SLOT && t < SLOT
    ensures var ram' := FirstDirectory(FirstTables(ram, d, t), d, t);
            TablesOk(ram', d, [t + 1], map[d := Directory, t := HeadTable])
  {
    var ram' := FirstDirectory(FirstTables(ram, d, t), d, t);
    assert DirEntry(ram', d, 0) == Entry(true, true, false, true, t);
    assert ram'[t] == FirstTable();
  }

  /** What paging_init and vmm_init leave when the pool starts at frame s0. */
  lemma BootShape(ram: Ram, pool: LivePool, s0: nat)
    requires FreshPool(pool) && s0 == pool.start / PAGE_SIZE
    ensures s0 + 2 < SLOT && PageVa(0, s0) < WORDS && PageVa(0, s0 + 1) < WORDS
    ensures Init(ram, pool) == Some(Booted(FirstDirectory(FirstTables(ram, s0, s0 + 1), s0, s0 + 1),
                                           Alloc(Alloc(pool).0).0, s0, PageVa(0, s0), PageVa(0, s0 + 1)))
    ensures V2P(PageVa(0, s0 + 1)) / PAGE_SIZE + 1 < PAGE_TABLE_INDICES
    ensures InitDesc(PageVa(0, s0 + 1)) ==
            Desc(Reserved(s0 + 2), s0 + 2, PAGE_TABLE_INDICES - (s0 + 2), KERNEL_VIRT_BASE, PageVa(0, s0 + 1))
  {
    FirstFrames(pool);
    assert pool.start == s0 * PAGE_SIZE;
    PageIndices(0, s0);
    PageIndices(0, s0 + 1);
    assert P2V(pool.start) == PageVa(0, s0) && P2V(pool.start + PAGE_SIZE) == PageVa(0, s0 + 1);
    assert V2P(PageVa(0, s0)) == s0 * PAGE_SIZE && V2P(PageVa(0, s0 + 1)) == (s0 + 1) * PAGE_SIZE;
  }

  /** paging_init and vmm_init succeed on a fresh pool and establish the invariant. */
  lemma BootOk(ram: Ram, pool: LivePool) returns (owners: Owners)
    requires FreshPool(pool)
    ensures Init(ram, pool).Some? && V2P(Init(ram, pool).value.pageTable) / PAGE_SIZE + 1 < PAGE_TABLE_INDICES
    ensures VmOk(Boot(Init(ram, pool).value), owners) && Sound(Boot(Init(ram, pool).value))
  {
    var s0 := pool.start / PAGE_SIZE;
    BootShape(ram, pool, s0);
    FirstFrames(pool);
    var b := Init(ram, pool).value;
    BootTables(ram, s0, s0 + 1);
    owners := map[s0 := Directory, s0 + 1 := HeadTable];
    CountPrefix(Reserved(s0 + 2), s0 + 2, 32 * VMM_BITMAP_SIZE);
    assert Marks(Boot(b).blocks) == [s0 + 2];
    assert DirEntry(b.ram, s0, 0) == Entry(true, true, false, true, s0 + 1);
  }

  // ---- vmm_free_page ----

  lemma HolderIsHead(blocks: seq<Desc>, a: Addr)
    requires blocks != [] && blocks[0].firstPage == PageVa(0, 0)
    ensures Holder(blocks, a) == 0
  {}

  /** Freeing a page of the list clears that page's own bit exactly when it belongs to the first block. The first
      128 pages of the second block clear a bit of the first descriptor's mark, free_pages, first_page or page_table,
      32 pages to a field, the next 32 a bit of its link, and for all others the write lands behind it. */
  lemma FreeHitsOwnBit(vm: Vm, owners: Owners, i: nat, k: nat)
    requires VmOk(vm, owners) && i < |vm.blocks| && k < PAGE_TABLE_INDICES
    ensures PageVa(i, k) < WORDS
    ensures var r := FreePage(vm, PageVa(i, k));
            && (r == Released(WithBit(vm, i, k, false)) <==> i == 0)
            && (i == 1 && k < 32 * FIELDS ==> r == FieldHit(WithField(vm, 0, k / 32, k % 32)))
            && (i == 1 && 32 * FIELDS <= k < 32 * (FIELDS + 1) ==> r == LinkHit)
            && (i > 1 || (i == 1 && 32 * (FIELDS + 1) <= k) ==> r == WildWrite)
  {
    PageIndices(i, k);
    HolderIsHead(vm.blocks, PageAlign(PageVa(i, k)));
    assert V2P(PageVa(i, k)) == i * PAGE_TABLE_RANGE + k * PAGE_SIZE;
    assert V2P(PageVa(i, k)) / PAGE_SIZE == i * PAGE_TABLE_INDICES + k;
  }

  /** The field the descriptor has so many words behind its bitmap. */
  function FieldOf(d: Desc, field: nat): nat {
    match field
    case 0 => d.highWaterMark
    case 1 => d.freePages
    case 2 => d.firstPage
    case _ => d.pageTable
  }

  /** A bit of one field is cleared and the others stay; nothing happens exactly when the bit was clear. */
  lemma FieldHitIs(vm: Vm, field: nat, bit: nat)
    requires vm.blocks != [] && field < FIELDS
    ensures var (d, d') := (vm.blocks[0], WithField(vm, 0, field, bit).blocks[0]);
            && (forall f: nat, k: nat | f < FIELDS ::
                  BitOf(FieldOf(d', f), k) <==> (f, k) != (field, bit) && BitOf(FieldOf(d, f), k))
            && d'.bitmap == d.bitmap && (d' == d <==> !BitOf(FieldOf(d, field), bit))
  {
    var d := vm.blocks[0];
    forall k: nat
      ensures BitOf(WithoutBit(FieldOf(d, field), bit), k) <==> k != bit && BitOf(FieldOf(d, field), k)
    {
      WithoutBitIs(FieldOf(d, field), bit, k);
    }
    WithoutBitIs(FieldOf(d, field), bit, bit);
  }

  /** A free that stays inside the bitmap keeps the invariant and touches neither tables nor frames. */
  lemma FreeKeeps(vm: Vm, owners: Owners, page: Addr)
    requires VmOk(vm, owners) && FreePage(vm, page).Released?
    ensures var vm' := FreePage(vm, page).vm;
            VmOk(vm', owners) && vm'.ram == vm.ram && vm'.pool == vm.pool && vm'.cr3 == vm.cr3
            && |vm'.blocks| == |vm.blocks|
  {
    HolderIsHead(vm.blocks, PageAlign(page));
    var vm' := FreePage(vm, page).vm;
    var p := V2P(page) / PAGE_SIZE;
    CountPut(vm.blocks[0].bitmap, p, false, 32 * VMM_BITMAP_SIZE);
    assert DescOk(vm.blocks[0]);
    assert Marks(vm'.blocks) == Marks(vm.blocks);
    forall j | 0 <= j < |vm'.blocks| ensures DescOk(vm'.blocks[j]) && vm'.blocks[j].firstPage == PageVa(j, 0) {
      assert DescOk(vm.blocks[j]);
    }
  }

  // ---- writes ----

  lemma FillOk(vm: Vm, owners: Owners, f: Frame, t: Table)
    requires VmOk(vm, owners) && NoTable(vm.ram, vm.cr3, |vm.blocks|, f)
    ensures VmOk(WithRam(vm, WithTable(vm.ram, f, t)), owners)
    ensures NoTable(WithTable(vm.ram, f, t), vm.cr3, |vm.blocks|, f)
  {
    FillKeeps(vm.ram, vm.cr3, Marks(vm.blocks), owners, f, t);
    PointersStay(vm, WithTable(vm.ram, f, t), vm.pool);
    forall j: nat | j < |vm.blocks| ensures T(WithTable(vm.ram, f, t), vm.cr3, j) == T(vm.ram, vm.cr3, j) {
      assert DirEntry(WithTable(vm.ram, f, t), vm.cr3, j) == DirEntry(vm.ram, vm.cr3, j);
    }
  }

  /** A word stored at virtual address a, read as the entry it would be of a table there; None is a page fault. */
  function StoreAt(vm: Vm, a: Addr, e: Entry): Option<Vm> {
    match Store(vm.ram, vm.cr3, a, a % PAGE_SIZE / 4, e)
    case None => None
    case Some(ram) => Some(WithRam(vm, ram))
  }

  /** The address does not translate to a frame with one of the kernel's tables. */
  ghost predicate Misses(vm: Vm, a: Addr) {
    |vm.blocks| <= MAX_BLOCKS &&
    match Walk(vm.ram, vm.cr3, a)
    case None => true
    case Some(f) => NoTable(vm.ram, vm.cr3, |vm.blocks|, f)
  }

  lemma StoreOk(vm: Vm, owners: Owners, a: Addr, e: Entry)
    requires VmOk(vm, owners) && StoreAt(vm, a, e).Some? && Misses(vm, a)
    ensures var vm' := StoreAt(vm, a, e).value;
            && VmOk(vm', owners) && vm'.cr3 == vm.cr3 && vm'.pool == vm.pool && |vm'.blocks| == |vm.blocks|
            && Stable(vm.ram, vm'.ram, vm.cr3, |vm.blocks|)
  {
    var f := Walk(vm.ram, vm.cr3, a).value;
    var t := vm.ram[f][a % PAGE_SIZE / 4 := e];
    FillOk(vm, owners, f, t);
    FillKeeps(vm.ram, vm.cr3, Marks(vm.blocks), owners, f, t);
    var ram' := WithTable(vm.ram, f, t);
    forall i: nat, k: nat | i < |vm.blocks| && k < PAGE_TABLE_INDICES
      ensures E(ram', vm.cr3, i, k) == E(vm.ram, vm.cr3, i, k)
    {
      assert DirEntry(ram', vm.cr3, i) == DirEntry(vm.ram, vm.cr3, i);
    }
  }

  // ---- every reachable state ----

  /** The calls clients make, kmalloc and kfree activity showing as the free list each allocation finds, and the
      words anyone stores through a mapped page. */
  datatype Op = AllocOp(heap: seq<Block>) | FreeOp(page: Addr) | StoreOp(a: Addr, word: Entry)

  function Step(vm: Vm, op: Op): Option<Vm> {
    match op
    case AllocOp(heap) => if AllocPage(vm, heap).Done? then Some(AllocPage(vm, heap).value.vm) else None
    case FreeOp(page) => if FreePage(vm, page).Released? then Some(FreePage(vm, page).vm) else None
    case StoreOp(a, word) => StoreAt(vm, a, word)
  }

  function Run(vm: Vm, ops: seq<Op>): Option<Vm>
    decreases |ops|
  {
    if ops == [] then Some(vm)
    else match Step(vm, ops[0])
      case None => None
      case Some(vm') => Run(vm', ops[1..])
  }

  /** No store of the run goes to a frame that holds one of the kernel's tables by then. */
  ghost predicate StoresMiss(vm: Vm, ops: seq<Op>)
    decreases |ops|
  {
    ops != [] ==>
      && (ops[0].StoreOp? ==> Misses(vm, ops[0].a))
      && (Step(vm, ops[0]).Some? ==> StoresMiss(Step(vm, ops[0]).value, ops[1..]))
  }

  lemma StepKeeps(vm: Vm, owners: Owners, op: Op) returns (owners': Owners)
    requires VmOk(vm, owners) && Step(vm, op).Some? && Sound(Step(vm, op).value)
    requires op.StoreOp? ==> Misses(vm, op.a)
    ensures VmOk(Step(vm, op).value, owners') && Sound(vm)
    ensures var vm' := Step(vm, op).value;
            vm'.cr3 == vm.cr3 && |vm.blocks| <= |vm'.blocks| && Stable(vm.ram, vm'.ram, vm.cr3, |vm.blocks|)
  {
    match op {
      case AllocOp(heap) => owners' := AllocKeeps(vm, heap, owners);
      case FreeOp(page) => FreeKeeps(vm, owners, page); owners' := owners;
      case StoreOp(a, word) => StoreOk(vm, owners, a, word); owners' := owners;
    }
  }

  /** No call takes back a warning or a block, so a sound end means a sound run. */
  lemma {:induction false} RunSound(vm: Vm, ops: seq<Op>)
    requires Run(vm, ops).Some? && Sound(Run(vm, ops).value)
    ensures Sound(vm)
    decreases |ops|
  {
    if ops != [] {
      var vm' := Step(vm, ops[0]).value;
      RunSound(vm', ops[1..]);
      StepSound(vm, ops[0]);
    }
  }

  lemma StepSound(vm: Vm, op: Op)
    requires Step(vm, op).Some? && Sound(Step(vm, op).value)
    ensures Sound(vm)
  {
    if op.AllocOp? { AllocMonotone(vm, op.heap); }
  }

  lemma TouchMonotone(vm: Vm, heap: seq<Block>, i: nat, page: Addr)
    requires Touch(vm, heap, i, page).Done?
    ensures var r := Touch(vm, heap, i, page).value;
            (vm.pool.warned ==> r.vm.pool.warned) && |vm.blocks| <= |r.vm.blocks|
  {
    AllocTakesLowest(vm.pool);
  }

  lemma ExtendMonotone(vm: Vm, heap: seq<Block>, d: Desc, descriptor: Addr)
    requires Extend(vm, heap, d, descriptor).Done?
    ensures var r := Extend(vm, heap, d, descriptor).value;
            (vm.pool.warned ==> r.vm.pool.warned) && |vm.blocks| <= |r.vm.blocks|
  {
    AllocTakesLowest(vm.pool);
    ExtendPool(vm, heap, d, descriptor);
  }

  lemma AllocMonotone(vm: Vm, heap: seq<Block>)
    requires AllocPage(vm, heap).Done? && Sound(AllocPage(vm, heap).value.vm)
    ensures Sound(vm)
  {
    var i := FindBlock(vm.blocks, 0);
    var page := PageAt(vm.blocks[i], Scan(vm.blocks[i].bitmap));
    var taken := WithTaken(vm, i);
    if Grows(taken, i) {
      var flagged := WithFlag(taken, true);
      AddBlockIs(flagged, heap, i);
      ExtendMonotone(flagged, DescriptorHeap(heap), flagged.blocks[i], DescriptorAddr(heap));
      var r := AddBlock(flagged, heap, i).value;
      TouchMonotone(WithFlag(r.vm, false), r.heap, i, page);
    } else {
      TouchMonotone(taken, heap, i, page);
    }
  }

  /** Self-map, frame distinctness, growth never missed and page accounting hold after every run whose stores miss
      the tables, and no such run changes the frame of a present entry other than the first block's slot. */
  lemma {:induction false} RunKeeps(vm: Vm, owners: Owners, ops: seq<Op>) returns (owners': Owners)
    requires VmOk(vm, owners) && Run(vm, ops).Some? && Sound(Run(vm, ops).value) && StoresMiss(vm, ops)
    ensures VmOk(Run(vm, ops).value, owners')
    ensures var vm' := Run(vm, ops).value;
            vm'.cr3 == vm.cr3 && |vm.blocks| <= |vm'.blocks| && Stable(vm.ram, vm'.ram, vm.cr3, |vm.blocks|)
    decreases |ops|
  {
    if ops == [] {
      owners' := owners;
    } else {
      var vm' := Step(vm, ops[0]).value;
      RunSound(vm', ops[1..]);
      var middle := StepKeeps(vm, owners, ops[0]);
      owners' := RunKeeps(vm', middle, ops[1..]);
      var last := Run(vm, ops).value;
      forall i: nat, k: nat | i < |vm.blocks| && k < PAGE_TABLE_INDICES && E(vm.ram, vm.cr3, i, k).present
                              && (i, k) != (0, SLOT)
        ensures E(last.ram, vm.cr3, i, k) == E(vm.ram, vm.cr3, i, k)
      {
        assert E(vm'.ram, vm.cr3, i, k) == E(vm.ram, vm.cr3, i, k);
      }
    }
  }
}
