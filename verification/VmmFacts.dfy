/** What clients of the virtual page allocator see in every reachable state, and exactly when the written code
    departs from its intent. */
module VmmFacts {
  import opened Words
  import opened Wrappers
  import opened PhysicalMemory
  import opened Paging
  import opened FreeList
  import opened HeapMemory
  import opened Vmm
  import opened VmmInvariant
  import opened VmmSteps
  import opened VmmRuns
  import opened VmmBump
  import opened Runs

  // ---- self-map and distinct frames, from boot ----

  /** The kernel's names for frames: its directory, a block's table, an entry paging_map_virtual_page wrote. */
  datatype Name = TheDirectory | TheTable(i: nat) | TheEntry(i: nat, k: nat)

  predicate Names(vm: Vm, a: Name) {
    |vm.blocks| <= MAX_BLOCKS &&
    match a
    case TheDirectory => true
    case TheTable(i) => i < |vm.blocks|
    case TheEntry(i, k) => Installed(vm.ram, vm.cr3, |vm.blocks|, i, k)
  }

  function FrameNamed(vm: Vm, a: Name): Frame
    requires Names(vm, a)
  {
    match a
    case TheDirectory => vm.cr3
    case TheTable(i) => T(vm.ram, vm.cr3, i)
    case TheEntry(i, k) => E(vm.ram, vm.cr3, i, k).frame
  }

  /** A block's slot and its successor's table are the same thing under two names. */
  function ProperName(a: Name): Name {
    if a.TheEntry? && a.k == SLOT then TheTable(a.i + 1) else a
  }

  lemma NameOwner(vm: Vm, owners: Owners, a: Name)
    requires VmOk(vm, owners) && Names(vm, a)
    ensures FrameNamed(vm, a) in owners
    ensures owners[FrameNamed(vm, a)] ==
            match a
            case TheDirectory => Directory
            case TheTable(i) => if i == 0 then HeadTable else Slot(i - 1, SLOT)
            case TheEntry(i, k) => Slot(i, k)
  {
    if a.TheTable? { TableOwner(vm.ram, vm.cr3, |vm.blocks|, owners, a.i); }
  }

  /** Frame distinctness: two names stand for one frame exactly when they are a block's slot and its successor's
      table, and every named frame is taken in the physical allocator. */
  lemma FramesDistinct(vm: Vm, owners: Owners, a: Name, b: Name)
    requires VmOk(vm, owners) && Names(vm, a) && Names(vm, b)
    ensures FrameNamed(vm, a) == FrameNamed(vm, b) <==> ProperName(a) == ProperName(b)
    ensures vm.pool.Owns(FrameNamed(vm, a) * PAGE_SIZE)
  {
    NameOwner(vm, owners, a);
    NameOwner(vm, owners, b);
    SlotIsTable(vm, owners, a);
    SlotIsTable(vm, owners, b);
  }

  /** A slot in use belongs to a block with a successor. */
  lemma SlotIsTable(vm: Vm, owners: Owners, a: Name)
    requires VmOk(vm, owners) && Names(vm, a)
    ensures a.TheEntry? && a.k == SLOT ==>
              a.i + 1 < |vm.blocks| && FrameNamed(vm, a) == T(vm.ram, vm.cr3, a.i + 1)
  {
    if a.TheEntry? && a.k == SLOT {
      assert a.i > 0 ==> E(vm.ram, vm.cr3, a.i, SLOT).present;
      assert Marks(vm.blocks)[a.i] == vm.blocks[a.i].highWaterMark;
      assert LinksNext(vm.ram, vm.cr3, a.i);
    }
  }

  /** The descriptor of block i holds a pointer that translates to the frame its directory entry names. */
  predicate MapsItself(vm: Vm, i: nat)
    requires i < |vm.blocks|
  {
    var e := vm.ram[vm.cr3][DirIndex(vm.blocks[i].firstPage)];
    e.present && Walk(vm.ram, vm.cr3, vm.blocks[i].pageTable) == Some(e.frame)
  }

  /** Free pages and taken pages never exceed the block, so a block that says it has pages has one. */
  predicate Accounted(d: Desc) {
    d.freePages + Pages(d.bitmap) <= PAGE_TABLE_INDICES && (d.freePages > 0 ==> Scan(d.bitmap) < PAGE_TABLE_INDICES)
  }

  /** Every block's table maps itself, the directory maps itself, two names stand for one frame exactly when
      they are a block's slot and its successor's table, named frames are taken, pages are accounted for, and
      exactly the blocks at the threshold have a successor. */
  ghost predicate InShape(vm: Vm) {
    && 0 < |vm.blocks| && Walk(vm.ram, vm.cr3, vm.directory) == Some(vm.cr3)
    && (forall i | 0 <= i < |vm.blocks| :: MapsItself(vm, i) && Accounted(vm.blocks[i]))
    && (forall i | 0 <= i < |vm.blocks| ::
          vm.blocks[i].highWaterMark >= HIGH_WATER_THRESHOLD <==> i + 1 < |vm.blocks|)
    && (forall a, b | Names(vm, a) && Names(vm, b) ::
          FrameNamed(vm, a) == FrameNamed(vm, b) <==> ProperName(a) == ProperName(b))
    && (forall a | Names(vm, a) :: vm.pool.Owns(FrameNamed(vm, a) * PAGE_SIZE))
  }

  lemma ShapeOf(vm: Vm, owners: Owners)
    requires VmOk(vm, owners)
    ensures InShape(vm)
  {
    SelfMap(vm.ram, vm.cr3, Marks(vm.blocks), owners, 0);
    forall i | 0 <= i < |vm.blocks| ensures MapsItself(vm, i) && Accounted(vm.blocks[i]) {
      ListedBlock(vm, owners, i);
    }
    forall a, b | Names(vm, a) && Names(vm, b)
      ensures FrameNamed(vm, a) == FrameNamed(vm, b) <==> ProperName(a) == ProperName(b)
    {
      FramesDistinct(vm, owners, a, b);
    }
    forall a | Names(vm, a) ensures vm.pool.Owns(FrameNamed(vm, a) * PAGE_SIZE) {
      FramesDistinct(vm, owners, a, a);
    }
  }

  /** Every state reached from boot by allocations, frees and stores that miss the tables is in shape, as long as
      frames and address space last; and the first block's slot apart, no entry that was present changes. */
  lemma Reachable(ram: Ram, pool: LivePool, ops: seq<Op>, vm: Vm)
    requires FreshPool(pool) && Init(ram, pool).Some?
    requires V2P(Init(ram, pool).value.pageTable) / PAGE_SIZE + 1 < PAGE_TABLE_INDICES
    requires Run(Boot(Init(ram, pool).value), ops) == Some(vm) && Sound(vm)
    requires StoresMiss(Boot(Init(ram, pool).value), ops)
    ensures InShape(vm)
    ensures Stable(Boot(Init(ram, pool).value).ram, vm.ram, vm.cr3, 1)
  {
    var first := BootOk(ram, pool);
    var owners := RunKeeps(Boot(Init(ram, pool).value), first, ops);
    ShapeOf(vm, owners);
  }

  lemma ListedBlock(vm: Vm, owners: Owners, i: nat)
    requires VmOk(vm, owners) && i < |vm.blocks|
    ensures MapsItself(vm, i) && Accounted(vm.blocks[i])
  {
    SelfMap(vm.ram, vm.cr3, Marks(vm.blocks), owners, i);
    PageIndices(i, 0);
    assert DirEntry(vm.ram, vm.cr3, i).present;
    assert DescOk(vm.blocks[i]);
    if vm.blocks[i].freePages > 0 { FreePagesScan(vm.blocks[i]); }
  }

  // ---- when an allocation succeeds ----

  /** Two frames are left: one for a page and one for a page table. */
  predicate FramesLeft(vm: Vm) { !Alloc(Alloc(vm.pool).0).0.warned }

  /** A descriptor can be had without growing the heap, and a block more fits the address space. */
  predicate RoomToGrow(vm: Vm, heap: seq<Block>) { DescriptorAddr(heap) != 0 && |vm.blocks| < MAX_BLOCKS }

  /** A heap whose blocks lie in memory serves a descriptor whenever a block fits. */
  lemma FitServes(heap: seq<Block>)
    requires InMemory(heap)
    ensures DescriptorAddr(heap) != 0 <==> FirstFit(heap, Rounded(DESC_BYTES)) < |heap|
  {
    hide InMemory, FirstFit;
    var k := FirstFit(heap, Rounded(DESC_BYTES));
    if k < |heap| {
      InMemoryAt(heap, k);
      NotAtTheTop(heap[k], Rounded(DESC_BYTES));
    }
  }

  lemma NotAtTheTop(b: Block, n: nat)
    requires Fits(b, n) && n > 0 && b.End() <= WORDS
    ensures U32(b.addr + HEADER) != 0 && (Splits(b, n) ==> U32(Cut(b, n).addr + HEADER) != 0)
  {}

  lemma DescriptorServed(vm: Vm, heap: seq<Block>)
    requires vm.growing && DescriptorAddr(heap) != 0
    ensures KmallocVm(vm, heap, DESC_BYTES) == Done(Result(vm, DescriptorHeap(heap), DescriptorAddr(heap)))
  {}

  /** An allocation is a lookup of the picked page in the middle state. */
  lemma AllocFold(vm: Vm, heap: seq<Block>)
    requires !vm.growing && FindBlock(vm.blocks, 0) < |vm.blocks|
    requires var (i, p) := Pick(vm.blocks);
             PageAt(vm.blocks[i], p) != 0
             && (Extra(vm.blocks) != [] ==>
                   AddBlock(WithFlag(WithTaken(vm, i), true), heap, i)
                   == Done(Result(WithFlag(Middle(vm), true), MiddleHeap(vm, heap), DescriptorAddr(heap))))
    ensures var (i, p) := Pick(vm.blocks);
            AllocPage(vm, heap) == Touch(Middle(vm), MiddleHeap(vm, heap), i, PageAt(vm.blocks[i], p))
  {
    if Extra(vm.blocks) == [] { PlainMiddle(vm); }
  }

  lemma PoolLasts(vm: Vm)
    requires FramesLeft(vm)
    ensures !vm.pool.warned && !Alloc(vm.pool).0.warned
  {
    AllocTakesLowest(vm.pool);
    AllocTakesLowest(Alloc(vm.pool).0);
  }

  lemma AllocSucceeds(vm: Vm, heap: seq<Block>, owners: Owners)
    requires VmOk(vm, owners) && FindBlock(vm.blocks, 0) < |vm.blocks| && FramesLeft(vm)
    requires Extra(vm.blocks) != [] ==> RoomToGrow(vm, heap)
    ensures AllocPage(vm, heap).Done? && Sound(AllocPage(vm, heap).value.vm)
  {
    PoolLasts(vm);
    PickOk(vm.blocks);
    if Extra(vm.blocks) != [] { GrowthSucceeds(vm, heap, owners); }
    AllocFold(vm, heap);
    LookupSucceeds(vm, heap, owners);
  }

  lemma LookupSucceeds(vm: Vm, heap: seq<Block>, owners: Owners)
    requires VmOk(vm, owners) && FindBlock(vm.blocks, 0) < |vm.blocks| && FramesLeft(vm)
    requires |NextBlocks(vm.blocks)| <= MAX_BLOCKS && PageVa(Pick(vm.blocks).0, Pick(vm.blocks).1) < WORDS
    ensures var (i, p) := Pick(vm.blocks);
            var r := Touch(Middle(vm), MiddleHeap(vm, heap), i, PageVa(i, p));
            r.Done? && Sound(r.value.vm)
  {
    PoolLasts(vm);
    var (i, p) := Pick(vm.blocks);
    var middle := MiddleReady(vm, owners);
    TouchAt(Middle(vm), MiddleHeap(vm, heap), TableMarks(vm.blocks), middle, i, p);
  }

  lemma GrowthSucceeds(vm: Vm, heap: seq<Block>, owners: Owners)
    requires VmOk(vm, owners) && FindBlock(vm.blocks, 0) < |vm.blocks| && Extra(vm.blocks) != []
    requires RoomToGrow(vm, heap) && !Alloc(vm.pool).0.warned
    ensures var i := |vm.blocks| - 1;
            i == FindBlock(vm.blocks, 0)
            && AddBlock(WithFlag(WithTaken(vm, i), true), heap, i)
               == Done(Result(WithFlag(Middle(vm), true), MiddleHeap(vm, heap), DescriptorAddr(heap)))
  {
    var i := |vm.blocks| - 1;
    var flagged := WithFlag(WithTaken(vm, i), true);
    DescriptorServed(flagged, heap);
    PoolRises(vm.pool, owners);
    ExtendAdds(flagged, DescriptorHeap(heap), Marks(vm.blocks), owners, DescriptorAddr(heap));
    assert Added(flagged).blocks == NextBlocks(vm.blocks);
  }

  /** The allocation takes the last page below the threshold of the last block. */
  predicate GrowthDue(vm: Vm) { FindBlock(vm.blocks, 0) < |vm.blocks| && Extra(vm.blocks) != [] }

  /** An allocation made while a block is being added fails only for want of a page. */
  lemma NestedEnds(vm: Vm, heap: seq<Block>, marks: seq<nat>, owners: Owners)
    requires vm.growing && TablesOk(vm.ram, vm.cr3, marks, owners) && |marks| == |vm.blocks| <= MAX_BLOCKS
    requires forall j | 0 <= j < |vm.blocks| ::
               vm.blocks[j].firstPage == PageVa(j, 0) && vm.blocks[j].pageTable == TableVa(vm.ram, vm.cr3, j)
    ensures if FindBlock(vm.blocks, 0) == |vm.blocks| then AllocPage(vm, heap) == OutOfMemory
            else AllocPage(vm, heap).Done?
  {
    var j := FindBlock(vm.blocks, 0);
    if j < |vm.blocks| {
      var q := Scan(vm.blocks[j].bitmap);
      PageAtIs(vm.blocks[j], j, q);
      TouchAt(WithTaken(vm, j), heap, marks, owners, j, q);
    }
  }

  /** With one page left, none is left for kmalloc once the page is taken. */
  lemma OnePageLeft(vm: Vm, owners: Owners)
    requires VmOk(vm, owners) && GrowthDue(vm)
    ensures var i := |vm.blocks| - 1;
            && i == FindBlock(vm.blocks, 0)
            && (FindBlock(WithTaken(vm, i).blocks, 0) == |vm.blocks| <==> vm.blocks[i].freePages == 1)
  {
    var i := |vm.blocks| - 1;
    var blocks := WithTaken(vm, i).blocks;
    assert DescOk(vm.blocks[i]);
    TakeOk(vm.blocks[i]);
    if vm.blocks[i].freePages > 1 { FreePagesScan(blocks[i]); }
  }

  lemma AddFails(vm: Vm, heap: seq<Block>, i: nat)
    requires vm.growing && i < |vm.blocks| && DescriptorAddr(heap) == 0
    requires AllocPage(vm, heap).Done? || AllocPage(vm, heap) == OutOfMemory
    ensures AddBlock(vm, heap, i) ==
            if FirstFit(heap, Rounded(DESC_BYTES)) == |heap| && AllocPage(vm, heap) == OutOfMemory
            then OutOfMemory else NullDescriptor
  {}

  /** A failure to add the block is the allocation's failure. */
  lemma GrowthFails(vm: Vm, heap: seq<Block>, i: nat)
    requires !vm.growing && GrowthDue(vm) && i == FindBlock(vm.blocks, 0)
    requires PageAt(vm.blocks[i], Scan(vm.blocks[i].bitmap)) != 0
    requires AddBlock(WithFlag(WithTaken(vm, i), true), heap, i).IsFailure()
    ensures AllocPage(vm, heap).EndsAs(AddBlock(WithFlag(WithTaken(vm, i), true), heap, i))
  {
    hide AddBlock;
  }

  /** Growth with no block in the heap for a descriptor: kmalloc fetches a page and returns NULL, which is then
      written through, or there is no page left to fetch. */
  lemma GrowthWithoutDescriptor(vm: Vm, heap: seq<Block>, owners: Owners)
    requires VmOk(vm, owners) && GrowthDue(vm) && DescriptorAddr(heap) == 0
    ensures AllocPage(vm, heap) ==
            if FirstFit(heap, Rounded(DESC_BYTES)) == |heap| && vm.blocks[|vm.blocks| - 1].freePages == 1
            then OutOfMemory else NullDescriptor
  {
    hide VmOk, AllocPage, AddBlock;
    var i := |vm.blocks| - 1;
    OkBlocks(vm, owners);
    OnePageLeft(vm, owners);
    PickOk(vm.blocks);
    FlaggedNested(vm, heap, owners);
    AddFails(WithFlag(WithTaken(vm, i), true), heap, i);
    GrowthFails(vm, heap, i);
  }

  lemma OkBlocks(vm: Vm, owners: Owners)
    requires VmOk(vm, owners)
    ensures BlocksOk(vm.blocks) && |vm.blocks| <= MAX_BLOCKS && !vm.growing
  {}

  lemma FlaggedNested(vm: Vm, heap: seq<Block>, owners: Owners)
    requires VmOk(vm, owners) && GrowthDue(vm) && FindBlock(vm.blocks, 0) == |vm.blocks| - 1
    ensures var flagged := WithFlag(WithTaken(vm, |vm.blocks| - 1), true);
            if FindBlock(flagged.blocks, 0) == |flagged.blocks| then AllocPage(flagged, heap) == OutOfMemory
            else AllocPage(flagged, heap).Done?
  {
    hide AllocPage;
    var flagged := WithFlag(WithTaken(vm, |vm.blocks| - 1), true);
    assert forall j | 0 <= j < |vm.blocks| :: flagged.blocks[j].firstPage == vm.blocks[j].firstPage
                                              && flagged.blocks[j].pageTable == vm.blocks[j].pageTable;
    NestedEnds(flagged, heap, Marks(vm.blocks), owners);
  }

  lemma NoneFound(vm: Vm, heap: seq<Block>)
    requires FindBlock(vm.blocks, 0) == |vm.blocks|
    ensures AllocPage(vm, heap) == OutOfMemory
  {}

  /** How every allocation ends while frames and address space last: it succeeds exactly when a block has a page
      and, if that page is the last below the threshold, the heap has a descriptor; it never faults; and a heap
      without a descriptor ends in a write through NULL, or in the panic if that page was the last one. */
  lemma AllocEnds(vm: Vm, heap: seq<Block>, owners: Owners)
    requires VmOk(vm, owners) && FramesLeft(vm) && (GrowthDue(vm) ==> |vm.blocks| < MAX_BLOCKS)
    ensures var (found, r) := (FindBlock(vm.blocks, 0) < |vm.blocks|, AllocPage(vm, heap));
            var starved := FirstFit(heap, Rounded(DESC_BYTES)) == |heap| && found
                           && vm.blocks[|vm.blocks| - 1].freePages == 1;
            && (r.Done? <==> found && (GrowthDue(vm) ==> DescriptorAddr(heap) != 0))
            && (r.OutOfMemory? <==> !found || (GrowthDue(vm) && starved))
            && (r.NullDescriptor? <==> GrowthDue(vm) && DescriptorAddr(heap) == 0 && !starved)
  {
    hide AllocPage;
    if FindBlock(vm.blocks, 0) == |vm.blocks| {
      NoneFound(vm, heap);
    } else if GrowthDue(vm) && DescriptorAddr(heap) == 0 {
      GrowthWithoutDescriptor(vm, heap, owners);
    } else {
      AllocSucceeds(vm, heap, owners);
    }
  }

  /** No block has a page exactly when every block's free_pages has run down to zero. */
  lemma FoundExactly(vm: Vm, owners: Owners)
    requires VmOk(vm, owners)
    ensures FindBlock(vm.blocks, 0) == |vm.blocks| <==> forall i | 0 <= i < |vm.blocks| :: vm.blocks[i].freePages == 0
  {
    forall i | 0 <= i < |vm.blocks| && vm.blocks[i].freePages > 0
      ensures Scan(vm.blocks[i].bitmap) < PAGE_TABLE_INDICES
    {
      assert DescOk(vm.blocks[i]);
      FreePagesScan(vm.blocks[i]);
    }
  }

  /** So unless growth is due without a descriptor, the out-of-memory panic comes exactly when every block's
      free_pages has run down to zero. */
  lemma PanicExactly(vm: Vm, heap: seq<Block>, owners: Owners)
    requires VmOk(vm, owners) && FramesLeft(vm) && (GrowthDue(vm) ==> RoomToGrow(vm, heap))
    ensures AllocPage(vm, heap) == OutOfMemory <==> forall i | 0 <= i < |vm.blocks| :: vm.blocks[i].freePages == 0
    ensures AllocPage(vm, heap) != OutOfMemory ==> AllocPage(vm, heap).Done?
  {
    hide AllocPage;
    FoundExactly(vm, owners);
    AllocEnds(vm, heap, owners);
  }

  /** Without frees the panic is unreachable while the address space lasts. */
  lemma NeverPanics(vm: Vm, c: nat, heap: seq<Block>)
    requires InOrder(vm, c) && FramesLeft(vm) && (GrowthDue(vm) ==> RoomToGrow(vm, heap))
    ensures AllocPage(vm, heap).Done?
  {
    hide AllocPage;
    var owners :| VmOk(vm, owners) && Bumped(vm.blocks, c);
    var n := |vm.blocks|;
    assert FilledTo(vm.blocks[n - 1], Fill(c, n - 1));
    assert vm.blocks[n - 1].highWaterMark < HIGH_WATER_THRESHOLD;
    PanicExactly(vm, heap, owners);
  }

  // ---- growth nests once ----

  lemma TouchAddsNone(vm: Vm, heap: seq<Block>, i: nat, page: Addr)
    requires Touch(vm, heap, i, page).Done?
    ensures var r := Touch(vm, heap, i, page).value.vm; |r.blocks| == |vm.blocks| && r.growing == vm.growing
  {}

  /** An allocation made while a block is being added adds none, and any other adds at most one. */
  lemma GrowthNestsOnce(vm: Vm, heap: seq<Block>)
    requires AllocPage(vm, heap).Done?
    ensures var r := AllocPage(vm, heap).value.vm;
            && r.growing == vm.growing
            && |r.blocks| - |vm.blocks| == if vm.growing || Extra(vm.blocks) == [] then 0 else 1
  {
    var i := FindBlock(vm.blocks, 0);
    var page := PageAt(vm.blocks[i], Scan(vm.blocks[i].bitmap));
    if vm.growing || Extra(vm.blocks) == [] {
      TouchAddsNone(WithTaken(vm, i), heap, i, page);
    } else {
      var flagged := WithFlag(WithTaken(vm, i), true);
      var r := AddBlock(flagged, heap, i).value;
      AddBlockIs(flagged, heap, i);
      ExtendPool(flagged, DescriptorHeap(heap), flagged.blocks[i], DescriptorAddr(heap));
      TouchAddsNone(WithFlag(r.vm, false), r.heap, i, page);
    }
  }

  // ---- where the code departs from its intent ----

  lemma PageVaInjective(i: nat, k: nat, j: nat, l: nat)
    requires i < MAX_BLOCKS && j < MAX_BLOCKS && k < PAGE_TABLE_INDICES && l < PAGE_TABLE_INDICES
    ensures PageVa(i, k) == PageVa(j, l) <==> i == j && k == l
  {
    PageIndices(i, k);
    PageIndices(j, l);
  }

  /** The page handed out is the page table of a block exactly when it is a block's slot, which no bitmap
      reserves. */
  lemma TableHandedOut(vm: Vm, heap: seq<Block>, owners: Owners)
    requires VmOk(vm, owners) && AllocPage(vm, heap).Done? && Sound(AllocPage(vm, heap).value.vm)
    ensures FindBlock(vm.blocks, 0) < |vm.blocks|
    ensures var r := AllocPage(vm, heap).value;
            (exists j :: 0 < j < |r.vm.blocks| && r.vm.blocks[j].pageTable == r.addr) <==> Pick(vm.blocks).1 == SLOT
  {
    var owners' := AllocKeeps(vm, heap, owners);
    var r := AllocPage(vm, heap).value;
    var (i, p) := Pick(vm.blocks);
    PickOk(vm.blocks);
    forall j | 0 < j < |r.vm.blocks|
      ensures r.vm.blocks[j].pageTable == r.addr <==> j == i + 1 && p == SLOT
    {
      assert r.vm.blocks[j].pageTable == TableVa(r.vm.ram, r.vm.cr3, j);
      PageVaInjective(j - 1, SLOT, i, p);
    }
    if p == SLOT {
      assert r.vm.blocks[i + 1].pageTable == r.addr;
    }
  }

  /** Without frees that is every allocation whose page number is 1022 modulo 1024. */
  lemma TableHandedOutWhen(vm: Vm, c: nat, heap: seq<Block>)
    requires InOrder(vm, c) && AllocPage(vm, heap).Done? && Sound(AllocPage(vm, heap).value.vm)
    ensures var r := AllocPage(vm, heap).value;
            (exists j :: 0 < j < |r.vm.blocks| && r.vm.blocks[j].pageTable == r.addr)
            <==> c % PAGE_TABLE_INDICES == SLOT
  {
    var owners :| VmOk(vm, owners) && Bumped(vm.blocks, c);
    TableHandedOut(vm, heap, owners);
    FindFilled(vm.blocks, c);
  }

  /** vmm_get_phys_addr always reads the first block's table. */
  lemma PhysAddrReadsHead(vm: Vm, owners: Owners, i: nat, k: nat)
    requires VmOk(vm, owners) && i < |vm.blocks| && k < PAGE_TABLE_INDICES
    ensures PageVa(i, k) < WORDS
    ensures GetPhysAddr(vm, PageVa(i, k)) == Some(E(vm.ram, vm.cr3, 0, k).frame * PAGE_SIZE)
  {
    PageIndices(i, k);
    HolderIsHead(vm.blocks, PageVa(i, k));
    SelfMap(vm.ram, vm.cr3, Marks(vm.blocks), owners, 0);
    LoadHead(vm, PageVa(i, k), T(vm.ram, vm.cr3, 0));
  }

  lemma LoadHead(vm: Vm, page: Addr, f: Frame)
    requires vm.blocks != [] && Holder(vm.blocks, page) == 0
    requires Walk(vm.ram, vm.cr3, vm.blocks[0].pageTable) == Some(f)
    ensures GetPhysAddr(vm, page) == Some(vm.ram[f][TableIndex(page)].frame * PAGE_SIZE)
  {}

  /** vmm_get_phys_addr agrees with the two-level walk on a mapped page exactly when it is a page of the first
      block. */
  lemma PhysAddrExactly(vm: Vm, owners: Owners, i: nat, k: nat)
    requires VmOk(vm, owners) && i < |vm.blocks| && k < PAGE_TABLE_INDICES && E(vm.ram, vm.cr3, i, k).present
    ensures PageVa(i, k) < WORDS && Walk(vm.ram, vm.cr3, PageVa(i, k)) == Some(E(vm.ram, vm.cr3, i, k).frame)
    ensures GetPhysAddr(vm, PageVa(i, k)) == Some(E(vm.ram, vm.cr3, i, k).frame * PAGE_SIZE) <==> i == 0
  {
    WalkPage(vm.ram, vm.cr3, |vm.blocks|, i, k);
    PhysAddrReadsHead(vm, owners, i, k);
    if i > 0 { HeadFrameDiffers(vm, owners, i, k); }
  }

  lemma HeadFrameDiffers(vm: Vm, owners: Owners, i: nat, k: nat)
    requires VmOk(vm, owners) && 0 < i < |vm.blocks| && k < PAGE_TABLE_INDICES && E(vm.ram, vm.cr3, i, k).present
    ensures E(vm.ram, vm.cr3, 0, k).frame != E(vm.ram, vm.cr3, i, k).frame
  {
    var n := |vm.blocks|;
    assert Installed(vm.ram, vm.cr3, n, i, k);
    if k == SLOT {
      assert Installed(vm.ram, vm.cr3, n, 0, SLOT);
    } else {
      assert E(vm.ram, vm.cr3, 0, k).frame == k;
      assert owners[E(vm.ram, vm.cr3, i, k).frame] == Slot(i, k);
    }
  }

  /** The frame number of the lowest free page of the pool. */
  function NextFrame(pool: LivePool): nat { pool.start / PAGE_SIZE + LowestFree(pool.bitmap, 0, pool.Limit()) }

  lemma NextFrameIs(pool: LivePool)
    requires pool.HasFree()
    ensures FrameOf(Alloc(pool).1) == NextFrame(pool) && Alloc(pool).1 == NextFrame(pool) * PAGE_SIZE
    ensures Alloc(pool).0.warned == pool.warned
  {
    var p := LowestFree(pool.bitmap, 0, pool.Limit());
    assert pool.start == pool.start / PAGE_SIZE * PAGE_SIZE;
    assert pool.AddrOf(p) == NextFrame(pool) * PAGE_SIZE;
    WithinWords(pool, p);
  }

  lemma WithinWords(pool: LivePool, p: nat)
    requires p < pool.pageCount
    ensures 0 < pool.AddrOf(p) < WORDS
  {}

  /** The next frame the physical allocator gives out already backs a page of the first block exactly when the
      pool's lowest free page is one of the 1024 frames paging_init maps, the taken-over slot excepted. */
  lemma PoolAliasesHead(vm: Vm, owners: Owners)
    requires VmOk(vm, owners) && !vm.pool.warned && vm.pool.HasFree()
    ensures var f := NextFrame(vm.pool);
            && FrameOf(Alloc(vm.pool).1) == f
            && ((exists k: nat :: k < PAGE_TABLE_INDICES && E(vm.ram, vm.cr3, 0, k).frame == f)
                <==> f < PAGE_TABLE_INDICES && (f != SLOT || |vm.blocks| == 1))
  {
    NextFrameIs(vm.pool);
    var f := FrameOf(Alloc(vm.pool).1);
    var n := |vm.blocks|;
    PoolRises(vm.pool, owners);
    if n > 1 {
      assert Installed(vm.ram, vm.cr3, n, 0, SLOT);
      assert E(vm.ram, vm.cr3, 0, SLOT).frame in owners;
    }
    if f < PAGE_TABLE_INDICES && (f != SLOT || n == 1) {
      assert E(vm.ram, vm.cr3, 0, f).frame == f;
    }
  }

  /** It happens at once: the first frame given out after boot is the one behind the first page handed out. */
  lemma FirstFrameAliases(ram: Ram, pool: LivePool)
    requires FreshPool(pool) && Init(ram, pool).Some?
    requires V2P(Init(ram, pool).value.pageTable) / PAGE_SIZE + 1 < PAGE_TABLE_INDICES
    ensures var vm := Boot(Init(ram, pool).value);
            && FindBlock(vm.blocks, 0) == 0
            && var p := Pick(vm.blocks).1;
               && p == pool.start / PAGE_SIZE + 2 < SLOT
               && FrameOf(Alloc(vm.pool).1) == p == E(vm.ram, vm.cr3, 0, p).frame
  {
    var s0 := pool.start / PAGE_SIZE;
    var owners := BootOk(ram, pool);
    BootShape(ram, pool, s0);
    ThirdFrame(pool);
    var vm := Boot(Init(ram, pool).value);
    assert DescOk(vm.blocks[0]);
    FreePagesScan(vm.blocks[0]);
    var p := Scan(vm.blocks[0].bitmap);
    assert !Taken(vm.blocks[0].bitmap, p) && !Taken(vm.blocks[0].bitmap, s0 + 2);
    assert p == s0 + 2;
    assert E(vm.ram, vm.cr3, 0, p).frame == p;
  }

  lemma ThirdFrame(pool: LivePool)
    requires FreshPool(pool)
    ensures FrameOf(Alloc(Alloc(Alloc(pool).0).0).1) == pool.start / PAGE_SIZE + 2
  {
    FirstFrames(pool);
    var p1 := Alloc(pool).0;
    var p2 := Alloc(p1).0;
    assert LowestFree(pool.bitmap, 0, pool.Limit()) == 0;
    assert Taken(p1.bitmap, 0) && !Taken(p1.bitmap, 1);
    assert LowestFree(p1.bitmap, 0, p1.Limit()) == 1;
    assert Taken(p2.bitmap, 0) && Taken(p2.bitmap, 1) && !Taken(p2.bitmap, 2);
    assert LowestFree(p2.bitmap, 0, p2.Limit()) == 2;
    assert p2.AddrOf(2) == (pool.start / PAGE_SIZE + 2) * PAGE_SIZE;
  }

  // ---- the frames of later tables ----

  lemma NotWarnedHadFree(pool: LivePool)
    requires !Alloc(pool).0.warned
    ensures pool.HasFree()
  {}

  /** The table a growth adds lies in the pool's next frame, and all that was there is gone. */
  lemma TableFrame(vm: Vm, heap: seq<Block>, owners: Owners) returns (owners': Owners)
    requires VmOk(vm, owners) && GrowthDue(vm)
    requires AllocPage(vm, heap).Done? && Sound(AllocPage(vm, heap).value.vm)
    ensures var (r, n) := (AllocPage(vm, heap).value.vm, |vm.blocks|);
            && VmOk(r, owners') && |r.blocks| == n + 1 <= MAX_BLOCKS && r.cr3 == vm.cr3
            && T(r.ram, vm.cr3, n) == NextFrame(vm.pool) == FrameOf(Alloc(vm.pool).1)
            && r.ram[T(r.ram, vm.cr3, n)] == Cleared()
  {
    hide AllocPage, Touch, Ready, FromPool, Compact, Stable, PointersOk;
    var (m, n, (i, p)) := (Middle(vm), |vm.blocks|, Pick(vm.blocks));
    owners' := AllocKeeps(vm, heap, owners);
    AllocIsTouch(vm, heap, owners);
    PickOk(vm.blocks);
    NotWarnedHadFree(vm.pool);
    NextFrameIs(vm.pool);
    PoolRises(vm.pool, owners);
    GrownLocal(vm.ram, vm.cr3, n, owners, MappedEntry(E(vm.ram, vm.cr3, n - 1, SLOT), Alloc(vm.pool).1));
    var middle := MiddleReady(vm, owners);
    PageAtIs(vm.blocks[i], i, p);
    TouchSpares(m, MiddleHeap(vm, heap), TableMarks(vm.blocks), middle, i, p);
  }

  /** Looking up a page of the last block but one changes neither the directory nor the last table. */
  lemma TouchSpares(m: Vm, heap: seq<Block>, marks: seq<nat>, owners: Owners, i: nat, p: nat)
    requires Ready(m, marks, owners, i, p) && i + 2 == |marks|
    ensures var r := Touch(m, heap, i, PageVa(i, p));
            && r.Done? && r.value.vm.ram[m.cr3] == m.ram[m.cr3]
            && r.value.vm.ram[T(m.ram, m.cr3, i + 1)] == m.ram[T(m.ram, m.cr3, i + 1)]
  {
    TouchAt(m, heap, marks, owners, i, p);
    TablesDiffer(m.ram, m.cr3, |marks|, owners, i, i + 1);
  }

  lemma HeadWalks(vm: Vm, owners: Owners, k: nat)
    requires VmOk(vm, owners) && k < PAGE_TABLE_INDICES && k != SLOT
    ensures PageVa(0, k) < WORDS && Walk(vm.ram, vm.cr3, PageVa(0, k)) == Some(k)
  {
    WalkPage(vm.ram, vm.cr3, |vm.blocks|, 0, k);
    assert E(vm.ram, vm.cr3, 0, k).present && E(vm.ram, vm.cr3, 0, k).frame == k;
  }

  /** A page of the first block, not the slot, translates to the frame. */
  ghost predicate HeadPageOf(vm: Vm, f: Frame) {
    exists k: nat | k < PAGE_TABLE_INDICES && k != SLOT ::
      PageVa(0, k) < WORDS && Walk(vm.ram, vm.cr3, PageVa(0, k)) == Some(f)
  }

  /** The table a growth adds shares its frame with a page of the first block exactly when the pool's lowest free
      page, before the call, is one of the frames paging_init maps, the slot's apart. */
  lemma TableShares(vm: Vm, heap: seq<Block>, owners: Owners)
    requires VmOk(vm, owners) && GrowthDue(vm)
    requires AllocPage(vm, heap).Done? && Sound(AllocPage(vm, heap).value.vm)
    ensures |vm.blocks| < MAX_BLOCKS
    ensures var r := AllocPage(vm, heap).value.vm;
            HeadPageOf(r, T(r.ram, r.cr3, |vm.blocks|))
            <==> NextFrame(vm.pool) < PAGE_TABLE_INDICES && NextFrame(vm.pool) != SLOT
  {
    hide AllocPage, Walk;
    var owners' := TableFrame(vm, heap, owners);
    var (r, f) := (AllocPage(vm, heap).value.vm, NextFrame(vm.pool));
    forall k: nat | k < PAGE_TABLE_INDICES && k != SLOT
      ensures PageVa(0, k) < WORDS && Walk(r.ram, r.cr3, PageVa(0, k)) == Some(k)
    {
      HeadWalks(r, owners', k);
    }
    if f < PAGE_TABLE_INDICES && f != SLOT {
      assert Walk(r.ram, r.cr3, PageVa(0, f)) == Some(f);
    }
  }

  /** An allocation that adds no block to the first one takes no frame. */
  lemma HeadTakesNone(vm: Vm, heap: seq<Block>, owners: Owners)
    requires VmOk(vm, owners) && AllocPage(vm, heap).Done? && Sound(AllocPage(vm, heap).value.vm)
    requires |AllocPage(vm, heap).value.vm.blocks| == 1
    ensures AllocPage(vm, heap).value.vm.pool == vm.pool
  {
    hide AllocPage, Ready;
    var owners' := AllocKeeps(vm, heap, owners);
    AllocIsTouch(vm, heap, owners);
    var (i, p) := Pick(vm.blocks);
    PageAtIs(vm.blocks[i], i, p);
    assert Extra(vm.blocks) == [];
    PlainMiddle(vm);
    TouchAt(WithTaken(vm, 0), heap, Marks(vm.blocks), owners, 0, p);
    assert E(vm.ram, vm.cr3, 0, p).present;
  }

  /** As long as there is one block the pool stays as boot left it. */
  lemma {:induction false} OneBlockPool(vm: Vm, ops: seq<Op>, owners: Owners)
    requires VmOk(vm, owners) && Run(vm, ops).Some? && Sound(Run(vm, ops).value) && StoresMiss(vm, ops)
    requires |Run(vm, ops).value.blocks| == 1
    ensures Run(vm, ops).value.pool == vm.pool
    decreases |ops|
  {
    hide AllocPage, FreePage, StoreAt, Misses, VmOk;
    if ops != [] {
      var vm' := Step(vm, ops[0]).value;
      RunSound(vm', ops[1..]);
      var owners' := StepKeeps(vm, owners, ops[0]);
      var last := RunKeeps(vm', owners', ops[1..]);
      OneBlockPool(vm', ops[1..], owners');
      OneStepPool(vm, ops[0], owners);
    }
  }

  lemma OneStepPool(vm: Vm, op: Op, owners: Owners)
    requires VmOk(vm, owners) && Step(vm, op).Some? && Sound(Step(vm, op).value)
    requires op.StoreOp? ==> Misses(vm, op.a)
    requires |Step(vm, op).value.blocks| <= 1
    ensures Step(vm, op).value.pool == vm.pool
  {
    hide AllocPage;
    match op {
      case AllocOp(heap) => var after := AllocKeeps(vm, heap, owners); HeadTakesNone(vm, heap, owners);
      case FreeOp(page) => FreeKeeps(vm, owners, page);
      case StoreOp(a, word) => StoreOk(vm, owners, a, word);
    }
  }

  /** The first growth after boot puts its table where the first page handed out is. */
  lemma FirstTableFromBoot(ram: Ram, pool: LivePool, ops: seq<Op>, vm: Vm, heap: seq<Block>)
    requires FreshPool(pool) && Init(ram, pool).Some?
    requires V2P(Init(ram, pool).value.pageTable) / PAGE_SIZE + 1 < PAGE_TABLE_INDICES
    requires Run(Boot(Init(ram, pool).value), ops) == Some(vm) && StoresMiss(Boot(Init(ram, pool).value), ops)
    requires |vm.blocks| == 1 && GrowthDue(vm)
    requires AllocPage(vm, heap).Done? && Sound(AllocPage(vm, heap).value.vm)
    ensures FindBlock(Boot(Init(ram, pool).value).blocks, 0) == 0
    ensures var (r, p) := (AllocPage(vm, heap).value.vm, Pick(Boot(Init(ram, pool).value).blocks).1);
            p < PAGE_TABLE_INDICES && PageVa(0, p) < WORDS
            && Walk(r.ram, r.cr3, PageVa(0, p)) == Some(T(r.ram, r.cr3, 1))
  {
    hide AllocPage, VmOk, Walk, Alloc;
    var boot := Boot(Init(ram, pool).value);
    var first := BootOk(ram, pool);
    AllocMonotone(vm, heap);
    var owners := RunKeeps(boot, first, ops);
    OneBlockPool(boot, ops, first);
    FirstFrameAliases(ram, pool);
    var owners' := TableFrame(vm, heap, owners);
    HeadWalks(AllocPage(vm, heap).value.vm, owners', Pick(boot.blocks).1);
  }

  // ---- freeing and allocating again ----

  /** Page k is taken and every page below it is: freed, it is the next one found. */
  ghost predicate Topmost(d: Desc, k: nat) {
    k < PAGE_TABLE_INDICES && forall q | 0 <= q <= k :: Taken(d.bitmap, q)
  }

  function WithFree(vm: Vm, free: int): Vm {
    if vm.blocks == [] || free < 0 then vm else
    var d := vm.blocks[0];
    vm.(blocks := vm.blocks[0 := Desc(d.bitmap, d.highWaterMark, free, d.firstPage, d.pageTable)])
  }

  lemma FreedIsNext(d: Desc, k: nat)
    requires DescOk(d) && k < PAGE_TABLE_INDICES && Taken(d.bitmap, k)
    ensures k < d.highWaterMark && Scan(Put(d.bitmap, k, false)) == if Scan(d.bitmap) < k then Scan(d.bitmap) else k
    ensures Topmost(d, k) <==> Scan(d.bitmap) > k
    ensures Put(Put(d.bitmap, k, false), k, true) == d.bitmap
  {
    var b := Put(d.bitmap, k, false);
    assert forall q | 0 <= q < k && q < Scan(d.bitmap) :: Taken(b, q);
    assert !Taken(b, k);
    BitmapsEqual(Put(b, k, true), d.bitmap);
  }

  /** Mapping stability: after a page of the first block is freed, the next allocation takes the lowest page free
      there, with no change to mappings or frames; it is the freed page exactly when every page below is taken,
      and then nothing has changed but free_pages, which is down by one. */
  lemma FreeThenAlloc(vm: Vm, owners: Owners, k: nat, heap: seq<Block>)
    requires VmOk(vm, owners) && k < PAGE_TABLE_INDICES && Taken(vm.blocks[0].bitmap, k) && vm.blocks[0].freePages > 0
    ensures PageVa(0, k) < WORDS && FreePage(vm, PageVa(0, k)).Released?
    ensures var (r, p) := (AllocPage(FreePage(vm, PageVa(0, k)).vm, heap), Scan(vm.blocks[0].bitmap));
            && r.Done? && r.value.addr == PageVa(0, if p < k then p else k) && r.value.heap == heap
            && r.value.vm.ram == vm.ram && r.value.vm.pool == vm.pool && r.value.vm.cr3 == vm.cr3
            && (r.value.addr == PageVa(0, k) <==> Topmost(vm.blocks[0], k))
            && (Topmost(vm.blocks[0], k) ==> r.value.vm == WithFree(vm, vm.blocks[0].freePages - 1))
  {
    hide AllocPage;
    FreeHitsOwnBit(vm, owners, 0, k);
    FreeKeeps(vm, owners, PageVa(0, k));
    assert DescOk(vm.blocks[0]);
    FreedIsNext(vm.blocks[0], k);
    var freed := FreePage(vm, PageVa(0, k)).vm;
    var p := Scan(freed.blocks[0].bitmap);
    PageAtIs(freed.blocks[0], 0, p);
    AllocHead(freed, heap, owners, p);
    if Topmost(vm.blocks[0], k) {
      assert WithTaken(freed, 0).blocks == WithFree(vm, vm.blocks[0].freePages - 1).blocks;
    }
  }

  lemma AllocHead(vm: Vm, heap: seq<Block>, owners: Owners, k: nat)
    requires VmOk(vm, owners) && FindBlock(vm.blocks, 0) == 0 && Pick(vm.blocks) == (0, k)
    requires k < vm.blocks[0].highWaterMark && k < PAGE_TABLE_INDICES
    ensures PageVa(0, k) < WORDS
    ensures AllocPage(vm, heap) == Done(Result(WithTaken(vm, 0), heap, PageVa(0, k)))
  {
    assert DescOk(vm.blocks[0]);
    TakeOk(vm.blocks[0]);
    PageAtIs(vm.blocks[0], 0, k);
    assert vm.blocks[0].highWaterMark < HIGH_WATER_THRESHOLD <==> |vm.blocks| == 1;
    assert Extra(vm.blocks) == [];
    AllocFold(vm, heap);
    PlainMiddle(vm);
    assert E(vm.ram, vm.cr3, 0, k).present;
    MapPageAt(vm.ram, vm.cr3, vm.pool, Marks(vm.blocks), owners, 0, k);
  }

  /** Freeing a page and getting it back. */
  function Round(vm: Vm, page: Addr, heap: seq<Block>): Option<Vm> {
    match FreePage(vm, page)
    case Released(freed) =>
      (match AllocPage(freed, heap)
       case Done(r) => if r.addr == page then Some(r.vm) else None
       case OutOfMemory => None
       case PageFault => None
       case NullDescriptor => None)
    case FieldHit(_) => None
    case LinkHit => None
    case InvalidPage => None
    case WildWrite => None
  }

  /** The address an allocation returns is that of the page it picks. */
  lemma AllocReturnsPick(vm: Vm, heap: seq<Block>)
    requires AllocPage(vm, heap).Done?
    ensures FindBlock(vm.blocks, 0) < |vm.blocks|
    ensures var (i, p) := Pick(vm.blocks); AllocPage(vm, heap).value.addr == PageAt(vm.blocks[i], p)
  {}

  /** With free_pages at zero the first block gives nothing back. */
  lemma NothingBack(vm: Vm, owners: Owners, k: nat, heap: seq<Block>)
    requires VmOk(vm, owners) && vm.blocks[0].freePages == 0 && AllocPage(vm, heap).Done? && k < PAGE_TABLE_INDICES
    ensures AllocPage(vm, heap).value.addr != PageVa(0, k)
  {
    hide AllocPage;
    AllocReturnsPick(vm, heap);
    var (i, p) := Pick(vm.blocks);
    PageAtIs(vm.blocks[i], i, p);
    PageVaInjective(i, p, 0, k);
  }

  lemma OneRound(vm: Vm, owners: Owners, k: nat, heap: seq<Block>)
    requires VmOk(vm, owners) && Topmost(vm.blocks[0], k) && PageVa(0, k) < WORDS
    ensures Round(vm, PageVa(0, k), heap) ==
            if vm.blocks[0].freePages == 0 then None else Some(WithFree(vm, vm.blocks[0].freePages - 1))
  {
    hide AllocPage;
    FreeHitsOwnBit(vm, owners, 0, k);
    if vm.blocks[0].freePages > 0 {
      FreeThenAlloc(vm, owners, k, heap);
    } else {
      FreeKeeps(vm, owners, PageVa(0, k));
      var freed := FreePage(vm, PageVa(0, k)).vm;
      if AllocPage(freed, heap).Done? { NothingBack(freed, owners, k, heap); }
    }
  }

  lemma RoundFrom(vm: Vm, owners: Owners, k: nat, heap: seq<Block>, f: nat)
    requires VmOk(vm, owners) && Topmost(vm.blocks[0], k) && PageVa(0, k) < WORDS
    requires f <= vm.blocks[0].freePages
    ensures Round(WithFree(vm, f), PageVa(0, k), heap) == if f == 0 then None else Some(WithFree(vm, f - 1))
  {
    hide Round;
    FewerPagesOk(vm, owners, f);
    OneRound(WithFree(vm, f), owners, k, heap);
    if f > 0 { WithFreeTwice(vm, f, f - 1); }
  }

  function Rounds(page: Addr, heap: seq<Block>): Vm -> Option<Vm> {
    (vm: Vm) => Round(vm, page, heap)
  }

  /** The state with so much left in the first block's free_pages and nothing else changed. */
  function Leaving(vm: Vm): int -> Vm {
    (free: int) => WithFree(vm, free)
  }

  lemma RoundsCountDown(vm: Vm, owners: Owners, k: nat, heap: seq<Block>, f: nat)
    requires VmOk(vm, owners) && Topmost(vm.blocks[0], k) && PageVa(0, k) < WORDS
    requires f <= vm.blocks[0].freePages
    ensures CountsDown(Rounds(PageVa(0, k), heap), Leaving(vm), f)
  {
    hide Round, WithFree, VmOk;
    RoundFrom(vm, owners, k, heap, f);
  }

  /** vmm_free_page never gives free_pages back: n rounds of freeing a page of the first block and getting it back
      succeed exactly when n is at most the block's free_pages, and from then on the page is lost. */
  lemma RoundsExactly(vm: Vm, owners: Owners, k: nat, heap: seq<Block>, n: nat)
    requires VmOk(vm, owners) && Topmost(vm.blocks[0], k) && PageVa(0, k) < WORDS
    ensures var free := vm.blocks[0].freePages;
            Iterate(Rounds(PageVa(0, k), heap), vm, n) == if n <= free then Some(Leaving(vm)(free - n)) else None
  {
    hide VmOk, Round, WithFree, CountsDown;
    OkBlocks(vm, owners);
    var free := vm.blocks[0].freePages;
    forall f: nat | f <= free ensures CountsDown(Rounds(PageVa(0, k), heap), Leaving(vm), f) {
      RoundsCountDown(vm, owners, k, heap, f);
    }
    LeavingAll(vm);
    Countdown(Rounds(PageVa(0, k), heap), Leaving(vm), vm, free, n);
  }

  lemma LeavingAll(vm: Vm)
    requires vm.blocks != []
    ensures Leaving(vm)(vm.blocks[0].freePages) == vm
  {
    assert WithFree(vm, vm.blocks[0].freePages).blocks == vm.blocks;
  }

  lemma WithFreeTwice(vm: Vm, a: nat, b: nat)
    ensures WithFree(WithFree(vm, a), b) == WithFree(vm, b)
  {
    assert WithFree(WithFree(vm, a), b).blocks == WithFree(vm, b).blocks;
  }

  lemma FewerPagesOk(vm: Vm, owners: Owners, free: nat)
    requires VmOk(vm, owners) && free <= vm.blocks[0].freePages
    ensures VmOk(WithFree(vm, free), owners)
  {
    var vm' := WithFree(vm, free);
    assert DescOk(vm.blocks[0]);
    assert Marks(vm'.blocks) == Marks(vm.blocks);
    forall j | 0 <= j < |vm'.blocks| ensures DescOk(vm'.blocks[j]) && vm'.blocks[j].firstPage == PageVa(j, 0) {
      assert DescOk(vm.blocks[j]);
    }
  }
}
