/** The memory stack as the kernel runs it: kernel/memory/paging.c and vmm.c over the physical allocator and the
    heap, with the block list, bitmaps and tables updated in place. */
module KernelMemory {
  import opened Words
  import opened Wrappers
  import opened PhysicalMemory
  import opened Paging
  import opened FreeList
  import opened HeapMemory
  import opened HeapRuns
  import opened KernelHeap
  import opened Vmm
  import VmmSteps
  import VmmFacts
  import VmmRuns
  import opened Userspace

  /** struct vmm_block_desc. */
  class VmmBlock {
    const bitmap: array<Word>
    var highWaterMark: nat
    var freePages: nat
    var firstPage: Addr
    var pageTable: Addr
    var nextVmmBlock: VmmBlock?

    /** A descriptor in memory with the given words in its bitmap. */
    constructor (contents: Bitmap)
      ensures fresh(bitmap) && bitmap.Length == VMM_BITMAP_SIZE && bitmap[..] == contents
      ensures highWaterMark == 0 && freePages == 0 && firstPage == 0 && pageTable == 0 && nextVmmBlock == null
    {
      bitmap := new Word[VMM_BITMAP_SIZE](i requires 0 <= i < VMM_BITMAP_SIZE => contents[i]);
      highWaterMark, freePages, firstPage, pageTable, nextVmmBlock := 0, 0, 0, 0, null;
    }

    ghost function Value(): Desc
      reads this, bitmap
      requires bitmap.Length == VMM_BITMAP_SIZE
    {
      Desc(bitmap[..], highWaterMark, freePages, firstPage, pageTable)
    }

    /** vmm_get_page_from_bitmap: finds the first clear bit and sets it. */
    method GetPageFromBitmap() returns (pageFound: bool, indexInBitmap: nat)
      requires bitmap.Length == VMM_BITMAP_SIZE
      modifies bitmap
      ensures pageFound <==> Scan(old(bitmap[..])) < PAGE_TABLE_INDICES
      ensures pageFound ==> indexInBitmap == Scan(old(bitmap[..]))
                            && bitmap[..] == Put(old(bitmap[..]), indexInBitmap, true)
      ensures !pageFound ==> bitmap[..] == old(bitmap[..])
    {
      hide LowestFree;
      pageFound, indexInBitmap := false, 0;
      ghost var was: Bitmap := bitmap[..];
      ghost var lowest := Scan(was);
      var i := 0;
      while i < VMM_BITMAP_SIZE && !pageFound
        invariant 0 <= i <= VMM_BITMAP_SIZE
        invariant !pageFound ==> bitmap[..] == was && 32 * i <= lowest
        invariant pageFound ==> indexInBitmap == lowest < PAGE_TABLE_INDICES && bitmap[..] == Put(was, lowest, true)
      {
        var pageBitmap := bitmap[i];
        if pageBitmap == ONES {
          assert forall q | 32 * i <= q < 32 * i + 32 :: Taken(was, q);
          i := i + 1;
          continue;
        }
        var j := 0;
        while j < 32 && !pageFound
          invariant 0 <= j <= 32
          invariant !pageFound ==> bitmap[..] == was && 32 * i + j <= lowest
          invariant pageFound ==> indexInBitmap == lowest < PAGE_TABLE_INDICES && bitmap[..] == Put(was, lowest, true)
        {
          assert Taken(was, 32 * i + j) == pageBitmap[j];
          if !pageBitmap[j] {
            assert lowest == 32 * i + j;
            indexInBitmap := 32 * i + j;
            bitmap[i] := pageBitmap[j := true];
            pageFound := true;
          }
          j := j + 1;
        }
        i := i + 1;
      }
    }

    /** vmm_init's bitmap: whole words by memset, then the low bits of the next one (LowBitsMacro). */
    method Reserve(firstFreePage: nat)
      requires bitmap.Length == VMM_BITMAP_SIZE && firstFreePage < PAGE_TABLE_INDICES
      modifies bitmap
      ensures bitmap[..] == ReservedOver(old(bitmap[..]), firstFreePage)
    {
      ghost var contents: Bitmap := bitmap[..];
      var lastFullyOccupiedBitmapIndex := firstFreePage / 32;
      var i := 0;
      while i < lastFullyOccupiedBitmapIndex
        invariant i <= lastFullyOccupiedBitmapIndex
        invariant forall j | 0 <= j < VMM_BITMAP_SIZE :: bitmap[j] == if j < i then ONES else contents[j]
      {
        bitmap[i] := ONES;
        i := i + 1;
      }
      var remainingPages := firstFreePage % 32;
      bitmap[lastFullyOccupiedBitmapIndex] := seq(32, j requires 0 <= j < 32 => j < remainingPages);
      assert forall j | 0 <= j <= lastFullyOccupiedBitmapIndex :: bitmap[j] == ReservedWord(firstFreePage, j);
      assert bitmap[..] == ReservedOver(contents, firstFreePage);
    }

    /** CLEAR_BIT on the word that stands so many words behind the bitmap. */
    method ClearField(word: nat, bit: nat)
      requires bitmap.Length == VMM_BITMAP_SIZE && word < FIELDS
      modifies this`highWaterMark, this`freePages, this`firstPage, this`pageTable
      ensures Value() == FieldCleared(old(Value()), word, bit)
    {
      match word {
        case 0 => highWaterMark := WithoutBit(highWaterMark, bit);
        case 1 => freePages := WithoutBit(freePages, bit);
        case 2 => firstPage := WithoutBit(firstPage, bit);
        case _ => pageTable := WithoutBit(pageTable, bit);
      }
    }

    /** The descriptor vmm_init fills in. */
    static method First(initialPageTable: Addr, contents: Bitmap) returns (initialVmmBlock: VmmBlock)
      requires V2P(initialPageTable) / PAGE_SIZE + 1 < PAGE_TABLE_INDICES
      ensures fresh(initialVmmBlock) && fresh(initialVmmBlock.bitmap)
      ensures initialVmmBlock.bitmap.Length == VMM_BITMAP_SIZE
      ensures initialVmmBlock.nextVmmBlock == null
      ensures initialVmmBlock.Value() == InitDescOver(contents, initialPageTable)
    {
      initialVmmBlock := new VmmBlock(contents);
      initialVmmBlock.firstPage := KERNEL_VIRT_BASE;
      initialVmmBlock.pageTable := initialPageTable;
      var firstFreePage := U32(V2P(initialPageTable) + PAGE_SIZE) / PAGE_SIZE;
      initialVmmBlock.highWaterMark := firstFreePage;
      initialVmmBlock.freePages := PAGE_TABLE_INDICES - firstFreePage;
      initialVmmBlock.Reserve(firstFreePage);
    }

    /** The descriptor vmm_add_vmm_block fills in: the next 4 MiB, their table at slot 1022 of this block. */
    method Next() returns (newVmmBlock: VmmBlock)
      ensures fresh(newVmmBlock) && fresh(newVmmBlock.bitmap) && newVmmBlock.bitmap.Length == VMM_BITMAP_SIZE
      ensures newVmmBlock.nextVmmBlock == null
      ensures newVmmBlock.Value() ==
              NewDesc(U32(firstPage + PAGE_TABLE_RANGE), U32(firstPage + HIGH_WATER_THRESHOLD * PAGE_SIZE))
    {
      newVmmBlock := new VmmBlock(NoPages());
      newVmmBlock.highWaterMark := 0;
      newVmmBlock.freePages := PAGE_TABLE_INDICES;
      newVmmBlock.pageTable := U32(firstPage + HIGH_WATER_THRESHOLD * PAGE_SIZE);
      newVmmBlock.firstPage := U32(firstPage + PAGE_TABLE_RANGE);
    }

    /** What vmm_alloc_page does to a block with pages left. */
    method TakePage() returns (pageFound: bool, vmmPage: Addr)
      requires bitmap.Length == VMM_BITMAP_SIZE && freePages > 0
      modifies this`highWaterMark, this`freePages, bitmap
      ensures var (d, p) := (old(Value()), Scan(old(bitmap[..])));
              if p < PAGE_TABLE_INDICES then pageFound && vmmPage == PageAt(d, p) && Value() == Take(d, p)
              else !pageFound && vmmPage == 0 && Value() == d
    {
      vmmPage := 0;
      var indexInBitmap;
      pageFound, indexInBitmap := GetPageFromBitmap();
      if pageFound {
        vmmPage := U32(firstPage + indexInBitmap * PAGE_SIZE);
        freePages := freePages - 1;
        var nextPage := indexInBitmap + 1;
        if nextPage >= highWaterMark {
          highWaterMark := nextPage;
        }
      }
    }
  }

  lemma HolderStep(descs: seq<Desc>, i: nat, a: Addr)
    requires i <= |descs|
    ensures Holder(descs[i..], a) ==
            if i == |descs| || InRangeAsWritten(descs[i], a) then 0 else 1 + Holder(descs[i + 1..], a)
  {
    assert i < |descs| ==> descs[i..][1..] == descs[i + 1..];
  }

  // ---- the heap as a request for a descriptor finds it ----

  /** The free list, or an empty one if the block that fits is to be handed out unsplit and the word stored in it
      is zero: kmalloc takes that for NULL and goes on to fetch a page. */
  function SeenBy(m: Words.Memory, free: seq<Block>): seq<Block> {
    var n := Rounded(DESC_BYTES);
    if FirstFit(free, n) < |free| && U32(Served(m, free, n).0) == 0 then [] else free
  }

  /** The free list a call leaves, from what it found and what its specification leaves. */
  function HeapFrom(seen: seq<Block>, free: seq<Block>, left: seq<Block>): seq<Block> {
    if seen == free then left else free
  }

  /** A descriptor comes from the block that fits, or a page is fetched and NULL comes back. */
  lemma AddBlockSeen(vm: Vm, m: Words.Memory, free: seq<Block>, i: nat)
    requires vm.growing && InMemory(free) && i < |vm.blocks|
    ensures var g := Served(m, free, Rounded(DESC_BYTES)); U32(g.0) == 0 ==> g.1 == m && g.2 == free
    ensures var (g, seen) := (Served(m, free, Rounded(DESC_BYTES)), SeenBy(m, free));
            if U32(g.0) != 0 then
              seen == free && AddBlock(vm, seen, i) == Vmm.Extend(vm, g.2, vm.blocks[i], VmmSteps.DescriptorAddr(free))
            else
              AddBlock(vm, seen, i) == if AllocPage(vm, seen).Done? then NullDescriptor
                                       else AllocPage(vm, seen).PropagateFailure()
  {
    hide AllocPage, Vmm.Extend, InMemory, FirstFit;
    var k := FirstFit(free, Rounded(DESC_BYTES));
    VmmFacts.FitServes(free);
    if k < |free| {
      InMemoryAt(free, k);
      VmmFacts.NotAtTheTop(free[k], Rounded(DESC_BYTES));
    }
    NoneFitsNone();
  }

  lemma NoneFitsNone()
    ensures FirstFit([], Rounded(DESC_BYTES)) == 0
  {}

  /** Before there is a block to take a page from, a descriptor comes from the heap or not at all. */
  lemma FirstNeedsHeap(vm: Vm, m: Words.Memory, free: seq<Block>)
    requires vm.blocks == [] && InMemory(free)
    ensures var g := Served(m, free, Rounded(DESC_BYTES)); U32(g.0) == 0 ==> g.1 == m && g.2 == free
    ensures var (g, seen) := (Served(m, free, Rounded(DESC_BYTES)), SeenBy(m, free));
            && AllocPage(vm, seen) == OutOfMemory
            && (if U32(g.0) != 0 then
                  && seen == free
                  && KmallocVm(vm, seen, DESC_BYTES) == Done(Result(vm, g.2, VmmSteps.DescriptorAddr(free)))
                else KmallocVm(vm, seen, DESC_BYTES) == OutOfMemory)
  {
    hide InMemory, FirstFit;
    var k := FirstFit(free, Rounded(DESC_BYTES));
    if k < |free| {
      InMemoryAt(free, k);
      VmmFacts.NotAtTheTop(free[k], Rounded(DESC_BYTES));
    }
    NoneFitsNone();
  }

  /** The fresh arena serves the first descriptor: 160 bytes off its high end. */
  lemma FreshHeapServes(vm: Vm, m: Words.Memory, arena: nat)
    requires vm.blocks == [] && 0 < arena && arena + ARENA <= WORDS && arena % 8 == 0
    ensures SeenBy(m, Arena(arena)) == Arena(arena)
    ensures KmallocVm(vm, Arena(arena), DESC_BYTES)
            == Done(Result(vm, [Block(arena, ARENA - 160)], arena + ARENA - 160 + 8))
  {
    assert SplitAt(Arena(arena), 0, Rounded(DESC_BYTES)) == [Block(arena, ARENA - 160)];
  }

  /** How vmm_free_page ends: it cleared a bit of the bitmap or of a field behind it, panicked, or would clear a bit
      of the link or write past the descriptor. */
  datatype FreedPage = PageFreed | FieldBitCleared | LinkBitCleared | InvalidPagePanic | WriteBeyondDescriptor

  /** The objects of a list are all different, and all among `repr`. */
  ghost predicate Apart(bs: seq<VmmBlock>, repr: set<object>, other: array<Word>) {
    && (forall i | 0 <= i < |bs| :: bs[i].bitmap.Length == VMM_BITMAP_SIZE && bs[i].bitmap != other)
    && (forall i | 0 <= i < |bs| :: bs[i] in repr && bs[i].bitmap in repr)
    && (forall i, j | 0 <= i < j < |bs| :: bs[i] != bs[j] && bs[i].bitmap != bs[j].bitmap)
  }

  /** Each descriptor points to the next, the last one to NULL. */
  ghost predicate Chained(bs: seq<VmmBlock>)
    reads bs
  {
    forall i | 0 <= i < |bs| :: bs[i].nextVmmBlock == if i + 1 < |bs| then bs[i + 1] else null
  }

  // ---- vmm_alloc_page step by step ----

  /** What follows the scan: growth when it is due, then the mapping. */
  function Finish(vm: Vm, heap: seq<Block>, i: nat, page: Addr): Outcome<Result>
    requires i < |vm.blocks|
  {
    if Grows(vm, i) then
      var r :- AddBlock(WithFlag(vm, true), heap, i);
      Touch(WithFlag(r.vm, false), r.heap, i, page)
    else Touch(vm, heap, i, page)
  }

  lemma AllocFinishes(vm: Vm, heap: seq<Block>)
    ensures var i := FindBlock(vm.blocks, 0);
            AllocPage(vm, heap) ==
              if i == |vm.blocks| || PageAt(vm.blocks[i], Scan(vm.blocks[i].bitmap)) == 0 then OutOfMemory
              else Finish(WithTaken(vm, i), heap, i, PageAt(vm.blocks[i], Scan(vm.blocks[i].bitmap)))
  {}

  /** An allocation leaves the heap as it was, or takes a descriptor by a split. */
  ghost predicate TookDescriptor(heap: seq<Block>, heap': seq<Block>) {
    var (k, n) := (FirstFit(heap, Rounded(DESC_BYTES)), Rounded(DESC_BYTES));
    heap' == heap || (k < |heap| && Splits(heap[k], n) && heap' == SplitAt(heap, k, n))
  }

  lemma AddTakesDescriptor(vm: Vm, heap: seq<Block>, i: nat)
    requires vm.growing && i < |vm.blocks| && AddBlock(vm, heap, i).Done?
    ensures TookDescriptor(heap, AddBlock(vm, heap, i).value.heap)
  {
    var r := KmallocVm(vm, heap, DESC_BYTES).value;
    assert AddBlock(vm, heap, i) == Extend(r.vm, r.heap, r.vm.blocks[i], r.addr);
  }

  lemma AllocTakesDescriptor(vm: Vm, heap: seq<Block>)
    requires AllocPage(vm, heap).Done?
    ensures TookDescriptor(heap, AllocPage(vm, heap).value.heap)
  {
    AllocFinishes(vm, heap);
    var i := FindBlock(vm.blocks, 0);
    var taken := WithTaken(vm, i);
    if Grows(taken, i) {
      AddTakesDescriptor(WithFlag(taken, true), heap, i);
    }
  }

  lemma SeenTakesDescriptor(vm: Vm, h: Kmalloc, free: seq<Block>, seen: seq<Block>)
    requires AllocPage(vm, seen).Done? && h.free == HeapFrom(seen, free, AllocPage(vm, seen).value.heap)
    ensures TookDescriptor(free, h.free)
  {
    hide AllocPage;
    if seen == free { AllocTakesDescriptor(vm, free); }
  }

  /** A page that lay beyond the list still joins it after a descriptor was taken. */
  lemma StillJoins(h: Kmalloc, heap: seq<Block>, page: nat)
    requires Canonical(heap) && heap != [] && TookDescriptor(heap, h.free) && h.blockListTail == Last(heap)
    requires BeyondList(heap, h.blockListTail, page) && Canonical(h.free)
    ensures h.Beyond(page) && AppendAt(h.free, h.blockListTail, page) == h.free + [Block(page, PAGE_SIZE)]
  {
    if h.free != heap {
      SplitCanonical(heap, FirstFit(heap, Rounded(DESC_BYTES)), Rounded(DESC_BYTES));
    }
    AppendKeepsAll(h.free, h.blockListTail, page);
  }

  /** The kernel's memory globals. */
  class Memory {
    var ram: Ram
    var cr3: Frame
    var kernelPageDirectory: Addr
    const pmm: Pmm
    const heap: Kmalloc
    var vmmBlockListHead: VmmBlock?
    var vmmBlockListTail: VmmBlock?
    var allocatingNewBlock: bool

    ghost var blocks: seq<VmmBlock>
    ghost var repr: set<object>

    /** The pointers make up the list `blocks`. */
    ghost predicate Linked()
      reads this, repr
    {
      && {this, pmm, pmm.bitmap, heap} <= repr && pmm.Valid()
      && Apart(blocks, repr, pmm.bitmap) && Chained(blocks)
      && vmmBlockListHead == (if blocks == [] then null else blocks[0])
      && vmmBlockListTail == (if blocks == [] then null else blocks[|blocks| - 1])
    }

    ghost predicate Valid()
      reads this, repr
    {
      Linked() && heap.Valid()
    }

    /** What the descriptors say. */
    ghost function Descs(): (ds: seq<Desc>)
      reads this, repr
      requires Apart(blocks, repr, pmm.bitmap)
      ensures |ds| == |blocks| && forall i | 0 <= i < |blocks| :: ds[i] == blocks[i].Value()
    {
      seq(|blocks|, i requires 0 <= i < |blocks| && Apart(blocks, repr, pmm.bitmap) reads this, repr =>
            blocks[i].Value())
    }

    ghost function State(): Vm
      reads this, repr
      requires Linked()
    {
      Vm(ram, cr3, kernelPageDirectory, pmm.State(), Descs(), allocatingNewBlock)
    }

    /** What a request for a descriptor finds. */
    ghost function Seen(): seq<Block>
      reads this, heap
    {
      SeenBy(heap.memory, heap.free)
    }

    /** How a call that found `seen` in a heap with list `free` ended, against what its specification says. */
    ghost predicate Left(spec: Outcome<Result>, out: Outcome<Addr>, seen: seq<Block>, free: seq<Block>)
      reads this, repr, heap
    {
      && spec.EndsAs(out)
      && (spec.Done? ==> Valid() && State() == spec.value.vm && heap.free == HeapFrom(seen, free, spec.value.heap))
    }

    /** The loop variable has reached block i of the list, or its end. */
    ghost predicate At(b: VmmBlock?, i: nat)
      reads this
    {
      i <= |blocks| && b == if i < |blocks| then blocks[i] else null
    }

    lemma NextAt(b: VmmBlock, i: nat)
      requires Linked() && At(b, i)
      ensures i < |blocks| && At(b.nextVmmBlock, i + 1)
    {}

    /** The zeroed globals, pmm_init and kmalloc_init. */
    constructor (physical: Ram, kernelEnd: Addr, memoryEnd: Addr, arena: nat)
      requires Pool(FirstPage(kernelEnd), PoolBytes(kernelEnd, memoryEnd) / PAGE_SIZE,
                    seq(BITMAP_WORDS, _ => ZERO), false).Valid()
      requires 0 < arena && arena % PAGE_SIZE == 0 && arena + ARENA <= WORDS
      ensures Valid() && fresh(repr) && blocks == [] && ram == physical
      ensures pmm.State() == Pool(FirstPage(kernelEnd), PoolBytes(kernelEnd, memoryEnd) / PAGE_SIZE,
                                  seq(BITMAP_WORDS, _ => ZERO), false)
      ensures heap.State() == Initial(arena) && !allocatingNewBlock
    {
      ram, cr3, kernelPageDirectory := physical, 0, 0;
      pmm := new Pmm.InitStruct(kernelEnd, memoryEnd);
      heap := new Kmalloc(arena);
      vmmBlockListHead, vmmBlockListTail, allocatingNewBlock := null, null, false;
      blocks := [];
      new;
      repr := {this, pmm, pmm.bitmap, heap};
    }

    // ---- paging.c ----

    method PagingAddPageTable(ptPhysAddr: Addr, ptVirtAddr: Addr) returns (ok: bool)
      modifies this`ram
      ensures match AddPageTable(old(ram), cr3, kernelPageDirectory, ptPhysAddr, ptVirtAddr)
              case None => !ok && ram == old(ram)
              case Some(ram') => ok && ram == ram'
    {
      var pdEntry := Entry(true, true, false, false, FrameOf(ptPhysAddr));
      var pageTableAddress := DirIndex(ptVirtAddr);
      match Walk(ram, cr3, kernelPageDirectory)
      case None => ok := false;
      case Some(f) =>
        ram := WithEntry(ram, f, pageTableAddress, pdEntry);
        ok := true;
    }

    method PagingIsVirtualPagePresent(pageTable: Addr, virtPage: Addr) returns (present: Option<bool>)
      ensures present == IsPresent(ram, cr3, pageTable, virtPage)
    {
      var ptIndex := TableIndex(virtPage);
      match Load(ram, cr3, pageTable, ptIndex)
      case None => present := None;
      case Some(ptEntry) => present := Some(ptEntry.present);
    }

    method PagingMapVirtualPage(pageTable: Addr, virtPage: Addr) returns (physPage: Option<Addr>)
      requires pmm.Valid()
      modifies this`ram, pmm`warned, pmm.bitmap
      ensures pmm.Valid()
      ensures match MapPage(old(ram), cr3, old(pmm.State()), pageTable, virtPage)
              case None => physPage == None
              case Some(m) => physPage == Some(m.phys) && ram == m.ram && pmm.State() == m.pool
    {
      var ptIndex := TableIndex(virtPage);
      var phys := pmm.AllocPage();
      match Walk(ram, cr3, pageTable)
      case None => physPage := None;
      case Some(f) =>
        var ptEntry := ram[f][ptIndex].(frame := FrameOf(phys));
        ptEntry := ptEntry.(present := true);
        ptEntry := ptEntry.(rw := true);
        ram := WithEntry(ram, f, ptIndex, ptEntry);
        physPage := Some(phys);
    }

    /** paging_init's loop: the first 4 MiB, mapped to themselves by the table in frame t. */
    method MapFirstPages(t: Frame)
      modifies this`ram
      ensures ram == WithTable(old(ram), t, FirstTable())
    {
      var i, kernelFrame := 0, 0;
      while i < PAGE_TABLE_INDICES
        invariant i <= PAGE_TABLE_INDICES && kernelFrame == i * PAGE_SIZE
        invariant forall f: Frame | f != t :: ram[f] == old(ram)[f]
        invariant forall k | 0 <= k < i :: ram[t][k] == FirstTable()[k]
      {
        var entry := Entry(true, true, false, true, FrameOf(PageAlign(kernelFrame)));
        var pageTableIndex := TableIndex(kernelFrame);
        assert pageTableIndex == i;
        ram := WithEntry(ram, t, pageTableIndex, entry);
        kernelFrame, i := kernelFrame + PAGE_SIZE, i + 1;
      }
      assert ram[t] == FirstTable();
    }

    /** paging_init, while the boot tables still translate; None is a panic or a page fault. */
    method PagingInit(kernelStart: Addr) returns (pageTable: Option<Addr>)
      requires pmm.Valid() && DirIndex(kernelStart) == KERNEL_DIR
      modifies this`ram, this`cr3, this`kernelPageDirectory, pmm`warned, pmm.bitmap
      ensures pmm.Valid()
      ensures match Init(old(ram), old(pmm.State()))
              case None => pageTable == None
              case Some(b) =>
                && pageTable == Some(b.pageTable) && ram == b.ram && pmm.State() == b.pool
                && cr3 == b.cr3 && kernelPageDirectory == b.directory
    {
      var phys := pmm.AllocPage();
      kernelPageDirectory := P2V(phys);
      phys := pmm.AllocPage();
      var table := P2V(phys);
      if kernelPageDirectory == 0 || table == 0 || !BootMaps(kernelPageDirectory) || !BootMaps(table) {
        return None;
      }
      var d, t := TableIndex(kernelPageDirectory), TableIndex(table);
      ram := WithTable(ram, d, Cleared());
      ram := WithTable(ram, t, Cleared());
      MapFirstPages(t);
      var pdEntry := Entry(true, true, false, true, FrameOf(V2P(table)));
      ram := WithEntry(ram, d, DirIndex(kernelStart), pdEntry);
      cr3 := FrameOf(V2P(kernelPageDirectory));
      return Some(table);
    }

    // ---- vmm.c ----

    /** One round of vmm_alloc_page's scan. */
    method TakeFrom(vmmBlock: VmmBlock, ghost i: nat) returns (pageFound: bool, vmmPage: Addr)
      requires Linked() && i < |blocks| && vmmBlock == blocks[i] && vmmBlock.freePages > 0
      modifies vmmBlock`highWaterMark, vmmBlock`freePages, vmmBlock.bitmap
      ensures Linked()
      ensures var was := old(State()); var p := Scan(was.blocks[i].bitmap);
              if p < PAGE_TABLE_INDICES
              then pageFound && vmmPage == PageAt(was.blocks[i], p) && State() == WithTaken(was, i)
              else !pageFound && vmmPage == 0 && State() == was
    {
      ghost var was := State();
      assert was.blocks[i] == vmmBlock.Value();
      pageFound, vmmPage := vmmBlock.TakePage();
      forall j | 0 <= j < |blocks| && j != i ensures blocks[j].Value() == was.blocks[j] {
        assert blocks[j] != vmmBlock && blocks[j].bitmap != vmmBlock.bitmap;
      }
      assert Descs() == was.blocks[i := vmmBlock.Value()];
    }

    /** vmm_alloc_page's scan: the page taken, and the block it was taken from. */
    method TakePage() returns (vmmBlock: VmmBlock?, vmmPage: Addr, ghost i: nat)
      requires Linked()
      modifies repr - {this, pmm, pmm.bitmap, heap}
      ensures Linked() && i == FindBlock(old(State()).blocks, 0)
      ensures i == |blocks| ==> vmmBlock == null && vmmPage == 0 && State() == old(State())
      ensures i < |blocks| ==>
                var was := old(State());
                && vmmBlock == blocks[i] && vmmPage == PageAt(was.blocks[i], Scan(was.blocks[i].bitmap))
                && State() == WithTaken(was, i)
    {
      vmmPage := 0;
      vmmBlock := vmmBlockListHead;
      i := 0;
      ghost var was := State();
      while vmmBlock != null
        invariant Linked() && At(vmmBlock, i) && State() == was && vmmPage == 0
        invariant FindBlock(was.blocks, 0) == FindBlock(was.blocks, i)
        decreases |blocks| - i
      {
        assert was.blocks[i] == vmmBlock.Value();
        NextAt(vmmBlock, i);
        if vmmBlock.freePages == 0 {
          vmmBlock := vmmBlock.nextVmmBlock;
          i := i + 1;
          continue;
        }
        var pageFound;
        pageFound, vmmPage := TakeFrom(vmmBlock, i);
        if pageFound {
          return;
        }
        NextAt(vmmBlock, i);
        vmmBlock := vmmBlock.nextVmmBlock;
        i := i + 1;
      }
    }

    /** The end of vmm_alloc_page: the page is mapped unless it is present. */
    method MapIfAbsent(vmmBlock: VmmBlock, vmmPage: Addr, ghost i: nat, ghost h: seq<Block>)
      returns (out: Outcome<Addr>)
      requires Valid() && i < |blocks| && vmmBlock == blocks[i]
      modifies this`ram, pmm`warned, pmm.bitmap
      ensures var spec := Touch(old(State()), h, i, vmmPage);
              && spec.EndsAs(out)
              && (spec.Done? ==> out == Done(vmmPage) && Valid() && spec.value == Result(State(), h, vmmPage))
    {
      hide MapPage, IsPresent;
      ghost var was := State();
      assert was.blocks[i] == vmmBlock.Value();
      var isVmmPageMapped := PagingIsVirtualPagePresent(vmmBlock.pageTable, vmmPage);
      if isVmmPageMapped == None {
        return PageFault;
      }
      out := Done(vmmPage);
      if !isVmmPageMapped.value {
        var phys := PagingMapVirtualPage(vmmBlock.pageTable, vmmPage);
        if phys == None {
          return PageFault;
        }
        assert Linked() && State() == was.(ram := ram, pool := pmm.State());
      }
    }

    /** The end of vmm_add_vmm_block: the descriptor goes to the end of the list. */
    method Append(newVmmBlock: VmmBlock)
      requires Valid() && blocks != [] && newVmmBlock !in repr && newVmmBlock.nextVmmBlock == null
      requires newVmmBlock.bitmap.Length == VMM_BITMAP_SIZE && newVmmBlock.bitmap !in repr
      modifies this`vmmBlockListTail, this`blocks, this`repr, vmmBlockListTail`nextVmmBlock
      ensures Valid() && blocks == old(blocks) + [newVmmBlock] && repr == old(repr) + {newVmmBlock, newVmmBlock.bitmap}
      ensures State() == old(State()).(blocks := old(State()).blocks + [newVmmBlock.Value()])
    {
      ghost var was := State();
      vmmBlockListTail.nextVmmBlock := newVmmBlock;
      vmmBlockListTail := newVmmBlock;
      blocks := blocks + [newVmmBlock];
      repr := repr + {newVmmBlock, newVmmBlock.bitmap};
      assert Descs() == was.blocks + [newVmmBlock.Value()];
    }

    /** The paging steps of vmm_add_vmm_block: the new block's table is mapped, entered in the directory, cleared. */
    method NewTable(table: Addr, newTable: Addr, firstPage: Addr, ghost vm: Vm, ghost d: Desc) returns (ok: bool)
      requires Linked() && vm == State()
      requires table == d.pageTable && NewDesc(firstPage, newTable) ==
               NewDesc(U32(d.firstPage + PAGE_TABLE_RANGE), U32(d.firstPage + HIGH_WATER_THRESHOLD * PAGE_SIZE))
      modifies this`ram, pmm`warned, pmm.bitmap
      ensures Linked() && State() == vm.(ram := ram, pool := pmm.State())
      ensures forall heap, a :: Vmm.Extend(vm, heap, d, a) ==
                if ok then Done(Result(State().(blocks := vm.blocks + [NewDesc(firstPage, newTable)]), heap, a))
                else PageFault
    {
      hide Alloc, Walk, MapPage, AddPageTable;
      var physAddr := PagingMapVirtualPage(table, newTable);
      if physAddr == None {
        return false;
      }
      ok := PagingAddPageTable(physAddr.value, firstPage);
      if ok {
        var cleared := StoreTable(ram, cr3, newTable, Cleared());
        if cleared == None {
          return false;
        }
        ram := cleared.value;
      }
      assert Linked() && Descs() == vm.blocks;
    }

    /** vmm_add_vmm_block once kmalloc has given it a descriptor. */
    method Extend(vmmBlock: VmmBlock, ghost i: nat, descriptor: Addr, ghost a: Addr) returns (out: Outcome<Addr>)
      requires Valid() && i < |blocks| && vmmBlock == blocks[i]
      modifies this`ram, this`blocks, this`repr, this`vmmBlockListTail, pmm`warned, pmm.bitmap
      modifies vmmBlockListTail`nextVmmBlock
      ensures var was := old(State()); Left(Vmm.Extend(was, heap.free, was.blocks[i], a), out, heap.free, heap.free)
      ensures out.Done? ==> old(blocks) <= blocks && fresh(repr - old(repr))
    {
      hide Vmm.Extend, Canonical, InMemory, Path, Chained, SeenBy;
      ghost var was := State();
      assert was.blocks[i] == vmmBlock.Value();
      var newVmmBlock := vmmBlock.Next();
      var ok := NewTable(vmmBlock.pageTable, newVmmBlock.pageTable, newVmmBlock.firstPage, was, was.blocks[i]);
      if !ok {
        return PageFault;
      }
      Append(newVmmBlock);
      return Done(descriptor);
    }

    // ---- vmm_alloc_page, vmm_add_vmm_block and kmalloc ----

    /** How a kmalloc that fetched a page ended; the heap keeps its shape if the page could join the list. */
    ghost predicate Fetched(spec: Outcome<Result>, out: Outcome<Addr>, seen: seq<Block>, free: seq<Block>)
      reads this, repr, heap
    {
      && spec.EndsAs(out)
      && (spec.Done? ==>
            && out.value == 0 && Linked() && State() == spec.value.vm
            && (heap.blockListTail == Last(free) && BeyondList(free, heap.blockListTail, spec.value.addr) ==>
                  && heap.Valid()
                  && heap.free == HeapFrom(seen, free, spec.value.heap) + [Block(spec.value.addr, PAGE_SIZE)]))
    }

    method VmmAddVmmBlock(vmmBlock: VmmBlock, ghost i: nat) returns (out: Outcome<Addr>)
      requires Valid() && allocatingNewBlock && i < |blocks| && vmmBlock == blocks[i]
      modifies repr
      ensures Left(AddBlock(old(State()), old(Seen()), i), out, old(Seen()), old(heap.free))
      ensures out.Done? ==> old(blocks) <= blocks && fresh(repr - old(repr))
      ensures heap.blockListTail == old(heap.blockListTail)
      decreases 0, 4
    {
      hide AllocPage, AddBlock, Vmm.Extend, Canonical, InMemory, Path, FirstFit, Chained, SeenBy, Served;
      AddBlockSeen(State(), heap.memory, heap.free, i);
      ghost var a := VmmSteps.DescriptorAddr(heap.free);
      var newVmmBlock := Kmalloc(DESC_BYTES);
      if !newVmmBlock.Done? {
        return newVmmBlock;
      }
      if newVmmBlock.value == 0 {
        return NullDescriptor;
      }
      out := Extend(vmmBlock, i, newVmmBlock.value, a);
    }

    method VmmAllocPage() returns (out: Outcome<Addr>)
      requires Valid()
      modifies repr
      ensures var spec := AllocPage(old(State()), old(Seen()));
              Left(spec, out, old(Seen()), old(heap.free)) && (spec.Done? ==> out.value == spec.value.addr)
      ensures out.Done? ==> old(blocks) <= blocks && fresh(repr - old(repr))
      ensures heap.blockListTail == old(heap.blockListTail)
      decreases if allocatingNewBlock then 0 else 1, 1
    {
      hide AllocPage, Finish, Canonical, InMemory, Path, FirstFit, Chained, SeenBy;
      AllocFinishes(State(), Seen());
      var vmmBlock, vmmPage, i := TakePage();
      if vmmPage == 0 {
        return OutOfMemory;
      }
      out := GrowAndMap(vmmBlock, vmmPage, i);
    }

    /** vmm_alloc_page after its scan. */
    method GrowAndMap(vmmBlock: VmmBlock, vmmPage: Addr, ghost i: nat) returns (out: Outcome<Addr>)
      requires Valid() && i < |blocks| && vmmBlock == blocks[i]
      modifies repr
      ensures var spec := Finish(old(State()), old(Seen()), i, vmmPage);
              Left(spec, out, old(Seen()), old(heap.free)) && (spec.Done? ==> out.value == vmmPage == spec.value.addr)
      ensures out.Done? ==> old(blocks) <= blocks && fresh(repr - old(repr))
      ensures heap.blockListTail == old(heap.blockListTail)
      decreases if allocatingNewBlock then 0 else 1, 0
    {
      hide AllocPage, AddBlock, Touch, KmallocVm, Canonical, InMemory, Path, FirstFit, Chained, SeenBy;
      ghost var (taken, h) := (State(), Seen());
      assert taken.blocks[i] == vmmBlock.Value();
      NextAt(vmmBlock, i);
      if vmmBlock.highWaterMark == HIGH_WATER_THRESHOLD && vmmBlock.nextVmmBlock == null && !allocatingNewBlock {
        assert Grows(taken, i);
        out := Grow(vmmBlock, i);
        if !out.Done? {
          return;
        }
        h := AddBlock(WithFlag(taken, true), h, i).value.heap;
      }
      out := MapIfAbsent(vmmBlock, vmmPage, i, h);
    }

    method SetAllocating(flag: bool)
      requires Valid()
      modifies this`allocatingNewBlock
      ensures Valid() && State() == WithFlag(old(State()), flag) && allocatingNewBlock == flag
    {
      ghost var was := State();
      allocatingNewBlock := flag;
      assert Descs() == was.blocks;
    }

    /** The growth step of vmm_alloc_page, under the allocating_new_block flag. */
    method Grow(vmmBlock: VmmBlock, ghost i: nat) returns (out: Outcome<Addr>)
      requires Valid() && !allocatingNewBlock && i < |blocks| && vmmBlock == blocks[i]
      modifies repr
      ensures var spec := AddBlock(WithFlag(old(State()), true), old(Seen()), i);
              && spec.EndsAs(out)
              && (spec.Done? ==> && Valid() && State() == WithFlag(spec.value.vm, false)
                                 && heap.free == HeapFrom(old(Seen()), old(heap.free), spec.value.heap))
      ensures out.Done? ==> old(blocks) <= blocks && fresh(repr - old(repr))
      ensures heap.blockListTail == old(heap.blockListTail)
      decreases 0, 5
    {
      hide AllocPage, AddBlock, Touch, KmallocVm, Canonical, InMemory, Path, FirstFit, Chained;
      SetAllocating(true);
      out := VmmAddVmmBlock(vmmBlock, i);
      if out.Done? {
        SetAllocating(false);
      }
    }

    /** kmalloc. What it gets from the list is returned, unless it is NULL: then it fetches a page, links it after
        block_list_tail and returns NULL. */
    method Kmalloc(size: Addr) returns (out: Outcome<Addr>)
      requires Valid()
      modifies repr
      ensures var g := Served(old(heap.memory), old(heap.free), Rounded(size));
              var seen := SeenBy(g.1, g.2);
              if size == 0 then
                out == Done(0) && Valid() && State() == old(State()) && heap.State() == old(heap.State())
              else if U32(g.0) != 0 then
                && out == Done(U32(g.0)) && Valid() && State() == old(State())
                && heap.memory == g.1 && heap.free == g.2
              else Fetched(AllocPage(old(State()), seen), out, seen, g.2)
      ensures out.Done? ==> old(blocks) <= blocks && fresh(repr - old(repr))
      ensures heap.blockListTail == old(heap.blockListTail)
      decreases if allocatingNewBlock then 0 else 1, 3
    {
      hide AllocPage, Canonical, InMemory, Path, Chained, Served, SeenBy;
      if size == 0 {
        return Done(0);
      }
      ghost var was := State();
      var allocPtr := heap.FitBlock(size);
      assert Linked() && State() == was;
      if U32(allocPtr) != 0 {
        return Done(U32(allocPtr));
      }
      out := Fetch();
    }

    /** kmalloc's new page goes on the free list. */
    method Join(page: Addr, ghost free: seq<Block>, ghost joins: bool)
      requires Valid() && TookDescriptor(free, heap.free) && Canonical(free) && free != []
      requires joins ==> heap.blockListTail == Last(free) && BeyondList(free, heap.blockListTail, page)
      modifies heap`memory, heap`free
      ensures Linked() && State() == old(State())
      ensures joins ==> heap.Valid() && heap.free == old(heap.free) + [Block(page, PAGE_SIZE)]
    {
      ghost var was := State();
      if joins {
        StillJoins(heap, free, page);
      }
      heap.AppendPage(page);
      assert Descs() == was.blocks;
    }

    /** kmalloc's page request. */
    method Fetch() returns (out: Outcome<Addr>)
      requires Valid()
      modifies repr
      ensures Fetched(AllocPage(old(State()), old(Seen())), out, old(Seen()), old(heap.free))
      ensures out.Done? ==> old(blocks) <= blocks && fresh(repr - old(repr))
      ensures heap.blockListTail == old(heap.blockListTail)
      decreases if allocatingNewBlock then 0 else 1, 2
    {
      hide AllocPage, Canonical, InMemory, Path, Chained, SeenBy;
      ghost var (was, free, seen) := (State(), heap.free, Seen());
      ghost var spec := AllocPage(was, seen);
      ghost var joins := spec.Done? && heap.blockListTail == Last(free)
                         && BeyondList(free, heap.blockListTail, spec.value.addr);
      out := VmmAllocPage();
      if out.Done? {
        SeenTakesDescriptor(was, heap, free, seen);
        Join(out.value, free, joins);
        out := Done(0);
      }
    }

    // ---- vmm_free_page and vmm_get_phys_addr ----

    /** The loop both functions run: the block whose range test accepts the address, NULL past the last one. */
    method HolderOf(a: Addr) returns (vmmBlock: VmmBlock?, ghost i: nat)
      requires Linked()
      ensures i == Holder(State().blocks, a) && At(vmmBlock, i)
    {
      hide Holder;
      vmmBlock := vmmBlockListHead;
      i := 0;
      ghost var descs := Descs();
      assert descs[0..] == descs;
      while vmmBlock != null
        invariant At(vmmBlock, i) && Holder(descs, a) == i + Holder(descs[i..], a)
        decreases |blocks| - i
      {
        NextAt(vmmBlock, i);
        HolderStep(descs, i, a);
        assert descs[i] == vmmBlock.Value();
        var pageTableBasePage := vmmBlock.firstPage;
        var pageTableLastPage := U32(vmmBlock.firstPage + PAGE_TABLE_RANGE - PAGE_SIZE);
        if a >= pageTableBasePage || a <= pageTableLastPage {
          break;
        }
        vmmBlock := vmmBlock.nextVmmBlock;
        i := i + 1;
      }
      HolderStep(descs, i, a);
    }

    method VmmFreePage(page: Addr) returns (outcome: FreedPage)
      requires Linked()
      modifies repr - {this, pmm, pmm.bitmap, heap}
      ensures match FreePage(old(State()), page)
              case Released(vm) => outcome == PageFreed && Linked() && State() == vm
              case FieldHit(vm) => outcome == FieldBitCleared && Linked() && State() == vm
              case LinkHit => outcome == LinkBitCleared && Linked() && State() == old(State())
              case InvalidPage => outcome == InvalidPagePanic && Linked() && State() == old(State())
              case WildWrite => outcome == WriteBeyondDescriptor && Linked() && State() == old(State())
    {
      var vmmBlock, i := HolderOf(PageAlign(page));
      if vmmBlock == null {
        return InvalidPagePanic;
      }
      outcome := ClearPage(vmmBlock, i, V2P(page) / PAGE_SIZE);
    }

    /** The write of vmm_free_page, which stops at the link: what follows a link with a bit cleared is not in reach of
        the model. */
    method ClearPage(vmmBlock: VmmBlock, ghost i: nat, pageIndex: nat) returns (outcome: FreedPage)
      requires Linked() && i < |blocks| && vmmBlock == blocks[i]
      modifies vmmBlock, vmmBlock.bitmap
      ensures Linked()
      ensures var (was, word) := (old(State()), pageIndex / 32);
              if word < VMM_BITMAP_SIZE then
                outcome == PageFreed && State() == WithBit(was, i, pageIndex, false)
              else if word < VMM_BITMAP_SIZE + FIELDS then
                outcome == FieldBitCleared && State() == WithField(was, i, word - VMM_BITMAP_SIZE, pageIndex % 32)
              else
                outcome == (if word == VMM_BITMAP_SIZE + FIELDS then LinkBitCleared else WriteBeyondDescriptor)
                && State() == was
    {
      ghost var was := State();
      assert was.blocks[i] == vmmBlock.Value();
      var bitmapIndex, bitInBitmap := pageIndex / 32, pageIndex % 32;
      if bitmapIndex >= vmmBlock.bitmap.Length {
        outcome := ClearBeyond(vmmBlock, i, bitmapIndex - vmmBlock.bitmap.Length, bitInBitmap);
        return;
      }
      vmmBlock.bitmap[bitmapIndex] := vmmBlock.bitmap[bitmapIndex][bitInBitmap := false];
      forall j | 0 <= j < |blocks| && j != i ensures blocks[j].Value() == was.blocks[j] {
        assert blocks[j] != vmmBlock && blocks[j].bitmap != vmmBlock.bitmap;
      }
      assert Descs() == was.blocks[i := vmmBlock.Value()];
      assert vmmBlock.Value().bitmap == Put(was.blocks[i].bitmap, pageIndex, false);
      return PageFreed;
    }

    /** The same write so many words behind the bitmap. */
    method ClearBeyond(vmmBlock: VmmBlock, ghost i: nat, word: nat, bit: nat) returns (outcome: FreedPage)
      requires Linked() && i < |blocks| && vmmBlock == blocks[i]
      modifies vmmBlock`highWaterMark, vmmBlock`freePages, vmmBlock`firstPage, vmmBlock`pageTable
      ensures Linked()
      ensures if word < FIELDS then outcome == FieldBitCleared && State() == WithField(old(State()), i, word, bit)
              else outcome == (if word == FIELDS then LinkBitCleared else WriteBeyondDescriptor)
                   && State() == old(State())
    {
      ghost var was := State();
      assert was.blocks[i] == vmmBlock.Value();
      if word >= FIELDS {
        return if word == FIELDS then LinkBitCleared else WriteBeyondDescriptor;
      }
      vmmBlock.ClearField(word, bit);
      forall j | 0 <= j < |blocks| && j != i ensures blocks[j].Value() == was.blocks[j] {
        assert blocks[j] != vmmBlock && blocks[j].bitmap != vmmBlock.bitmap;
      }
      assert Descs() == was.blocks[i := vmmBlock.Value()];
      return FieldBitCleared;
    }

    method VmmGetPhysAddr(vmmPage: Addr) returns (physAddr: Option<Addr>)
      requires Linked()
      ensures physAddr == GetPhysAddr(State(), vmmPage)
    {
      var vmmBlock, i := HolderOf(vmmPage);
      if vmmBlock == null {
        return Some(0);
      }
      assert State().blocks[i] == vmmBlock.Value();
      var ptEntry := Load(ram, cr3, vmmBlock.pageTable, TableIndex(vmmPage));
      physAddr := if ptEntry == None then None else Some(U32(ptEntry.value.frame * PAGE_SIZE));
    }

    // ---- vmm_init ----

    /** vmm_init; `contents` is what the descriptor's memory held where the bitmap comes to lie. */
    method VmmInit(initialPageTable: Addr, contents: Bitmap) returns (out: Outcome<Addr>)
      requires Valid() && blocks == [] && V2P(initialPageTable) / PAGE_SIZE + 1 < PAGE_TABLE_INDICES
      modifies repr
      ensures var spec := KmallocVm(old(State()), old(Seen()), DESC_BYTES);
              && spec.EndsAs(out)
              && (spec.Done? ==> && Valid()
                                 && State() == spec.value.vm.(blocks := [InitDescOver(contents, initialPageTable)])
                                 && BeginsAfter(State().blocks[0], initialPageTable, contents)
                                 && heap.free == spec.value.heap && fresh(repr - old(repr)))
    {
      hide AllocPage, KmallocVm, Canonical, InMemory, Path, Served, SeenBy;
      FirstNeedsHeap(State(), heap.memory, heap.free);
      out := Kmalloc(DESC_BYTES);
      if !out.Done? {
        return;
      }
      var initialVmmBlock := VmmBlock.First(initialPageTable, contents);
      InitBegins(contents, initialPageTable);
      Begin(initialVmmBlock);
    }

    /** kmain's paging_init and vmm_init on a fresh pool and a fresh heap lead to the state every run starts from,
        exactly when the descriptor's bitmap held zeros above the last word vmm_init writes. */
    method KmainMemory(kernelStart: Addr, contents: Bitmap, ghost arena: nat) returns (out: Outcome<Addr>)
      requires Valid() && blocks == [] && !allocatingNewBlock && DirIndex(kernelStart) == KERNEL_DIR
      requires VmmRuns.FreshPool(pmm.State())
      requires heap.State() == Initial(arena) && arena % PAGE_SIZE == 0 && arena + ARENA <= WORDS
      modifies repr
      ensures out.Done? && Valid() && fresh(repr - old(repr))
      ensures Init(old(ram), old(pmm.State())).Some?
      ensures var b := Init(old(ram), old(pmm.State())).value;
              && V2P(b.pageTable) / PAGE_SIZE + 1 < PAGE_TABLE_INDICES
              && (State() == VmmRuns.Boot(b) <==>
                    forall i | (V2P(b.pageTable) / PAGE_SIZE + 1) / 32 < i < VMM_BITMAP_SIZE :: contents[i] == ZERO)
              && |State().blocks| == 1 && BeginsAfter(State().blocks[0], b.pageTable, contents)
      ensures heap.free == [Block(arena, ARENA - 160)]
    {
      hide AllocPage, KmallocVm, Canonical, InMemory, Path, SeenBy, Init;
      VmmRuns.BootShape(ram, pmm.State(), pmm.State().start / PAGE_SIZE);
      ghost var b := Init(ram, pmm.State()).value;
      var initialPageTable := PagingInit(kernelStart);
      ghost var paged := State();
      InMemoryAt(heap.free, 0);
      FreshHeapServes(paged, heap.memory, arena);
      out := VmmInit(initialPageTable.value, contents);
      InitOverZero(contents, b.pageTable);
      assert State() == paged.(blocks := [InitDescOver(contents, b.pageTable)]);
    }

    /** The list with its first block. */
    method Begin(initialVmmBlock: VmmBlock)
      requires Valid() && blocks == [] && initialVmmBlock !in repr && initialVmmBlock.nextVmmBlock == null
      requires initialVmmBlock.bitmap.Length == VMM_BITMAP_SIZE && initialVmmBlock.bitmap !in repr
      modifies this`vmmBlockListHead, this`vmmBlockListTail, this`blocks, this`repr
      ensures Valid() && repr == old(repr) + {initialVmmBlock, initialVmmBlock.bitmap}
      ensures State() == old(State()).(blocks := [initialVmmBlock.Value()])
    {
      vmmBlockListHead := initialVmmBlock;
      vmmBlockListTail := initialVmmBlock;
      blocks := [initialVmmBlock];
      repr := repr + {initialVmmBlock, initialVmmBlock.bitmap};
      assert Descs() == [initialVmmBlock.Value()];
    }

    // ---- paging_add_temp_userspace ----

    /** How a step of it ended. */
    ghost predicate Stepped(spec: Outcome<Vm>, out: Outcome<Addr>)
      reads this, repr, heap
    {
      spec.EndsAs(out) && (spec.Done? ==> Valid() && State() == spec.value)
    }

    /** The loop: the first 4 MiB, mapped to themselves for user mode. */
    method FillUserTable(f: Frame)
      requires Valid()
      modifies this`ram
      ensures Valid() && State() == WithRam(old(State()), WithTable(old(ram), f, UserTable()))
    {
      ghost var was := State();
      var i := 0;
      while i < 1024
        invariant i <= PAGE_TABLE_INDICES
        invariant forall g: Frame | g != f :: ram[g] == was.ram[g]
        invariant forall k | 0 <= k < i :: ram[f][k] == UserTable()[k]
      {
        var entry := Entry(true, true, true, true, FrameOf(i * PAGE_SIZE));
        ram := WithEntry(ram, f, i, entry);
        i := i + 1;
      }
      assert ram[f] == UserTable();
      assert ram == WithTable(was.ram, f, UserTable());
      assert Descs() == was.blocks;
    }

    /** A directory entry for a table the kernel knows by its virtual address. */
    method EnterUserTable(table: Addr, index: nat) returns (out: Outcome<Addr>)
      requires Valid() && index < PAGE_TABLE_INDICES
      modifies this`ram
      ensures Stepped(EnterTable(old(State()), table, index), out)
    {
      ghost var was := State();
      var phys := VmmGetPhysAddr(table);
      if phys == None {
        return PageFault;
      }
      var stored := Store(ram, cr3, kernelPageDirectory, index, Entry(true, true, true, true, FrameOf(phys.value)));
      if stored == None {
        return PageFault;
      }
      ram := stored.value;
      assert Descs() == was.blocks;
      return Done(table);
    }

    method AddUserTable() returns (out: Outcome<Addr>)
      requires Valid()
      modifies repr
      ensures var spec := AddIdentity(old(State()), old(Seen()));
              spec.EndsAs(out) && (spec.Done? ==> Valid() && State() == spec.value.vm)
      ensures out.Done? ==> fresh(repr - old(repr))
    {
      hide AllocPage, EnterTable, Walk;
      out := VmmAllocPage();
      if !out.Done? {
        return;
      }
      var f := Walk(ram, cr3, out.value);
      if f == None {
        return PageFault;
      }
      FillUserTable(f.value);
      out := EnterUserTable(out.value, 0);
    }

    method AddUserStack() returns (out: Outcome<Addr>)
      requires Valid()
      modifies repr
      ensures Stepped(AddStack(old(State()), old(Seen())), out)
      ensures out.Done? ==> fresh(repr - old(repr))
    {
      hide AllocPage, EnterTable, Walk, Alloc, Canonical, InMemory, Path;
      out := VmmAllocPage();
      if !out.Done? {
        return;
      }
      var ok := MapUserStack(out.value);
      if !ok {
        return PageFault;
      }
      out := EnterUserTable(out.value, DirIndex(STACK_VA));
    }

    /** The last entry of the stack's table names the pool's next frame. */
    method MapUserStack(table: Addr) returns (ok: bool)
      requires Valid()
      modifies this`ram, pmm`warned, pmm.bitmap
      ensures var was := old(State());
              match Store(was.ram, was.cr3, table, TableIndex(STACK_VA), UserEntry(FrameOf(Alloc(was.pool).1)))
              case None => !ok
              case Some(ram') => ok && Valid() && State() == WithPool(WithRam(was, ram'), Alloc(was.pool).0)
    {
      hide Walk, Alloc, Canonical, InMemory, Path;
      ghost var was := State();
      var stackPage := pmm.AllocPage();
      var stored := Store(ram, cr3, table, TableIndex(STACK_VA), Entry(true, true, true, true, FrameOf(stackPage)));
      ok := stored != None;
      if ok {
        ram := stored.value;
        assert Descs() == was.blocks;
      }
    }

    /** paging_add_temp_userspace; `second` is the list its second allocation finds. */
    method PagingAddTempUserspace() returns (out: Outcome<Addr>, ghost second: seq<Block>)
      requires Valid()
      modifies repr
      ensures Stepped(AddUserspace(old(State()), old(Seen()), second), out)
      ensures out.Done? ==> fresh(repr - old(repr))
    {
      hide AddIdentity, AddStack;
      out := AddUserTable();
      second := [];
      if out.Done? {
        second := Seen();
        out := AddUserStack();
      }
    }
  }
}
