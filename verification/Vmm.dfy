/** The virtual page allocator, kernel/memory/vmm.c, as functions on the state it works on. */
module Vmm {
  import opened Words
  import opened Wrappers
  import opened PhysicalMemory
  import opened Paging
  import opened FreeList

  const HIGH_WATER_THRESHOLD: nat := 1022
  const VMM_BITMAP_SIZE: nat := 32
  const DESC_BYTES: Addr := 148  // sizeof(struct vmm_block_desc)

  /** The bitmap, the four fields and the link, a word each. */
  lemma DescriptorBytes()
    ensures DESC_BYTES == 4 * (VMM_BITMAP_SIZE + FIELDS + 1)
  {}

  type Bitmap = b: seq<Word> | |b| == VMM_BITMAP_SIZE witness seq(VMM_BITMAP_SIZE, _ => ZERO)

  function NoPages(): (b: Bitmap)
    ensures forall p | 0 <= p < 32 * VMM_BITMAP_SIZE :: !Taken(b, p)
  {
    seq(VMM_BITMAP_SIZE, _ => ZERO)
  }

  datatype Desc = Desc(bitmap: Bitmap, highWaterMark: nat, freePages: nat, firstPage: Addr, pageTable: Addr)

  /** The block list, the allocating_new_block flag, and the paging and physical state below them. */
  datatype Vm = Vm(ram: Ram, cr3: Frame, directory: Addr, pool: LivePool, blocks: seq<Desc>, growing: bool)

  /** How a call ends: with a result, in the out-of-memory panic, in a page fault, or at the write through the NULL
      descriptor that kmalloc returns when it has to fetch a page first. That write faults unless address 0 is
      mapped, as it is once paging_add_temp_userspace has run; what it then does to frame 0 is not followed. */
  datatype Outcome<+T> = Done(value: T) | OutOfMemory | PageFault | NullDescriptor {
    predicate IsFailure() { !Done? }

    function PropagateFailure<U>(): (r: Outcome<U>)
      requires IsFailure()
      ensures r.IsFailure()
    {
      match this
      case OutOfMemory => OutOfMemory
      case PageFault => PageFault
      case NullDescriptor => NullDescriptor
    }

    function Extract(): T
      requires !IsFailure()
    {
      value
    }

    /** Both calls come back, or both end the same way. */
    predicate EndsAs<U>(other: Outcome<U>) {
      && (Done? <==> other.Done?) && (OutOfMemory? <==> other.OutOfMemory?)
      && (PageFault? <==> other.PageFault?) && (NullDescriptor? <==> other.NullDescriptor?)
    }
  }

  /** What a call leaves: the vmm state, the heap's free list, and the address it returns. */
  datatype Result = Result(vm: Vm, heap: seq<Block>, addr: Addr)

  // ---- vmm_get_page_from_bitmap ----

  function Scan(bitmap: Bitmap): (p: nat)
    ensures p <= PAGE_TABLE_INDICES
  {
    LowestFree(bitmap, 0, 32 * |bitmap|)
  }

  /** The first block at or after `from` that says it has pages and whose bitmap has one, or |blocks|. */
  function FindBlock(blocks: seq<Desc>, from: nat): (i: nat)
    requires from <= |blocks|
    ensures from <= i <= |blocks|
    ensures i < |blocks| ==> blocks[i].freePages != 0 && Scan(blocks[i].bitmap) < PAGE_TABLE_INDICES
    ensures forall j | from <= j < i :: blocks[j].freePages == 0 || Scan(blocks[j].bitmap) == PAGE_TABLE_INDICES
    decreases |blocks| - from
  {
    if from == |blocks| || (blocks[from].freePages != 0 && Scan(blocks[from].bitmap) < PAGE_TABLE_INDICES)
    then from
    else FindBlock(blocks, from + 1)
  }

  function Take(d: Desc, p: nat): Desc
    requires p < PAGE_TABLE_INDICES && d.freePages > 0
  {
    Desc(Put(d.bitmap, p, true), if p + 1 >= d.highWaterMark then p + 1 else d.highWaterMark,
         d.freePages - 1, d.firstPage, d.pageTable)
  }

  function PageAt(d: Desc, p: nat): Addr { U32(d.firstPage + p * PAGE_SIZE) }

  // ---- vmm_alloc_page, vmm_add_vmm_block and kmalloc, which call each other ----
  //
  // The measure is the nesting depth the allocating_new_block flag leaves: an allocation made while a block is
  // being added does not add another.

  function AllocPage(vm: Vm, heap: seq<Block>): Outcome<Result>
    decreases if vm.growing then 0 else 1, 0
  {
    var i := FindBlock(vm.blocks, 0);
    if i == |vm.blocks| then OutOfMemory
    else
      var page := PageAt(vm.blocks[i], Scan(vm.blocks[i].bitmap));
      var taken := WithTaken(vm, i);
      if page == 0 then OutOfMemory
      else if Grows(taken, i) then
        var r :- AddBlock(WithFlag(taken, true), heap, i);
        Touch(WithFlag(r.vm, false), r.heap, i, page)
      else Touch(taken, heap, i, page)
  }

  function WithRam(vm: Vm, ram: Ram): Vm { vm.(ram := ram) }

  function WithFlag(vm: Vm, growing: bool): Vm { vm.(growing := growing) }

  function WithTaken(vm: Vm, i: nat): Vm
    requires i < |vm.blocks| && vm.blocks[i].freePages > 0 && Scan(vm.blocks[i].bitmap) < PAGE_TABLE_INDICES
  {
    vm.(blocks := vm.blocks[i := Take(vm.blocks[i], Scan(vm.blocks[i].bitmap))])
  }

  predicate Grows(vm: Vm, i: nat)
    requires i < |vm.blocks|
  {
    vm.blocks[i].highWaterMark == HIGH_WATER_THRESHOLD && i + 1 == |vm.blocks| && !vm.growing
  }

  /** Maps the page unless it is present already. */
  function Touch(vm: Vm, heap: seq<Block>, i: nat, page: Addr): Outcome<Result> {
    if i >= |vm.blocks| then PageFault
    else
      match IsPresent(vm.ram, vm.cr3, vm.blocks[i].pageTable, page)
      case None => PageFault
      case Some(present) =>
        if present then Done(Result(vm, heap, page))
        else
          match MapPage(vm.ram, vm.cr3, vm.pool, vm.blocks[i].pageTable, page)
          case None => PageFault
          case Some(m) => Done(Result(vm.(ram := m.ram, pool := m.pool), heap, page))
  }

  function AddBlock(vm: Vm, heap: seq<Block>, i: nat): Outcome<Result>
    requires vm.growing && i < |vm.blocks|
    decreases 0, 2
  {
    var r :- KmallocVm(vm, heap, DESC_BYTES);
    if r.addr == 0 || i >= |r.vm.blocks| then NullDescriptor
    else Extend(r.vm, r.heap, r.vm.blocks[i], r.addr)
  }

  /** vmm_add_vmm_block once it has its descriptor. */
  function Extend(vm: Vm, heap: seq<Block>, d: Desc, descriptor: Addr): Outcome<Result> {
    var pageTable := U32(d.firstPage + HIGH_WATER_THRESHOLD * PAGE_SIZE);
    var firstPage := U32(d.firstPage + PAGE_TABLE_RANGE);
    match MapPage(vm.ram, vm.cr3, vm.pool, d.pageTable, pageTable)
    case None => PageFault
    case Some(m) =>
      match AddPageTable(m.ram, vm.cr3, vm.directory, m.phys, firstPage)
      case None => PageFault
      case Some(ram) =>
        match StoreTable(ram, vm.cr3, pageTable, Cleared())
        case None => PageFault
        case Some(ram') =>
          Done(Result(vm.(ram := ram', pool := m.pool, blocks := vm.blocks + [NewDesc(firstPage, pageTable)]),
                      heap, descriptor))
  }

  function NewDesc(firstPage: Addr, pageTable: Addr): Desc {
    Desc(NoPages(), 0, PAGE_TABLE_INDICES, firstPage, pageTable)
  }

  function KmallocVm(vm: Vm, heap: seq<Block>, size: Addr): Outcome<Result>
    decreases if vm.growing then 0 else 1, 1
  {
    var k := FirstFit(heap, Rounded(size));
    if size == 0 then Done(Result(vm, heap, 0))
    else if k < |heap| then
      if Splits(heap[k], Rounded(size))
      then Done(Result(vm, SplitAt(heap, k, Rounded(size)), U32(Cut(heap[k], Rounded(size)).addr + HEADER)))
      else Done(Result(vm, heap, U32(heap[k].addr + HEADER)))
    else
      var r :- AllocPage(vm, heap);
      Done(Result(r.vm, r.heap + [Block(r.addr, PAGE_SIZE)], 0))
  }

  // ---- vmm_free_page and vmm_get_phys_addr, with the range test as written ----

  /** The test joins the two bounds with "or", so it accepts every address for a block that does not wrap. */
  predicate InRangeAsWritten(d: Desc, a: Addr) {
    a >= d.firstPage || a <= U32(d.firstPage + PAGE_TABLE_RANGE - PAGE_SIZE)
  }

  function Holder(blocks: seq<Desc>, a: Addr): (i: nat)
    ensures i <= |blocks|
  {
    if blocks == [] || InRangeAsWritten(blocks[0], a) then 0 else 1 + Holder(blocks[1..], a)
  }

  /** How vmm_free_page ends: it cleared a bit of the bitmap, of one of the four fields behind it, or of the link to
      the next descriptor; it panicked; or it wrote past the descriptor. */
  datatype FreeResult = Released(vm: Vm) | FieldHit(vm: Vm) | LinkHit | InvalidPage | WildWrite

  const FIELDS: nat := 4  // high_water_mark, free_pages, first_page, page_table

  /** vmm_free_page; the bit index counts pages from the kernel base, whichever block was found, and past the
      bitmap's 1024 bits the write goes to whatever follows. */
  function FreePage(vm: Vm, page: Addr): FreeResult {
    var i := Holder(vm.blocks, PageAlign(page));
    var index := V2P(page) / PAGE_SIZE;
    if i == |vm.blocks| then InvalidPage
    else if index < PAGE_TABLE_INDICES then Released(WithBit(vm, i, index, false))
    else if index < PAGE_TABLE_INDICES + 32 * FIELDS then
      FieldHit(WithField(vm, i, index / 32 - VMM_BITMAP_SIZE, index % 32))
    else if index < PAGE_TABLE_INDICES + 32 * (FIELDS + 1) then LinkHit
    else WildWrite
  }

  /** One bit of the field that stands so many words behind the bitmap is cleared. */
  function FieldCleared(d: Desc, field: nat, bit: nat): Desc {
    match field
    case 0 => Desc(d.bitmap, WithoutBit(d.highWaterMark, bit), d.freePages, d.firstPage, d.pageTable)
    case 1 => Desc(d.bitmap, d.highWaterMark, WithoutBit(d.freePages, bit), d.firstPage, d.pageTable)
    case 2 => Desc(d.bitmap, d.highWaterMark, d.freePages, WithoutBit(d.firstPage, bit), d.pageTable)
    case _ => Desc(d.bitmap, d.highWaterMark, d.freePages, d.firstPage, WithoutBit(d.pageTable, bit))
  }

  function WithField(vm: Vm, i: nat, field: nat, bit: nat): Vm
    requires i < |vm.blocks|
  {
    vm.(blocks := vm.blocks[i := FieldCleared(vm.blocks[i], field, bit)])
  }

  function WithBit(vm: Vm, i: nat, p: nat, bit: bool): Vm
    requires i < |vm.blocks| && p < PAGE_TABLE_INDICES
  {
    vm.(blocks := vm.blocks[i := Desc(Put(vm.blocks[i].bitmap, p, bit), vm.blocks[i].highWaterMark,
                                      vm.blocks[i].freePages, vm.blocks[i].firstPage, vm.blocks[i].pageTable)])
  }

  /** vmm_get_phys_addr; None is a page fault. */
  function GetPhysAddr(vm: Vm, page: Addr): Option<Addr> {
    var i := Holder(vm.blocks, page);
    if i == |vm.blocks| then Some(0)
    else
      match Load(vm.ram, vm.cr3, vm.blocks[i].pageTable, TableIndex(page))
      case None => None
      case Some(e) => Some(U32(e.frame * PAGE_SIZE))
  }

  // ---- vmm_init ----

  /** The bitmap vmm_init builds: the first n pages are reserved. */
  function Reserved(n: nat): (b: Bitmap)
    requires n < PAGE_TABLE_INDICES
    ensures forall p | 0 <= p < PAGE_TABLE_INDICES :: Taken(b, p) <==> p < n
  {
    var b: Bitmap := seq(VMM_BITMAP_SIZE, i requires 0 <= i < VMM_BITMAP_SIZE => ReservedWord(n, i));
    assert forall p | 0 <= p < PAGE_TABLE_INDICES :: Taken(b, p) == ReservedWord(n, p / 32)[p % 32];
    b
  }

  /** The same over what the descriptor's memory held: words above the last one written keep their contents. */
  function ReservedOver(contents: Bitmap, n: nat): (b: Bitmap)
    requires n < PAGE_TABLE_INDICES
  {
    seq(VMM_BITMAP_SIZE, i requires 0 <= i < VMM_BITMAP_SIZE => if i <= n / 32 then ReservedWord(n, i) else contents[i])
  }

  /** vmm_init does not clear its descriptor: exactly the first n pages are reserved exactly when the words above
      were zero. */
  lemma ReservedExactly(contents: Bitmap, n: nat)
    requires n < PAGE_TABLE_INDICES
    ensures ReservedOver(contents, n) == Reserved(n)
       <==> forall i | n / 32 < i < VMM_BITMAP_SIZE :: contents[i] == ZERO
  {
    forall i | n / 32 < i < VMM_BITMAP_SIZE ensures Reserved(n)[i] == ZERO {
      forall j | 0 <= j < 32 ensures !Reserved(n)[i][j] { assert !Taken(Reserved(n), 32 * i + j); }
    }
    forall i | 0 <= i <= n / 32 ensures Reserved(n)[i] == ReservedWord(n, i) {
      forall j | 0 <= j < 32 ensures Reserved(n)[i][j] == ReservedWord(n, i)[j] {
        assert Taken(Reserved(n), 32 * i + j) <==> 32 * i + j < n;
      }
    }
    if ReservedOver(contents, n) == Reserved(n) {
      forall i | n / 32 < i < VMM_BITMAP_SIZE ensures contents[i] == ZERO {
        assert ReservedOver(contents, n)[i] == contents[i];
      }
    }
  }

  function ReservedWord(n: nat, i: nat): (w: Word)
    ensures forall j | 0 <= j < 32 :: w[j] <==> 32 * i + j < n
  {
    seq(32, j requires 0 <= j < 32 => 32 * i + j < n)
  }

  /** The descriptor in memory that was zero. */
  function InitDesc(pageTable: Addr): Desc
    requires V2P(pageTable) / PAGE_SIZE + 1 < PAGE_TABLE_INDICES
  {
    var n := U32(V2P(pageTable) + PAGE_SIZE) / PAGE_SIZE;
    Desc(Reserved(n), n, PAGE_TABLE_INDICES - n, KERNEL_VIRT_BASE, pageTable)
  }

  function InitDescOver(contents: Bitmap, pageTable: Addr): Desc
    requires V2P(pageTable) / PAGE_SIZE + 1 < PAGE_TABLE_INDICES
  {
    var n := U32(V2P(pageTable) + PAGE_SIZE) / PAGE_SIZE;
    Desc(ReservedOver(contents, n), n, PAGE_TABLE_INDICES - n, KERNEL_VIRT_BASE, pageTable)
  }

  /** The first block: every page up to and including its table's own is out, and so are those taken in the words
      above, which keep what they held; no other page is. */
  ghost predicate BeginsAfter(d: Desc, pageTable: Addr, contents: Bitmap) {
    var last := V2P(pageTable) / PAGE_SIZE;
    && last + 1 < 1024 && d.highWaterMark == last + 1 && d.freePages == 1024 - (last + 1)
    && d.firstPage == 0xC000_0000 && d.pageTable == pageTable
    && forall q: nat | q < 1024 ::
         Taken(d.bitmap, q) <==> q <= last || (q / 32 > (last + 1) / 32 && Taken(contents, q))
  }

  lemma InitBegins(contents: Bitmap, pageTable: Addr)
    requires V2P(pageTable) / PAGE_SIZE + 1 < PAGE_TABLE_INDICES
    ensures BeginsAfter(InitDescOver(contents, pageTable), pageTable, contents)
  {
    var n := U32(V2P(pageTable) + PAGE_SIZE) / PAGE_SIZE;
    var b := ReservedOver(contents, n);
    assert n == V2P(pageTable) / PAGE_SIZE + 1;
    forall q: nat | q < 1024 ensures Taken(b, q) <==> q < n || (q / 32 > n / 32 && Taken(contents, q)) {
      assert b[q / 32] == if q / 32 <= n / 32 then ReservedWord(n, q / 32) else contents[q / 32];
    }
  }

  /** Over words that were zero this is the block boot starts from, and over no others. */
  lemma InitOverZero(contents: Bitmap, pageTable: Addr)
    requires V2P(pageTable) / PAGE_SIZE + 1 < PAGE_TABLE_INDICES
    ensures InitDescOver(contents, pageTable) == InitDesc(pageTable)
       <==> forall i | (V2P(pageTable) / PAGE_SIZE + 1) / 32 < i < VMM_BITMAP_SIZE :: contents[i] == ZERO
  {
    ReservedExactly(contents, V2P(pageTable) / PAGE_SIZE + 1);
  }
}
