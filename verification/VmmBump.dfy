/** Allocation order: without frees, vmm_alloc_page hands out consecutive pages across block boundaries. */
module VmmBump {
  import opened Words
  import opened Wrappers
  import opened PhysicalMemory
  import opened Paging
  import opened FreeList
  import opened Vmm
  import opened VmmInvariant
  import opened VmmSteps
  import opened VmmRuns
  import opened Runs

  /** How much of block i the first c pages fill. */
  function Fill(c: nat, i: nat): nat {
    if c <= i * PAGE_TABLE_INDICES then 0
    else if (i + 1) * PAGE_TABLE_INDICES <= c then PAGE_TABLE_INDICES
    else c - i * PAGE_TABLE_INDICES
  }

  /** m pages of the block are taken, as many as its mark says, and free_pages counts the rest. */
  ghost predicate FilledTo(d: Desc, m: nat) {
    m <= PAGE_TABLE_INDICES && d.highWaterMark == m && d.freePages == PAGE_TABLE_INDICES - m
    && Pages(d.bitmap) == m
  }

  /** Exactly the first c pages of the kernel's address space are handed out or reserved, and there are as many
      blocks as that calls for. */
  ghost predicate Bumped(blocks: seq<Desc>, c: nat) {
    && |blocks| == (c + 2) / PAGE_TABLE_INDICES + 1
    && forall i | 0 <= i < |blocks| :: FilledTo(blocks[i], Fill(c, i))
  }

  lemma {:induction false} CountAbove(bitmap: seq<Word>, m: nat, n: nat)
    requires m <= n <= 32 * |bitmap| && forall p | m <= p < n :: !Taken(bitmap, p)
    ensures Count(bitmap, n) == Count(bitmap, m)
    decreases n
  {
    if n > m { CountAbove(bitmap, m, n - 1); }
  }

  /** The block's bitmap is exactly the prefix below its mark. */
  lemma FilledPrefix(d: Desc, m: nat)
    requires DescOk(d) && FilledTo(d, m)
    ensures forall p | 0 <= p < PAGE_TABLE_INDICES :: Taken(d.bitmap, p) <==> p < m
    ensures Scan(d.bitmap) == m
  {
    CountAbove(d.bitmap, m, 32 * VMM_BITMAP_SIZE);
    CountFull(d.bitmap, m);
    var p := Scan(d.bitmap);
    assert p < PAGE_TABLE_INDICES ==> !Taken(d.bitmap, p);
    assert m < PAGE_TABLE_INDICES ==> !Taken(d.bitmap, m);
  }

  lemma TakeFilled(d: Desc, m: nat)
    requires DescOk(d) && FilledTo(d, m) && m < PAGE_TABLE_INDICES
    ensures FilledTo(Take(d, m), m + 1)
  {
    CountPut(d.bitmap, m, true, 32 * VMM_BITMAP_SIZE);
  }

  lemma FindFilled(blocks: seq<Desc>, c: nat)
    requires BlocksOk(blocks) && Bumped(blocks, c)
    ensures FindBlock(blocks, 0) == c / PAGE_TABLE_INDICES < |blocks|
    ensures Pick(blocks) == (c / PAGE_TABLE_INDICES, c % PAGE_TABLE_INDICES)
  {
    var i := c / PAGE_TABLE_INDICES;
    assert FilledTo(blocks[i], Fill(c, i));
    assert DescOk(blocks[i]);
    FilledPrefix(blocks[i], Fill(c, i));
    forall j | 0 <= j < i ensures blocks[j].freePages == 0 {
      assert FilledTo(blocks[j], Fill(c, j));
    }
  }

  lemma NextFilledAt(blocks: seq<Desc>, c: nat, j: nat)
    requires BlocksOk(blocks) && Bumped(blocks, c) && FindBlock(blocks, 0) < |blocks| && j < |blocks|
    ensures FilledTo(NextBlocks(blocks)[j], Fill(c + 1, j))
  {
    FindFilled(blocks, c);
    FillStep(c, j);
    assert FilledTo(blocks[j], Fill(c, j)) && DescOk(blocks[j]);
    if j == c / PAGE_TABLE_INDICES {
      TakeFilled(blocks[j], Pick(blocks).1);
    }
  }

  lemma ExtraWhen(blocks: seq<Desc>, c: nat)
    requires BlocksOk(blocks) && Bumped(blocks, c) && FindBlock(blocks, 0) < |blocks|
    ensures Extra(blocks) != [] <==> c % PAGE_TABLE_INDICES == HIGH_WATER_THRESHOLD - 1
  {
    FindFilled(blocks, c);
    BlockCount(c);
    var i := Pick(blocks).0;
    assert FilledTo(blocks[i], Fill(c, i)) && DescOk(blocks[i]);
    FillStep(c, i);
    TakeFilled(blocks[i], Pick(blocks).1);
  }

  /** One allocation fills one more page, and adds a block exactly when the count says so. */
  lemma NextBumped(blocks: seq<Desc>, c: nat)
    requires BlocksOk(blocks) && Bumped(blocks, c)
    ensures FindBlock(blocks, 0) < |blocks| && Bumped(NextBlocks(blocks), c + 1)
    ensures Extra(blocks) != [] <==> c % PAGE_TABLE_INDICES == HIGH_WATER_THRESHOLD - 1
  {
    FindFilled(blocks, c);
    ExtraWhen(blocks, c);
    BlockCount(c);
    var next := NextBlocks(blocks);
    forall j | 0 <= j < |next| ensures FilledTo(next[j], Fill(c + 1, j)) {
      if j < |blocks| {
        NextFilledAt(blocks, c, j);
      } else {
        FillStep(c, j);
        NewFilled(U32(PageVa(j, 0)), U32(PageVa(j - 1, SLOT)));
      }
    }
  }

  lemma NewFilled(firstPage: Addr, pageTable: Addr)
    ensures FilledTo(NewDesc(firstPage, pageTable), 0)
  {
    CountNone(NoPages(), 32 * VMM_BITMAP_SIZE);
  }

  lemma FillStep(c: nat, j: nat)
    ensures Fill(c + 1, j) == Fill(c, j) + if j == c / PAGE_TABLE_INDICES then 1 else 0
    ensures j == c / PAGE_TABLE_INDICES ==> Fill(c, j) == c % PAGE_TABLE_INDICES
    ensures j > c / PAGE_TABLE_INDICES ==> Fill(c, j) == 0
  {}

  lemma BlockCount(c: nat)
    ensures (c + 3) / PAGE_TABLE_INDICES + 1 == (c + 2) / PAGE_TABLE_INDICES + 1
            + if c % PAGE_TABLE_INDICES == HIGH_WATER_THRESHOLD - 1 then 1 else 0
    ensures c % PAGE_TABLE_INDICES == HIGH_WATER_THRESHOLD - 1 ==>
              c / PAGE_TABLE_INDICES + 1 == (c + 2) / PAGE_TABLE_INDICES + 1
  {}

  /** Bump-allocator refinement, one call: the page returned is the next one of the address space. */
  lemma AllocBumps(vm: Vm, heap: seq<Block>, owners: Owners, c: nat) returns (owners': Owners)
    requires VmOk(vm, owners) && Bumped(vm.blocks, c)
    requires AllocPage(vm, heap).Done? && Sound(AllocPage(vm, heap).value.vm)
    ensures var r := AllocPage(vm, heap).value;
            VmOk(r.vm, owners') && Bumped(r.vm.blocks, c + 1) && r.addr == KERNEL_VIRT_BASE + c * PAGE_SIZE
  {
    owners' := AllocKeeps(vm, heap, owners);
    FindFilled(vm.blocks, c);
    NextBumped(vm.blocks, c);
    assert c == c / PAGE_TABLE_INDICES * PAGE_TABLE_INDICES + c % PAGE_TABLE_INDICES;
  }

  /** One successful allocation that returns the page. */
  ghost predicate Allocates(vm: Vm, heap: seq<Block>, vm': Vm, page: Addr) {
    Sound(vm') && exists heap': seq<Block> :: AllocPage(vm, heap) == Done(Result(vm', heap', page))
  }

  ghost predicate AllocStep(vm: Vm, vm': Vm) {
    exists heap, page: Addr :: Allocates(vm, heap, vm', page)
  }

  /** c pages are reserved or handed out, in a state where everything is in order. */
  ghost predicate InOrder(vm: Vm, c: nat) {
    exists owners :: VmOk(vm, owners) && Bumped(vm.blocks, c)
  }

  lemma AllocatesNext(vm: Vm, heap: seq<Block>, vm': Vm, page: Addr, c: nat)
    requires Allocates(vm, heap, vm', page) && InOrder(vm, c)
    ensures InOrder(vm', c + 1) && page == KERNEL_VIRT_BASE + c * PAGE_SIZE
  {
    var owners :| VmOk(vm, owners) && Bumped(vm.blocks, c);
    var owners' := AllocBumps(vm, heap, owners, c);
  }

  lemma PageIsNext(vm: Vm, heap: seq<Block>, vm': Vm, page: Addr, c: nat)
    requires Allocates(vm, heap, vm', page) && InOrder(vm, c)
    ensures page == KERNEL_VIRT_BASE + c * PAGE_SIZE
  {
    AllocatesNext(vm, heap, vm', page, c);
  }

  lemma StepStaysInOrder(a: Vm, b: Vm, k: nat)
    requires InOrder(a, k) && AllocStep(a, b)
    ensures InOrder(b, k + 1)
  {
    var heap, page :| Allocates(a, heap, b, page);
    AllocatesNext(a, heap, b, page, k);
  }

  lemma StaysInOrder(start: Vm, c: nat, n: nat, vm: Vm)
    requires InOrder(start, c) && Reaches(AllocStep, start, n, vm)
    ensures InOrder(vm, c + n)
  {
    hide InOrder, AllocStep;
    forall a, b, k: nat | InOrder(a, k) && AllocStep(a, b) ensures InOrder(b, k + 1) {
      StepStaysInOrder(a, b, k);
    }
    RunInvariant(AllocStep, InOrder, start, c, n, vm);
  }

  /** Bump-allocator refinement over whole runs: allocation number n + 1 returns page c + n of the kernel's
      address space, where c is the first free page, whatever the blocks it crosses. */
  lemma NthPage(start: Vm, c: nat, n: nat, vm: Vm, heap: seq<Block>, vm': Vm, page: Addr)
    requires InOrder(start, c) && Reaches(AllocStep, start, n, vm) && Allocates(vm, heap, vm', page)
    ensures page == KERNEL_VIRT_BASE + (c + n) * PAGE_SIZE
  {
    hide InOrder, Allocates, AllocStep;
    StaysInOrder(start, c, n, vm);
    PageIsNext(vm, heap, vm', page, c + n);
  }

  lemma BootBumped(ram: Ram, pool: LivePool)
    requires FreshPool(pool)
    ensures Init(ram, pool).Some? && V2P(Init(ram, pool).value.pageTable) / PAGE_SIZE + 1 < PAGE_TABLE_INDICES
    ensures InOrder(Boot(Init(ram, pool).value), pool.start / PAGE_SIZE + 2)
  {
    var owners := BootOk(ram, pool);
    BootShape(ram, pool, pool.start / PAGE_SIZE);
    CountPrefix(Reserved(pool.start / PAGE_SIZE + 2), pool.start / PAGE_SIZE + 2, 32 * VMM_BITMAP_SIZE);
    assert FilledTo(Boot(Init(ram, pool).value).blocks[0], pool.start / PAGE_SIZE + 2);
  }

  /** The nth page from boot follows the kernel image, its directory and its first table. */
  lemma NthPageFromBoot(ram: Ram, pool: LivePool, n: nat, vm: Vm, heap: seq<Block>, vm': Vm, page: Addr)
    requires FreshPool(pool) && Init(ram, pool).Some?
    requires V2P(Init(ram, pool).value.pageTable) / PAGE_SIZE + 1 < PAGE_TABLE_INDICES
    requires Reaches(AllocStep, Boot(Init(ram, pool).value), n, vm) && Allocates(vm, heap, vm', page)
    ensures page == KERNEL_VIRT_BASE + (pool.start / PAGE_SIZE + 2 + n) * PAGE_SIZE
  {
    hide InOrder, Allocates, AllocStep, Boot, Init;
    BootBumped(ram, pool);
    NthPage(Boot(Init(ram, pool).value), pool.start / PAGE_SIZE + 2, n, vm, heap, vm', page);
  }
}
