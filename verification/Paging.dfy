/** Two-level page tables in physical memory, kernel/memory/paging.c. Every access the kernel makes to a
    table goes through a virtual address, so it is modelled as a walk followed by a load or a store. */
module Paging {
  import opened Words
  import opened Wrappers
  import opened PhysicalMemory

  const FRAMES: nat := 0x10_0000
  const KERNEL_DIR: nat := 768  // the directory index of KERNEL_VIRT_BASE

  type Frame = f: nat | f < FRAMES

  function FrameOf(a: Addr): Frame { a / PAGE_SIZE }

  /** A page-directory or page-table entry; the fields the kernel sets. */
  datatype Entry = Entry(present: bool, rw: bool, user: bool, global: bool, frame: Frame)

  const EMPTY: Entry := Entry(false, false, false, false, 0)

  type Table = t: seq<Entry> | |t| == PAGE_TABLE_INDICES witness seq(PAGE_TABLE_INDICES, _ => EMPTY)

  /** A page after memset(page, 0, PAGE_SIZE). */
  function Cleared(): (t: Table)
    ensures forall k | 0 <= k < PAGE_TABLE_INDICES :: t[k] == EMPTY
  {
    seq(PAGE_TABLE_INDICES, _ => EMPTY)
  }

  /** Physical memory, each frame read as a table. */
  type Ram = r: seq<Table> | |r| == FRAMES witness seq(FRAMES, _ => Cleared())

  function WithTable(ram: Ram, f: Frame, t: Table): Ram { ram[f := t] }

  function WithEntry(ram: Ram, f: Frame, index: nat, e: Entry): Ram
    requires index < PAGE_TABLE_INDICES
  {
    ram[f := ram[f][index := e]]
  }

  /** The frame a virtual address translates to: 32-bit paging, Intel SDM volume 3A, section 4.3. */
  function Walk(ram: Ram, cr3: Frame, va: Addr): Option<Frame> {
    var pde := ram[cr3][DirIndex(va)];
    if !pde.present then None
    else
      var pte := ram[pde.frame][TableIndex(va)];
      if pte.present then Some(pte.frame) else None
  }

  /** What a translation allows: a page is writable, or open to user mode, when the entries of both levels say so. */
  datatype Access = Access(frame: Frame, rw: bool, user: bool, global: bool)

  /** The same walk with the rights it leaves (section 4.6). */
  function Translate(ram: Ram, cr3: Frame, va: Addr): Option<Access> {
    var pde := ram[cr3][DirIndex(va)];
    if !pde.present then None
    else
      var pte := ram[pde.frame][TableIndex(va)];
      if pte.present then Some(Access(pte.frame, pde.rw && pte.rw, pde.user && pte.user, pte.global)) else None
  }

  lemma TranslateWalks(ram: Ram, cr3: Frame, va: Addr)
    ensures Walk(ram, cr3, va) ==
            if Translate(ram, cr3, va).Some? then Some(Translate(ram, cr3, va).value.frame) else None
  {}

  /** Entry number index of the table at virtual address table; None is a page fault. */
  function Load(ram: Ram, cr3: Frame, table: Addr, index: nat): Option<Entry>
    requires index < PAGE_TABLE_INDICES
  {
    match Walk(ram, cr3, table)
    case None => None
    case Some(f) => Some(ram[f][index])
  }

  function Store(ram: Ram, cr3: Frame, table: Addr, index: nat, e: Entry): Option<Ram>
    requires index < PAGE_TABLE_INDICES
  {
    match Walk(ram, cr3, table)
    case None => None
    case Some(f) => Some(WithEntry(ram, f, index, e))
  }

  /** memset of a whole page. */
  function StoreTable(ram: Ram, cr3: Frame, table: Addr, t: Table): Option<Ram> {
    match Walk(ram, cr3, table)
    case None => None
    case Some(f) => Some(WithTable(ram, f, t))
  }

  // ---- paging_add_page_table, paging_is_virtual_page_present, paging_map_virtual_page ----

  function AddPageTable(ram: Ram, cr3: Frame, directory: Addr, phys: Addr, virt: Addr): Option<Ram> {
    Store(ram, cr3, directory, DirIndex(virt), Entry(true, true, false, false, FrameOf(phys)))
  }

  function IsPresent(ram: Ram, cr3: Frame, table: Addr, page: Addr): Option<bool> {
    match Load(ram, cr3, table, TableIndex(page))
    case None => None
    case Some(e) => Some(e.present)
  }

  datatype Mapped = Mapped(ram: Ram, pool: LivePool, phys: Addr)

  function MapPage(ram: Ram, cr3: Frame, pool: LivePool, table: Addr, page: Addr): Option<Mapped> {
    var phys := Alloc(pool).1;
    match Load(ram, cr3, table, TableIndex(page))
    case None => None
    case Some(e) =>
      match Store(ram, cr3, table, TableIndex(page), e.(present := true, rw := true, frame := FrameOf(phys)))
      case None => None
      case Some(ram') => Some(Mapped(ram', Alloc(pool).0, phys))
  }

  // ---- what these do to the walk ----

  /** The directory sends va to the table in frame f. */
  predicate TableOf(ram: Ram, cr3: Frame, va: Addr, f: Frame) {
    ram[cr3][DirIndex(va)].present && ram[cr3][DirIndex(va)].frame == f
  }

  /** Through the table of its own 4 MiB, paging_is_virtual_page_present tells whether the page translates. */
  lemma PresentMeansMapped(ram: Ram, cr3: Frame, table: Addr, page: Addr, f: Frame)
    requires TableOf(ram, cr3, page, f) && Walk(ram, cr3, table) == Some(f)
    ensures IsPresent(ram, cr3, table, page) == Some(Walk(ram, cr3, page).Some?)
  {}

  /** After paging_map_virtual_page the page translates to the frame it returned, writable where its directory entry
      is, and every address with another table or another slot translates as before. */
  lemma MapThenWalk(ram: Ram, cr3: Frame, pool: LivePool, table: Addr, page: Addr, f: Frame)
    requires TableOf(ram, cr3, page, f) && Walk(ram, cr3, table) == Some(f) && f != cr3
    ensures MapPage(ram, cr3, pool, table, page).Some?
    ensures var m := MapPage(ram, cr3, pool, table, page).value;
            var (pde, e) := (ram[cr3][DirIndex(page)], ram[f][TableIndex(page)]);
            && Walk(m.ram, cr3, page) == Some(FrameOf(m.phys))
            && Translate(m.ram, cr3, page) == Some(Access(FrameOf(m.phys), pde.rw, pde.user && e.user, e.global))
            && forall va: Addr | !TableOf(ram, cr3, va, f) || TableIndex(va) != TableIndex(page) ::
                 Translate(m.ram, cr3, va) == Translate(ram, cr3, va)
  {
    hide Alloc;
    var m := MapPage(ram, cr3, pool, table, page).value;
    assert m.ram[cr3] == ram[cr3];
  }

  /** After paging_add_page_table the 4 MiB around virt translate by the table in the frame given, closed to user
      mode, and every other address as before, as long as the directory is not used as a table. */
  lemma AddTableThenWalk(ram: Ram, cr3: Frame, directory: Addr, phys: Addr, virt: Addr)
    requires Walk(ram, cr3, directory) == Some(cr3) && FrameOf(phys) != cr3
    ensures AddPageTable(ram, cr3, directory, phys, virt).Some?
    ensures var ram' := AddPageTable(ram, cr3, directory, phys, virt).value;
            && (forall va: Addr | DirIndex(va) == DirIndex(virt) ::
                  var pte := ram[FrameOf(phys)][TableIndex(va)];
                  Translate(ram', cr3, va) ==
                    if pte.present then Some(Access(pte.frame, pte.rw, false, pte.global)) else None)
            && (forall va: Addr | DirIndex(va) != DirIndex(virt) && !TableOf(ram, cr3, va, cr3) ::
                  Translate(ram', cr3, va) == Translate(ram, cr3, va))
  {}

  // ---- paging_init ----

  /** The table that maps the first 4 MiB of physical memory. */
  function FirstTable(): (t: Table)
    ensures forall k | 0 <= k < PAGE_TABLE_INDICES :: t[k] == Entry(true, true, false, true, k)
  {
    seq(PAGE_TABLE_INDICES, k requires 0 <= k < PAGE_TABLE_INDICES => Entry(true, true, false, true, k))
  }

  /** Until the new directory is loaded the boot tables map the first 4 MiB at KERNEL_VIRT_BASE and at 0
      (boot/boot.asm), so page k of either is frame k. */
  predicate BootMaps(va: Addr) { DirIndex(va) == KERNEL_DIR || DirIndex(va) == 0 }

  datatype Booted = Booted(ram: Ram, pool: LivePool, cr3: Frame, directory: Addr, pageTable: Addr)

  /** The cleared directory and the first table, written to frames d and t. */
  function FirstTables(ram: Ram, d: Frame, t: Frame): Ram {
    WithTable(WithTable(ram, d, Cleared()), t, FirstTable())
  }

  function FirstDirectory(ram: Ram, d: Frame, t: Frame): Ram {
    WithEntry(ram, d, KERNEL_DIR, Entry(true, true, false, true, t))
  }

  /** paging_init; None is the panic on a NULL pointer, or a page fault on a frame the boot tables do not map. */
  function Init(ram: Ram, pool: LivePool): Option<Booted> {
    InitWith(ram, Alloc(Alloc(pool).0).0, P2V(Alloc(pool).1), P2V(Alloc(Alloc(pool).0).1))
  }

  function InitWith(ram: Ram, pool: LivePool, directory: Addr, table: Addr): Option<Booted> {
    if directory != 0 && table != 0 && BootMaps(directory) && BootMaps(table) then
      var (d, t) := (TableIndex(directory), TableIndex(table));
      Some(Booted(FirstDirectory(FirstTables(ram, d, t), d, FrameOf(V2P(table))), pool, FrameOf(V2P(directory)),
                  directory, table))
    else None
  }

  /** The frame at physical address a has a pointer the boot tables map, and it is not NULL. */
  predicate BootReaches(a: Addr) { a < 0x40_0000 || 0x4000_0000 < a < 0x4040_0000 }

  /** paging_init comes back exactly when both its frames are such. */
  lemma InitReturns(ram: Ram, pool: LivePool)
    ensures Init(ram, pool).Some? <==> BootReaches(Alloc(pool).1) && BootReaches(Alloc(Alloc(pool).0).1)
  {
    hide Alloc;
    var (a1, a2) := (Alloc(pool).1, Alloc(Alloc(pool).0).1);
    BootMapsThese(a1);
    BootMapsThese(a2);
  }

  lemma BootMapsThese(a: Addr)
    ensures P2V(a) != 0 && BootMaps(P2V(a)) <==> BootReaches(a)
  {}

  lemma BackAndForth(a: Addr)
    ensures V2P(P2V(a)) == a
  {}

  /** The kernel's first 4 MiB translate to the first 4 MiB of memory, writable, global and closed to user mode, and
      nothing else translates. */
  ghost predicate MapsKernel(ram: Ram, cr3: Frame) {
    forall va: Addr ::
      Translate(ram, cr3, va) ==
        if DirIndex(va) == KERNEL_DIR then Some(Access(FrameOf(V2P(va)), true, false, true)) else None
  }

  /** paging_init comes back and maps the kernel. */
  ghost predicate InitMaps(ram: Ram, pool: LivePool) {
    Init(ram, pool).Some? && MapsKernel(Init(ram, pool).value.ram, Init(ram, pool).value.cr3)
  }

  /** The directory and the table come from the 1024 frames the boot tables map at their own addresses. */
  predicate LowFrames(pool: LivePool) {
    FrameOf(Alloc(pool).1) < PAGE_TABLE_INDICES && FrameOf(Alloc(Alloc(pool).0).1) < PAGE_TABLE_INDICES
  }

  /** While the pool lasts, paging_init maps the kernel whatever memory held exactly when both frames are among the
      first 1024. Frames 4 GiB - KERNEL_VIRT_BASE higher up get pointers that wrap to the low mapping, and what is
      written through them lands elsewhere. */
  lemma InitMapsKernel(pool: LivePool, some: Ram)
    requires Init(some, pool).Some? && !Alloc(Alloc(pool).0).0.warned
    ensures (forall ram: Ram :: InitMaps(ram, pool)) <==> LowFrames(pool)
  {
    hide Alloc, MapsKernel;
    if LowFrames(pool) {
      forall ram: Ram ensures InitMaps(ram, pool) { InitFromLow(ram, pool); }
    } else {
      var empty: Ram := seq(FRAMES, _ => Cleared());
      InitFromHigh(empty, pool);
    }
  }

  /** What lies at the high frames stays what it was. */
  lemma InitFromHigh(ram: Ram, pool: LivePool)
    requires Init(ram, pool).Some? && !LowFrames(pool) && forall f: Frame :: ram[f] == Cleared()
    ensures !InitMaps(ram, pool)
  {
    hide Alloc;
    var b := Init(ram, pool).value;
    var (a1, a2) := (Alloc(pool).1, Alloc(Alloc(pool).0).1);
    BackAndForth(a1);
    BackAndForth(a2);
    assert Translate(b.ram, b.cr3, KERNEL_VIRT_BASE) == None;
  }

  lemma InitFromLow(ram: Ram, pool: LivePool)
    requires LowFrames(pool) && !Alloc(Alloc(pool).0).0.warned
    ensures InitMaps(ram, pool)
  {
    hide Alloc;
    var p1 := Alloc(pool).0;
    var (a1, a2) := (Alloc(pool).1, Alloc(p1).1);
    TwoFrames(pool);
    BackAndForth(a1);
    BackAndForth(a2);
    KernelIndex(P2V(a1));
    KernelIndex(P2V(a2));
    var (d, t) := (FrameOf(a1), FrameOf(a2));
    var ram' := FirstDirectory(FirstTables(ram, d, t), d, t);
    assert ram'[t] == FirstTable();
    forall va: Addr
      ensures Translate(ram', d, va) ==
              if DirIndex(va) == KERNEL_DIR then Some(Access(FrameOf(V2P(va)), true, false, true)) else None
    {
      if DirIndex(va) == KERNEL_DIR { KernelIndex(va); }
    }
  }

  lemma KernelIndex(va: Addr)
    requires DirIndex(va) == KERNEL_DIR
    ensures TableIndex(va) == FrameOf(V2P(va))
  {}

  lemma TwoFrames(pool: LivePool)
    requires !Alloc(Alloc(pool).0).0.warned
    ensures FrameOf(Alloc(pool).1) != FrameOf(Alloc(Alloc(pool).0).1)
  {
    var p1 := Alloc(pool).0;
    AllocTakesLowest(pool);
    AllocTakesLowest(p1);
    AllocIsFresh(pool);
    AllocIsFresh(p1);
    var (a1, a2) := (Alloc(pool).1, Alloc(p1).1);
    assert p1.Owns(a1) && !p1.Owns(a2);
    assert a1 == a1 / PAGE_SIZE * PAGE_SIZE && a2 == a2 / PAGE_SIZE * PAGE_SIZE;
  }
}
