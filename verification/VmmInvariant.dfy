/** What every state of the virtual page allocator keeps: the tables map themselves, the frames installed from
    the physical allocator are pairwise different, and the block list matches the tables. */
module VmmInvariant {
  import opened Words
  import opened Wrappers
  import opened PhysicalMemory
  import opened Paging
  import opened Vmm

  const SLOT: nat := HIGH_WATER_THRESHOLD  // where a block keeps its successor's page table

  /** What a frame taken from the pool is for. `Slot(i, k)` is page k of block i. */
  datatype Owner = Directory | HeadTable | Slot(block: nat, index: nat) | Other

  type Owners = map<nat, Owner>

  const MAX_BLOCKS: nat := 256

  function DirEntry(ram: Ram, cr3: Frame, i: nat): Entry
    requires i < MAX_BLOCKS
  {
    ram[cr3][KERNEL_DIR + i]
  }

  /** The frame the directory names for block i. */
  function T(ram: Ram, cr3: Frame, i: nat): Frame
    requires i < MAX_BLOCKS
  {
    DirEntry(ram, cr3, i).frame
  }

  /** Entry k of block i's table. */
  function E(ram: Ram, cr3: Frame, i: nat, k: nat): Entry
    requires i < MAX_BLOCKS && k < PAGE_TABLE_INDICES
  {
    ram[T(ram, cr3, i)][k]
  }

  predicate LinksNext(ram: Ram, cr3: Frame, i: nat)
    requires i + 1 < MAX_BLOCKS
  {
    E(ram, cr3, i, SLOT).present && E(ram, cr3, i, SLOT).frame == T(ram, cr3, i + 1)
  }

  /** The virtual address of page k of block i. */
  function PageVa(i: nat, k: nat): nat { KERNEL_VIRT_BASE + i * PAGE_TABLE_RANGE + k * PAGE_SIZE }

  /** The directory entries are there, and each table names the next one in its slot. */
  ghost predicate Linked(ram: Ram, cr3: Frame, n: nat) {
    && 0 < n <= MAX_BLOCKS
    && (forall i: nat | i < n :: DirEntry(ram, cr3, i).present)
    && (forall i: nat | i + 1 < n :: LinksNext(ram, cr3, i))
  }

  /** The first block keeps the identity mapping paging_init gave it, except that its slot is taken over. */
  ghost predicate HeadMapped(ram: Ram, cr3: Frame, n: nat)
    requires 0 < n <= MAX_BLOCKS
  {
    forall k: nat | k < PAGE_TABLE_INDICES ::
      E(ram, cr3, 0, k).present && (k != SLOT || n == 1 ==> E(ram, cr3, 0, k).frame == k)
  }

  /** A later block has exactly the pages below its mark mapped, and its slot once it has a successor. */
  ghost predicate TailMapped(ram: Ram, cr3: Frame, marks: seq<nat>)
    requires |marks| <= MAX_BLOCKS
  {
    forall i: nat, k: nat | 0 < i < |marks| && k < PAGE_TABLE_INDICES ::
      E(ram, cr3, i, k).present <==> k < marks[i] || (k == SLOT && i + 1 < |marks|)
  }

  /** Entry k of block i was installed by paging_map_virtual_page. */
  predicate Installed(ram: Ram, cr3: Frame, n: nat, i: nat, k: nat)
    requires n <= MAX_BLOCKS
  {
    i < n && k < PAGE_TABLE_INDICES && if i == 0 then k == SLOT && 1 < n else E(ram, cr3, i, k).present
  }

  /** Every frame in use has one owner, recorded in `owners`. */
  ghost predicate Owned(ram: Ram, cr3: Frame, n: nat, owners: Owners)
    requires 0 < n <= MAX_BLOCKS
  {
    && cr3 in owners && owners[cr3] == Directory
    && T(ram, cr3, 0) in owners && owners[T(ram, cr3, 0)] == HeadTable
    && (forall i: nat, k: nat | Installed(ram, cr3, n, i, k) ::
          E(ram, cr3, i, k).frame in owners && owners[E(ram, cr3, i, k).frame] == Slot(i, k))
  }

  /** How far above the pool's first frame page k of a later block lies at least: pages are mapped in order,
      except that the slot is mapped just before page 1021. */
  function Rank(k: nat): nat { if k < SLOT then k else k - 1 }

  /** The pool is handed out from the bottom, without gaps. */
  ghost predicate Compact(pool: LivePool) {
    forall p | LowestFree(pool.bitmap, 0, pool.Limit()) <= p < 32 * BITMAP_WORDS :: !Taken(pool.bitmap, p)
  }

  /** The frames with an owner are taken in the physical allocator, and those of a later block rise with the
      page number. */
  ghost predicate FromPool(pool: LivePool, owners: Owners) {
    && Compact(pool) && 2 * PAGE_SIZE <= pool.start
    && (forall f | f in owners :: pool.Owns(f * PAGE_SIZE))
    && (forall f | f in owners && owners[f].Slot? && owners[f].block > 0 ::
          pool.start / PAGE_SIZE + Rank(owners[f].index) <= f)
  }

  /** The page before o in its block is mapped already. */
  ghost predicate Follows(owners: Owners, o: Owner) {
    o.Slot? && o.block > 0 && o.index > 0 ==>
      exists f :: && f in owners && owners[f].Slot? && owners[f].block == o.block
                  && Rank(o.index) <= Rank(owners[f].index) + 1
  }

  ghost predicate TablesOk(ram: Ram, cr3: Frame, marks: seq<nat>, owners: Owners) {
    && Linked(ram, cr3, |marks|) && HeadMapped(ram, cr3, |marks|) && TailMapped(ram, cr3, marks)
    && Owned(ram, cr3, |marks|, owners)
    && cr3 < SLOT && T(ram, cr3, 0) < SLOT
  }

  /** Present entries keep their frames, except the head block's slot. */
  ghost predicate Stable(ram: Ram, ram': Ram, cr3: Frame, n: nat)
    requires n <= MAX_BLOCKS
  {
    forall i: nat, k: nat | i < n && k < PAGE_TABLE_INDICES && E(ram, cr3, i, k).present && (i, k) != (0, SLOT) ::
      E(ram', cr3, i, k) == E(ram, cr3, i, k)
  }

  // ---- the walk ----

  /** The virtual address of block i's page table. */
  function TableVa(ram: Ram, cr3: Frame, i: nat): nat
    requires i < MAX_BLOCKS
  {
    if i == 0 then PageVa(0, T(ram, cr3, 0)) else PageVa(i - 1, SLOT)
  }

  lemma PageIndices(i: nat, k: nat)
    requires i < MAX_BLOCKS && k < PAGE_TABLE_INDICES
    ensures PageVa(i, k) < WORDS && DirIndex(PageVa(i, k)) == KERNEL_DIR + i && TableIndex(PageVa(i, k)) == k
  {
    IndicesSplit(KERNEL_DIR + i, k, 0);
    assert PageVa(i, k) == (KERNEL_DIR + i) * PAGE_TABLE_RANGE + k * PAGE_SIZE + 0;
  }

  lemma WalkPage(ram: Ram, cr3: Frame, n: nat, i: nat, k: nat)
    requires Linked(ram, cr3, n) && i < n && k < PAGE_TABLE_INDICES
    ensures PageVa(i, k) < WORDS
    ensures var e := E(ram, cr3, i, k);
            Walk(ram, cr3, PageVa(i, k)) == if e.present then Some(e.frame) else None
  {
    PageIndices(i, k);
    assert DirEntry(ram, cr3, i).present;
  }

  /** Page-table self-map: each block's page_table pointer translates to the very frame the directory names for
      the block, and the directory's own address translates to the directory. */
  lemma SelfMap(ram: Ram, cr3: Frame, marks: seq<nat>, owners: Owners, i: nat)
    requires TablesOk(ram, cr3, marks, owners) && i < |marks|
    ensures TableVa(ram, cr3, i) < WORDS && Walk(ram, cr3, TableVa(ram, cr3, i)) == Some(T(ram, cr3, i))
    ensures PageVa(0, cr3) < WORDS && Walk(ram, cr3, PageVa(0, cr3)) == Some(cr3)
  {
    WalkPage(ram, cr3, |marks|, 0, cr3);
    if i == 0 {
      WalkPage(ram, cr3, |marks|, 0, T(ram, cr3, 0));
    } else {
      WalkPage(ram, cr3, |marks|, i - 1, SLOT);
      assert LinksNext(ram, cr3, i - 1);
    }
  }

  /** Each table has its own owner, so no two tables share a frame with each other or with the directory. */
  lemma TableOwner(ram: Ram, cr3: Frame, n: nat, owners: Owners, i: nat)
    requires Linked(ram, cr3, n) && Owned(ram, cr3, n, owners) && i < n
    ensures T(ram, cr3, i) in owners
    ensures owners[T(ram, cr3, i)] == if i == 0 then HeadTable else Slot(i - 1, SLOT)
  {
    if i > 0 {
      assert LinksNext(ram, cr3, i - 1) && Installed(ram, cr3, n, i - 1, SLOT);
    }
  }

  lemma TablesDiffer(ram: Ram, cr3: Frame, n: nat, owners: Owners, i: nat, j: nat)
    requires Linked(ram, cr3, n) && Owned(ram, cr3, n, owners) && i < n && j < n
    ensures T(ram, cr3, i) != cr3
    ensures T(ram, cr3, i) == T(ram, cr3, j) ==> i == j
  {
    TableOwner(ram, cr3, n, owners, i);
    TableOwner(ram, cr3, n, owners, j);
  }

  // ---- mapping one page ----

  /** Writing an entry of one table leaves the directory and every other entry alone. */
  lemma EntryLocal(ram: Ram, cr3: Frame, n: nat, owners: Owners, i: nat, k: nat, e: Entry)
    requires Linked(ram, cr3, n) && Owned(ram, cr3, n, owners) && i < n && k < PAGE_TABLE_INDICES
    ensures var ram' := WithEntry(ram, T(ram, cr3, i), k, e);
            && ram'[cr3] == ram[cr3]
            && (forall j: nat | j < MAX_BLOCKS :: DirEntry(ram', cr3, j) == DirEntry(ram, cr3, j))
            && (forall j: nat, l: nat | j < n && l < PAGE_TABLE_INDICES ::
                  E(ram', cr3, j, l) == if (j, l) == (i, k) then e else E(ram, cr3, j, l))
  {
    TablesDiffer(ram, cr3, n, owners, i, i);
    forall j: nat | j < n && j != i
      ensures T(ram, cr3, j) != T(ram, cr3, i)
    {
      TablesDiffer(ram, cr3, n, owners, i, j);
    }
  }

  /** A page above a later block's mark gets a fresh frame: the tables stay in order and no other entry changes. */
  lemma MapFresh(ram: Ram, cr3: Frame, marks: seq<nat>, owners: Owners, i: nat, k: nat, e: Entry)
    requires TablesOk(ram, cr3, marks, owners)
    requires 0 < i < |marks| && k == marks[i] && k < PAGE_TABLE_INDICES && (k == SLOT ==> i + 1 == |marks|)
    requires e.present && e.frame !in owners
    ensures TablesOk(WithEntry(ram, T(ram, cr3, i), k, e), cr3, marks[i := k + 1], owners[e.frame := Slot(i, k)])
    ensures var ram' := WithEntry(ram, T(ram, cr3, i), k, e);
            && (forall j: nat | j < MAX_BLOCKS :: DirEntry(ram', cr3, j) == DirEntry(ram, cr3, j))
            && (forall j: nat, l: nat | j < |marks| && l < PAGE_TABLE_INDICES ::
                  E(ram', cr3, j, l) == if (j, l) == (i, k) then e else E(ram, cr3, j, l))
  {
    var n := |marks|;
    var ram' := WithEntry(ram, T(ram, cr3, i), k, e);
    var (marks', owners') := (marks[i := k + 1], owners[e.frame := Slot(i, k)]);
    EntryLocal(ram, cr3, n, owners, i, k, e);
    forall j: nat | j < n ensures T(ram', cr3, j) == T(ram, cr3, j) && DirEntry(ram', cr3, j).present {
      assert DirEntry(ram', cr3, j) == DirEntry(ram, cr3, j);
    }
    forall j: nat | j + 1 < n ensures LinksNext(ram', cr3, j) {
      assert LinksNext(ram, cr3, j);
      assert j == i ==> k != SLOT;
    }
    forall j: nat, l: nat | Installed(ram', cr3, n, j, l)
      ensures E(ram', cr3, j, l).frame in owners' && owners'[E(ram', cr3, j, l).frame] == Slot(j, l)
    {
      if (j, l) != (i, k) {
        assert Installed(ram, cr3, n, j, l);
      }
    }
  }

  // ---- adding a block ----

  /** Memory after vmm_add_vmm_block: the frame of e in the last block's slot and in the directory, cleared. */
  function Grown(ram: Ram, cr3: Frame, n: nat, e: Entry): Ram
    requires 0 < n < MAX_BLOCKS
  {
    WithTable(WithEntry(WithEntry(ram, T(ram, cr3, n - 1), SLOT, e), cr3, KERNEL_DIR + n,
                        Entry(true, true, false, false, e.frame)),
              e.frame, Cleared())
  }

  lemma GrownLocal(ram: Ram, cr3: Frame, n: nat, owners: Owners, e: Entry)
    requires Linked(ram, cr3, n) && Owned(ram, cr3, n, owners) && n < MAX_BLOCKS && e.frame !in owners
    ensures var ram' := Grown(ram, cr3, n, e);
            && (forall j: nat | j <= n :: DirEntry(ram', cr3, j) ==
                  if j == n then Entry(true, true, false, false, e.frame) else DirEntry(ram, cr3, j))
            && (forall j: nat, l: nat | j <= n && l < PAGE_TABLE_INDICES :: E(ram', cr3, j, l) ==
                  if j == n then EMPTY else if (j, l) == (n - 1, SLOT) then e else E(ram, cr3, j, l))
  {
    var ram' := Grown(ram, cr3, n, e);
    EntryLocal(ram, cr3, n, owners, n - 1, SLOT, e);
    forall j: nat | j <= n
      ensures DirEntry(ram', cr3, j) ==
              if j == n then Entry(true, true, false, false, e.frame) else DirEntry(ram, cr3, j)
    {
      assert j < n ==> DirEntry(WithEntry(ram, T(ram, cr3, n - 1), SLOT, e), cr3, j) == DirEntry(ram, cr3, j);
    }
    forall j: nat | j < n
      ensures T(ram, cr3, j) != e.frame && T(ram, cr3, j) != cr3
    {
      TableOwner(ram, cr3, n, owners, j);
    }
  }

  /** A block more: the tables stay in order, the new one is empty, and only the slot's entry changes. */
  lemma AddTable(ram: Ram, cr3: Frame, marks: seq<nat>, owners: Owners, e: Entry)
    requires TablesOk(ram, cr3, marks, owners) && |marks| < MAX_BLOCKS
    requires |marks| > 1 ==> marks[|marks| - 1] <= SLOT
    requires e.present && e.frame !in owners
    ensures var n := |marks|;
            TablesOk(Grown(ram, cr3, n, e), cr3, marks + [0], owners[e.frame := Slot(n - 1, SLOT)])
    ensures var (n, ram') := (|marks|, Grown(ram, cr3, |marks|, e));
            && (forall j: nat | j < n :: DirEntry(ram', cr3, j) == DirEntry(ram, cr3, j))
            && (forall j: nat, l: nat | j <= n && l < PAGE_TABLE_INDICES :: E(ram', cr3, j, l) ==
                  if j == n then EMPTY else if (j, l) == (n - 1, SLOT) then e else E(ram, cr3, j, l))
  {
    var n := |marks|;
    var ram' := Grown(ram, cr3, n, e);
    var (marks', owners') := (marks + [0], owners[e.frame := Slot(n - 1, SLOT)]);
    GrownLocal(ram, cr3, n, owners, e);
    forall j: nat | j + 1 < n + 1 ensures LinksNext(ram', cr3, j) {
      assert j + 1 < n ==> LinksNext(ram, cr3, j);
      assert DirEntry(ram', cr3, j + 1) ==
             if j + 1 == n then Entry(true, true, false, false, e.frame) else DirEntry(ram, cr3, j + 1);
    }
    forall j: nat, l: nat | Installed(ram', cr3, n + 1, j, l)
      ensures E(ram', cr3, j, l).frame in owners' && owners'[E(ram', cr3, j, l).frame] == Slot(j, l)
    {
      if (j, l) != (n - 1, SLOT) {
        assert Installed(ram, cr3, n, j, l);
      }
    }
  }

  // ---- writes that miss the kernel's tables ----

  /** The frame is neither the directory nor a block's table. */
  ghost predicate NoTable(ram: Ram, cr3: Frame, n: nat, f: Frame)
    requires n <= MAX_BLOCKS
  {
    f != cr3 && forall j: nat | j < n :: T(ram, cr3, j) != f
  }

  /** Overwriting a frame that holds no kernel table changes no kernel mapping. */
  lemma FillKeeps(ram: Ram, cr3: Frame, marks: seq<nat>, owners: Owners, f: Frame, t: Table)
    requires TablesOk(ram, cr3, marks, owners) && NoTable(ram, cr3, |marks|, f)
    ensures TablesOk(WithTable(ram, f, t), cr3, marks, owners)
    ensures forall j: nat | j < MAX_BLOCKS :: DirEntry(WithTable(ram, f, t), cr3, j) == DirEntry(ram, cr3, j)
  {
    var ram' := WithTable(ram, f, t);
    assert ram'[cr3] == ram[cr3];
    forall j: nat, k: nat | j < |marks| && k < PAGE_TABLE_INDICES ensures E(ram', cr3, j, k) == E(ram, cr3, j, k) {
      assert DirEntry(ram', cr3, j) == DirEntry(ram, cr3, j);
    }
    SameTables(ram, ram', cr3, marks, owners);
  }

  lemma SameTables(ram: Ram, ram': Ram, cr3: Frame, marks: seq<nat>, owners: Owners)
    requires TablesOk(ram, cr3, marks, owners)
    requires forall j: nat | j < |marks| :: DirEntry(ram', cr3, j) == DirEntry(ram, cr3, j)
    requires forall j: nat, k: nat | j < |marks| && k < PAGE_TABLE_INDICES :: E(ram', cr3, j, k) == E(ram, cr3, j, k)
    ensures TablesOk(ram', cr3, marks, owners)
  {
    var n := |marks|;
    forall j: nat | j < n ensures DirEntry(ram', cr3, j).present && T(ram', cr3, j) == T(ram, cr3, j) {
      assert DirEntry(ram', cr3, j) == DirEntry(ram, cr3, j) && DirEntry(ram, cr3, j).present;
    }
    forall j: nat | j + 1 < n ensures LinksNext(ram', cr3, j) {
      assert LinksNext(ram, cr3, j);
    }
    forall j: nat, k: nat | Installed(ram', cr3, n, j, k)
      ensures E(ram', cr3, j, k).frame in owners && owners[E(ram', cr3, j, k).frame] == Slot(j, k)
    {
      assert Installed(ram, cr3, n, j, k);
    }
  }

  /** Some ownership of frames makes the tables good. */
  ghost predicate TablesStand(ram: Ram, cr3: Frame, marks: seq<nat>) {
    exists owners :: TablesOk(ram, cr3, marks, owners)
  }

  /** A store to a frame keeps the tables good whatever is stored exactly when the frame holds none of them. */
  lemma StoreKeepsExactly(ram: Ram, cr3: Frame, marks: seq<nat>, owners: Owners, f: Frame)
    requires TablesOk(ram, cr3, marks, owners)
    ensures (forall k: nat, e: Entry | k < PAGE_TABLE_INDICES :: TablesStand(WithEntry(ram, f, k, e), cr3, marks))
            <==> NoTable(ram, cr3, |marks|, f)
  {
    if NoTable(ram, cr3, |marks|, f) {
      forall k: nat, e: Entry | k < PAGE_TABLE_INDICES ensures TablesStand(WithEntry(ram, f, k, e), cr3, marks) {
        FillKeeps(ram, cr3, marks, owners, f, ram[f][k := e]);
        assert WithEntry(ram, f, k, e) == WithTable(ram, f, ram[f][k := e]);
      }
    } else if f == cr3 {
      StoreUnlinks(ram, cr3, marks, owners);
    } else {
      var j: nat :| j < |marks| && T(ram, cr3, j) == f;
      StoreUnmaps(ram, cr3, marks, owners, j);
    }
  }

  lemma StoreUnlinks(ram: Ram, cr3: Frame, marks: seq<nat>, owners: Owners)
    requires TablesOk(ram, cr3, marks, owners)
    ensures !TablesStand(WithEntry(ram, cr3, KERNEL_DIR, EMPTY), cr3, marks)
  {
    assert DirEntry(WithEntry(ram, cr3, KERNEL_DIR, EMPTY), cr3, 0) == EMPTY;
  }

  /** The first entry of a table with its presence the other way round. */
  function Flipped(e: Entry): Entry { e.(present := !e.present) }

  lemma StoreUnmaps(ram: Ram, cr3: Frame, marks: seq<nat>, owners: Owners, j: nat)
    requires TablesOk(ram, cr3, marks, owners) && j < |marks|
    ensures !TablesStand(WithEntry(ram, T(ram, cr3, j), 0, Flipped(E(ram, cr3, j, 0))), cr3, marks)
  {
    var e := Flipped(E(ram, cr3, j, 0));
    EntryLocal(ram, cr3, |marks|, owners, j, 0, e);
    assert E(WithEntry(ram, T(ram, cr3, j), 0, e), cr3, j, 0) == e;
  }
}
