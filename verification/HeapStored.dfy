/** The stored word, the third of a block: kmalloc hands a block out through it when it cannot split it, and nothing
    restores it. Which blocks have it right along a run. */
module HeapStored {
  import opened Words
  import opened Wrappers
  import opened FreeList
  import opened HeapMemory
  import opened HeapRuns
  import opened HeapGrowth
  import opened KernelHeap
  import opened HeapWords

  /** The third word of the block at a points past its header. */
  predicate Stored(m: Memory, a: nat) { Read(m, a + 8) == a + 8 }

  /** The size of the listed block at a, 0 for none. */
  function SizeAt(bs: seq<Block>, a: nat): nat {
    if bs == [] then 0 else if bs[0].addr == a then bs[0].size else SizeAt(bs[1..], a)
  }

  /** The third word of a listed block of 16 bytes is covered and no header word. */
  lemma {:induction false} InsideListed(bs: seq<Block>, a: nat)
    requires Canonical(bs) && InMemory(bs) && SizeAt(bs, a) >= 16
    ensures a % 8 == 0 && Covers(bs, a + 8) && !IsHeaderWord(bs, a + 8)
    ensures bs != [] && bs[0].addr <= a
  {
    if bs[0].addr == a {
      assert bs[0].Has(a + 8);
      if IsHeaderWord(bs[1..], a + 8) {
        HeaderWordCovered(bs[1..], a + 8);
        CoveredAbove(bs[1..], a + 8);
      }
    } else {
      InsideListed(bs[1..], a);
    }
  }

  // ---- what the calls write ----

  /** kfree writes headers of listed blocks and of its own. */
  lemma FreeWritesHeaders(m: Memory, bs: seq<Block>, b: nat, x: nat)
    requires InMemory(bs) && x % 8 == 0 && b % 8 == 0 && x != b && !IsHeaderWord(bs, x)
    ensures Read(FreeWrites(m, bs, b), x) == Read(m, x)
  {
    var k := Place(bs, b);
    if k > 0 {
      InMemoryAt(bs, k - 1);
      ListedIsCovered(bs, k - 1);
    }
  }

  /** A split leaves the third words of listed blocks alone. */
  lemma {:induction false} SplitKeepsStored(m: Memory, bs: seq<Block>, k: nat, n: nat, a: nat)
    requires Canonical(bs) && InMemory(bs) && k < |bs| && Splits(bs[k], n) && SizeAt(bs, a) >= 16
    ensures Read(SplitWrites(m, bs[k], n), a + 8) == Read(m, a + 8) && SizeAt(SplitAt(bs, k, n), a) >= 16
  {
    InsideListed(bs, a);
    if k > 0 && bs[0].addr != a {
      SplitKeepsStored(m, bs[1..], k - 1, n, a);
      assert SplitAt(bs, k, n)[1..] == SplitAt(bs[1..], k - 1, n);
    } else if k > 0 {
      Ascending(bs, k);
    } else if bs[0].addr != a {
      InsideListed(bs[1..], a);
      assert SplitAt(bs, k, n)[1..] == bs[1..];
    }
  }

  /** kfree leaves a listed block, makes it larger, or makes it part of the one before. */
  lemma {:induction false} ReleaseSizes(bs: seq<Block>, b: Block, a: nat)
    requires Canonical(bs) && b.size > 0 && Clear(b, bs) && a != b.addr
    ensures SizeAt(Release(bs, b), a) == 0 || SizeAt(Release(bs, b), a) >= SizeAt(bs, a) > 0
  {
    hide Canonical, Clear;
    if bs != [] { ClearTail(bs, b); }
    if bs == [] || b.addr < bs[0].addr {
      AttachSizes(b, bs, a);
    } else {
      var r := Release(bs[1..], b);
      ReleaseSizes(bs[1..], b, a);
      ReleaseCanonical(bs[1..], b);
      AttachSizes(bs[0], r, a);
    }
  }

  lemma ClearTail(bs: seq<Block>, b: Block)
    requires Canonical(bs) && bs != [] && b.size > 0 && Clear(b, bs)
    ensures bs[0].size > 0 && Canonical(bs[1..]) && Clear(b, bs[1..])
  {
    ClearIsApart(b, bs);
  }

  lemma AttachSizes(b: Block, right: seq<Block>, a: nat)
    requires Canonical(right)
    ensures a == b.addr ==> SizeAt(Attach(b, right), a) >= b.size
    ensures a != b.addr ==> SizeAt(Attach(b, right), a) == 0 || SizeAt(Attach(b, right), a) == SizeAt(right, a)
  {
    var r := Attach(b, right);
    if right != [] && b.End() == right[0].addr {
      assert r[1..] == right[1..];
      if a == right[0].addr { ListedOnce(right, right[0].addr); }
    } else {
      assert r[1..] == right;
    }
  }

  /** Behind the head every block starts above it. */
  lemma {:induction false} ListedOnce(bs: seq<Block>, a: nat)
    requires Canonical(bs) && bs != [] && a <= bs[0].addr
    ensures SizeAt(bs[1..], a) == 0
    decreases |bs|
  {
    if |bs| > 1 { ListedOnce(bs[1..], a); }
  }

  // ---- one call ----

  /** A block of the list or of a client with a third word of its own. */
  predicate Held(h: Heap, a: nat) {
    SizeAt(h.free, a) >= 16 || (a in h.live && h.live[a] >= 16)
  }

  lemma {:induction false} ListHeld(bs: seq<Block>, a: nat, x: nat)
    requires Canonical(bs) && SizeAt(bs, a) > 0 && a <= x < a + SizeAt(bs, a)
    ensures Covers(bs, x)
  {
    if bs[0].addr != a { ListHeld(bs[1..], a, x); }
  }

  lemma FreeKeepsStored(s: State, ptr: Addr, a: nat)
    requires Good(s, 8) && ptr > 0 && ptr - HEADER in s.space.heap.live && Held(s.space.heap, a)
    ensures Read(FreeWrites(s.memory, s.space.heap.free, ptr - HEADER), a + 8) == Read(s.memory, a + 8)
  {
    hide Canonical, InMemory, Path, FreeWrites;
    var h := s.space.heap;
    var b := h.LiveBlock(ptr - HEADER);
    TilesCanonical(h, s.space.region, 8);
    if SizeAt(h.free, a) >= 16 {
      InsideListed(h.free, a);
      assert b.Has(b.addr);
    } else {
      assert h.LiveBlock(a).Has(a + 8);
      if IsHeaderWord(h.free, a + 8) { HeaderWordCovered(h.free, a + 8); }
      assert a != b.addr ==> h.LiveBlock(a).Apart(b);
    }
    FreeWritesHeaders(s.memory, h.free, b.addr, a + 8);
  }

  lemma MallocKeepsStored(s: State, size: Addr, a: nat)
    requires Good(s, 8) && size > 0 && Serves(s.space.heap.free, Rounded(size)) && Spares(s.space.heap, Rounded(size))
    requires Held(s.space.heap, a)
    ensures var (k, n) := (FirstFit(s.space.heap.free, Rounded(size)), Rounded(size));
            Read(SplitWrites(s.memory, s.space.heap.free[k], n), a + 8) == Read(s.memory, a + 8)
  {
    hide Canonical, InMemory, Path, SplitWrites, Tiles;
    var h := s.space.heap;
    var (k, n) := (FirstFit(h.free, Rounded(size)), Rounded(size));
    TilesCanonical(h, s.space.region, 8);
    RoundedHolds(size);
    if SizeAt(h.free, a) >= 16 {
      SplitKeepsStored(s.memory, h.free, k, n, a);
    } else {
      SplitSeparate(s.memory, h, k, n);
      assert h.LiveBlock(a).Has(a + 8);
    }
  }

  lemma FetchKeepsStored(s: State, size: Addr, page: Addr, a: nat)
    requires Good(s, 8) && Grow(s.space, ByPage(size, page)).Some? && Held(s.space.heap, a)
    ensures Read(AppendWrites(s.memory, s.space.tail, page), a + 8) == Read(s.memory, a + 8)
  {
    hide Canonical, InMemory, Path, Tiles, Outside;
    var (h, block) := (s.space.heap, Block(page, PAGE_SIZE));
    TilesCanonical(h, s.space.region, 8);
    PageApart(s, block, 8);
    if SizeAt(h.free, a) >= 16 {
      InsideListed(h.free, a);
      assert block.Has(page) && block.Has(page + LINK) && block.Has(page + FREE_MEMORY);
    } else {
      assert h.LiveBlock(a).Has(a + 8);
      AppendSpares(s, block, 8, a, a + 8);
    }
  }

  /** Only a client's store changes the third word of a listed or a live block. */
  lemma CallKeepsStored(s: State, call: Call, a: nat)
    requires Good(s, 8) && SparesCall(s.space, call) && Do(s, call).Some? && Held(s.space.heap, a)
    ensures (call.Store? && call.addr == a + 8) || Read(Do(s, call).value.memory, a + 8) == Read(s.memory, a + 8)
  {
    hide Good, KeepsWords, Spares, SplitWrites, AppendWrites, FreeWrites, Path, Tiles;
    CallKeeps(s, call, 8);
    match call {
      case ByList(Free(ptr)) => if ptr > 0 { FreeKeepsStored(s, ptr, a); }
      case ByList(Malloc(size)) => if size > 0 { MallocKeepsStored(s, size, a); }
      case ByPage(size, page) => FetchKeepsStored(s, size, page, a);
      case Store(_, _, _) =>
    }
  }

  // ---- a block that stays on the list ----

  lemma {:induction false} SizeInJoin(bs: seq<Block>, b: Block, a: nat)
    ensures SizeAt(bs, a) > 0 ==> SizeAt(bs + [b], a) == SizeAt(bs, a)
    ensures SizeAt(bs, a) == 0 ==> SizeAt(bs + [b], a) == 0 || SizeAt(bs + [b], a) == b.size
    ensures SizeAt(bs, a) == 0 && a != b.addr ==> SizeAt(bs + [b], a) == 0
  {
    if bs == [] {
      assert [b][1..] == [];
    } else {
      assert (bs + [b])[1..] == bs[1..] + [b];
      SizeInJoin(bs[1..], b, a);
    }
  }

  /** A listed block of 16 bytes has as much after the call, unless it is no longer listed. */
  lemma CallKeepsSize(s: State, call: Call, a: nat)
    requires Good(s, 8) && SparesCall(s.space, call) && Do(s, call).Some? && SizeAt(s.space.heap.free, a) >= 16
    ensures var size := SizeAt(Do(s, call).value.space.heap.free, a); size == 0 || size >= 16
  {
    hide Good, KeepsWords, Spares, SplitWrites, AppendWrites, FreeWrites, Path, Tiles, Release, SparesCall;
    CallKeeps(s, call, 8);
    GoodList(s);
    var h := s.space.heap;
    match call {
      case ByList(Free(ptr)) => if ptr > 0 { FreeKeepsSize(s, ptr, a); }
      case ByList(Malloc(size)) =>
        if size > 0 { SplitKeepsStored(s.memory, h.free, FirstFit(h.free, Rounded(size)), Rounded(size), a); }
      case ByPage(size, page) =>
        AppendKeepsAll(h.free, s.space.tail, page);
        SizeInJoin(h.free, Block(page, PAGE_SIZE), a);
      case Store(_, _, _) =>
    }
  }

  lemma GoodList(s: State)
    requires Good(s, 8)
    ensures Canonical(s.space.heap.free) && InMemory(s.space.heap.free) && s.space.heap.free != []
  {}

  lemma FreeKeepsSize(s: State, ptr: Addr, a: nat)
    requires Good(s, 8) && ptr > 0 && ptr - HEADER in s.space.heap.live && SizeAt(s.space.heap.free, a) >= 16
    ensures var size := SizeAt(Release(s.space.heap.free, s.space.heap.LiveBlock(ptr - HEADER)), a);
            size == 0 || size >= 16
  {
    var b := s.space.heap.LiveBlock(ptr - HEADER);
    InsideListed(s.space.heap.free, a);
    ListHeld(s.space.heap.free, a, a);
    assert b.Has(b.addr);
    ReleaseSizes(s.space.heap.free, b, a);
  }

  /** The block at a is on the list at every point of the run. */
  predicate StaysListed(s: State, calls: seq<Call>, a: nat)
    decreases |calls|
  {
    && SizeAt(s.space.heap.free, a) > 0
    && (calls != [] && Do(s, calls[0]).Some? ==> StaysListed(Do(s, calls[0]).value, calls[1..], a))
  }

  /** A block that stays on the list keeps its third word, whatever clients store and whatever it merges with. */
  lemma {:induction false} ListedKeepsStored(s: State, calls: seq<Call>, a: nat)
    requires Good(s, 8) && Guarded(s.space, calls) && DoRun(s, calls).Some? && StaysListed(s, calls, a)
    requires SizeAt(s.space.heap.free, a) >= 16 && Stored(s.memory, a)
    ensures var s' := DoRun(s, calls).value; SizeAt(s'.space.heap.free, a) >= 16 && Stored(s'.memory, a)
    decreases |calls|
  {
    hide Good, Do, Grow, SparesCall;
    if calls != [] {
      CallKeeps(s, calls[0], 8);
      CallKeepsStored(s, calls[0], a);
      CallKeepsSize(s, calls[0], a);
      StoreMisses(s, calls[0], a);
      ListedKeepsStored(Do(s, calls[0]).value, calls[1..], a);
    }
  }

  /** No client holds it. */
  lemma StoreMisses(s: State, call: Call, a: nat)
    requires Good(s, 8) && Do(s, call).Some? && SizeAt(s.space.heap.free, a) >= 16
    ensures !(call.Store? && call.addr == a + 8)
  {
    if call.Store? {
      InsideListed(s.space.heap.free, a);
      assert s.space.heap.LiveBlock(call.owner).Has(call.addr);
    }
  }

  /** A page joins with its third word right. */
  lemma PageIsStored(s: State, size: Addr, page: Addr)
    requires Good(s, 8) && Do(s, ByPage(size, page)).Some?
    ensures var s' := Do(s, ByPage(size, page)).value;
            SizeAt(s'.space.heap.free, page) == 4096 && Stored(s'.memory, page)
  {
    hide Path, InMemory, Covers, Outside;
    var (free, block) := (s.space.heap.free, Block(page, PAGE_SIZE));
    PageIsAligned(page / PAGE_SIZE);
    AppendedWords(s.memory, s.space.tail, page);
    PageApart(s, block, 8);
    TilesCanonical(s.space.heap, s.space.region, 8);
    AppendKeepsAll(free, s.space.tail, page);
    assert block.Has(page);
    if SizeAt(free, page) > 0 { ListHeld(free, page, page); }
    SizeAtLast(free, block);
  }

  lemma {:induction false} SizeAtLast(bs: seq<Block>, b: Block)
    requires Canonical(bs) && SizeAt(bs, b.addr) == 0
    ensures SizeAt(bs + [b], b.addr) == b.size
  {
    if bs == [] {
      assert [b][1..] == [];
    } else {
      assert (bs + [b])[1..] == bs[1..] + [b];
      SizeAtLast(bs[1..], b);
    }
  }

  // ---- the arena ----

  /** The arena heads the list and nothing the heap was given lies below it. */
  ghost predicate Led(s: State, arena: nat) {
    && s.space.heap.free != [] && s.space.heap.free[0].addr == arena
    && forall x: nat | Covers(s.space.region, x) :: arena <= x
  }

  lemma CallLeads(s: State, call: Call, arena: nat)
    requires Good(s, 8) && SparesCall(s.space, call) && Do(s, call).Some? && Led(s, arena)
    ensures Led(Do(s, call).value, arena)
  {
    hide Good, KeepsWords, Spares, SplitWrites, AppendWrites, FreeWrites, Path, Tiles, Release, SparesCall, Canonical;
    CallKeeps(s, call, 8);
    GoodList(s);
    match call {
      case ByList(Free(ptr)) => if ptr > 0 { FreeLeads(s, ptr, arena); }
      case ByList(Malloc(size)) =>
      case ByPage(size, page) => FetchLeads(s, size, page, arena);
      case Store(_, _, _) =>
    }
  }

  lemma FreeLeads(s: State, ptr: Addr, arena: nat)
    requires Good(s, 8) && ptr > 0 && ptr - HEADER in s.space.heap.live && Led(s, arena)
    ensures Release(s.space.heap.free, s.space.heap.LiveBlock(ptr - HEADER))[0].addr == arena
  {
    var h := s.space.heap;
    var b := h.LiveBlock(ptr - HEADER);
    assert b.Has(b.addr) && LiveHas(h, b.addr);
    ReleaseCanonical(h.free, b);
  }

  lemma FetchLeads(s: State, size: Addr, page: Addr, arena: nat)
    requires Good(s, 8) && Grow(s.space, ByPage(size, page)).Some? && Led(s, arena)
    ensures var g := Grow(s.space, ByPage(size, page)).value;
            && g.heap.free != [] && g.heap.free[0].addr == arena
            && forall x: nat | Covers(g.region, x) :: arena <= x
  {
    var (free, block) := (s.space.heap.free, Block(page, PAGE_SIZE));
    AppendKeepsAll(free, s.space.tail, page);
    if |free| > 1 { Ascending(free, |free| - 1); }
    forall x: nat | Covers(s.space.region + [block], x) ensures arena <= x {
      CoversJoin(s.space.region, [block], x);
      assert [block][1..] == [];
    }
  }

  lemma {:induction false} ArenaStays(s: State, calls: seq<Call>, arena: nat)
    requires Good(s, 8) && Guarded(s.space, calls) && DoRun(s, calls).Some? && Led(s, arena)
    ensures StaysListed(s, calls, arena) && Led(DoRun(s, calls).value, arena)
    decreases |calls|
  {
    hide Good, Do, Grow, SparesCall;
    assert SizeAt(s.space.heap.free, arena) > 0 by { HeadSize(s); }
    if calls != [] {
      CallKeeps(s, calls[0], 8);
      CallLeads(s, calls[0], arena);
      ArenaStays(Do(s, calls[0]).value, calls[1..], arena);
    }
  }

  lemma HeadSize(s: State)
    requires Good(s, 8)
    ensures s.space.heap.free != [] && SizeAt(s.space.heap.free, s.space.heap.free[0].addr) > 0
  {}

  /** In every guarded run from kmalloc_init the arena heads the list with its third word right, so a request it
      serves unsplit gets the address behind the arena's header. */
  lemma ArenaGrant(arena: nat, calls: seq<Call>, n: nat)
    requires 0 < arena && arena % 8 == 0 && arena + ARENA <= WORDS
    requires Guarded(Start(arena).space, calls) && DoRun(Start(arena), calls).Some?
    ensures var s := DoRun(Start(arena), calls).value;
            && s.space.heap.free != [] && s.space.heap.free[0].addr == arena && Read(s.memory, arena + 8) == arena + 8
            && (n + 8 <= s.space.heap.free[0].size < n + 40 ==>
                  FirstFit(s.space.heap.free, n) == 0 && Grant(s.memory, s.space.heap.free, n).0 == arena + 8)
  {
    hide Good, Guarded, DoRun;
    StartIsGood(arena);
    InitialTiles(arena);
    ArenaStays(Start(arena), calls, arena);
    ListedKeepsStored(Start(arena), calls, arena);
  }

  // ---- every block, in runs without a wrapped request ----

  lemma OrdinarySpares(s: State, call: Call)
    requires OrdinaryCall(call)
    ensures SparesCall(s.space, call)
  {
    if call.ByList? && call.op.Malloc? { RoundedHolds(call.op.size); }
  }

  lemma {:induction false} SmallerLeast(bs: seq<Block>, a: nat)
    requires AllWellSized(bs, 16)
    ensures AllWellSized(bs, 8) && (SizeAt(bs, a) > 0 ==> SizeAt(bs, a) >= 16)
  {
    if bs != [] { SmallerLeast(bs[1..], a); }
  }

  lemma GoodOfSixteen(s: State)
    requires Good(s, 16)
    ensures Good(s, 8)
  {
    SmallerLeast(s.space.heap.free, 0);
  }

  lemma FreedWasHeld(s: State, ptr: Addr, a: nat)
    requires Good(s, 16) && ptr > 0 && ptr - HEADER in s.space.heap.live
    requires var (h, b) := (s.space.heap, s.space.heap.LiveBlock(ptr - HEADER));
             Held(Heap(Release(h.free, b), h.live - {b.addr}), a)
    ensures Held(s.space.heap, a)
  {
    var h := s.space.heap;
    var b := h.LiveBlock(ptr - HEADER);
    SmallerLeast(h.free, a);
    if a != b.addr { ReleaseSizes(h.free, b, a); }
  }

  lemma {:induction false} SplitShrinks(bs: seq<Block>, k: nat, n: nat, a: nat)
    requires k < |bs| && Splits(bs[k], n)
    ensures SizeAt(SplitAt(bs, k, n), a) <= SizeAt(bs, a)
  {
    if k > 0 {
      SplitShrinks(bs[1..], k - 1, n, a);
      assert SplitAt(bs, k, n)[1..] == SplitAt(bs[1..], k - 1, n);
    } else {
      assert SplitAt(bs, k, n)[1..] == bs[1..];
    }
  }

  lemma GrantedIsStored(s: State, size: Addr, a: nat)
    requires size > 0 && Do(s, ByList(Malloc(size))).Some?
    requires Held(Do(s, ByList(Malloc(size))).value.space.heap, a) && !Held(s.space.heap, a)
    ensures Stored(Do(s, ByList(Malloc(size))).value.memory, a)
  {
    hide SplitWrites, FirstFit, SplitAt;
    var (k, n) := (FirstFit(s.space.heap.free, Rounded(size)), Rounded(size));
    SplitShrinks(s.space.heap.free, k, n, a);
    SplitWords(s.memory, s.space.heap.free[k], n);
  }

  lemma JoinedIsStored(s: State, size: Addr, page: Addr, a: nat)
    requires Good(s, 8) && Do(s, ByPage(size, page)).Some?
    requires Held(Do(s, ByPage(size, page)).value.space.heap, a) && !Held(s.space.heap, a)
    ensures Stored(Do(s, ByPage(size, page)).value.memory, a)
  {
    hide Good, AppendWrites, FirstFit;
    GoodList(s);
    PageIsStored(s, size, page);
    AppendKeepsAll(s.space.heap.free, s.space.tail, page);
    SizeInJoin(s.space.heap.free, Block(page, PAGE_SIZE), a);
  }

  /** Blocks that were not there before the call have their third word right. */
  lemma NewIsStored(s: State, call: Call, a: nat)
    requires Good(s, 16) && OrdinaryCall(call) && Do(s, call).Some?
    requires Held(Do(s, call).value.space.heap, a) && !Held(s.space.heap, a)
    ensures Stored(Do(s, call).value.memory, a)
  {
    hide Good, KeepsWords, Spares, SplitWrites, AppendWrites, FreeWrites, Path, Tiles, Release, Canonical, FirstFit;
    OrdinarySpares(s, call);
    CallKeeps(s, call, 16);
    GoodOfSixteen(s);
    match call {
      case ByList(Free(ptr)) => if ptr > 0 { FreedWasHeld(s, ptr, a); }
      case ByList(Malloc(size)) => if size > 0 { GrantedIsStored(s, size, a); }
      case ByPage(size, page) => JoinedIsStored(s, size, page, a);
      case Store(_, _, _) =>
    }
  }

  /** A client of the run stored to the word. */
  predicate WrittenTo(calls: seq<Call>, x: nat) {
    exists i | 0 <= i < |calls| :: calls[i].Store? && calls[i].addr == x
  }

  /** Every block's third word is right, or a client's. */
  ghost predicate StoredOr(s: State, touched: set<nat>) {
    forall a: nat | Held(s.space.heap, a) :: Stored(s.memory, a) || a + 8 in touched
  }

  function Touches(call: Call): set<nat> { if call.Store? then {call.addr} else {} }

  lemma CallStoredOr(s: State, call: Call, touched: set<nat>)
    requires Good(s, 16) && OrdinaryCall(call) && Do(s, call).Some? && StoredOr(s, touched)
    ensures StoredOr(Do(s, call).value, touched + Touches(call))
  {
    hide Good, Do;
    var s' := Do(s, call).value;
    forall a: nat | Held(s'.space.heap, a) ensures Stored(s'.memory, a) || a + 8 in touched + Touches(call) {
      if Held(s.space.heap, a) {
        OrdinarySpares(s, call);
        GoodOfSixteen(s);
        CallKeepsStored(s, call, a);
      } else {
        NewIsStored(s, call, a);
      }
    }
  }

  lemma {:induction false} RunStoredOr(s: State, calls: seq<Call>, touched: set<nat>) returns (all: set<nat>)
    requires Good(s, 16) && DoRun(s, calls).Some? && StoredOr(s, touched)
    requires forall i | 0 <= i < |calls| :: OrdinaryCall(calls[i])
    ensures StoredOr(DoRun(s, calls).value, all)
    ensures forall x | x in all :: x in touched || WrittenTo(calls, x)
    decreases |calls|
  {
    hide Good, Do, StoredOr;
    all := touched;
    if calls != [] {
      OrdinarySpares(s, calls[0]);
      CallKeeps(s, calls[0], 16);
      CallStoredOr(s, calls[0], touched);
      all := RunStoredOr(Do(s, calls[0]).value, calls[1..], touched + Touches(calls[0]));
      forall x | x in all ensures x in touched || WrittenTo(calls, x) {
        if WrittenTo(calls[1..], x) {
          var i :| 0 <= i < |calls[1..]| && calls[1..][i].Store? && calls[1..][i].addr == x;
          assert calls[i + 1].Store? && calls[i + 1].addr == x;
        } else if x !in touched {
          assert calls[0].Store? && calls[0].addr == x;
        }
      }
    }
  }

  /** In every run from kmalloc_init without a wrapped request, an unsplit grant returns the address behind the
      block's header unless a client once stored to the block's third word. */
  lemma UnsplitGrant(arena: nat, calls: seq<Call>, n: nat, k: nat)
    requires 0 < arena && arena % 8 == 0 && arena + ARENA <= WORDS && n % 8 == 0
    requires DoRun(Start(arena), calls).Some? && forall i | 0 <= i < |calls| :: OrdinaryCall(calls[i])
    requires k == FirstFit(DoRun(Start(arena), calls).value.space.heap.free, n)
    requires k < |DoRun(Start(arena), calls).value.space.heap.free|
    ensures var s := DoRun(Start(arena), calls).value;
            var b := s.space.heap.free[k];
            b.size < n + 40 && !WrittenTo(calls, b.addr + 8) ==>
              Grant(s.memory, s.space.heap.free, n).0 == b.addr + 8
  {
    hide Good, DoRun, FirstFit;
    StartIsGood(arena);
    OrdinaryIsGuarded(Start(arena).space, calls);
    RunOnWords(Start(arena), calls, 16);
    StartStored(arena);
    var all := RunStoredOr(Start(arena), calls, {});
    var s := DoRun(Start(arena), calls).value;
    GoodOfSixteen(s);
    GoodList(s);
    GoodSizes(s, k);
  }

  lemma StartStored(arena: nat)
    ensures StoredOr(Start(arena), {})
  {
    assert Arena(arena)[1..] == [];
    assert forall a: nat | a != arena :: SizeAt(Arena(arena), a) == 0;
  }

  lemma GoodSizes(s: State, k: nat)
    requires Good(s, 16) && k < |s.space.heap.free|
    ensures Held(s.space.heap, s.space.heap.free[k].addr)
  {
    SizeOfListed(s.space.heap.free, k);
  }

  lemma {:induction false} SizeOfListed(bs: seq<Block>, k: nat)
    requires AllWellSized(bs, 16) && k < |bs|
    ensures SizeAt(bs, bs[k].addr) >= 16
  {
    if bs[0].addr != bs[k].addr { SizeOfListed(bs[1..], k - 1); }
  }
}
