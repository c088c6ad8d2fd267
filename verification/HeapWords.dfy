/** Whole runs of kmalloc, kfree and their clients on the words of memory, where kfree reads the size of a block
    from its header. */
module HeapWords {
  import opened Words
  import opened Wrappers
  import opened FreeList
  import opened HeapMemory
  import opened HeapRuns
  import opened HeapGrowth
  import opened KernelHeap

  /** The words, and what they amount to: the list they link and the blocks handed out. */
  datatype State = State(memory: Memory, space: Space)

  /** One call. kmalloc goes by the list; kfree goes by the size word of the block it is given. */
  function Do(s: State, call: Call): Option<State> {
    match call
    case ByList(Free(ptr)) => Kfreed(s, ptr)
    case _ =>
      match Grow(s.space, call)
      case None => None
      case Some(g) => Some(State(Written(s.memory, s.space, call), g))
  }

  /** What a call other than kfree writes. */
  function Written(m: Memory, g: Space, call: Call): Memory {
    match call
    case ByList(Malloc(size)) =>
      var k := FirstFit(g.heap.free, Rounded(size));
      if size > 0 && k < |g.heap.free| && Splits(g.heap.free[k], Rounded(size))
      then SplitWrites(m, g.heap.free[k], Rounded(size)) else m
    case ByList(Free(_)) => m
    case ByPage(_, page) => AppendWrites(m, g.tail, page)
    case Store(_, a, w) => m[a := w]
  }

  function Kfreed(s: State, ptr: Addr): Option<State> {
    var (m, g) := (s.memory, s.space);
    if ptr == 0 then Some(s)
    else if ptr - HEADER in g.heap.live then
      var b := Block(ptr - HEADER, Read(m, ptr - HEADER));
      Some(State(FreeWrites(m, g.heap.free, b.addr),
                 Space(Heap(AfterFree(g.heap.free, b), g.heap.live - {b.addr}), FreeTail(g.heap.free, b, g.tail),
                       g.region)))
    else None
  }

  function DoRun(s: State, calls: seq<Call>): Option<State>
    decreases |calls|
  {
    if calls == [] then Some(s)
    else match Do(s, calls[0])
      case None => None
      case Some(s') => DoRun(s', calls[1..])
  }

  /** The words link the list, every live header is in place, and live and free blocks tile what the heap was
      given. */
  ghost predicate Good(s: State, least: nat) {
    var h := s.space.heap;
    && Tiles(h, s.space.region, least) && SeparateIn(s.memory, h)
    && h.free != [] && InMemory(h.free) && Path(s.memory, h.free[0].addr, h.free, 0)
    && s.space.tail % 8 == 0
  }

  predicate SparesCall(g: Space, call: Call) {
    call.ByList? && call.op.Malloc? && call.op.size > 0 ==> Spares(g.heap, Rounded(call.op.size))
  }

  /** Every wrapped request of the run spares the live headers. */
  predicate Guarded(g: Space, calls: seq<Call>)
    decreases |calls|
  {
    calls != [] ==>
      && SparesCall(g, calls[0])
      && (Grow(g, calls[0]).Some? ==> Guarded(Grow(g, calls[0]).value, calls[1..]))
  }

  /** Runs without a wrapped request are guarded. */
  lemma {:induction false} OrdinaryIsGuarded(g: Space, calls: seq<Call>)
    requires forall i | 0 <= i < |calls| :: OrdinaryCall(calls[i])
    ensures Guarded(g, calls)
    decreases |calls|
  {
    if calls != [] {
      if calls[0].ByList? && calls[0].op.Malloc? { RoundedHolds(calls[0].op.size); }
      if Grow(g, calls[0]).Some? { OrdinaryIsGuarded(Grow(g, calls[0]).value, calls[1..]); }
    }
  }

  // ---- one call ----

  /** Every block live before and after reads as before, a word its client stores apart. */
  ghost predicate KeepsWords(s: State, s': State, call: Call) {
    forall a, x: nat | a in s.space.heap.live && a in s'.space.heap.live && s.space.heap.LiveBlock(a).Has(x)
                       && !(call.Store? && x == call.addr) :: Read(s'.memory, x) == Read(s.memory, x)
  }

  lemma KmallocKeeps(s: State, size: Addr, least: nat)
    requires Good(s, least) && size > 0 && Grow(s.space, ByList(Malloc(size))).Some?
    requires (least == 8 || (least == 16 && size <= MAX_REQUEST)) && Spares(s.space.heap, Rounded(size))
    ensures var s' := Do(s, ByList(Malloc(size))).value;
            Good(s', least) && KeepsWords(s, s', ByList(Malloc(size)))
  {
    hide Tiles, SplitWrites, SeparateIn, Spares, Canonical, InMemory, Path, FirstFit;
    var h := s.space.heap;
    GrowKeepsTiles(s.space, ByList(Malloc(size)), least);
    RoundedHolds(size);
    TilesCanonical(h, s.space.region, least);
    SplitServes(s.memory, h.free[0].addr, h, size);
    SplitSeparate(s.memory, h, FirstFit(h.free, Rounded(size)), Rounded(size));
    var s' := Do(s, ByList(Malloc(size))).value;
    PathStarts(s'.memory, h.free[0].addr, s'.space.heap.free);
  }

  lemma TilesCanonical(h: Heap, region: seq<Block>, least: nat)
    requires Tiles(h, region, least)
    ensures Canonical(h.free)
  {}

  lemma PathStarts(m: Memory, p: nat, bs: seq<Block>)
    requires Path(m, p, bs, 0) && bs != []
    ensures p == bs[0].addr
  {}

  /** With the size in the header kfree does what HeapGrowth says, and keeps everything else. */
  lemma KfreeKeeps(s: State, ptr: Addr, least: nat)
    requires Good(s, least) && (least == 8 || least == 16) && ptr > 0 && ptr - HEADER in s.space.heap.live
    ensures Do(s, ByList(Free(ptr))).Some? && Grow(s.space, ByList(Free(ptr))).Some?
    ensures var s' := Do(s, ByList(Free(ptr))).value;
            && s'.space == Grow(s.space, ByList(Free(ptr))).value
            && Good(s', least) && KeepsWords(s, s', ByList(Free(ptr)))
  {
    hide Tiles, FreeWrites, FreeTail, Canonical, InMemory, Path, Release, Neighbours;
    var h := s.space.heap;
    var b := h.LiveBlock(ptr - HEADER);
    GrowKeepsTiles(s.space, ByList(Free(ptr)), least);
    TilesCanonical(h, s.space.region, least);
    FreeKeepsSeparate(s.memory, h, b);
    FreeListAfter(s.memory, h.free[0].addr, h.free, b);
    FreeTailSteps(h.free, b, s.space.tail);
    var s' := Do(s, ByList(Free(ptr))).value;
    PathStarts(s'.memory, if Neighbours(h.free, b.addr).0 == 0 then b.addr else h.free[0].addr, s'.space.heap.free);
  }

  lemma FetchKeeps(s: State, size: Addr, page: Addr, least: nat)
    requires Good(s, least) && (least == 8 || least == 16) && Grow(s.space, ByPage(size, page)).Some?
    ensures var s' := Do(s, ByPage(size, page)).value;
            Good(s', least) && KeepsWords(s, s', ByPage(size, page))
  {
    hide Tiles, SeparateIn, FirstFit, Canonical, InMemory, Path, AppendWrites, Outside;
    var (g, free, block) := (s.space, s.space.heap.free, Block(page, PAGE_SIZE));
    var s' := Do(s, ByPage(size, page)).value;
    GrowKeepsTiles(g, ByPage(size, page), least);
    TilesCanonical(g.heap, g.region, least);
    PageApart(s, block, least);
    PageInMemory(page);
    AppendKeepsAll(free, g.tail, page);
    InMemoryJoin(free, [block]);
    AppendPath(s.memory, free[0].addr, free, g.tail, page);
    PathStarts(s'.memory, free[0].addr, s'.space.heap.free);
    forall a, x: nat | a in g.heap.live && g.heap.LiveBlock(a).Has(x) ensures Read(s'.memory, x) == Read(s.memory, x) {
      AppendSpares(s, block, least, a, x);
    }
    StillSeparate(s, s', least);
  }

  /** A page outside the regions lies clear of the list and of every live block. */
  lemma PageApart(s: State, page: Block, least: nat)
    requires Good(s, least) && Outside(s.space.region, page)
    ensures Clear(page, s.space.heap.free)
    ensures forall a, x: nat | a in s.space.heap.live && s.space.heap.LiveBlock(a).Has(x) :: !page.Has(x)
  {
    var h := s.space.heap;
    forall x: nat | page.Has(x) ensures !Covers(h.free, x) && !LiveHas(h, x) {
      OutsideClear(s.space.region, page, x);
    }
    forall a, x: nat | a in h.live && h.LiveBlock(a).Has(x) ensures !page.Has(x) {
      assert LiveHas(h, x);
    }
  }

  lemma AppendSpares(s: State, page: Block, least: nat, a: nat, x: nat)
    requires Good(s, least) && page.size == PAGE_SIZE && s.space.tail == Last(s.space.heap.free)
    requires a in s.space.heap.live && s.space.heap.LiveBlock(a).Has(x) && !page.Has(x)
    ensures Read(AppendWrites(s.memory, s.space.tail, page.addr), x) == Read(s.memory, x)
  {
    var h := s.space.heap;
    ListedIsCovered(h.free, |h.free| - 1);
    HeaderWordCovered(h.free, s.space.tail + LINK);
    assert Clear(h.LiveBlock(a), h.free);
    assert page.Has(page.addr) && page.Has(page.addr + LINK) && page.Has(page.addr + FREE_MEMORY);
  }

  lemma StillSeparate(s: State, s': State, least: nat)
    requires SeparateIn(s.memory, s.space.heap) && Tiles(s'.space.heap, s'.space.region, least) && least >= 8
    requires s'.space.heap.live == s.space.heap.live
    requires forall a, x: nat | a in s.space.heap.live && s.space.heap.LiveBlock(a).Has(x) ::
               Read(s'.memory, x) == Read(s.memory, x)
    ensures SeparateIn(s'.memory, s'.space.heap)
  {
    var (h, h') := (s.space.heap, s'.space.heap);
    assert forall a | a in h.live :: h.LiveBlock(a).Has(a);
    assert forall a | a in h'.live :: h'.LiveBlock(a) == h.LiveBlock(a);
  }

  lemma StoreKeeps(s: State, owner: nat, a: nat, w: nat, least: nat)
    requires Good(s, least) && Grow(s.space, Store(owner, a, w)).Some?
    ensures var s' := Do(s, Store(owner, a, w)).value; Good(s', least) && KeepsWords(s, s', Store(owner, a, w))
  {
    hide Tiles;
    var h := s.space.heap;
    assert h.LiveBlock(owner).Has(a);
    forall x | IsHeaderWord(h.free, x) ensures x != a { HeaderWordCovered(h.free, x); }
    PathFrame(s.memory, s.memory[a := w], h.free[0].addr, h.free, 0);
    forall c | c in h.live ensures c != a { assert h.LiveBlock(c).Has(c); }
  }

  /** A call that spares the live headers does what the list as a value says, keeps list and headers, and leaves
      every word of every other block as it was. */
  lemma CallKeeps(s: State, call: Call, least: nat)
    requires Good(s, least) && (least == 8 || (least == 16 && OrdinaryCall(call))) && SparesCall(s.space, call)
    ensures Do(s, call).Some? <==> Grow(s.space, call).Some?
    ensures Do(s, call).Some? ==>
              var s' := Do(s, call).value;
              s'.space == Grow(s.space, call).value && Good(s', least) && KeepsWords(s, s', call)
  {
    hide Good, Kfreed, Written, KeepsWords, Spares;
    if Grow(s.space, call).Some? {
      match call {
        case ByList(Malloc(size)) => if size > 0 { KmallocKeeps(s, size, least); } else { NothingDone(s, call); }
        case ByList(Free(ptr)) => if ptr > 0 { KfreeKeeps(s, ptr, least); } else { NothingDone(s, call); }
        case ByPage(size, page) => FetchKeeps(s, size, page, least);
        case Store(owner, a, w) => StoreKeeps(s, owner, a, w, least);
      }
    } else {
      FreedNeedsLive(s, call);
    }
  }

  lemma NothingDone(s: State, call: Call)
    requires call == ByList(Malloc(0)) || call == ByList(Free(0))
    ensures Do(s, call) == Some(s) && Grow(s.space, call) == Some(s.space) && KeepsWords(s, s, call)
  {}

  lemma FreedNeedsLive(s: State, call: Call)
    ensures Do(s, call).Some? <==> Grow(s.space, call).Some?
  {}

  /** A served request gets a block that was not live, with its size in its header and room for what was asked. */
  lemma GrantHasRoom(s: State, size: Addr)
    requires Good(s, 8) && 0 < size <= MAX_REQUEST && Do(s, ByList(Malloc(size))).Some?
    ensures FirstFit(s.space.heap.free, Rounded(size)) < |s.space.heap.free|
    ensures var (k, n) := (FirstFit(s.space.heap.free, Rounded(size)), Rounded(size));
            && Splits(s.space.heap.free[k], n)
            && var (a, s') := (Cut(s.space.heap.free[k], n).addr, Do(s, ByList(Malloc(size))).value);
               && a !in s.space.heap.live && a in s'.space.heap.live
               && Read(s'.memory, a) == s'.space.heap.live[a] >= size + HEADER
  {
    hide Good, SplitWrites;
    var h := s.space.heap;
    RoundedHolds(size);
    GoodParts(s, 8);
    MallocKeepsTiles(h, size, s.space.region, 8);
    CutInPlace(s.memory, h.free, FirstFit(h.free, Rounded(size)), Rounded(size));
  }

  lemma GoodParts(s: State, least: nat)
    requires Good(s, least)
    ensures Tiles(s.space.heap, s.space.region, least) && InMemory(s.space.heap.free)
  {}

  // ---- whole runs ----

  /** A guarded run on the words is the run of lists as values: at every point the words link exactly the list, and
      live and free blocks tile the arena and the pages that joined it. */
  lemma {:induction false} RunOnWords(s: State, calls: seq<Call>, least: nat)
    requires Good(s, least) && Guarded(s.space, calls)
    requires least == 8 || (least == 16 && forall i | 0 <= i < |calls| :: OrdinaryCall(calls[i]))
    ensures DoRun(s, calls).Some? <==> GrowRun(s.space, calls).Some?
    ensures DoRun(s, calls).Some? ==>
              var s' := DoRun(s, calls).value; s'.space == GrowRun(s.space, calls).value && Good(s', least)
    decreases |calls|
  {
    hide Good, Do, Grow, SparesCall;
    if calls != [] {
      CallKeeps(s, calls[0], least);
      if Do(s, calls[0]).Some? { RunOnWords(Do(s, calls[0]).value, calls[1..], least); }
    }
  }

  predicate Agrees(s: State, call: Call) {
    match Do(s, call)
    case None => Grow(s.space, call) == None
    case Some(s') => Grow(s.space, call) == Some(s'.space)
  }

  /** Each call of the run, and a kfree of any block at any point of it, takes the words where the list as a value
      goes. */
  ghost predicate Tracks(s: State, calls: seq<Call>)
    decreases |calls|
  {
    && (forall ptr: Addr :: Agrees(s, ByList(Free(ptr))))
    && (calls != [] ==> Agrees(s, calls[0])
                        && (Do(s, calls[0]).Some? ==> Tracks(Do(s, calls[0]).value, calls[1..])))
  }

  /** And exactly the guarded runs are: after a wrapped request that overwrites a live header, kfree of that block
      goes wrong. */
  lemma {:induction false} TracksExactly(s: State, calls: seq<Call>)
    requires Good(s, 8)
    ensures Tracks(s, calls) <==> Guarded(s.space, calls)
    decreases |calls|
  {
    hide Good, Do, Grow, SparesCall;
    forall ptr: Addr ensures Agrees(s, ByList(Free(ptr))) {
      FreeSparesAll(s, ptr);
      CallKeeps(s, ByList(Free(ptr)), 8);
    }
    if calls != [] {
      if SparesCall(s.space, calls[0]) {
        CallKeeps(s, calls[0], 8);
        if Do(s, calls[0]).Some? { TracksExactly(Do(s, calls[0]).value, calls[1..]); }
      } else {
        var ptr := Overwritten(s, calls[0]);
        assert !Agrees(Do(s, calls[0]).value, ByList(Free(ptr)));
      }
    }
  }

  lemma FreeSparesAll(s: State, ptr: Addr)
    ensures SparesCall(s.space, ByList(Free(ptr)))
  {}

  function Total(bs: seq<Block>): nat { if bs == [] then 0 else bs[0].size + Total(bs[1..]) }

  lemma AttachTotal(b: Block, right: seq<Block>)
    ensures Total(Attach(b, right)) == b.size + Total(right)
  {
    assert Attach(b, right)[1..] == if right != [] && b.End() == right[0].addr then right[1..] else right;
  }

  lemma {:induction false} ReleaseTotal(bs: seq<Block>, b: Block)
    ensures Total(Release(bs, b)) == Total(bs) + b.size
  {
    if bs == [] || b.addr < bs[0].addr {
      AttachTotal(b, bs);
    } else {
      ReleaseTotal(bs[1..], b);
      AttachTotal(bs[0], Release(bs[1..], b));
    }
  }

  /** What a wrapped request that does not spare a header leaves of it. */
  lemma HeaderLost(m: Memory, h: Heap, head: nat, n: nat)
    requires SeparateIn(m, h) && Canonical(h.free) && InMemory(h.free) && Path(m, head, h.free, 0)
    requires n % 8 == 0 && !Spares(h, n)
    ensures n == 0 && Serves(h.free, n)
    ensures var k := FirstFit(h.free, n);
            var end := h.free[k].End();
            && end in h.live && h.live[end] != end && end + HEADER < WORDS && end != Cut(h.free[k], n).addr
            && Read(SplitWrites(m, h.free[k], n), end) == end && !AlreadyFree(SplitAt(h.free, k, n), end)
  {
    hide Path, InMemory, Canonical;
    var k := FirstFit(h.free, n);
    var (bs, b) := (SplitAt(h.free, k, n), h.LiveBlock(h.free[k].End()));
    SplitPath(m, head, h.free, k, n);
    SplitSpares(m, h.free, k, n, b);
    assert b.Has(b.addr);
    if Place(bs, b.addr) < |bs| { ListedIsCovered(bs, Place(bs, b.addr)); }
  }

  /** kfree then puts the block back at the wrong size. */
  lemma Overwritten(s: State, call: Call) returns (ptr: Addr)
    requires Good(s, 8) && !SparesCall(s.space, call)
    ensures Do(s, call).Some? && !Agrees(Do(s, call).value, ByList(Free(ptr)))
  {
    hide Tiles, Canonical, InMemory, Path, FirstFit, Release, SplitAt, FreeWrites, FreeTail, SplitWrites, Place;
    var h := s.space.heap;
    var n := Rounded(call.op.size);
    TilesCanonical(h, s.space.region, 8);
    RoundedHolds(call.op.size);
    HeaderLost(s.memory, h, h.free[0].addr, n);
    var end := h.free[FirstFit(h.free, n)].End();
    ptr := end + HEADER;
    var s' := Do(s, call).value;
    assert end in s'.space.heap.live && s'.space.heap.live[end] == h.live[end];
    ReleaseTotal(s'.space.heap.free, h.LiveBlock(end));
    ReleaseTotal(s'.space.heap.free, Block(end, end));
  }

  // ---- from kmalloc_init ----

  /** The words kmalloc_init writes. */
  function Start(arena: nat): State {
    State(InitWords(arena), Space(Initial(arena), arena, Arena(arena)))
  }

  lemma StartIsGood(arena: nat)
    requires 0 < arena && arena % 8 == 0 && arena + ARENA <= WORDS
    ensures Good(Start(arena), 16) && Good(Start(arena), 8)
  {
    InitialTiles(arena);
    assert Arena(arena)[1..] == [];
    assert Tiles(Initial(arena), Arena(arena), 8);
  }

  lemma {:induction false} RegionStays(s: State, calls: seq<Call>)
    requires DoRun(s, calls).Some? && forall i | 0 <= i < |calls| :: !calls[i].ByPage?
    ensures DoRun(s, calls).value.space.region == s.space.region
    decreases |calls|
  {
    if calls != [] { RegionStays(Do(s, calls[0]).value, calls[1..]); }
  }

  /** Once everything is freed, in whatever order, the words link the one canonical list of the arena and the pages,
      neighbouring pages merged; without pages that is the single block kmalloc_init made. */
  lemma RunRestores(arena: nat, calls: seq<Call>, list: seq<Block>)
    requires 0 < arena && arena % 8 == 0 && arena + ARENA <= WORDS && Guarded(Start(arena).space, calls)
    requires var r := DoRun(Start(arena), calls);
             && r.Some? && r.value.space.heap.live == map[]
             && Canonical(list) && forall x: nat :: Covers(list, x) <==> Covers(r.value.space.region, x)
    ensures var s := DoRun(Start(arena), calls).value;
            && s.space.heap.free == list != [] && Path(s.memory, list[0].addr, list, 0)
            && ((forall i | 0 <= i < |calls| :: !calls[i].ByPage?) ==> list == Arena(arena))
  {
    hide Do, Path, Canonical, Covers, Guarded;
    StartIsGood(arena);
    RunOnWords(Start(arena), calls, 8);
    var s := DoRun(Start(arena), calls).value;
    NothingLive(s.space.heap, s.space.region, 8, list);
    if forall i | 0 <= i < |calls| :: !calls[i].ByPage? {
      RegionStays(Start(arena), calls);
      assert Tiles(Initial(arena), Arena(arena), 16) by { InitialTiles(arena); }
      NothingLive(s.space.heap, Arena(arena), 8, Arena(arena));
    }
  }

  /** Two requests, the second wrapped, and the two frees. */
  function Unguarded(arena: nat): seq<Call>
    requires arena + ARENA <= WORDS
  {
    [ByList(Malloc(8)), ByList(Malloc(0xFFFF_FFFF)), ByList(Free(arena + 4088)), ByList(Free(arena + 4080))]
  }

  function AfterRequests(arena: nat): Heap {
    Heap([Block(arena, 4072)], map[arena + 4080 := 16, arena + 4072 := 8])
  }

  /** The second request is stored over the header of the block the first one got. */
  lemma TwoRequests(arena: nat)
    requires 0 < arena && arena % 8 == 0 && arena + ARENA <= WORDS
    ensures var s1 := Do(Start(arena), Unguarded(arena)[0]);
            && s1.Some?
            && s1.value.space == Space(Heap([Block(arena, 4080)], map[arena + 4080 := 16]), arena, Arena(arena))
            && var s2 := Do(s1.value, Unguarded(arena)[1]);
               && s2.Some? && s2.value.space == Space(AfterRequests(arena), arena, Arena(arena))
               && Read(s2.value.memory, arena + 4080) == arena + 4080
               && Read(s2.value.memory, arena + 4072) == 8 && Read(s2.value.memory, arena) == 4072
               && Grow(Start(arena).space, Unguarded(arena)[0]) == Some(s1.value.space)
               && Grow(s1.value.space, Unguarded(arena)[1]) == Some(s2.value.space)
  {}

  lemma NotTouching(arena: nat, size: nat)
    ensures var (a, b) := (Block(arena, 4072), Block(arena + 4080, size)); Release([a], b) == [a, b]
  {
    assert [Block(arena, 4072)][1..] == [];
  }

  /** kfree puts the first block back at the size it finds. */
  lemma FirstFree(arena: nat, s: State)
    requires 0 < arena && arena % 8 == 0 && arena + ARENA <= WORDS
    requires s.space == Space(AfterRequests(arena), arena, Arena(arena))
    requires Read(s.memory, arena + 4080) == arena + 4080
    requires Read(s.memory, arena + 4072) == 8 && Read(s.memory, arena) == 4072
    ensures var s3 := Do(s, Unguarded(arena)[2]);
            && s3.Some? && Read(s3.value.memory, arena + 4072) == 8 && Read(s3.value.memory, arena) == 4072
            && Read(s3.value.memory, arena + 4080) == arena + 4080 && Read(s3.value.memory, arena + 4084) == 0
            && s3.value.space.heap == Heap([Block(arena, 4072), Block(arena + 4080, arena + 4080)],
                                           map[arena + 4072 := 8])
    ensures var g3 := Grow(s.space, Unguarded(arena)[2]);
            && g3.Some? && g3.value.heap == Heap([Block(arena, 4072), Block(arena + 4080, 16)], map[arena + 4072 := 8])
  {
    var h := AfterRequests(arena);
    NotTouching(arena, arena + 4080);
    NotTouching(arena, 16);
    assert h.live - {arena + 4080} == map[arena + 4072 := 8];
  }

  /** The other block joins both its neighbours. */
  lemma SecondFree(arena: nat, s: State, size: nat)
    requires 0 < arena && arena % 8 == 0 && arena + ARENA <= WORDS && Read(s.memory, arena + 4072) == 8
    requires s.space.heap == Heap([Block(arena, 4072), Block(arena + 4080, size)], map[arena + 4072 := 8])
    ensures var s4 := Do(s, Unguarded(arena)[3]);
            && s4.Some? && s4.value.space.heap == Heap([Block(arena, 4080 + size)], map[])
            && (Read(s.memory, arena) == 4072 && Read(s.memory, arena + 4080) == size
                && Read(s.memory, arena + 4084) == 0 ==>
                  Read(s4.value.memory, arena) == 4080 + size && Read(s4.value.memory, arena + LINK) == 0)
    ensures var g4 := Grow(s.space, Unguarded(arena)[3]);
            g4.Some? && g4.value.heap == Heap([Block(arena, 4080 + size)], map[])
  {
    var (bs, b) := (s.space.heap.free, Block(arena + 4072, 8));
    assert bs[1..] == [Block(arena + 4080, size)] && bs[1..][1..] == [];
    assert Release(bs[1..], b) == [Block(arena + 4072, 8 + size)];
    assert Release(bs, b) == [Block(arena, 4080 + size)];
    assert s.space.heap.live - {arena + 4072} == map[];
  }

  lemma NoCalls(s: State, g: Space)
    ensures DoRun(s, []) == Some(s) && GrowRun(g, []) == Some(g)
  {}

  lemma OneMore(s: State, g: Space, call: Call, rest: seq<Call>)
    ensures DoRun(s, [call] + rest) == if Do(s, call).Some? then DoRun(Do(s, call).value, rest) else None
    ensures GrowRun(g, [call] + rest) == if Grow(g, call).Some? then GrowRun(Grow(g, call).value, rest) else None
  {
    hide Do, Grow;
    assert ([call] + rest)[1..] == rest;
  }

  /** So an unguarded run of four calls ends, in memory, with a block of the wrong size where the list as a value is
      the initial one again. */
  lemma WrappedRunFails(arena: nat)
    requires 0 < arena && arena % 8 == 0 && arena + ARENA <= WORDS
    ensures var (s, g) := (DoRun(Start(arena), Unguarded(arena)), GrowRun(Start(arena).space, Unguarded(arena)));
            && s.Some? && s.value.space.heap == Heap([Block(arena, arena + 8160)], map[])
            && Read(s.value.memory, arena) == arena + 8160 && Read(s.value.memory, arena + LINK) == 0
            && g.Some? && g.value.heap == Initial(arena)
    ensures !Guarded(Start(arena).space, Unguarded(arena))
  {
    hide Do, Grow, DoRun, GrowRun, Guarded;
    var (s, calls) := (Start(arena), Unguarded(arena));
    TwoRequests(arena);
    var s1 := Do(s, calls[0]).value;
    var s2 := Do(s1, calls[1]).value;
    FirstFree(arena, s2);
    var (s3, g3) := (Do(s2, calls[2]).value, Grow(s2.space, calls[2]).value);
    SecondFree(arena, s3, arena + 4080);
    SecondFree(arena, State(s3.memory, g3), 16);
    OneMore(s, s.space, calls[0], calls[1..]);
    OneMore(s1, s1.space, calls[1], calls[2..]);
    OneMore(s2, s2.space, calls[2], calls[3..]);
    OneMore(s3, g3, calls[3], []);
    NoCalls(Do(s3, calls[3]).value, Grow(g3, calls[3]).value);
    assert calls == [calls[0]] + calls[1..] && calls[1..] == [calls[1]] + calls[2..];
    assert calls[2..] == [calls[2]] + calls[3..] && calls[3..] == [calls[3]] + [];
    StartIsGood(arena);
    if Guarded(s.space, calls) { RunOnWords(s, calls, 8); }
  }
}
