/** Runs in which kmalloc also fetches pages: the arena grows by every page that joins the free list
    (kernel/memory/kmalloc.c:137-147). */
module HeapGrowth {
  import opened Words
  import opened Wrappers
  import opened FreeList
  import opened HeapMemory
  import opened HeapRuns

  /** The heap, block_list_tail, and the regions it was given: the arena and the pages fetched since. */
  datatype Space = Space(heap: Heap, tail: nat, region: seq<Block>)

  /** A call served from the list, a request that no block fits and for which vmm_alloc_page returns a page, or a
      client's write to a word of a block it holds. */
  datatype Call = ByList(op: Op) | ByPage(size: Addr, page: Addr) | Store(owner: nat, addr: nat, word: nat)

  predicate Outside(region: seq<Block>, page: Block) {
    region != [] ==> region[0].Apart(page) && Outside(region[1..], page)
  }

  /** One call; None when the step leaves the split path, or the page would not join the list properly: then
      AppendKeepsAll and JoinCanonical say what is lost. */
  function Grow(g: Space, call: Call): Option<Space> {
    match call
    case ByList(op) =>
      (match HeapRuns.Step(g.heap, op)
       case None => None
       case Some(h) =>
         var tail := if op.Free? && op.ptr != 0
                     then FreeTail(g.heap.free, Block(op.ptr - HEADER, g.heap.live[op.ptr - HEADER]), g.tail)
                     else g.tail;
         Some(Space(h, tail, g.region)))
    case ByPage(size, page) =>
      var (free, block) := (g.heap.free, Block(page, PAGE_SIZE));
      if && size > 0 && FirstFit(free, Rounded(size)) == |free| && free != []
         && page % PAGE_SIZE == 0 && Outside(g.region, block)
         && g.tail == Last(free) && free[|free| - 1].End() < page
      then Some(Space(Heap(AppendAt(free, g.tail, page), g.heap.live), g.tail, g.region + [block]))
      else None
    case Store(owner, a, _) =>
      if owner in g.heap.live && owner + HEADER <= a < owner + g.heap.live[owner] then Some(g) else None
  }

  function GrowRun(g: Space, calls: seq<Call>): Option<Space>
    decreases |calls|
  {
    if calls == [] then Some(g)
    else match Grow(g, calls[0])
      case None => None
      case Some(g') => GrowRun(g', calls[1..])
  }

  predicate OrdinaryCall(call: Call) { call.ByList? ==> Ordinary(call.op) }

  // ---- a page joins ----

  /** A page put at the end leaves a canonical list exactly when it lies beyond the last block and does not
      touch it. */
  lemma {:induction false} JoinCanonical(bs: seq<Block>, page: nat)
    requires Canonical(bs) && bs != []
    ensures Canonical(bs + [Block(page, PAGE_SIZE)]) <==> bs[|bs| - 1].End() < page
  {
    var joined := bs + [Block(page, PAGE_SIZE)];
    assert joined[1..] == bs[1..] + [Block(page, PAGE_SIZE)];
    if |bs| > 1 {
      JoinCanonical(bs[1..], page);
    } else {
      assert joined[1..] == [Block(page, PAGE_SIZE)] && joined[1..][1..] == [];
    }
  }

  lemma {:induction false} OutsideClear(region: seq<Block>, page: Block, x: nat)
    requires Outside(region, page) && page.Has(x)
    ensures !Covers(region, x)
  {
    if region != [] { OutsideClear(region[1..], page, x); }
  }

  lemma {:induction false} JoinWellSized(bs: seq<Block>, b: Block, least: nat)
    requires AllWellSized(bs, least) && WellSized(b, least)
    ensures AllWellSized(bs + [b], least)
  {
    if bs != [] {
      assert (bs + [b])[1..] == bs[1..] + [b];
      JoinWellSized(bs[1..], b, least);
    } else {
      assert (bs + [b])[1..] == [];
    }
  }

  /** The tiling is kept, now of the arena and the page. */
  lemma FetchKeepsTiles(g: Space, size: Addr, page: Addr, least: nat)
    requires Tiles(g.heap, g.region, least) && 0 < least <= 16 && Grow(g, ByPage(size, page)).Some?
    ensures var g' := Grow(g, ByPage(size, page)).value; Tiles(g'.heap, g'.region, least)
  {
    var (free, block, g') := (g.heap.free, Block(page, PAGE_SIZE), Grow(g, ByPage(size, page)).value);
    PageIsAligned(page / PAGE_SIZE);
    AppendKeepsAll(free, g.tail, page);
    JoinCanonical(free, page);
    JoinWellSized(free, block, least);
    assert [block][1..] == [];
    forall x: nat ensures Covers(g'.heap.free, x) <==> Covers(free, x) || block.Has(x) {
      CoversJoin(free, [block], x);
    }
    forall a | a in g.heap.live ensures Clear(g.heap.LiveBlock(a), g'.heap.free) {
      forall x: nat | g.heap.LiveBlock(a).Has(x) ensures !Covers(g'.heap.free, x) {
        assert LiveHas(g.heap, x) && !Covers(free, x);
        if block.Has(x) { OutsideClear(g.region, block, x); }
      }
    }
    forall x: nat ensures Covers(g'.region, x) <==> Covers(g'.heap.free, x) || LiveHas(g'.heap, x) {
      CoversJoin(g.region, [block], x);
      assert LiveHas(g'.heap, x) <==> LiveHas(g.heap, x);
    }
  }

  /** One call keeps the tiling of the arena and every page that joined it, sizes at least 16 unless a request
      wraps. */
  lemma GrowKeepsTiles(g: Space, call: Call, least: nat)
    requires Tiles(g.heap, g.region, least) && (least == 8 || (least == 16 && OrdinaryCall(call)))
    requires Grow(g, call).Some?
    ensures var g' := Grow(g, call).value; Tiles(g'.heap, g'.region, least)
  {
    match call {
      case ByList(Malloc(size)) => MallocKeepsTiles(g.heap, size, g.region, least);
      case ByList(Free(ptr)) => FreeKeepsTiles(g.heap, ptr, g.region, least);
      case ByPage(size, page) => FetchKeepsTiles(g, size, page, least);
      case Store(_, _, _) =>
    }
  }
}
