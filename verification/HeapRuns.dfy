/** Calls of kmalloc and kfree on the list as a value, as long as every served request splits a block
    (kernel/memory/kmalloc.c:117-121) and every block is freed at the size it was granted: HeapWords says when
    that is the size kfree reads. */
module HeapRuns {
  import opened Words
  import opened Wrappers
  import opened FreeList

  const ARENA: nat := 4096

  /** The free list, and the live blocks: header address to size with header. */
  datatype Heap = Heap(free: seq<Block>, live: map<nat, nat>) {
    function LiveBlock(a: nat): Block
      requires a in live
    {
      Block(a, live[a])
    }
  }

  datatype Op = Malloc(size: Addr) | Free(ptr: Addr)

  function Arena(base: nat): seq<Block> { [Block(base, ARENA)] }

  function Initial(base: nat): Heap { Heap(Arena(base), map[]) }

  /** The first block that fits is split, and the pointer to what is cut off does not wrap to NULL. */
  predicate Serves(bs: seq<Block>, n: nat) {
    var k := FirstFit(bs, n);
    k < |bs| && Splits(bs[k], n) && Cut(bs[k], n).addr + HEADER < WORDS
  }

  /** One call; None when kmalloc would leave the split path or kfree is given a pointer that is not live. */
  function Step(h: Heap, op: Op): Option<Heap> {
    match op
    case Malloc(size) =>
      var k := FirstFit(h.free, Rounded(size));
      if size == 0 then Some(h)
      else if Serves(h.free, Rounded(size)) then
        var b := Cut(h.free[k], Rounded(size));
        Some(Heap(SplitAt(h.free, k, Rounded(size)), h.live[b.addr := b.size]))
      else None
    case Free(ptr) =>
      if ptr == 0 then Some(h)
      else if ptr - HEADER in h.live then
        Some(Heap(Release(h.free, Block(ptr - HEADER, h.live[ptr - HEADER])), h.live - {ptr - HEADER}))
      else None
  }

  predicate WellSized(b: Block, least: nat) { b.addr % 8 == 0 && b.size % 8 == 0 && least <= b.size }

  predicate AllWellSized(bs: seq<Block>, least: nat) {
    bs != [] ==> WellSized(bs[0], least) && AllWellSized(bs[1..], least)
  }

  ghost predicate LiveHas(h: Heap, x: nat) {
    exists a | a in h.live :: h.LiveBlock(a).Has(x)
  }

  /** Live and free blocks are aligned, pairwise disjoint, and between them are exactly the bytes of the region. */
  ghost predicate Tiles(h: Heap, region: seq<Block>, least: nat) {
    && Canonical(h.free)
    && AllWellSized(h.free, least)
    && (forall a | a in h.live :: WellSized(h.LiveBlock(a), least))
    && (forall a | a in h.live :: Clear(h.LiveBlock(a), h.free))
    && (forall a, b | a in h.live && b in h.live && a != b :: h.LiveBlock(a).Apart(h.LiveBlock(b)))
    && (forall x: nat :: Covers(region, x) <==> Covers(h.free, x) || LiveHas(h, x))
  }

  // Requests in the last seven values wrap to zero bytes and get a bare header.
  predicate Ordinary(op: Op) { op.Malloc? ==> op.size <= MAX_REQUEST }

  /** The payload has room for the request exactly when rounding it up does not wrap. */
  lemma RoundedHolds(size: Addr)
    ensures Rounded(size) >= size <==> size <= MAX_REQUEST
    ensures Rounded(size) % 8 == 0 && (Rounded(size) == 0 <==> size == 0 || size > MAX_REQUEST)
  {}

  lemma {:induction false} SplitWellSized(bs: seq<Block>, k: nat, n: nat, least: nat)
    requires AllWellSized(bs, least) && k < |bs| && Splits(bs[k], n)
    requires n % 8 == 0 && 8 <= least <= 16 && (least <= 8 || n > 0)
    ensures WellSized(Cut(bs[k], n), least) && AllWellSized(SplitAt(bs, k, n), least)
  {
    if k > 0 {
      SplitWellSized(bs[1..], k - 1, n, least);
      assert SplitAt(bs, k, n)[1..] == SplitAt(bs[1..], k - 1, n);
    } else {
      assert SplitAt(bs, k, n)[1..] == bs[1..];
    }
  }

  /** Blocks with no common byte lie apart. */
  lemma ApartByBytes(b: Block, c: Block)
    requires b.size > 0 && c.size > 0
    requires forall x: nat | b.Has(x) :: !c.Has(x)
    ensures b.Apart(c)
  {
    assert !(b.Has(b.addr) && c.Has(b.addr));
    assert !(b.Has(c.addr) && c.Has(c.addr));
  }

  /** A served request keeps the tiling, and its block is new and has room for what was asked. */
  lemma MallocKeepsTiles(h: Heap, size: Addr, region: seq<Block>, least: nat)
    requires Tiles(h, region, least) && 8 <= least <= 16
    requires least <= 8 || size <= MAX_REQUEST
    requires Step(h, Malloc(size)).Some?
    ensures Tiles(Step(h, Malloc(size)).value, region, least)
    ensures 0 < size <= MAX_REQUEST ==>
              var (k, h') := (FirstFit(h.free, Rounded(size)), Step(h, Malloc(size)).value);
              var a := Cut(h.free[k], Rounded(size)).addr;
              a !in h.live && a in h'.live && h'.live[a] >= size + HEADER
  {
    var n, k := Rounded(size), FirstFit(h.free, Rounded(size));
    if size > 0 {
      RoundedHolds(size);
      SplitCanonical(h.free, k, n);
      SplitWellSized(h.free, k, n, least);
      var b, h' := Cut(h.free[k], n), Step(h, Malloc(size)).value;
      forall a | a in h.live
        ensures a != b.addr && b.Apart(h.LiveBlock(a)) && Clear(h.LiveBlock(a), h'.free)
      {
        assert WellSized(h.LiveBlock(a), least) && Clear(h.LiveBlock(a), h.free);
        ApartByBytes(b, h.LiveBlock(a));
      }
      TakeKeepsTiles(h, h', b, region, least);
    }
  }

  /** Moving a block's bytes from the free list to the live blocks keeps the tiling. */
  lemma TakeKeepsTiles(h: Heap, h': Heap, b: Block, region: seq<Block>, least: nat)
    requires Tiles(h, region, least) && b.addr !in h.live && h'.live == h.live[b.addr := b.size]
    requires WellSized(b, least) && AllWellSized(h'.free, least)
    requires Canonical(h'.free) && Clear(b, h'.free)
    requires forall a | a in h.live :: b.Apart(h.LiveBlock(a)) && Clear(h.LiveBlock(a), h'.free)
    requires forall x: nat :: Covers(h.free, x) <==> Covers(h'.free, x) || b.Has(x)
    ensures Tiles(h', region, least)
  {
    assert forall a | a in h'.live :: h'.LiveBlock(a) == if a == b.addr then b else h.LiveBlock(a);
    forall x: nat ensures Covers(region, x) <==> Covers(h'.free, x) || LiveHas(h', x) {
      GainedByte(h, h', b, x);
    }
  }

  lemma GainedByte(h: Heap, h': Heap, b: Block, x: nat)
    requires b.addr !in h.live && h'.live == h.live[b.addr := b.size]
    ensures LiveHas(h', x) <==> LiveHas(h, x) || b.Has(x)
  {
    if LiveHas(h, x) {
      var a :| a in h.live && h.LiveBlock(a).Has(x);
      assert a in h'.live && h'.LiveBlock(a).Has(x);
    }
    if b.Has(x) {
      assert b.addr in h'.live && h'.LiveBlock(b.addr) == b;
    }
    if LiveHas(h', x) {
      var a :| a in h'.live && h'.LiveBlock(a).Has(x);
      assert a == b.addr || (a in h.live && h.LiveBlock(a).Has(x));
    }
  }

  lemma FreeKeepsTiles(h: Heap, ptr: Addr, region: seq<Block>, least: nat)
    requires Tiles(h, region, least) && least > 0
    requires Step(h, Free(ptr)).Some?
    ensures Tiles(Step(h, Free(ptr)).value, region, least)
  {
    if ptr != 0 {
      var a := ptr - HEADER;
      var b, h' := h.LiveBlock(a), Step(h, Free(ptr)).value;
      ReleaseCanonical(h.free, b);
      ReleaseWellSized(h.free, b, least);
      assert h.live == h'.live[a := b.size];
      forall c | c in h'.live ensures Clear(h'.LiveBlock(c), h'.free) {
        assert h.LiveBlock(c).Apart(b) && Clear(h.LiveBlock(c), h.free);
      }
      forall x: nat ensures Covers(region, x) <==> Covers(h'.free, x) || LiveHas(h', x) {
        GainedByte(h', h, b, x);
      }
    }
  }

  lemma AttachWellSized(b: Block, right: seq<Block>, least: nat)
    requires WellSized(b, least) && AllWellSized(right, least)
    ensures AllWellSized(Attach(b, right), least)
  {
    assert Attach(b, right)[1..] == if right != [] && b.End() == right[0].addr then right[1..] else right;
  }

  lemma {:induction false} ReleaseWellSized(bs: seq<Block>, b: Block, least: nat)
    requires WellSized(b, least) && AllWellSized(bs, least)
    ensures AllWellSized(Release(bs, b), least)
  {
    if bs == [] || b.addr < bs[0].addr {
      AttachWellSized(b, bs, least);
    } else {
      ReleaseWellSized(bs[1..], b, least);
      AttachWellSized(bs[0], Release(bs[1..], b), least);
    }
  }

  lemma InitialTiles(base: nat)
    requires base % 8 == 0
    ensures Tiles(Initial(base), Arena(base), 16)
    ensures forall x: nat :: Covers(Arena(base), x) <==> base <= x < base + ARENA
  {
    assert Arena(base)[1..] == [];
    assert forall x: nat :: Covers(Arena(base), x) <==> Arena(base)[0].Has(x);
  }

  /** With nothing live, the free list is the only canonical list of the region's bytes. */
  lemma NothingLive(h: Heap, region: seq<Block>, least: nat, list: seq<Block>)
    requires Tiles(h, region, least) && h.live == map[]
    requires Canonical(list) && forall x: nat :: Covers(list, x) <==> Covers(region, x)
    ensures h.free == list
  {
    forall x: nat ensures Covers(h.free, x) <==> Covers(list, x) {
      assert !LiveHas(h, x);
    }
    CanonicalUnique(h.free, list);
  }
}
