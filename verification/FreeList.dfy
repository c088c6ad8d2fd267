/** What the kernel heap means: lists of blocks, the bytes they cover, and the one canonical list for a
    set of bytes. kernel/memory/kmalloc.c keeps such a list in memory; this module is about the list. */
module FreeList {
  import opened Words

  const HEADER: nat := 8
  const SMALLEST: nat := 32

  datatype Block = Block(addr: nat, size: nat) {
    function End(): nat { addr + size }
    predicate Has(x: nat) { addr <= x < End() }
    predicate Apart(other: Block) { End() <= other.addr || other.End() <= addr }
  }

  /** Sorted by address, disjoint, and no two blocks touch. */
  predicate Canonical(bs: seq<Block>) {
    bs != [] ==>
      && bs[0].size > 0
      && (|bs| > 1 ==> bs[0].End() < bs[1].addr)
      && Canonical(bs[1..])
  }

  predicate Covers(bs: seq<Block>, x: nat) {
    bs != [] && (bs[0].Has(x) || Covers(bs[1..], x))
  }

  /** No byte of b is covered by the list. */
  ghost predicate Clear(b: Block, bs: seq<Block>) {
    forall x: nat | b.Has(x) :: !Covers(bs, x)
  }

  lemma {:induction false} CoveredAbove(bs: seq<Block>, x: nat)
    requires Canonical(bs) && Covers(bs, x)
    ensures bs[0].addr <= x && (x < bs[0].End() || (|bs| > 1 && bs[1].addr <= x))
  {
    if !bs[0].Has(x) {
      CoveredAbove(bs[1..], x);
    }
  }

  lemma TailCovers(bs: seq<Block>, x: nat)
    requires Canonical(bs) && bs != []
    ensures Covers(bs[1..], x) <==> Covers(bs, x) && bs[0].End() <= x
  {
    if Covers(bs, x) { CoveredAbove(bs, x); }
    if Covers(bs[1..], x) { CoveredAbove(bs[1..], x); }
  }

  lemma ClearIsApart(b: Block, bs: seq<Block>)
    requires Clear(b, bs) && b.size > 0 && bs != [] && bs[0].size > 0
    ensures b.Apart(bs[0]) && Clear(b, bs[1..])
  {
    assert bs[0].Has(b.addr) ==> Covers(bs, b.addr);
    assert bs[0].Has(bs[0].addr) && Covers(bs, bs[0].addr);
    forall x: nat | b.Has(x) ensures !Covers(bs[1..], x) {
      assert !Covers(bs, x);
    }
  }

  /** A set of bytes has at most one canonical list. */
  lemma {:induction false} CanonicalUnique(a: seq<Block>, b: seq<Block>)
    requires Canonical(a) && Canonical(b)
    requires forall x: nat :: Covers(a, x) <==> Covers(b, x)
    ensures a == b
  {
    if a == [] {
      assert b != [] ==> Covers(b, b[0].addr);
    } else {
      assert Covers(a, a[0].addr);
      HeadBelow(b, a);
      HeadBelow(a, b);
      assert a[0] == b[0];
      forall x: nat ensures Covers(a[1..], x) <==> Covers(b[1..], x) {
        TailCovers(a, x);
        TailCovers(b, x);
      }
      CanonicalUnique(a[1..], b[1..]);
    }
  }

  lemma HeadBelow(a: seq<Block>, b: seq<Block>)
    requires Canonical(a) && Canonical(b) && b != []
    requires forall x: nat :: Covers(a, x) <==> Covers(b, x)
    ensures a != [] && a[0].addr <= b[0].addr
    ensures a[0].addr == b[0].addr ==> a[0].End() >= b[0].End()
  {
    assert Covers(b, b[0].addr);
    CoveredAbove(a, b[0].addr);
    var e := a[0].End();
    if Covers(a, e) { CoveredAbove(a, e); }
    assert a[0].addr == b[0].addr ==> !b[0].Has(e);
  }

  // ---- kfree: insert by address, merge with the right and the left neighbour ----

  /** b in front of a list, merged with the first block when they touch. */
  function Attach(b: Block, right: seq<Block>): (r: seq<Block>)
    ensures r != [] && r[0].addr == b.addr
  {
    if right != [] && b.End() == right[0].addr
    then [Block(b.addr, b.size + right[0].size)] + right[1..]
    else [b] + right
  }

  /** The free list after kfree: b put in its place. */
  function Release(bs: seq<Block>, b: Block): (r: seq<Block>)
    ensures r != []
  {
    if bs == [] || b.addr < bs[0].addr then Attach(b, bs)
    else Attach(bs[0], Release(bs[1..], b))
  }

  lemma AttachCanonical(b: Block, right: seq<Block>)
    requires Canonical(right) && b.size > 0
    requires right != [] ==> b.End() <= right[0].addr
    ensures Canonical(Attach(b, right))
    ensures forall x: nat :: Covers(Attach(b, right), x) <==> b.Has(x) || Covers(right, x)
  {
    assert Attach(b, right)[1..] == if right != [] && b.End() == right[0].addr then right[1..] else right;
  }

  /** kfree keeps the canonical form: the result covers exactly the old free bytes and the freed block. */
  lemma {:induction false} ReleaseCanonical(bs: seq<Block>, b: Block)
    requires Canonical(bs) && b.size > 0 && Clear(b, bs)
    ensures Canonical(Release(bs, b))
    ensures forall x: nat :: Covers(Release(bs, b), x) <==> Covers(bs, x) || b.Has(x)
    ensures Release(bs, b)[0].addr == if bs == [] || b.addr < bs[0].addr then b.addr else bs[0].addr
  {
    if bs != [] { ClearIsApart(b, bs); }
    if bs == [] || b.addr < bs[0].addr {
      AttachCanonical(b, bs);
    } else {
      ReleaseCanonical(bs[1..], b);
      AttachCanonical(bs[0], Release(bs[1..], b));
    }
  }

  /** The order in which two blocks are freed does not show. */
  lemma ReleaseCommutes(bs: seq<Block>, b: Block, c: Block)
    requires Canonical(bs) && b.size > 0 && c.size > 0 && b.Apart(c)
    requires Clear(b, bs) && Clear(c, bs)
    ensures Release(Release(bs, b), c) == Release(Release(bs, c), b)
  {
    ReleaseCanonical(bs, b);
    ReleaseCanonical(bs, c);
    ReleaseCanonical(Release(bs, b), c);
    ReleaseCanonical(Release(bs, c), b);
    CanonicalUnique(Release(Release(bs, b), c), Release(Release(bs, c), b));
  }

  // ---- kmalloc: first fit, split from the high end ----

  /** The size kmalloc rounds a request to; the sum wraps for the last seven requests. */
  function Rounded(size: Addr): Addr { U32(size + 7) / 8 * 8 }

  const MAX_REQUEST: nat := WORDS - 8

  predicate Fits(b: Block, n: nat) { n + HEADER <= b.size }

  /** The block that serves a request keeps at least a smallest block after the split. */
  predicate Splits(b: Block, n: nat) { n + HEADER + SMALLEST <= b.size }

  /** The first block that fits, or |bs|. */
  function FirstFit(bs: seq<Block>, n: nat): (k: nat)
    ensures k <= |bs|
    ensures forall i | 0 <= i < k :: !Fits(bs[i], n)
    ensures k < |bs| ==> Fits(bs[k], n)
  {
    if bs == [] || Fits(bs[0], n) then 0 else 1 + FirstFit(bs[1..], n)
  }

  /** The high end of b, which a split hands out. */
  function Cut(b: Block, n: nat): Block
    requires Splits(b, n)
  {
    Block(b.End() - (n + HEADER), n + HEADER)
  }

  function Kept(b: Block, n: nat): Block
    requires Splits(b, n)
  {
    Block(b.addr, b.size - (n + HEADER))
  }

  function SplitAt(bs: seq<Block>, k: nat, n: nat): seq<Block>
    requires k < |bs| && Splits(bs[k], n)
  {
    bs[k := Kept(bs[k], n)]
  }

  /** A split takes exactly the block's bytes out of the free list, and the list stays canonical. */
  lemma {:induction false} SplitCanonical(bs: seq<Block>, k: nat, n: nat)
    requires Canonical(bs) && k < |bs| && Splits(bs[k], n)
    ensures var (r, b) := (SplitAt(bs, k, n), Cut(bs[k], n));
            && Canonical(r) && Clear(b, r)
            && forall x: nat :: Covers(bs, x) <==> Covers(r, x) || b.Has(x)
  {
    var (r, b) := (SplitAt(bs, k, n), Cut(bs[k], n));
    if k == 0 {
      assert r[1..] == bs[1..];
      forall x: nat | b.Has(x) ensures !Covers(r, x) {
        if Covers(r, x) { CoveredAbove(r, x); }
      }
    } else {
      SplitCanonical(bs[1..], k - 1, n);
      assert r[1..] == SplitAt(bs[1..], k - 1, n);
      forall x: nat | b.Has(x) ensures !Covers(r, x) {
        assert Covers(bs[1..], x);
        CoveredAbove(bs[1..], x);
      }
    }
  }

  /** kmalloc then kfree restores the free list whenever the first fit splits. */
  lemma MallocThenFree(bs: seq<Block>, n: nat)
    requires Canonical(bs)
    requires FirstFit(bs, n) < |bs| && Splits(bs[FirstFit(bs, n)], n)
    ensures var k := FirstFit(bs, n);
            Release(SplitAt(bs, k, n), Cut(bs[k], n)) == bs
  {
    var k := FirstFit(bs, n);
    SplitCanonical(bs, k, n);
    ReleaseCanonical(SplitAt(bs, k, n), Cut(bs[k], n));
    CanonicalUnique(Release(SplitAt(bs, k, n), Cut(bs[k], n)), bs);
  }
}
