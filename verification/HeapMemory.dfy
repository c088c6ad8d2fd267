/** A free list as it lies in memory: the size word at a block's address, the link word four bytes on. */
module HeapMemory {
  import opened Words
  import opened FreeList

  const LINK: nat := 4
  const FREE_MEMORY: nat := 8

  /** Following links from p passes exactly the blocks bs and arrives at q. */
  predicate Path(m: Memory, p: nat, bs: seq<Block>, q: nat)
    decreases |bs|
  {
    if bs == [] then p == q
    else
      && p != 0 && p == bs[0].addr && Read(m, p) == bs[0].size
      && Path(m, Read(m, p + LINK), bs[1..], q)
  }

  /** a is a header word of some block of the list. */
  predicate IsHeaderWord(bs: seq<Block>, a: nat) {
    bs != [] && (a == bs[0].addr || a == bs[0].addr + LINK || IsHeaderWord(bs[1..], a))
  }

  /** Every block has an aligned address, room for a header, and lies in the address space. */
  predicate InMemory(bs: seq<Block>) {
    bs != [] ==>
      && 0 < bs[0].addr && bs[0].addr % 8 == 0 && HEADER <= bs[0].size && bs[0].size % 8 == 0
      && bs[0].End() <= WORDS && InMemory(bs[1..])
  }

  lemma {:induction false} HeaderWordCovered(bs: seq<Block>, a: nat)
    requires InMemory(bs) && IsHeaderWord(bs, a)
    ensures Covers(bs, a)
  {
    if !bs[0].Has(a) { HeaderWordCovered(bs[1..], a); }
  }

  /** Writes outside the headers do not disturb a path. */
  lemma {:induction false} PathFrame(m: Memory, m': Memory, p: nat, bs: seq<Block>, q: nat)
    requires Path(m, p, bs, q)
    requires forall a | IsHeaderWord(bs, a) :: Read(m', a) == Read(m, a)
    ensures Path(m', p, bs, q)
    decreases |bs|
  {
    if bs != [] {
      assert IsHeaderWord(bs, p) && IsHeaderWord(bs, p + LINK);
      assert forall a | IsHeaderWord(bs[1..], a) :: IsHeaderWord(bs, a);
      PathFrame(m, m', Read(m, p + LINK), bs[1..], q);
    }
  }

  lemma {:induction false} PathJoin(m: Memory, p: nat, a: seq<Block>, r: nat, b: seq<Block>, q: nat)
    requires Path(m, p, a, r) && Path(m, r, b, q)
    ensures Path(m, p, a + b, q)
    decreases |a|
  {
    if a == [] {
      assert a + b == b;
    } else {
      PathJoin(m, Read(m, p + LINK), a[1..], r, b, q);
      assert (a + b)[1..] == a[1..] + b;
    }
  }

  /** Where the first k links of a path lead. */
  function After(bs: seq<Block>, k: nat, q: nat): nat
    requires k <= |bs|
  {
    if k < |bs| then bs[k].addr else q
  }

  lemma {:induction false} PathCut(m: Memory, p: nat, bs: seq<Block>, k: nat, q: nat)
    requires Path(m, p, bs, q) && k <= |bs|
    ensures Path(m, p, bs[..k], After(bs, k, q)) && Path(m, After(bs, k, q), bs[k..], q)
    decreases |bs|
  {
    if k > 0 {
      PathCut(m, Read(m, p + LINK), bs[1..], k - 1, q);
      assert bs[..k][1..] == bs[1..][..k - 1] && bs[1..][k - 1..] == bs[k..];
    }
  }

  lemma {:induction false} HeaderWordJoin(a: seq<Block>, b: seq<Block>, x: nat)
    ensures IsHeaderWord(a + b, x) <==> IsHeaderWord(a, x) || IsHeaderWord(b, x)
    decreases |a|
  {
    if a == [] {
      assert a + b == b;
    } else {
      HeaderWordJoin(a[1..], b, x);
      assert (a + b)[1..] == a[1..] + b;
    }
  }

  lemma {:induction false} InMemoryJoin(a: seq<Block>, b: seq<Block>)
    ensures InMemory(a + b) <==> InMemory(a) && InMemory(b)
    decreases |a|
  {
    if a == [] {
      assert a + b == b;
    } else {
      InMemoryJoin(a[1..], b);
      assert (a + b)[1..] == a[1..] + b;
    }
  }

  lemma {:induction false} InMemoryAt(bs: seq<Block>, k: nat)
    requires InMemory(bs) && k < |bs|
    ensures 0 < bs[k].addr && bs[k].addr % 8 == 0 && HEADER <= bs[k].size && bs[k].size % 8 == 0
    ensures bs[k].End() <= WORDS
  {
    if k > 0 { InMemoryAt(bs[1..], k - 1); }
  }

  lemma {:induction false} CoversJoin(a: seq<Block>, b: seq<Block>, x: nat)
    ensures Covers(a + b, x) <==> Covers(a, x) || Covers(b, x)
    decreases |a|
  {
    if a == [] {
      assert a + b == b;
    } else {
      CoversJoin(a[1..], b, x);
      assert (a + b)[1..] == a[1..] + b;
    }
  }

  /** A canonical list falls into two canonical lists, the left one ending before the right one starts. */
  lemma {:induction false} CanonicalParts(bs: seq<Block>, k: nat)
    requires Canonical(bs) && k <= |bs|
    ensures Canonical(bs[..k]) && Canonical(bs[k..])
    ensures k < |bs| ==> forall x: nat | Covers(bs[..k], x) :: x < bs[k].addr
    ensures 0 < k < |bs| ==> bs[k - 1].End() < bs[k].addr
    decreases |bs|
  {
    if k > 0 {
      CanonicalParts(bs[1..], k - 1);
      assert bs[..k][1..] == bs[1..][..k - 1] && bs[1..][k - 1..] == bs[k..];
      if 1 < k < |bs| { assert bs[1..][k - 1] == bs[k] && bs[1..][k - 2] == bs[k - 1]; }
      if k < |bs| {
        Ascending(bs, k);
        assert bs[..k][0] == bs[0] && (k > 1 ==> bs[1..][k - 1] == bs[k]);
        assert k == 1 ==> bs[..k][1..] == [];
      }
    }
  }

  lemma {:induction false} Ascending(bs: seq<Block>, k: nat)
    requires Canonical(bs) && 0 < k < |bs|
    ensures bs[0].End() < bs[k].addr
  {
    if k > 1 { Ascending(bs[1..], k - 1); }
  }

  function Last(bs: seq<Block>): nat { if bs == [] then 0 else bs[|bs| - 1].addr }

  // ---- kfree's place in the list ----

  /** How many blocks of a list start below a, up to the first that does not. */
  function Place(bs: seq<Block>, a: nat): (k: nat)
    ensures k <= |bs|
    ensures k < |bs| ==> a <= bs[k].addr
    ensures k > 0 ==> bs[k - 1].addr < a
  {
    if bs == [] || a <= bs[0].addr then 0 else 1 + Place(bs[1..], a)
  }

  lemma {:induction false} PlaceIndex(bs: seq<Block>, a: nat, j: nat)
    requires Canonical(bs) && j < |bs|
    ensures bs[j].addr < a <==> j < Place(bs, a)
    decreases j
  {
    if j > 0 {
      Ascending(bs, j);
      if bs[0].addr < a { PlaceIndex(bs[1..], a, j - 1); }
    }
  }

  predicate AlreadyFree(bs: seq<Block>, a: nat) {
    Place(bs, a) < |bs| && bs[Place(bs, a)].addr == a
  }

  /** left in front of right, the last block of left merged with the first of right when they touch. */
  function MergeLeft(left: seq<Block>, right: seq<Block>): seq<Block> {
    if left == [] then right
    else if |left| == 1 then Attach(left[0], right)
    else [left[0]] + MergeLeft(left[1..], right)
  }

  lemma MergeLeftHead(left: seq<Block>, right: seq<Block>)
    requires left != []
    ensures MergeLeft(left, right) != [] && MergeLeft(left, right)[0].addr == left[0].addr
  {}

  /** Inserting by address and merging with the two neighbours only is what Release describes. */
  lemma {:induction false} ReleaseAtPlace(bs: seq<Block>, b: Block)
    requires Canonical(bs) && !AlreadyFree(bs, b.addr)
    ensures Release(bs, b) == MergeLeft(bs[..Place(bs, b.addr)], Attach(b, bs[Place(bs, b.addr)..]))
    decreases |bs|
  {
    var k := Place(bs, b.addr);
    if k > 0 {
      ReleaseAtPlace(bs[1..], b);
      var left, right := bs[1..][..k - 1], Attach(b, bs[k..]);
      assert bs[1..][k - 1..] == bs[k..] && bs[..k][1..] == left;
      if k > 1 { MergeLeftHead(left, right); }
    } else {
      assert bs[0..] == bs;
    }
  }

  /** Merging b with the block its link points at, when they touch. */
  function CoalesceWith(m: Memory, b: nat, next: nat): Memory {
    if next != 0 && next == b + Read(m, b) then
      var linked := m[b + LINK := Read(m, next + LINK)];
      linked[b := Read(linked, b) + Read(linked, next)]
    else m
  }

  lemma CoalescePath(m: Memory, b: Block, right: seq<Block>)
    requires Path(m, b.addr, [b] + right, 0) && InMemory([b] + right)
    requires forall a | IsHeaderWord(right, a) :: a != b.addr && a != b.addr + LINK
    ensures Path(CoalesceWith(m, b.addr, After(right, 0, 0)), b.addr, Attach(b, right), 0)
    ensures InMemory(Attach(b, right))
  {
    var m' := CoalesceWith(m, b.addr, After(right, 0, 0));
    assert ([b] + right)[1..] == right;
    if right != [] && b.End() == right[0].addr {
      assert InMemory(right);
      var merged := Block(b.addr, b.size + right[0].size);
      assert IsHeaderWord(right, right[0].addr + LINK);
      assert forall a | IsHeaderWord(right[1..], a) :: IsHeaderWord(right, a);
      PathFrame(m, m', Read(m, right[0].addr + LINK), right[1..], 0);
      assert Attach(b, right)[1..] == right[1..];
    } else {
      assert m' == m;
      assert After(right, 0, 0) != 0 ==> InMemory(right);
    }
  }

  /** Merging the last block of left with what follows it. */
  lemma {:induction false} MergeLeftPath(m: Memory, p: nat, left: seq<Block>, right: seq<Block>)
    requires left != [] && right != [] && Path(m, p, left, right[0].addr) && Path(m, right[0].addr, right, 0)
    requires InMemory(left) && InMemory(right) && Canonical(left)
    requires forall a | IsHeaderWord(right, a) :: !IsHeaderWord(left, a)
    ensures Path(CoalesceWith(m, Last(left), right[0].addr), p, MergeLeft(left, right), 0)
    ensures InMemory(MergeLeft(left, right))
    decreases |left|
  {
    if |left| == 1 {
      assert ([left[0]] + right)[1..] == right;
      CoalescePath(m, left[0], right);
    } else {
      MergeLeftPath(m, Read(m, p + LINK), left[1..], right);
      Ascending(left, |left| - 1);
      assert MergeLeft(left, right)[1..] == MergeLeft(left[1..], right);
    }
  }

  lemma {:induction false} PathRelink(m: Memory, p: nat, left: seq<Block>, q: nat, q': nat)
    requires Path(m, p, left, q) && left != [] && Canonical(left) && InMemory(left)
    ensures Path(m[Last(left) + LINK := q'], p, left, q')
    decreases |left|
  {
    if |left| > 1 {
      Ascending(left, |left| - 1);
      PathRelink(m, Read(m, p + LINK), left[1..], q, q');
    }
  }

  // ---- what kfree writes ----

  /** The blocks kfree finds on either side, 0 for none. */
  function Neighbours(bs: seq<Block>, a: nat): (nat, nat) {
    var k := Place(bs, a);
    if AlreadyFree(bs, a) then (0, 0) else (if k > 0 then bs[k - 1].addr else 0, After(bs, k, 0))
  }

  function LinkWrites(m: Memory, prev: nat, b: nat, next: nat): Memory {
    if prev == 0 then m[b + LINK := next] else m[prev + LINK := b][b + LINK := next]
  }

  function CoalesceWrites(m: Memory, prev: nat, b: nat, next: nat): Memory {
    var m' := CoalesceWith(m, b, next);
    if prev != 0 then CoalesceWith(m', prev, b) else m'
  }

  function FreeWrites(m: Memory, bs: seq<Block>, b: nat): Memory {
    var (prev, next) := Neighbours(bs, b);
    CoalesceWrites(LinkWrites(m, prev, b, next), prev, b, next)
  }

  /** What kfree makes of the free list: a block that is still listed takes the whole list's place. */
  function AfterFree(bs: seq<Block>, b: Block): seq<Block> {
    if AlreadyFree(bs, b.addr) then [b] else Release(bs, b)
  }

  /** A block in memory that is clear of the list. */
  ghost predicate Insertable(m: Memory, bs: seq<Block>, b: Block) {
    && 0 < b.addr && b.addr % 8 == 0 && HEADER <= b.size && b.size % 8 == 0 && b.End() <= WORDS
    && Read(m, b.addr) == b.size && Clear(b, bs)
  }

  lemma ClearHeaders(m: Memory, bs: seq<Block>, b: Block, a: nat)
    requires Insertable(m, bs, b) && InMemory(bs) && IsHeaderWord(bs, a)
    ensures a != b.addr && a != b.addr + LINK
  {
    HeaderWordCovered(bs, a);
    assert b.Has(b.addr) && b.Has(b.addr + LINK);
  }

  lemma {:induction false} ListedIsCovered(bs: seq<Block>, k: nat)
    requires InMemory(bs) && k < |bs|
    ensures Covers(bs, bs[k].addr) && IsHeaderWord(bs, bs[k].addr) && IsHeaderWord(bs, bs[k].addr + LINK)
  {
    if k > 0 { ListedIsCovered(bs[1..], k - 1); }
  }

  /** The new block linked in front of the right part and merged with it. */
  lemma RightPath(m: Memory, prev: nat, right: seq<Block>, b: Block)
    requires Insertable(m, right, b) && InMemory(right) && Path(m, After(right, 0, 0), right, 0)
    requires !IsHeaderWord(right, prev + LINK) && prev + LINK != b.addr
    ensures var next := After(right, 0, 0);
            && Path(CoalesceWith(LinkWrites(m, prev, b.addr, next), b.addr, next), b.addr, Attach(b, right), 0)
            && InMemory(Attach(b, right))
  {
    var next := After(right, 0, 0);
    var m1 := LinkWrites(m, prev, b.addr, next);
    forall a | IsHeaderWord(right, a) ensures a != b.addr && a != b.addr + LINK {
      ClearHeaders(m, right, b, a);
    }
    PathFrame(m, m1, next, right, 0);
    assert ([b] + right)[1..] == right;
    CoalescePath(m1, b, right);
  }

  /** The left part relinked to the new block, which later merges leave alone. */
  lemma LeftPath(m: Memory, p: nat, left: seq<Block>, q: nat, b: Block, next: nat)
    requires left != [] && Insertable(m, left, b) && InMemory(left) && Canonical(left) && Path(m, p, left, q)
    ensures Path(CoalesceWith(LinkWrites(m, Last(left), b.addr, next), b.addr, next), p, left, b.addr)
  {
    var m1 := m[Last(left) + LINK := b.addr];
    var m2 := CoalesceWith(LinkWrites(m, Last(left), b.addr, next), b.addr, next);
    InMemoryAt(left, |left| - 1);
    PathRelink(m, p, left, q, b.addr);
    forall a | IsHeaderWord(left, a) ensures Read(m2, a) == Read(m1, a) {
      ClearHeaders(m, left, b, a);
    }
    PathFrame(m1, m2, p, left, b.addr);
  }

  lemma AttachHeaders(b: Block, right: seq<Block>, a: nat)
    requires IsHeaderWord(Attach(b, right), a)
    ensures a == b.addr || a == b.addr + LINK || IsHeaderWord(right, a)
  {
    assert Attach(b, right)[1..] == if right != [] && b.End() == right[0].addr then right[1..] else right;
  }

  lemma BetweenPath(m: Memory, head: nat, left: seq<Block>, right: seq<Block>, b: Block)
    requires left != [] && Path(m, head, left, After(right, 0, 0)) && Path(m, After(right, 0, 0), right, 0)
    requires InMemory(left) && Canonical(left) && InMemory(right)
    requires Insertable(m, left, b) && Insertable(m, right, b)
    requires forall a | IsHeaderWord(left, a) :: !IsHeaderWord(right, a)
    ensures var (prev, next) := (Last(left), After(right, 0, 0));
            Path(CoalesceWrites(LinkWrites(m, prev, b.addr, next), prev, b.addr, next), head,
                 MergeLeft(left, Attach(b, right)), 0)
            && InMemory(MergeLeft(left, Attach(b, right)))
  {
    var (prev, next) := (Last(left), After(right, 0, 0));
    InMemoryAt(left, |left| - 1);
    ListedIsCovered(left, |left| - 1);
    ClearHeaders(m, left, b, prev + LINK);
    RightPath(m, prev, right, b);
    LeftPath(m, head, left, next, b, next);
    forall a | IsHeaderWord(Attach(b, right), a) ensures !IsHeaderWord(left, a) {
      AttachHeaders(b, right, a);
      if IsHeaderWord(left, a) { ClearHeaders(m, left, b, a); }
    }
    MergeLeftPath(CoalesceWith(LinkWrites(m, prev, b.addr, next), b.addr, next), head, left, Attach(b, right));
  }

  lemma ClearParts(bs: seq<Block>, k: nat, b: Block)
    requires k <= |bs| && Clear(b, bs)
    ensures Clear(b, bs[..k]) && Clear(b, bs[k..])
  {
    assert bs == bs[..k] + bs[k..];
    forall x: nat | b.Has(x) ensures !Covers(bs[..k], x) && !Covers(bs[k..], x) {
      CoversJoin(bs[..k], bs[k..], x);
    }
  }

  lemma NotAlreadyFree(m: Memory, bs: seq<Block>, b: Block)
    requires InMemory(bs) && Insertable(m, bs, b)
    ensures !AlreadyFree(bs, b.addr)
  {
    assert b.Has(b.addr);
    if Place(bs, b.addr) < |bs| { ListedIsCovered(bs, Place(bs, b.addr)); }
  }

  /** kfree's writes turn the list in memory into the released list. */
  lemma FreePath(m: Memory, head: nat, bs: seq<Block>, b: Block)
    requires Path(m, head, bs, 0) && InMemory(bs) && Canonical(bs) && Insertable(m, bs, b)
    ensures !AlreadyFree(bs, b.addr)
    ensures var head' := if Place(bs, b.addr) == 0 then b.addr else head;
            Path(FreeWrites(m, bs, b.addr), head', Release(bs, b), 0) && InMemory(Release(bs, b))
  {
    var k := Place(bs, b.addr);
    var left, right := bs[..k], bs[k..];
    NotAlreadyFree(m, bs, b);
    assert bs == left + right && After(bs, k, 0) == After(right, 0, 0);
    PathCut(m, head, bs, k, 0);
    InMemoryJoin(left, right);
    ClearParts(bs, k, b);
    ReleaseAtPlace(bs, b);
    if k == 0 {
      InMemoryHeadersAbove(right);
      RightPath(m, 0, right, b);
    } else {
      CanonicalParts(bs, k);
      forall a | IsHeaderWord(left, a) ensures !IsHeaderWord(right, a) {
        HeaderWordCovered(left, a);
        PartsApart(bs, k, a);
      }
      BetweenPath(m, head, left, right, b);
      InMemoryAt(bs, k - 1);
      assert Last(left) == bs[k - 1].addr;
    }
  }

  lemma {:induction false} InMemoryHeadersAbove(bs: seq<Block>)
    requires InMemory(bs)
    ensures !IsHeaderWord(bs, LINK)
  {
    if bs != [] { InMemoryHeadersAbove(bs[1..]); }
  }

  lemma PartsApart(bs: seq<Block>, k: nat, a: nat)
    requires Canonical(bs) && InMemory(bs) && k <= |bs| && Covers(bs[..k], a)
    ensures !Covers(bs[k..], a) && !IsHeaderWord(bs[k..], a)
  {
    CanonicalParts(bs, k);
    InMemoryJoin(bs[..k], bs[k..]);
    assert bs == bs[..k] + bs[k..];
    if Covers(bs[k..], a) { CoveredAbove(bs[k..], a); }
    if IsHeaderWord(bs[k..], a) { HeaderWordCovered(bs[k..], a); }
  }

  /** kfree writes only inside the block and the headers of free blocks. */
  lemma FreeWritesFrame(m: Memory, bs: seq<Block>, b: Block, a: nat)
    requires InMemory(bs) && HEADER <= b.size
    requires !Covers(bs, a) && !b.Has(a)
    ensures Read(FreeWrites(m, bs, b.addr), a) == Read(m, a)
  {
    var k := Place(bs, b.addr);
    if k > 0 {
      ListedIsCovered(bs, k - 1);
      HeaderWordCovered(bs, bs[k - 1].addr + LINK);
    }
    assert b.Has(b.addr) && b.Has(b.addr + LINK);
  }

  // ---- block_list_tail ----

  function FreeTail(bs: seq<Block>, b: Block, tail: nat): nat {
    var k := Place(bs, b.addr);
    if AlreadyFree(bs, b.addr) then tail
    else
      var t := if k > 0 && k == |bs| then b.addr else tail;
      if k < |bs| && b.End() == bs[k].addr && t == bs[k].addr then b.addr else t
  }

  lemma LastOfRelease(bs: seq<Block>, b: Block)
    requires Canonical(bs) && !AlreadyFree(bs, b.addr)
    ensures Last(Release(bs, b)) ==
              var k := Place(bs, b.addr);
              if k == |bs| || (k + 1 == |bs| && b.End() == bs[k].addr)
              then if k > 0 && bs[k - 1].End() == b.addr then bs[k - 1].addr else b.addr
              else Last(bs)
  {
    hide Canonical, Release, Attach;
    var k := Place(bs, b.addr);
    ReleaseAtPlace(bs, b);
    LastOfAttach(b, bs[k..]);
    LastOfMergeLeft(bs[..k], Attach(b, bs[k..]));
  }

  lemma {:induction false} LastOfMergeLeft(left: seq<Block>, right: seq<Block>)
    requires right != []
    ensures Last(MergeLeft(left, right)) ==
      if left != [] && |right| == 1 && left[|left| - 1].End() == right[0].addr
      then left[|left| - 1].addr else Last(right)
  {
    if |left| == 1 { LastOfAttach(left[0], right); }
    if |left| > 1 {
      LastOfMergeLeft(left[1..], right);
      MergeLeftHead(left[1..], right);
    }
  }

  lemma LastOfAttach(b: Block, right: seq<Block>)
    ensures Last(Attach(b, right)) ==
      if right == [] || (|right| == 1 && b.End() == right[0].addr) then b.addr else Last(right)
    ensures |Attach(b, right)| == 1 <==> right == [] || (|right| == 1 && b.End() == right[0].addr)
  {}

  /** kfree leaves block_list_tail inside a merged block exactly when the freed block is absorbed by its left
      neighbour and what it becomes part of is the last block of the list. */
  lemma TailStale(bs: seq<Block>, b: Block)
    requires Canonical(bs) && bs != [] && b.size > 0 && !AlreadyFree(bs, b.addr)
    ensures FreeTail(bs, b, Last(bs)) != Last(Release(bs, b))
       <==> var k := Place(bs, b.addr);
            && k > 0 && bs[k - 1].End() == b.addr
            && (k == |bs| || (k + 1 == |bs| && b.End() == bs[k].addr))
  {
    LastOfRelease(bs, b);
    LastAscending(bs, b.addr);
  }

  lemma {:induction false} LastAscending(bs: seq<Block>, a: nat)
    requires Canonical(bs) && bs != []
    ensures Place(bs, a) + 1 < |bs| ==> bs[Place(bs, a)].addr < bs[|bs| - 1].addr
    ensures Place(bs, a) < |bs| ==> a <= bs[|bs| - 1].addr
    decreases |bs|
  {
    if |bs| > 1 {
      Ascending(bs, |bs| - 1);
      if a > bs[0].addr { LastAscending(bs[1..], a); }
    }
  }

  // ---- what kmalloc_split_block writes ----

  function SplitWrites(m: Memory, b: Block, n: nat): Memory
    requires Splits(b, n)
  {
    var c := Cut(b, n).addr;
    m[c := n + HEADER][c + LINK := 0][c + FREE_MEMORY := c + HEADER][b.addr := b.size - (n + HEADER)]
  }

  lemma {:induction false} SplitPath(m: Memory, p: nat, bs: seq<Block>, k: nat, n: nat)
    requires Path(m, p, bs, 0) && InMemory(bs) && Canonical(bs)
    requires k < |bs| && Splits(bs[k], n) && n % 8 == 0
    ensures Path(SplitWrites(m, bs[k], n), p, SplitAt(bs, k, n), 0) && InMemory(SplitAt(bs, k, n))
    decreases |bs|
  {
    var m' := SplitWrites(m, bs[k], n);
    if k == 0 {
      forall a | IsHeaderWord(bs[1..], a) ensures Read(m', a) == Read(m, a) {
        HeaderWordCovered(bs[1..], a);
        CoveredAbove(bs[1..], a);
      }
      PathFrame(m, m', Read(m, p + LINK), bs[1..], 0);
      assert SplitAt(bs, k, n)[1..] == bs[1..];
    } else {
      Ascending(bs, k);
      SplitPath(m, Read(m, p + LINK), bs[1..], k - 1, n);
      assert SplitAt(bs, k, n)[1..] == SplitAt(bs[1..], k - 1, n);
    }
  }

  // ---- the page kmalloc appends ----

  /** The list after tail->next is pointed at a new one-page block. */
  function AppendAt(bs: seq<Block>, tail: nat, page: nat): seq<Block> {
    if bs == [] then []
    else if bs[0].addr == tail then [bs[0], Block(page, PAGE_SIZE)]
    else [bs[0]] + AppendAt(bs[1..], tail, page)
  }

  function AppendWrites(m: Memory, tail: nat, page: nat): Memory {
    m[page := PAGE_SIZE][page + FREE_MEMORY := page + HEADER][page + LINK := 0][tail + LINK := page]
  }

  lemma {:induction false} AppendPath(m: Memory, p: nat, bs: seq<Block>, tail: nat, page: nat)
    requires Path(m, p, bs, 0) && InMemory(bs) && Canonical(bs)
    requires 0 < page && page % 8 == 0 && tail % 8 == 0 && tail != page && Clear(Block(page, PAGE_SIZE), bs)
    ensures Path(AppendWrites(m, tail, page), p, AppendAt(bs, tail, page), 0)
    decreases |bs|
  {
    var m' := AppendWrites(m, tail, page);
    if bs != [] {
      assert Covers(bs, bs[0].addr) && Covers(bs, bs[0].addr + LINK);
      var header := Block(page, PAGE_SIZE);
      assert header.Has(page) && header.Has(page + LINK) && header.Has(page + FREE_MEMORY);
      if bs[0].addr == tail {
        assert [bs[0], Block(page, PAGE_SIZE)][1..] == [Block(page, PAGE_SIZE)];
        assert Path(m', page, [Block(page, PAGE_SIZE)], 0);
      } else {
        assert forall x: nat | Covers(bs[1..], x) :: Covers(bs, x);
        AppendPath(m, Read(m, p + LINK), bs[1..], tail, page);
        assert AppendAt(bs, tail, page)[1..] == AppendAt(bs[1..], tail, page);
      }
    }
  }

  /** A page that lies beyond the list and does not touch it leaves a canonical list. */
  lemma {:induction false} AppendCanonical(bs: seq<Block>, tail: nat, page: nat)
    requires Canonical(bs) && InMemory(bs) && InMemory([Block(page, PAGE_SIZE)])
    requires forall x: nat | Covers(bs, x) :: x + 1 < page
    ensures Canonical(AppendAt(bs, tail, page)) && InMemory(AppendAt(bs, tail, page))
    ensures bs != [] ==> AppendAt(bs, tail, page) != [] && AppendAt(bs, tail, page)[0] == bs[0]
  {
    if bs != [] {
      assert bs[0].Has(bs[0].End() - 1) && Covers(bs, bs[0].End() - 1);
      if bs[0].addr == tail {
        assert AppendAt(bs, tail, page)[1..] == [Block(page, PAGE_SIZE)];
        assert [Block(page, PAGE_SIZE)][1..] == [];
      } else {
        assert forall x: nat | Covers(bs[1..], x) :: Covers(bs, x);
        AppendCanonical(bs[1..], tail, page);
        assert AppendAt(bs, tail, page)[1..] == AppendAt(bs[1..], tail, page);
      }
    }
  }

  lemma PageInMemory(page: nat)
    requires 0 < page && page % PAGE_SIZE == 0 && page + PAGE_SIZE <= WORDS
    ensures InMemory([Block(page, PAGE_SIZE)]) && page % 8 == 0
  {
    PageIsAligned(page / PAGE_SIZE);
    assert [Block(page, PAGE_SIZE)][1..] == [];
  }

  lemma PageIsAligned(q: nat)
    ensures q * PAGE_SIZE % 8 == 0
  {
    assert q * PAGE_SIZE == 8 * (512 * q);
  }

  /** The page joins the free list without loss exactly when block_list_tail still is the last block. */
  lemma {:induction false} AppendKeepsAll(bs: seq<Block>, tail: nat, page: nat)
    requires Canonical(bs) && bs != []
    ensures AppendAt(bs, tail, page) == bs + [Block(page, PAGE_SIZE)] <==> tail == bs[|bs| - 1].addr
  {
    if |bs| > 1 {
      Ascending(bs, |bs| - 1);
      if bs[0].addr == tail {
        assert |AppendAt(bs, tail, page)| < |bs| + 1;
      } else {
        AppendKeepsAll(bs[1..], tail, page);
        assert (bs + [Block(page, PAGE_SIZE)]) == [bs[0]] + (bs[1..] + [Block(page, PAGE_SIZE)]);
        assert AppendAt(bs, tail, page)[1..] == AppendAt(bs[1..], tail, page);
      }
    } else {
      assert AppendAt(bs[1..], tail, page) == [];
    }
  }
}
