/** 32-bit machine words: wrap-around addresses, the page macros and the bit macros. */
module Words {

  const WORDS: nat := 0x1_0000_0000
  const PAGE_SIZE: nat := 4096
  const PAGE_TABLE_INDICES: nat := 1024
  const PAGE_TABLE_RANGE: nat := 0x40_0000
  const KERNEL_VIRT_BASE: nat := 0xC000_0000

  type Addr = a: nat | a < WORDS

  /** What is left of an unbounded result once it is stored in a uint32_t. */
  function U32(x: int): Addr { x % WORDS }

  // PAGE_ALIGN clears the low twelve bits.
  function PageAlign(a: Addr): Addr { a / PAGE_SIZE * PAGE_SIZE }

  function P2V(a: int): Addr { U32(a + KERNEL_VIRT_BASE) }

  function V2P(a: int): Addr { U32(a - KERNEL_VIRT_BASE) }

  // PAGE_DIRECTORY_INDEX and PAGE_TABLE_INDEX: shift, then keep ten bits.
  function DirIndex(a: Addr): (i: nat)
    ensures i < PAGE_TABLE_INDICES
  {
    a / PAGE_TABLE_RANGE
  }

  function TableIndex(a: Addr): (i: nat)
    ensures i < PAGE_TABLE_INDICES
  {
    a / PAGE_SIZE % PAGE_TABLE_INDICES
  }

  /** The two indices and the page offset name an address uniquely. */
  lemma IndicesSplit(d: nat, t: nat, o: nat)
    requires d < PAGE_TABLE_INDICES && t < PAGE_TABLE_INDICES && o < PAGE_SIZE
    ensures d * PAGE_TABLE_RANGE + t * PAGE_SIZE + o < WORDS
    ensures var a := d * PAGE_TABLE_RANGE + t * PAGE_SIZE + o;
            DirIndex(a) == d && TableIndex(a) == t
  {}

  // ---- memory, one word to an address; what nothing was written to is zero ----

  type Memory = map<nat, nat>

  function Read(m: Memory, a: nat): nat { if a in m then m[a] else 0 }

  // ---- words as bits ----

  /** A uint32_t seen as its 32 bits, least significant first. */
  type Word = w: seq<bool> | |w| == 32 witness seq(32, _ => false)

  const ZERO: Word := seq(32, _ => false)
  const ONES: Word := seq(32, _ => true)

  // The shift-and-mask macros of common_macros.h.

  /** 1U << index. */
  function Flag(index: bv32): bv32
    requires index < 32
  {
    1 << index
  }

  /** The words have a set bit in common. */
  predicate Overlap(a: bv32, b: bv32) { a & b != 0 }

  predicate CheckBitSet(num: bv32, index: bv32)
    requires index < 32
  {
    Overlap(num, Flag(index))
  }

  function With(num: bv32, flag: bv32): bv32 { num | flag }

  function Without(num: bv32, flag: bv32): bv32 { num & !flag }

  function SetBit(num: bv32, index: bv32): bv32
    requires index < 32
  {
    With(num, Flag(index))
  }

  function ClearBit(num: bv32, index: bv32): bv32
    requires index < 32
  {
    Without(num, Flag(index))
  }

  lemma SetBitMacro(num: bv32, index: bv32, k: bv32)
    requires index < 32 && k < 32
    ensures CheckBitSet(SetBit(num, index), k) <==> index == k || CheckBitSet(num, k)
  {
    hide Flag, Overlap, With;
    FlagsApart(index, k);
    WithOverlap(num, Flag(index), Flag(k));
  }

  lemma ClearBitMacro(num: bv32, index: bv32, k: bv32)
    requires index < 32 && k < 32
    ensures CheckBitSet(ClearBit(num, index), k) <==> index != k && CheckBitSet(num, k)
  {
    hide Flag, Overlap, Without;
    FlagsApart(index, k);
    WithoutOverlap(num, Flag(index), Flag(k));
  }

  lemma FlagsApart(j: bv32, k: bv32)
    requires j < 32 && k < 32
    ensures Overlap(Flag(j), Flag(k)) <==> j == k
  {}

  lemma WithOverlap(num: bv32, m: bv32, n: bv32)
    ensures Overlap(m, n) ==> m == n ==> Overlap(With(num, m), n)
    ensures !Overlap(m, n) ==> Overlap(With(num, m), n) == Overlap(num, n)
  {}

  lemma WithoutOverlap(num: bv32, m: bv32, n: bv32)
    ensures m == n ==> !Overlap(Without(num, m), n)
    ensures !Overlap(m, n) ==> Overlap(Without(num, m), n) == Overlap(num, n)
  {}

  // vmm_init builds the partly occupied word as ~(0xFFFFFFFF << rest).
  lemma LowBitsMacro(rest: bv32, k: bv32)
    requires rest < 32 && k < 32
    ensures CheckBitSet(!((0xFFFF_FFFF as bv32) << rest), k) <==> k < rest
  {}

  // A word is handled as the sequence of its bits. The macros act on it as sequence updates.

  function Index(j: nat): (i: bv32)
    requires j < 32
    ensures i < 32
  {
    j as bv32
  }

  lemma IndexValue(j: nat)
    requires j < 32
    ensures Index(j) as int == j
  {}

  function Bits(num: bv32): (w: Word)
    ensures forall j | 0 <= j < 32 :: w[j] == CheckBitSet(num, Index(j))
  {
    seq(32, j requires 0 <= j < 32 => CheckBitSet(num, Index(j)))
  }

  lemma SetBitUpdates(num: bv32, j: nat)
    requires j < 32
    ensures Bits(SetBit(num, Index(j))) == Bits(num)[j := true]
    ensures Bits(ClearBit(num, Index(j))) == Bits(num)[j := false]
  {
    hide CheckBitSet, SetBit, ClearBit, Index;
    var (set', cleared, was) := (Bits(SetBit(num, Index(j))), Bits(ClearBit(num, Index(j))), Bits(num));
    forall i: nat | i < 32 ensures set'[i] == was[j := true][i] && cleared[i] == was[j := false][i] {
      IndexValue(i);
      IndexValue(j);
      SetBitMacro(num, Index(j), Index(i));
      ClearBitMacro(num, Index(j), Index(i));
    }
  }

  // A field kept as a number is handled by its binary digits.

  predicate BitOf(x: nat, k: nat) { if k == 0 then x % 2 == 1 else BitOf(x / 2, k - 1) }

  /** CLEAR_BIT on a number. */
  function WithoutBit(x: nat, j: nat): (r: nat)
    ensures r <= x
  {
    if j == 0 then x - x % 2 else 2 * WithoutBit(x / 2, j - 1) + x % 2
  }

  lemma {:induction false} WithoutBitIs(x: nat, j: nat, k: nat)
    ensures BitOf(WithoutBit(x, j), k) <==> k != j && BitOf(x, k)
    ensures WithoutBit(x, j) == x <==> !BitOf(x, j)
    decreases j
  {
    if j > 0 { WithoutBitIs(x / 2, j - 1, if k > 0 then k - 1 else 0); }
  }

  // ---- bitmaps: one bit a page, set when the page is taken ----

  predicate Taken(bitmap: seq<Word>, p: nat)
    requires p < 32 * |bitmap|
  {
    bitmap[p / 32][p % 32]
  }

  function Put(bitmap: seq<Word>, p: nat, bit: bool): (r: seq<Word>)
    requires p < 32 * |bitmap|
    ensures |r| == |bitmap|
    ensures forall q | 0 <= q < 32 * |bitmap| :: Taken(r, q) == if q == p then bit else Taken(bitmap, q)
  {
    bitmap[p / 32 := bitmap[p / 32][p % 32 := bit]]
  }

  /** p is the first clear bit among the first n. */
  ghost predicate IsLowestFree(bitmap: seq<Word>, n: nat, p: nat)
    requires n <= 32 * |bitmap|
  {
    p < n && !Taken(bitmap, p) && forall q | 0 <= q < p :: Taken(bitmap, q)
  }

  ghost predicate AllTaken(bitmap: seq<Word>, n: nat)
    requires n <= 32 * |bitmap|
  {
    forall q | 0 <= q < n :: Taken(bitmap, q)
  }

  /** The first clear bit at or above `from`, or n when there is none. */
  function LowestFree(bitmap: seq<Word>, from: nat, n: nat): (p: nat)
    requires from <= n <= 32 * |bitmap|
    ensures from <= p <= n
    ensures p < n ==> !Taken(bitmap, p)
    ensures forall q | from <= q < p :: Taken(bitmap, q)
    decreases n - from
  {
    if from == n || !Taken(bitmap, from) then from else LowestFree(bitmap, from + 1, n)
  }

  lemma BitmapsEqual(a: seq<Word>, b: seq<Word>)
    requires |a| == |b|
    requires forall q | 0 <= q < 32 * |a| :: Taken(a, q) == Taken(b, q)
    ensures a == b
  {
    forall i | 0 <= i < |a| ensures a[i] == b[i] {
      forall j | 0 <= j < 32 ensures a[i][j] == b[i][j] {
        assert Taken(a, 32 * i + j) == Taken(b, 32 * i + j);
      }
    }
  }

  lemma PutBack(bitmap: seq<Word>, p: nat)
    requires p < 32 * |bitmap| && !Taken(bitmap, p)
    ensures Put(Put(bitmap, p, true), p, false) == bitmap
  {
    BitmapsEqual(Put(Put(bitmap, p, true), p, false), bitmap);
  }
}
