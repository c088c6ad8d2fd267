/** Registers, words of memory and the trapframe: struct trapframe of kernel/task/task.h, and what entering and
    leaving an interrupt does to the stack. */
module Trapframe {
  import opened Words

  const KERNEL_CODE_SEG: nat := 0x08
  const KERNEL_DATA_SEG: nat := 0x10
  const USER_CODE_SEG: nat := 0x23
  const USER_DATA_SEG: nat := 0x2B
  const FRAME_BYTES: nat := 64    // sizeof(struct trapframe)
  const KERNEL_BYTES: nat := 56   // without the two user elements

  datatype Regs = Regs(eax: nat, ecx: nat, edx: nat, ebx: nat, ebp: nat, esi: nat, edi: nat,
                       esp: nat, eip: nat, eflags: nat, cs: nat, ds: nat, ss: nat)

  /** The requested privilege level of a code selector is that of user mode. */
  predicate UserMode(cs: nat) { cs % 4 == 3 }

  /** or dword [...], 0x200. */
  function Enabled(eflags: nat): nat {
    if InterruptsOn(eflags) then eflags else eflags + 512
  }

  predicate InterruptsOn(eflags: nat) { eflags / 512 % 2 == 1 }

  /** It sets bit 9 and no other. */
  lemma EnabledBit(eflags: nat)
    ensures InterruptsOn(Enabled(eflags)) && (InterruptsOn(eflags) <==> Enabled(eflags) == eflags)
    ensures Enabled(eflags) % 512 == eflags % 512 && Enabled(eflags) / 1024 == eflags / 1024
  {
    var high, bit, low := eflags / 1024, eflags / 512 % 2, eflags % 512;
    SplitAtBit(eflags);
    Rejoined(high, bit, low);
    Rejoined(high, 1, low);
  }

  lemma SplitAtBit(x: nat)
    ensures x == 1024 * (x / 1024) + 512 * (x / 512 % 2) + x % 512
  {
    assert x / 512 == 2 * (x / 1024) + x / 512 % 2;
  }

  lemma Rejoined(high: nat, bit: nat, low: nat)
    requires bit < 2 && low < 512
    ensures var x := 1024 * high + 512 * bit + low;
            x / 1024 == high && x / 512 % 2 == bit && x % 512 == low
  {
    assert (1024 * high + 512 * bit + low) / 512 == 2 * high + bit;
  }

  /** A context with interrupts enabled. */
  function Resumable(r: Regs): Regs { r.(eflags := Enabled(r.eflags)) }

  // ---- what an interrupt pushes ----

  /** Where the frame starts: the processor switches to the stack named by the TSS when it leaves user mode. */
  function StackTop(r: Regs, esp0: nat): nat { if UserMode(r.cs) then esp0 else r.esp }

  function FrameSize(cs: nat): nat { if UserMode(cs) then FRAME_BYTES else KERNEL_BYTES }

  /** The processor's own pushes, at `top`. */
  function HardwareFrame(m: Memory, r: Regs, top: nat): Memory
    requires FrameSize(r.cs) <= top
  {
    if UserMode(r.cs)
    then m[top - 4 := r.ss][top - 8 := r.esp][top - 12 := r.eflags][top - 16 := r.cs][top - 20 := r.eip]
    else m[top - 4 := r.eflags][top - 8 := r.cs][top - 12 := r.eip]
  }

  /** pushad with the stack pointer at `top`. */
  function GeneralFrame(m: Memory, r: Regs, top: nat): Memory
    requires 32 <= top
  {
    m[top - 4 := r.eax][top - 8 := r.ecx][top - 12 := r.edx][top - 16 := r.ebx]
     [top - 20 := top][top - 24 := r.ebp][top - 28 := r.esi][top - 32 := r.edi]
  }

  /** Everything irq n pushes before it calls a handler, with the frame ending at `top`. */
  function Save(m: Memory, r: Regs, top: nat, n: nat): Memory
    requires FrameSize(r.cs) <= top
  {
    var tf := top - FrameSize(r.cs);
    GeneralFrame(HardwareFrame(m, r, top)[tf + 40 := 0][tf + 36 := n], r, tf + 36)[tf := r.ds]
  }

  // ---- what leaving it restores ----

  /** pop ds, popad, add esp 8 and iret from a frame at tf, read by the fields of struct trapframe; `ss` is what
      the stack segment register holds, which iret replaces only on the way to user mode. */
  function Restore(m: Memory, tf: nat, ss: nat): Regs {
    var cs := Read(m, tf + 48);
    Regs(Read(m, tf + 32), Read(m, tf + 28), Read(m, tf + 24), Read(m, tf + 20),
         Read(m, tf + 12), Read(m, tf + 8), Read(m, tf + 4),
         if UserMode(cs) then Read(m, tf + 56) else tf + KERNEL_BYTES,
         Read(m, tf + 44), Read(m, tf + 52), cs, Read(m, tf),
         if UserMode(cs) then Read(m, tf + 60) else ss)
  }

  /** Pushes and pops mirror each other: a saved frame restores every register. */
  lemma SaveRestore(m: Memory, r: Regs, top: nat, n: nat, ss: nat)
    requires FrameSize(r.cs) <= top
    requires !UserMode(r.cs) ==> top == r.esp && ss == r.ss
    ensures Restore(Save(m, r, top, n), top - FrameSize(r.cs), ss) == r
    ensures Read(Save(m, r, top, n), top - FrameSize(r.cs) + 48) == r.cs
  {
    hide Save;
    FrameWords(m, r, top, n);
  }

  /** The frame word by word, as struct trapframe names them: the interrupt number is where irq_handler looks for it,
      the error code is 0, and popad's place for esp holds what it was before pushad. */
  lemma FrameWords(m: Memory, r: Regs, top: nat, n: nat)
    requires FrameSize(r.cs) <= top
    ensures var (m', tf) := (Save(m, r, top, n), top - FrameSize(r.cs));
            && Read(m', tf) == r.ds && Read(m', tf + 4) == r.edi && Read(m', tf + 8) == r.esi
            && Read(m', tf + 12) == r.ebp && Read(m', tf + 16) == tf + 36 && Read(m', tf + 20) == r.ebx
            && Read(m', tf + 24) == r.edx && Read(m', tf + 28) == r.ecx && Read(m', tf + 32) == r.eax
            && Read(m', tf + 36) == n && Read(m', tf + 40) == 0
            && Read(m', tf + 44) == r.eip && Read(m', tf + 48) == r.cs && Read(m', tf + 52) == r.eflags
            && (UserMode(r.cs) ==> Read(m', tf + 56) == r.esp && Read(m', tf + 60) == r.ss)
  {
    hide GeneralFrame, HardwareFrame;
    var tf := top - FrameSize(r.cs);
    var h := HardwareFrame(m, r, top);
    var g := GeneralFrame(h[tf + 40 := 0][tf + 36 := n], r, tf + 36);
    HardwareWords(m, r, top);
    GeneralWords(h[tf + 40 := 0][tf + 36 := n], r, tf + 36);
    assert Save(m, r, top, n) == g[tf := r.ds];
    assert Read(g, tf + 36) == n && Read(g, tf + 40) == 0;
    assert Read(g, tf + 44) == r.eip && Read(g, tf + 48) == r.cs && Read(g, tf + 52) == r.eflags;
    assert UserMode(r.cs) ==> Read(g, tf + 56) == r.esp && Read(g, tf + 60) == r.ss;
  }

  lemma HardwareWords(m: Memory, r: Regs, top: nat)
    requires FrameSize(r.cs) <= top
    ensures var (h, tf) := (HardwareFrame(m, r, top), top - FrameSize(r.cs));
            && Read(h, tf + 44) == r.eip && Read(h, tf + 48) == r.cs && Read(h, tf + 52) == r.eflags
            && (UserMode(r.cs) ==> Read(h, tf + 56) == r.esp && Read(h, tf + 60) == r.ss)
  {}

  lemma GeneralWords(m: Memory, r: Regs, top: nat)
    requires 32 <= top
    ensures var g := GeneralFrame(m, r, top);
            && Read(g, top - 4) == r.eax && Read(g, top - 8) == r.ecx && Read(g, top - 12) == r.edx
            && Read(g, top - 16) == r.ebx && Read(g, top - 20) == top && Read(g, top - 24) == r.ebp
            && Read(g, top - 28) == r.esi
            && Read(g, top - 32) == r.edi && forall a: nat | a < top - 32 || top <= a :: Read(g, a) == Read(m, a)
  {}

  /** Only the words of the frame change. */
  lemma SaveFrame(m: Memory, r: Regs, top: nat, n: nat, a: nat)
    requires FrameSize(r.cs) <= top
    requires a < top - FrameSize(r.cs) || top <= a
    ensures Read(Save(m, r, top, n), a) == Read(m, a)
  {}

  /** A frame restores the same registers from any memory that agrees on its words. */
  lemma RestoreAgrees(m: Memory, m': Memory, tf: nat, ss: nat)
    requires forall a: nat | tf <= a < tf + FrameSize(Read(m, tf + 48)) :: Read(m', a) == Read(m, a)
    ensures Restore(m', tf, ss) == Restore(m, tf, ss)
  {
    assert Read(m', tf + 48) == Read(m, tf + 48);
  }

  // ---- the frames new tasks start from ----

  /** The registers a task created by task_create_kernel starts with. */
  function KernelStart(base: nat, eip: nat): Regs {
    Regs(0, 0, 0, 0, 0, 0, 0, base, eip, 0x2, KERNEL_CODE_SEG, KERNEL_DATA_SEG, KERNEL_DATA_SEG)
  }

  /** And by task_create_user. */
  function UserStart(eip: nat): Regs {
    Regs(0, 0, 0, 0, 0, 0, 0, KERNEL_VIRT_BASE, eip, 0x2, USER_CODE_SEG, USER_DATA_SEG, USER_DATA_SEG)
  }

  /** memset of a page. */
  function Zeroed(m: Memory, page: nat): (r: Memory)
    ensures forall a: nat :: Read(r, a) == if page <= a < page + PAGE_SIZE then 0 else Read(m, a)
  {
    map a | a in m && !(page <= a < page + PAGE_SIZE) :: m[a]
  }

  function KernelFrame(m: Memory, page: nat, eip: nat): Memory {
    var tf := page + PAGE_SIZE - KERNEL_BYTES;
    Zeroed(m, page)[tf + 44 := eip][tf + 52 := 0x2][tf + 48 := KERNEL_CODE_SEG][tf := KERNEL_DATA_SEG]
  }

  function UserFrame(m: Memory, page: nat, eip: nat): Memory {
    var tf := page + PAGE_SIZE - FRAME_BYTES;
    Zeroed(m, page)[tf + 44 := eip][tf + 52 := 0x2][tf + 48 := USER_CODE_SEG][tf := USER_DATA_SEG]
                   [tf + 60 := USER_DATA_SEG][tf + 56 := KERNEL_VIRT_BASE]
  }

  lemma KernelStarts(m: Memory, page: nat, eip: nat)
    ensures Restore(KernelFrame(m, page, eip), page + PAGE_SIZE - KERNEL_BYTES, KERNEL_DATA_SEG)
            == KernelStart(page + PAGE_SIZE, eip)
            == Regs(0, 0, 0, 0, 0, 0, 0, page + 4096, eip, 0x2, 0x08, 0x10, 0x10)
  {
    var tf := page + PAGE_SIZE - KERNEL_BYTES;
    assert Read(KernelFrame(m, page, eip), tf + 48) == KERNEL_CODE_SEG;
  }

  lemma UserStarts(m: Memory, page: nat, eip: nat, ss: nat)
    ensures Restore(UserFrame(m, page, eip), page + PAGE_SIZE - FRAME_BYTES, ss) == UserStart(eip)
            == Regs(0, 0, 0, 0, 0, 0, 0, 0xC000_0000, eip, 0x2, 0x23, 0x2B, 0x2B)
  {
    var tf := page + PAGE_SIZE - FRAME_BYTES;
    assert Read(UserFrame(m, page, eip), tf + 48) == USER_CODE_SEG;
  }
}
