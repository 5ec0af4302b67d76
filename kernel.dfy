/**
 * The kernel's boot path (kernel/src/main.rs): the bump allocator that
 * hands out the frames above the kernel image, the fill of the kernel's
 * own page tables, and the dispatch of the traps the first user thread
 * raises.
 */
module Kernel {
  import opened Wrappers
  import opened Machine
  import Frame
  import Table
  import Thread

  // ---------------------------------------------------------------- the boot allocator

  /** Why `BootAlloc::alloc` gives up: the frame number is not an `Idx`, or the frame is already claimed. */
  datatype AllocError = InvalidFrame | InUse

  /**
   * `BootAlloc`: the frame numbers `[start, end)` not handed out yet.
   * Frames are handed out from the top down.
   */
  class BootAlloc {
    var start: nat
    var end: nat
    /** The frame numbers handed out so far, oldest first. */
    ghost var handed: seq<nat>
    /** `end` as the allocator was created. */
    ghost const initialEnd: nat

    /**
     * The range never grows back, and what was handed out lies above it,
     * below the initial end, strictly decreasing: no frame is handed out
     * twice, and every frame taken off the range was handed out.
     */
    ghost predicate Valid()
      reads this
    {
      && start <= end <= initialEnd
      && end + |handed| == initialEnd
      && (forall k :: 0 <= k < |handed| ==> end <= handed[k] < initialEnd)
      && (forall k, l :: 0 <= k < l < |handed| ==> handed[l] < handed[k])
    }

    /** `BootAlloc::new`, whose assertion demands `start <= end`. */
    constructor (startFrame: nat, endFrame: nat)
      requires startFrame <= endFrame
      ensures Valid() && start == startFrame && end == endFrame && handed == []
    {
      start := startFrame;
      end := endFrame;
      initialEnd := endFrame;
      handed := [];
    }

    /**
     * `BootAlloc::len`: how many frames are left. Together with the frames
     * handed out, they are all the frames the allocator started with.
     */
    function Len(): (n: nat)
      reads this
      requires Valid()
      ensures start + n == end
      ensures n + |handed| == initialEnd - start
    {
      end - start
    }

    /**
     * `BootAlloc::alloc`: offers the top frame, `end - 1`, to `f`, and
     * takes it out of the range only once `f` accepted it. The source
     * panics where the model returns an error; either way nothing changes.
     */
    method Alloc<T>(f: Frame.Idx -> Option<T>) returns (r: Result<T, AllocError>)
      requires Valid() && Len() != 0
      modifies this
      ensures Valid() && start == old(start)
      ensures r == Err(InvalidFrame) <==> old(end) - 1 >= FRAME_COUNT
      ensures r.Ok? <==> old(end) - 1 < FRAME_COUNT && f(Frame.IdxOf(old(end) - 1)).Some?
      ensures r.Ok? ==>
        && r.value == f(Frame.IdxOf(old(end) - 1)).value
        && end == old(end) - 1
        && handed == old(handed) + [old(end) - 1]
      ensures r.Err? ==> end == old(end) && handed == old(handed)
    {
      var frameNumber := end - 1;
      var idx := Frame.FromNumber(frameNumber);
      if idx.None? {
        return Err(InvalidFrame);
      }
      var frame := f(idx.value);
      if frame.None? {
        return Err(InUse);
      }
      HandOut(handed, frameNumber, initialEnd);
      end := frameNumber;
      handed := handed + [frameNumber];
      r := Ok(frame.value);
    }
  }

  /** Handing out the frame just below every frame handed out so far keeps the list strictly decreasing. */
  lemma HandOut(handed: seq<nat>, n: nat, top: nat)
    requires forall k :: 0 <= k < |handed| ==> n < handed[k] < top
    requires forall k, l :: 0 <= k < l < |handed| ==> handed[l] < handed[k]
    requires n < top
    ensures forall k :: 0 <= k < |handed + [n]| ==> n <= (handed + [n])[k] < top
    ensures forall k, l :: 0 <= k < l < |handed + [n]| ==> (handed + [n])[l] < (handed + [n])[k]
  {
  }

  // ---------------------------------------------------------------- the kernel's own mapping

  /** Where the kernel image sits in the virtual address space, and in physical memory. */
  const KERNELMODE_BASE_ADDR: nat := 0xffff_ffff_c000_0000
  const KERNELMODE_BASE_PHYS: nat := 0x8000_0000

  /**
   * A `Section` of the kernel image: its address range and the permissions
   * its pages are mapped with. The bounds come from linker symbols, so they
   * are inputs here.
   */
  datatype Section = Section(start: nat, end: nat, permissions: Table.Permissions)

  /** A section's half-open range holds `addr`. */
  predicate Contains(s: Section, addr: nat) {
    s.start <= addr < s.end
  }

  /** The first section holding `addr`, by position. */
  function SectionOf(sections: seq<Section>, addr: nat): (r: Option<nat>)
    ensures r.Some? ==> r.value < |sections| && Contains(sections[r.value], addr)
    ensures r.Some? ==> forall k :: 0 <= k < r.value ==> !Contains(sections[k], addr)
    ensures r.None? ==> forall k :: 0 <= k < |sections| ==> !Contains(sections[k], addr)
  {
    if |sections| == 0 then None
    else if Contains(sections[0], addr) then Some(0)
    else
      match SectionOf(sections[1..], addr)
      case None => None
      case Some(k) => Some(k + 1)
  }

  /** The loop over the sections of `KERNEL_LAYOUT`, which stops at the first section holding `addr`. */
  method FindSection(sections: seq<Section>, addr: nat) returns (r: Option<nat>)
    ensures r == SectionOf(sections, addr)
  {
    var k := 0;
    while k < |sections|
      invariant k <= |sections|
      invariant forall j :: 0 <= j < k ==> !Contains(sections[j], addr)
    {
      if Contains(sections[k], addr) {
        return Some(k);
      }
      k := k + 1;
    }
    return None;
  }

  /** The virtual address of page `l0` of the kernel's level-1 slot `l1`; the `usize` sum never wraps. */
  function VirtAddr(l1: nat, l0: nat): (a: nat)
    requires l1 < TABLE_LEN && l0 < TABLE_LEN
    ensures KERNELMODE_BASE_ADDR <= a < Frame.ADDR_LIMIT
    ensures a % L0_FRAME_SIZE == 0
  {
    l0 * L0_FRAME_SIZE + l1 * L1_FRAME_SIZE + KERNELMODE_BASE_ADDR
  }

  /** The physical address that page is mapped to: the same offset from the physical base. */
  function PhysAddr(l1: nat, l0: nat): (a: nat)
    requires l1 < TABLE_LEN && l0 < TABLE_LEN
    ensures a - KERNELMODE_BASE_PHYS == VirtAddr(l1, l0) - KERNELMODE_BASE_ADDR
    ensures a % L0_FRAME_SIZE == 0
  {
    l0 * L0_FRAME_SIZE + l1 * L1_FRAME_SIZE + KERNELMODE_BASE_PHYS
  }

  /** Every physical frame the kernel maps is a valid `Idx`: the `unwrap` after `Idx::from_raw` never fails. */
  lemma PhysFrameIsIdx(l1: nat, l0: nat)
    requires l1 < TABLE_LEN && l0 < TABLE_LEN
    ensures Frame.FromNumber(PhysAddr(l1, l0) / L0_FRAME_SIZE).Some?
  {
    assert PhysAddr(l1, l0) < 0xc000_0000;
  }

  /** The entry the boot code leaves at `l0` of the level-0 table it builds for slot `l1`. */
  function KernelEntry(sections: seq<Section>, l1: nat, l0: nat): Word
    requires l1 < TABLE_LEN && l0 < TABLE_LEN
  {
    match SectionOf(sections, VirtAddr(l1, l0))
    case None => Table.INVALID
    case Some(k) =>
      PhysFrameIsIdx(l1, l0);
      Table.KernelLeaf(Frame.FromNumber(PhysAddr(l1, l0) / L0_FRAME_SIZE).value, sections[k].permissions)
  }

  /**
   * Every kernel page keeps its offset: a valid entry maps the page to the
   * frame whose physical address is the virtual address moved from one base
   * to the other, with the permissions of the first section holding the
   * address; an address no section holds stays unmapped.
   */
  lemma KernelEntryKeepsOffset(sections: seq<Section>, l1: nat, l0: nat)
    requires l1 < TABLE_LEN && l0 < TABLE_LEN
    ensures Table.IsValid(KernelEntry(sections, l1, l0)) <==> SectionOf(sections, VirtAddr(l1, l0)).Some?
    ensures Table.IsValid(KernelEntry(sections, l1, l0)) ==>
      var e := KernelEntry(sections, l1, l0);
      var k := SectionOf(sections, VirtAddr(l1, l0)).value;
      && Table.Ppn(e) <= Frame.IDX_MAX
      && Frame.Index(Table.Ppn(e)) * L0_FRAME_SIZE + KERNELMODE_BASE_ADDR == VirtAddr(l1, l0) + KERNELMODE_BASE_PHYS
      && Table.Rwx(e) == Table.Bits(sections[k].permissions)
      && !Table.IsUser(e) && Table.IsGlobal(e)
  {
    Table.InvalidIsNotValid();
    PhysFrameIsIdx(l1, l0);
  }

  /** One pass of that loop: the page at `l0`, mapped with the first section holding it, if any. */
  method MapKernelPage(table: Table.L0Table, sections: seq<Section>, l1: nat, l0: nat)
    requires table.Valid() && l1 < TABLE_LEN && l0 < TABLE_LEN
    requires table.entries[l0] == Table.INVALID
    modifies table.entries
    ensures table.entries[..] == old(table.entries[..])[l0 := KernelEntry(sections, l1, l0)]
  {
    var addr := VirtAddr(l1, l0);
    var found := FindSection(sections, addr);
    if found.Some? {
      var phys := PhysAddr(l1, l0);
      PhysFrameIsIdx(l1, l0);
      var idx := Frame.FromNumber(phys / L0_FRAME_SIZE).value;
      table.MapL0KernelPage(l0, idx, sections[found.value].permissions);
    } else {
      assert table.entries[..] == old(table.entries[..])[l0 := Table.INVALID];
    }
  }

  /**
   * The innermost page-table loop of the kernel mapping, over level-0 indices:
   * fills a fresh level-0 table for slot `l1` with the kernel's pages.
   */
  method MapKernelL0(table: Table.L0Table, sections: seq<Section>, l1: nat)
    requires table.Valid() && l1 < TABLE_LEN
    requires forall k :: 0 <= k < TABLE_LEN ==> table.entries[k] == Table.INVALID
    modifies table.entries
    ensures forall k :: 0 <= k < TABLE_LEN ==> table.entries[k] == KernelEntry(sections, l1, k)
  {
    var l0 := 0;
    while l0 < TABLE_LEN
      invariant l0 <= TABLE_LEN
      invariant forall k :: 0 <= k < l0 ==> table.entries[k] == KernelEntry(sections, l1, k)
      invariant forall k :: l0 <= k < TABLE_LEN ==> table.entries[k] == Table.INVALID
    {
      MapKernelPage(table, sections, l1, l0);
      l0 := l0 + 1;
    }
  }

  // ---------------------------------------------------------------- traps

  /** `scause` for an environment call from user mode. */
  const SCAUSE_USER_ECALL: Word := 0x8

  /** `u64::to_be_bytes`: most significant byte first. */
  function BeBytes(w: Word): (b: seq<Byte>)
    ensures |b| == 8
  {
    [ (w >> 56) as Byte,
      ((w >> 48) & 0xff) as Byte,
      ((w >> 40) & 0xff) as Byte,
      ((w >> 32) & 0xff) as Byte,
      ((w >> 24) & 0xff) as Byte,
      ((w >> 16) & 0xff) as Byte,
      ((w >> 8) & 0xff) as Byte,
      (w & 0xff) as Byte ]
  }

  /** `u64::from_be_bytes`. */
  function FromBeBytes(b: seq<Byte>): Word
    requires |b| == 8
  {
    (b[0] as Word << 56) | (b[1] as Word << 48) | (b[2] as Word << 40) | (b[3] as Word << 32)
    | (b[4] as Word << 24) | (b[5] as Word << 16) | (b[6] as Word << 8) | b[7] as Word
  }

  lemma BeBytesRoundTrip(w: Word)
    ensures FromBeBytes(BeBytes(w)) == w
  {
  }

  lemma FromBeBytesRoundTrip(b: seq<Byte>)
    requires |b| == 8
    ensures BeBytes(FromBeBytes(b)) == b
  {
  }

  /** What the kernel does for a system call. */
  datatype Action =
    | Shutdown              // `a0 == 0`: reset the system
    | Print(bytes: seq<Byte>)  // `a0 == 1`: print the bytes of `a1`
    | LogContext            // anything else: log the context

  /** The system call dispatch on the selector `a0`. */
  function Dispatch(a0: Word, a1: Word): (r: Action)
    ensures r.Shutdown? <==> a0 == 0
    ensures r.Print? <==> a0 == 1
    ensures r.Print? ==> |r.bytes| == 8 && FromBeBytes(r.bytes) == a1
  {
    BeBytesRoundTrip(a1);
    if a0 == 0 then Shutdown
    else if a0 == 1 then Print(BeBytes(a1))
    else LogContext
  }

  /**
   * One pass of the trap loop after `resume` returned: a user environment
   * call is dispatched and the thread's `pc` steps over the `ecall`
   * instruction (4 bytes, wrapping as a release build does); any other cause is
   * fatal, reported as `None`, and changes nothing.
   */
  method HandleTrap(thread: Thread.Thread, scause: Word) returns (r: Option<Action>)
    requires thread.Valid() && thread.context.Some?
    modifies thread
    ensures thread.Valid()
    ensures thread.l2Table == old(thread.l2Table) && thread.exceptionCall == old(thread.exceptionCall)
    ensures scause == SCAUSE_USER_ECALL ==>
      var c := old(thread.context.value);
      && r == Some(Dispatch(c.a[0], c.a[1]))
      && thread.context == Some(c.(pc := c.pc + 4))
    ensures scause != SCAUSE_USER_ECALL ==> r.None? && thread.context == old(thread.context)
  {
    if scause != SCAUSE_USER_ECALL {
      return None;
    }
    var c := thread.context.value;
    r := Some(Dispatch(c.a[0], c.a[1]));
    thread.context := Some(c.(pc := c.pc + 4));
  }

  /**
   * One turn of the trap loop: `resume` the thread (an absent context makes
   * the source's `unwrap` panic, reported as `None`), then handle the trap
   * `run` ends with. The thread's registers come back from the trap, and
   * a system call resumes after the `ecall`.
   */
  method TrapLoopTurn(thread: Thread.Thread, hart: Table.Hart, ft: Frame.FrameTable,
                      run: Thread.Context -> (Thread.Context, Word, Word))
    returns (r: Option<Action>)
    requires thread.Valid() && hart.Valid() && ft.Valid()
    requires ft.Accessible(thread.l2Table) && ft.counts[Frame.Index(thread.l2Table)] < Frame.CLONE_LIMIT
    requires hart.bootstrapped ==> ft.Accessible(Table.SatpRoot(hart.satp).value)
    requires forall c :: Thread.WellShaped(c) ==> Thread.WellShaped(run(c).0)
    modifies thread, hart, ft.counts
    ensures thread.Valid() && hart.Valid() && ft.Valid()
    ensures thread.l2Table == old(thread.l2Table) && thread.exceptionCall == old(thread.exceptionCall)
    ensures old(thread.context).None? ==>
      && r.None? && thread.context.None?
      && hart.satp == old(hart.satp) && hart.bootstrapped == old(hart.bootstrapped)
      && ft.counts[..] == old(ft.counts[..])
    ensures old(thread.context).Some? ==> Thread.WellShaped(run(old(thread.context).value).0)
    ensures old(thread.context).Some? ==>
      var (after, scause, _) := run(old(thread.context).value);
      && hart.satp == Table.Satp(thread.l2Table) && hart.bootstrapped
      && (scause == SCAUSE_USER_ECALL ==>
            r == Some(Dispatch(after.a[0], after.a[1])) && thread.context == Some(after.(pc := after.pc + 4)))
      && (scause != SCAUSE_USER_ECALL ==> r.None? && thread.context == Some(after))
  {
    ghost var before := thread.context;
    var trap := thread.Resume(hart, ft, run);
    if trap.None? {
      return None;
    }
    ghost var after := run(before.value).0;
    assert thread.context == Some(after);
    r := HandleTrap(thread, trap.value.0);
  }
}
