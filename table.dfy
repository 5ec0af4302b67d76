/**
 * Sv39 page tables and the capability words stored in them
 * (kernel/src/table.rs).
 *
 * An entry is a 64-bit word laid out as in section 4.4.1 of the RISC-V
 * Privileged Architecture specification (Sv39), with the flag bits of
 * section 4.3.1: V (bit 0), R, W, X (bits 1 to 3), U (4), G (5), A (6),
 * D (7), two software bits (8, 9) and the physical page number from bit 10.
 * An entry whose V bit is 0 is ignored by the hardware; the kernel uses
 * such entries of level-0 tables to hold capabilities. Tables are
 * 512-entry arrays in frames owned through `Frame.Arc`.
 */
module Table {
  import opened Wrappers
  import opened Machine
  import Frame

  // ---------------------------------------------------------------- entry fields

  const VALID: Word := 1 << 0
  const READ: Word := 1 << 1
  const WRITE: Word := 1 << 2
  const EXECUTE: Word := 1 << 3
  const USER: Word := 1 << 4
  const GLOBAL: Word := 1 << 5
  const ACCESSED: Word := 1 << 6
  const DIRTY: Word := 1 << 7

  /** The 44 bits of a physical page number. */
  const PPN_MASK: Word := (1 << 44) - 1

  /** The R, W and X bits together. */
  const RWX: Word := READ | WRITE | EXECUTE

  predicate IsValid(e: Word) { e & 0x1 != 0 }
  predicate IsUser(e: Word) { e & 0x10 != 0 }
  predicate IsGlobal(e: Word) { e & 0x20 != 0 }
  predicate IsAccessed(e: Word) { e & 0x40 != 0 }
  predicate IsDirty(e: Word) { e & 0x80 != 0 }

  /** The R, W, X field of an entry (all zero for a pointer to the next level). */
  function Rwx(e: Word): Word { e & 0xe }

  /** The physical page number field of an entry. */
  function Ppn(e: Word): Word { (e >> 10) & 0xfff_ffff_ffff }

  // ---------------------------------------------------------------- permissions

  datatype Permissions = ReadOnly | ReadWrite | ExecuteOnly | ReadExecute | ReadWriteExecute

  /**
   * `Permissions::bits`: only the R, W and X bits, never none of them, and
   * never W without R (the combinations section 4.3.1 reserves).
   */
  function Bits(p: Permissions): (b: Word)
    ensures b & !RWX == 0
    ensures b != 0
    ensures b & WRITE != 0 ==> b & READ != 0
  {
    match p
    case ReadOnly => READ
    case ReadWrite => READ | WRITE
    case ExecuteOnly => EXECUTE
    case ReadExecute => READ | EXECUTE
    case ReadWriteExecute => READ | WRITE | EXECUTE
  }

  /** The permissions an R, W, X field grants, if it is one `Bits` produces. */
  function PermissionsOf(rwx: Word): (r: Option<Permissions>)
    ensures r.Some? ==> Bits(r.value) == rwx
  {
    if rwx == READ then Some(ReadOnly)
    else if rwx == READ | WRITE then Some(ReadWrite)
    else if rwx == EXECUTE then Some(ExecuteOnly)
    else if rwx == READ | EXECUTE then Some(ReadExecute)
    else if rwx == READ | WRITE | EXECUTE then Some(ReadWriteExecute)
    else None
  }

  /** Every permission set is recovered from its bits, so `Bits` is injective. */
  lemma PermissionsRoundTrip(p: Permissions)
    ensures PermissionsOf(Bits(p)) == Some(p)
  {
  }

  // ---------------------------------------------------------------- entry encodings

  /**
   * `L2Entry::kernel(n, p)`: a valid, global, accessed and dirty supervisor
   * leaf for the gigapage `n`, whose page number is `n << 18` cut to 44 bits.
   */
  function L2Kernel(n: Word, p: Permissions): (e: Word)
    ensures IsValid(e) && !IsUser(e) && IsGlobal(e) && IsAccessed(e) && IsDirty(e)
    ensures Rwx(e) == Bits(p)
    ensures Ppn(e) == (n << 18) & PPN_MASK
  {
    var b := Bits(p);
    assert b & !RWX == 0;
    VALID | b | GLOBAL | ACCESSED | DIRTY | (((n << 18) & PPN_MASK) << 10)
  }

  /** `L2Entry::interior` and `L1Entry::interior`: a valid pointer to the table in frame `f`. */
  function Interior(f: Frame.Idx): (e: Word)
    ensures IsValid(e) && Rwx(e) == 0 && !IsUser(e) && !IsGlobal(e)
    ensures Ppn(e) == f
  {
    VALID | ((f & PPN_MASK) << 10)
  }

  /** `kernel_interior` of both levels: the same pointer with the global bit set. */
  function KernelInterior(f: Frame.Idx): (e: Word)
    ensures IsValid(e) && Rwx(e) == 0 && !IsUser(e) && IsGlobal(e)
    ensures Ppn(e) == f
  {
    VALID | GLOBAL | ((f & PPN_MASK) << 10)
  }

  /** `L0Entry::leaf`: a valid user page, accessed and dirty, not global. */
  function Leaf(f: Frame.Idx, p: Permissions): (e: Word)
    ensures IsValid(e) && IsUser(e) && !IsGlobal(e) && IsAccessed(e) && IsDirty(e)
    ensures Rwx(e) == Bits(p)
    ensures Ppn(e) == f
  {
    var b := Bits(p);
    assert b & !RWX == 0;
    VALID | b | USER | ACCESSED | DIRTY | ((f & PPN_MASK) << 10)
  }

  /** `L0Entry::kernel_leaf`: a valid supervisor page, global, accessed and dirty. */
  function KernelLeaf(f: Frame.Idx, p: Permissions): (e: Word)
    ensures IsValid(e) && !IsUser(e) && IsGlobal(e) && IsAccessed(e) && IsDirty(e)
    ensures Rwx(e) == Bits(p)
    ensures Ppn(e) == f
  {
    var b := Bits(p);
    assert b & !RWX == 0;
    VALID | b | GLOBAL | ACCESSED | DIRTY | ((f & PPN_MASK) << 10)
  }

  /** `invalid()` of every level: the zero word, which the hardware does not walk. */
  const INVALID: Word := 0

  lemma InvalidIsNotValid()
    ensures !IsValid(INVALID)
  {
  }

  // ---------------------------------------------------------------- capability entries

  /** The software "capability" bit of a level-0 entry whose V bit is clear. */
  const CAP: Word := 1 << 1

  /**
   * `L0Entry::cap(f, tag)`: V clear, the capability bit set, the tag in
   * bits 2 to 9 and the frame number from bit 10.
   */
  function CapWord(f: Frame.Idx, tag: Byte): (e: Word)
    ensures !IsValid(e) && e & CAP != 0
    ensures (e >> 2) & 0xff == tag as Word
    ensures e >> 10 == f
  {
    CAP | ((tag as Word) << 2) | (f << 10)
  }

  /** The capability held in a table slot, by the frame it names. */
  datatype Cap =
    | L2TableCap(frame: Frame.Idx)
    | L1TableCap(frame: Frame.Idx)
    | L0TableCap(frame: Frame.Idx)
    | L0PageCap(frame: Frame.Idx)
    | ThreadCap(frame: Frame.Idx)
    | CallCap(frame: Frame.Idx)

  /** The tag `Cap::l0_entry` gives each kind of capability. */
  function Tag(c: Cap): (t: Byte)
    ensures t <= 7 && t != 3 && t != 4
  {
    match c
    case L2TableCap(_) => 0
    case L1TableCap(_) => 1
    case L0TableCap(_) => 2
    case L0PageCap(_) => 5
    case ThreadCap(_) => 6
    case CallCap(_) => 7
  }

  /** `Cap::l0_entry`: the capability word for `c`. */
  function CapEntry(c: Cap): (e: Word)
    ensures !IsValid(e)
  {
    CapWord(c.frame, Tag(c))
  }

  /** The capability of kind `tag` on frame `f`, for the six tags `Tag` gives. */
  function CapOfTag(tag: Word, f: Frame.Idx): (r: Option<Cap>)
    ensures r.Some? ==> r.value.frame == f && Tag(r.value) as Word == tag
  {
    if tag == 0 then Some(L2TableCap(f))
    else if tag == 1 then Some(L1TableCap(f))
    else if tag == 2 then Some(L0TableCap(f))
    else if tag == 5 then Some(L0PageCap(f))
    else if tag == 6 then Some(ThreadCap(f))
    else if tag == 7 then Some(CallCap(f))
    else None
  }

  /** Reads a capability back from a level-0 entry: `None` for a mapping, an empty slot or a bad word. */
  function CapFromEntry(e: Word): (r: Option<Cap>)
    ensures r.Some? ==> !IsValid(e) && e & CAP != 0
  {
    if e & 0x1 != 0 || e & 0x2 == 0 then None
    else
      match Frame.FromRaw(e >> 10)
      case None => None
      case Some(f) => CapOfTag((e >> 2) & 0xff, f)
  }

  /** How `CapFromEntry` reads a word with V clear and the capability bit set. */
  lemma ReadCapWord(e: Word, f: Frame.Idx)
    requires e & 0x1 == 0 && e & 0x2 != 0
    requires Frame.FromRaw(e >> 10) == Some(f)
    ensures CapFromEntry(e) == CapOfTag((e >> 2) & 0xff, f)
  {
  }

  lemma CapEntryMarked(c: Cap)
    ensures CapEntry(c) & 0x1 == 0 && CapEntry(c) & 0x2 != 0
  {
  }

  lemma CapEntryFrame(c: Cap)
    ensures Frame.FromRaw(CapEntry(c) >> 10) == Some(c.frame)
  {
  }

  lemma CapEntryTag(c: Cap)
    ensures (CapEntry(c) >> 2) & 0xff == Tag(c) as Word
  {
  }

  lemma TagDecodes(c: Cap)
    ensures CapOfTag(Tag(c) as Word, c.frame) == Some(c)
  {
  }

  /**
   * The capability word determines the capability: its kind (the tags are
   * distinct) and its frame both come back out.
   */
  lemma CapRoundTrip(c: Cap)
    ensures CapFromEntry(CapEntry(c)) == Some(c)
  {
    CapEntryMarked(c);
    CapEntryFrame(c);
    CapEntryTag(c);
    TagDecodes(c);
    ReadCapWord(CapEntry(c), c.frame);
  }

  /** Neither the empty slot nor any hardware mapping reads as a capability. */
  lemma NoCapInMappings(f: Frame.Idx, p: Permissions)
    ensures CapFromEntry(INVALID).None?
    ensures CapFromEntry(Leaf(f, p)).None? && CapFromEntry(KernelLeaf(f, p)).None?
    ensures CapFromEntry(Interior(f)).None? && CapFromEntry(KernelInterior(f)).None?
  {
  }

  // ---------------------------------------------------------------- the boot L2 table

  /**
   * The layout `boot_l2_table` builds: the lower half (user space) invalid;
   * entries 256 to 510 map the gigapages 0 to 254 read-write for the
   * kernel's frame mapping; entry 511 maps gigapage 2 (the kernel image at
   * physical 0x8000_0000) read-write-execute.
   */
  function BootL2Entry(i: nat): (e: Word)
    requires i < TABLE_LEN
  {
    if i < TABLE_LEN / 2 then INVALID
    else if i < TABLE_LEN - 1 then L2Kernel((i - TABLE_LEN / 2) as Word, ReadWrite)
    else L2Kernel(2, ReadWriteExecute)
  }

  /** `boot_l2_table`: fills a fresh 512-entry array in one pass. */
  method BootL2Table() returns (entries: array<Word>)
    ensures fresh(entries) && entries.Length == TABLE_LEN
    ensures forall i :: 0 <= i < TABLE_LEN ==> entries[i] == BootL2Entry(i)
  {
    entries := new Word[TABLE_LEN](_ => INVALID);
    var index := TABLE_LEN / 2;
    while index < TABLE_LEN - 1
      invariant TABLE_LEN / 2 <= index <= TABLE_LEN - 1
      invariant forall i :: 0 <= i < index ==> entries[i] == BootL2Entry(i)
      invariant forall i :: index <= i < TABLE_LEN ==> entries[i] == INVALID
    {
      entries[index] := L2Kernel((index - TABLE_LEN / 2) as Word, ReadWrite);
      index := index + 1;
    }
    entries[TABLE_LEN - 1] := L2Kernel(2, ReadWriteExecute);
  }

  /**
   * What the boot layout means for the address space: no user-half entry
   * is walked by the hardware; every kernel-half entry is a global
   * supervisor leaf, read-write except the last, which alone is executable.
   */
  lemma BootL2Layout(i: nat)
    requires i < TABLE_LEN
    ensures i < TABLE_LEN / 2 <==> !IsValid(BootL2Entry(i))
    ensures i >= TABLE_LEN / 2 ==> IsGlobal(BootL2Entry(i)) && !IsUser(BootL2Entry(i))
    ensures i >= TABLE_LEN / 2 ==> (BootL2Entry(i) & EXECUTE != 0 <==> i == TABLE_LEN - 1)
    ensures i == TABLE_LEN - 1 ==> Ppn(BootL2Entry(i)) == 2 << 18
  {
  }

  // ---------------------------------------------------------------- tables

  /** An `L0TableCap`: the level-0 table held in frame `frame`. */
  class L0Table {
    const frame: Frame.Idx
    const entries: array<Word>

    ghost predicate Valid()
      reads this
    {
      entries.Length == TABLE_LEN
    }

    /** The table's `Arc` on its frame, as the constructor left it: every entry invalid. */
    constructor (f: Frame.Idx)
      ensures Valid() && frame == f && fresh(entries)
      ensures forall i :: 0 <= i < TABLE_LEN ==> entries[i] == INVALID
    {
      frame := f;
      entries := new Word[TABLE_LEN](_ => INVALID);
    }

    /** `map_l0_page`: slot `index` becomes a user leaf for the page; nothing else changes. */
    method MapL0Page(index: nat, page: Frame.Idx, p: Permissions)
      requires Valid() && index < TABLE_LEN
      modifies entries
      ensures entries[..] == old(entries[..])[index := Leaf(page, p)]
    {
      entries[index] := Leaf(page, p);
    }

    /** `map_l0_kernel_page`: slot `index` becomes a global supervisor leaf for the page. */
    method MapL0KernelPage(index: nat, page: Frame.Idx, p: Permissions)
      requires Valid() && index < TABLE_LEN
      modifies entries
      ensures entries[..] == old(entries[..])[index := KernelLeaf(page, p)]
    {
      entries[index] := KernelLeaf(page, p);
    }

    /** `give_capability`: slot `index` holds the capability word of `c`. */
    method GiveCapability(index: nat, c: Cap)
      requires Valid() && index < TABLE_LEN
      modifies entries
      ensures entries[..] == old(entries[..])[index := CapEntry(c)]
      ensures CapFromEntry(entries[index]) == Some(c)
    {
      entries[index] := CapEntry(c);
      CapRoundTrip(c);
    }
  }

  /** An `L1TableCap`: the level-1 table held in frame `frame`. */
  class L1Table {
    const frame: Frame.Idx
    const entries: array<Word>

    ghost predicate Valid()
      reads this
    {
      entries.Length == TABLE_LEN
    }

    constructor (f: Frame.Idx)
      ensures Valid() && frame == f && fresh(entries)
      ensures forall i :: 0 <= i < TABLE_LEN ==> entries[i] == INVALID
    {
      frame := f;
      entries := new Word[TABLE_LEN](_ => INVALID);
    }

    /** `map_l0_table`: slot `index` points at the level-0 table. */
    method MapL0Table(index: nat, l0: L0Table)
      requires Valid() && index < TABLE_LEN
      modifies entries
      ensures entries[..] == old(entries[..])[index := Interior(l0.frame)]
    {
      entries[index] := Interior(l0.frame);
    }

    /** `map_l0_kernel_table`: slot `index` points at the level-0 table, globally. */
    method MapL0KernelTable(index: nat, l0: L0Table)
      requires Valid() && index < TABLE_LEN
      modifies entries
      ensures entries[..] == old(entries[..])[index := KernelInterior(l0.frame)]
    {
      entries[index] := KernelInterior(l0.frame);
    }
  }

  /** An `L2TableCap`: the root table held in frame `frame`. */
  class L2Table {
    const frame: Frame.Idx
    const entries: array<Word>

    ghost predicate Valid()
      reads this
    {
      entries.Length == TABLE_LEN
    }

    /** Takes ownership of a filled 512-entry array. */
    constructor (f: Frame.Idx, init: array<Word>)
      requires init.Length == TABLE_LEN
      ensures Valid() && frame == f && entries == init
    {
      frame := f;
      entries := init;
    }

    /**
     * `map_l1_table`: slot `index` of the user half, other than the
     * unmapped first gigabyte, points at the level-1 table.
     */
    method MapL1Table(index: nat, l1: L1Table)
      requires Valid() && 0 < index < TABLE_LEN / 2
      modifies entries
      ensures entries[..] == old(entries[..])[index := Interior(l1.frame)]
    {
      entries[index] := Interior(l1.frame);
    }
  }

  /** `KERNEL_L1_TABLE`: the level-1 table every new root table shares for the kernel's gigabytes. */
  class KernelL1Slot {
    var table: Option<Frame.Idx>

    constructor ()
      ensures table.None?
    {
      table := None;
    }

    /** `set_kernel_l1_table`. */
    method SetKernelL1Table(l1: L1Table)
      modifies this
      ensures table == Some(l1.frame)
    {
      table := Some(l1.frame);
    }
  }

  // ---------------------------------------------------------------- constructors

  /** The contents `L2TableCap::new` gives a root table: the boot layout with the shared kernel level-1 table as its last entry. */
  function L2Initial(kernelL1: Frame.Idx, i: nat): (e: Word)
    requires i < TABLE_LEN
  {
    if i == TABLE_LEN - 1 then KernelInterior(kernelL1) else BootL2Entry(i)
  }

  /**
   * `L1TableCap::new` and `L0TableCap::new` share this shape: `Arc::new`
   * claims the frame as a Normal frame, or the constructor returns `None`
   * and nothing changes.
   */
  method NewL1Table(ft: Frame.FrameTable, f: Frame.Idx) returns (t: Option<L1Table>)
    requires ft.Valid() && ft.Accessible(f)
    modifies ft.counts
    ensures ft.Valid()
    ensures t.Some? <==> Frame.NewWithCount(old(ft.Kind(f)), old(ft.counts[Frame.Index(f)]), Frame.Normal).Some?
    ensures t.Some? ==> fresh(t.value) && t.value.Valid() && t.value.frame == f
    ensures t.Some? ==> forall i :: 0 <= i < TABLE_LEN ==> t.value.entries[i] == INVALID
    ensures t.Some? ==> ft.counts[..] == old(ft.counts[..])[Frame.Index(f) := 2]
    ensures t.None? ==> ft.counts[..] == old(ft.counts[..])
  {
    var a := ft.NewWith(f, Frame.Normal);
    if a.None? {
      return None;
    }
    var table := new L1Table(f);
    t := Some(table);
  }

  method NewL0Table(ft: Frame.FrameTable, f: Frame.Idx) returns (t: Option<L0Table>)
    requires ft.Valid() && ft.Accessible(f)
    modifies ft.counts
    ensures ft.Valid()
    ensures t.Some? <==> Frame.NewWithCount(old(ft.Kind(f)), old(ft.counts[Frame.Index(f)]), Frame.Normal).Some?
    ensures t.Some? ==> fresh(t.value) && t.value.Valid() && t.value.frame == f
    ensures t.Some? ==> forall i :: 0 <= i < TABLE_LEN ==> t.value.entries[i] == INVALID
    ensures t.Some? ==> ft.counts[..] == old(ft.counts[..])[Frame.Index(f) := 2]
    ensures t.None? ==> ft.counts[..] == old(ft.counts[..])
  {
    var a := ft.NewWith(f, Frame.Normal);
    if a.None? {
      return None;
    }
    var table := new L0Table(f);
    t := Some(table);
  }

  /** The entries hold the initial layout of a root table sharing `kernelL1`. */
  ghost predicate HasRootLayout(entries: array<Word>, kernelL1: Frame.Idx)
    reads entries
  {
    entries.Length == TABLE_LEN && forall i :: 0 <= i < TABLE_LEN ==> entries[i] == L2Initial(kernelL1, i)
  }

  /** The first steps of `L2TableCap::new`: the boot layout, its last entry pointing at the kernel level-1 table. */
  method RootEntries(kernelL1: Frame.Idx) returns (entries: array<Word>)
    ensures fresh(entries) && entries.Length == TABLE_LEN
    ensures HasRootLayout(entries, kernelL1)
  {
    entries := BootL2Table();
    entries[TABLE_LEN - 1] := KernelInterior(kernelL1);
  }

  /** The reference counts after one clone of a handle on frame `k`. */
  function CloneAt(counts: seq<Frame.Count>, k: Frame.Idx): (r: seq<Frame.Count>)
    requires |counts| == FRAME_COUNT
    ensures |r| == FRAME_COUNT
  {
    counts[Frame.Index(k) := Frame.CloneCount(counts[Frame.Index(k)])]
  }

  /**
   * `L2TableCap::new`, given the contents of `KERNEL_L1_TABLE` (the
   * `table` of the `KernelL1Slot`), which must have been set: the source
   * unwraps it. Its handle is cloned into the last entry before the frame
   * is claimed, so the clone stays counted even when the claim fails.
   */
  method NewL2Table(ft: Frame.FrameTable, kernelL1: Option<Frame.Idx>, f: Frame.Idx) returns (t: Option<L2Table>, ok: bool)
    requires ft.Valid() && kernelL1.Some?
    requires ft.Accessible(f) && ft.Accessible(kernelL1.value)
    modifies ft.counts
    ensures ft.Valid()
    ensures ok <==> old(ft.counts[Frame.Index(kernelL1.value)]) < Frame.CLONE_LIMIT
    ensures t.Some? ==> old(ft.Kind(f)) == Frame.Normal && CloneAt(old(ft.counts[..]), kernelL1.value)[Frame.Index(f)] == 0
    ensures old(ft.Kind(f)) == Frame.Normal && CloneAt(old(ft.counts[..]), kernelL1.value)[Frame.Index(f)] == 0 ==> t.Some?
    ensures t.Some? ==> ft.counts[..] == CloneAt(old(ft.counts[..]), kernelL1.value)[Frame.Index(f) := 2]
    ensures t.None? ==> ft.counts[..] == CloneAt(old(ft.counts[..]), kernelL1.value)
    ensures t.Some? ==> fresh(t.value) && t.value.Valid() && t.value.frame == f
    ensures t.Some? ==> HasRootLayout(t.value.entries, kernelL1.value)
  {
    var k := kernelL1.value;
    var boot := RootEntries(k);
    var _, cloned := ft.Clone(Frame.Arc(k));
    ok := cloned;
    var a := ft.NewWith(f, Frame.Normal);
    if a.None? {
      return None, ok;
    }
    var table := new L2Table(f, boot);
    t := Some(table);
  }

  /**
   * A new root table shares the kernel's upper gigabyte through the kernel
   * level-1 table and otherwise has the boot layout: the user half is empty.
   */
  lemma L2InitialLayout(kernelL1: Frame.Idx, i: nat)
    requires i < TABLE_LEN
    ensures i < TABLE_LEN / 2 ==> !IsValid(L2Initial(kernelL1, i))
    ensures i == TABLE_LEN - 1 ==> Ppn(L2Initial(kernelL1, i)) == kernelL1 && Rwx(L2Initial(kernelL1, i)) == 0
    ensures i >= TABLE_LEN / 2 ==> IsValid(L2Initial(kernelL1, i)) && IsGlobal(L2Initial(kernelL1, i)) && !IsUser(L2Initial(kernelL1, i))
  {
    BootL2Layout(i);
  }

  // ---------------------------------------------------------------- activation

  /** The Sv39 value of the MODE field of `satp` (section 4.1.11 of the RISC-V Privileged Architecture specification). */
  const SATP_MODE_SV39: Word := 0x8000_0000_0000_0000

  /** The `satp` word `activate` writes for the root table in frame `f`: Sv39 mode, ASID 0. */
  function Satp(f: Frame.Idx): (w: Word)
    ensures w & 0x8000_0000_0000_0000 != 0
    ensures (w >> 44) & 0xffff == 0
  {
    f | 0x8000_0000_0000_0000
  }

  /** The root frame `activate` reads back from the previous `satp`, if it is a frame number. */
  function SatpRoot(w: Word): (r: Option<Frame.Idx>)
    ensures r.Some? <==> w & 0x7fff_ffff_ffff_ffff <= Frame.IDX_MAX
  {
    Frame.FromRaw(w & 0x7fff_ffff_ffff_ffff)
  }

  lemma {:induction false} SatpRoundTrip(f: Frame.Idx)
    ensures SatpRoot(Satp(f)) == Some(f)
  {
    assert Satp(f) & 0x7fff_ffff_ffff_ffff == f;
  }

  /** A hart's `satp` register and its thread-local `BOOTSTRAPPED` flag. */
  class Hart {
    var satp: Word
    var bootstrapped: bool

    /** Once bootstrapped, `satp` holds the root table whose handle it owns. */
    ghost predicate Valid()
      reads this
    {
      bootstrapped ==> SatpRoot(satp).Some?
    }

    /** A hart as the boot code leaves it, with whatever `satp` it set up. */
    constructor (initial: Word)
      ensures Valid() && !bootstrapped && satp == initial
    {
      satp := initial;
      bootstrapped := false;
    }

    /**
     * `L2TableCap::activate` on the table in frame `root`: installs the
     * frame in `satp`, handing the table's handle to the register. From the second activation on,
     * the handle of the table it replaces is dropped, with the corrected drop
     * (`Frame.FrameTable.Drop`) that the rest of the model uses.
     */
    method Activate(ft: Frame.FrameTable, root: Frame.Idx) returns (destroyed: bool)
      requires Valid() && ft.Valid()
      requires bootstrapped ==> ft.Accessible(SatpRoot(satp).value)
      modifies this, ft.counts
      ensures Valid() && bootstrapped
      ensures satp == Satp(root) && SatpRoot(satp) == Some(root)
      ensures ft.Valid()
      ensures old(bootstrapped) ==>
        var replaced := SatpRoot(old(satp)).value;
        && destroyed == Frame.DropCountReleasing(old(ft.counts[Frame.Index(replaced)])).1
        && ft.counts[..] == old(ft.counts[..])[Frame.Index(replaced) := Frame.DropCountReleasing(old(ft.counts[Frame.Index(replaced)])).0]
      ensures !old(bootstrapped) ==> !destroyed && ft.counts[..] == old(ft.counts[..])
    {
      var was := bootstrapped;
      bootstrapped := true;
      var previous := satp;
      satp := Satp(root);
      SatpRoundTrip(root);
      if was {
        var replaced := SatpRoot(previous).value;
        destroyed := ft.Drop(Frame.Arc(replaced));
      } else {
        destroyed := false;
      }
    }
  }
}
