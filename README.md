# maize kernel core, modelled in Dafny

maize is an early RISC-V (Sv39) microkernel. This project models the parts of it that run
sequentially on one hart, and proves properties of that model:

- **Physical frames** (`Frame`). Frames are named by a bounded index `Idx`. Two global
  tables hold a kind (Internal, Normal, External) and a 32-bit reference count for every
  frame. `Arc::new_with`, `clone` and `drop` move the count through a fixed protocol:
  0 means free, 1 means being built or destroyed, and otherwise the count is the number
  of handles plus one.
- **Page tables** (`Table`). Sv39 entries are encoded bit by bit, following section
  4.3.1 (entry fields) and section 4.4.1 (Sv39 layout) of the RISC-V Privileged
  Architecture specification. The kernel also stores capabilities in level-0 entries
  whose V bit is clear. The model covers:
  - the boot root table;
  - the three table classes, each with in-place single-slot updates;
  - `L2TableCap::new`;
  - `activate`, which hands a table's handle to the hart's `satp`.
- **Threads** (`Thread`). A thread has a context, a root table, an 8-deep stack of saved
  callers and an optional exception call. `call` and `ret` implement thread-migrating
  calls. `resume` takes the context out, runs the thread and puts back the context the
  trap saved.
- **The boot path** (`Kernel`). This covers:
  - the top-down bump allocator `BootAlloc`;
  - the offset-preserving mapping of the kernel image into its level-0 tables;
  - one turn of the trap loop: `scause` 8 is a system call with selector 0 (shut down)
    or 1 (print the eight big-endian bytes of `a1`), and `pc` then steps over the
    `ecall`.
- **SBI replies** (`Sbi`, `SbiBase`). This is the decoding of the error and value words
  the firmware returns, following chapter 3 (Binary Encoding) and chapter 4 (Base
  Extension) of the RISC-V Supervisor Binary Interface specification.
- **Aligned pointers** (`Ptr`). `MaybeDangling` is a non-null address aligned for its
  pointee.
- **The first user thread** (`Root`). It cuts "Hello, world!" into 8-byte chunks, pads
  each with spaces and sends each as one big-endian word. The model proves end to end
  that the kernel prints the message followed by the spaces that fill its last word.

The model takes the source's form throughout:
- State the source updates in place is a class with array fields and `modifies`
  clauses: the frame tables, page tables, call stack, thread, hart and boot allocator.
- Bit encodings and decoders are functions on `bv64` words.
- Loops are methods with invariants, proved equal to a specification function:
  `boot_l2_table`, the kernel page loop, the section search and the user chunk loop.

Integer widths are explicit:
- Words are `bv64`.
- Counts are 32-bit naturals with the source's wrap-around.
- `pc + 4` and the frame address `addr + idx * L0_FRAME_SIZE` wrap as a release build
  does.
- Every handle drop uses the corrected `drop` (see "## Findings"): the last handle,
  which finds count 2, destroys the frame's contents and stores 0.

## Model

| member | source | states |
|---|---|---|
| Ptr.New | kernel/src/ptr.rs:14-19 | `None` exactly when the address is misaligned for the pointee or null; otherwise a valid pointer whose `as_ptr` is that address |
| Ptr.Cast | kernel/src/ptr.rs:34-36 | the address is unchanged; a cast to an alignment no larger keeps the pointer valid |
| Ptr.CastToSmallerAlignment | kernel/src/ptr.rs:34-36 | an address aligned to a power of two is aligned to every smaller power of two |
| Ptr.FromRef | kernel/src/ptr.rs:72-84 | converting a reference always yields a valid pointer at the same address, the one `new` would build |
| Ptr.NewAsPtrRoundTrip | kernel/src/ptr.rs:14-19 | every valid pointer is what `new` builds from its own address |
| Sbi.Magnitude | kernel/src/sbi/mod.rs:33-40 | each standard error except `Unknown` has a code `-k` with `1 <= k <= 8` |
| Sbi.Decode | kernel/src/sbi/mod.rs:30-42 | `Ok` iff the error word is 0, carrying the value word; a named error comes only from its own code; `Unknown` only from a non-zero code outside -1..-8 |
| Sbi.DecodeCode | kernel/src/sbi/mod.rs:33-40 | each of the eight standard errors is decoded from its own code, whatever the value word |
| Sbi.DecodeIgnoresValueOnError | kernel/src/sbi/mod.rs:31-42 | on a non-zero error the result does not depend on the value word |
| Sbi.OutOfRangeIsUnknown | kernel/src/sbi/mod.rs:41 | every positive code and every code below -8 decodes to `Unknown` |
| SbiBase.FunctionId | kernel/src/sbi/base.rs:102-151 | the seven base queries use function IDs below 7 |
| SbiBase.FunctionIdInjective | kernel/src/sbi/base.rs:102-151 | distinct queries use distinct function IDs |
| SbiBase.RequestDistinguishes | kernel/src/sbi/base.rs:97-151 | two base queries issue the same registers exactly when they are the same query and, for `probe_extension`, probe the same extension |
| SbiBase.SpecVersion.Major | kernel/src/sbi/base.rs:13-16 | the major number is below 128 |
| SbiBase.SpecVersion.Minor | kernel/src/sbi/base.rs:18-21 | the minor number is below 2^24 |
| SbiBase.SpecVersionSplit | kernel/src/sbi/base.rs:13-21 | major and minor together are exactly the low 31 bits of the version word |
| SbiBase.SpecVersionRoundTrip | kernel/src/sbi/base.rs:13-21 | a major and minor in range are read back unchanged from the word they form |
| SbiBase.SpecVersionReply | kernel/src/sbi/base.rs:102-106 | `spec_version` succeeds iff the error word is 0, wrapping the value word |
| SbiBase.DecodeImplId | kernel/src/sbi/base.rs:111-119 | IDs 0 to 5 are the named implementations; any other ID is `Unknown` carrying that same ID |
| SbiBase.ImplIdRoundTrip | kernel/src/sbi/base.rs:111-119 | the ID word is recovered from every decoded implementation ID |
| SbiBase.ImplIdNamedRoundTrip | kernel/src/sbi/base.rs:111-119 | each named implementation decodes from its own ID |
| SbiBase.ImplIdReply | kernel/src/sbi/base.rs:108-120 | `impl_id` succeeds iff the error word is 0, and the result names the value word |
| SbiBase.ProbeReply | kernel/src/sbi/base.rs:127-135 | `probe_extension` succeeds iff the error word is 0; the extension is available iff the value is non-zero, carrying that value |
| SbiBase.VendorId.Bank | kernel/src/sbi/base.rs:71-74 | the bank as written fits in 25 bits |
| SbiBase.VendorId.Offset | kernel/src/sbi/base.rs:76-79 | the offset as written fits in 6 bits |
| SbiBase.VendorIdAsWrittenSplit | kernel/src/sbi/base.rs:71-79 | as written, bank and offset cover only bits 30..0, and bit 6 lands in the bank |
| SbiBase.VendorIdAsWrittenMisreads | kernel/src/sbi/base.rs:71-79 | as written, vendor ID 0x489 (JEDEC bank 9, offset 9) reads as bank 18, and every JEDEC offset of 0x40 or more is misread |
| SbiBase.VendorId.JedecBank | kernel/src/sbi/base.rs:71-74 | the JEDEC bank, bits 31..7, fits in 25 bits |
| SbiBase.VendorId.JedecOffset | kernel/src/sbi/base.rs:76-79 | the JEDEC offset, bits 6..0, fits in 7 bits |
| SbiBase.JedecRoundTrip | kernel/src/sbi/base.rs:71-79 | with the JEDEC layout, bank and offset are the whole 32-bit register and round-trip through it |
| SbiBase.VendorIdReply | kernel/src/sbi/base.rs:137-141 | `machine_vendor_id` succeeds iff the error word is 0, wrapping the value word |
| Frame.IntoRaw | kernel/src/frame.rs:45-47 | a frame number never exceeds `Idx::MAX` |
| Frame.FromRaw | kernel/src/frame.rs:35-43 | accepts exactly the values up to `Idx::MAX`, and `into_raw` gives each back |
| Frame.IdxRoundTrip | kernel/src/frame.rs:35-47 | `from_raw(into_raw(i))` is `i` |
| Frame.Index | kernel/src/frame.rs:123-126 | the table position of a frame lies below `FRAME_COUNT` |
| Frame.IndexInjective | kernel/src/frame.rs:123-126 | distinct frames have distinct positions in the kind and count tables |
| Frame.IdxOf | kernel/src/frame.rs:35-43 | every table position is the position of some `Idx` |
| Frame.FromNumber | kernel/src/frame.rs:35-43 | `from_raw` on an unsigned frame number is `Some` iff the number is below `FRAME_COUNT`, and the frame sits at that position |
| Frame.KindByte | kernel/src/frame.rs:246-251 | each kind is stored as a byte of at most 2 |
| Frame.KindFromByte | kernel/src/frame.rs:253-267 | `try_from` accepts exactly bytes 0, 1 and 2, each as the kind stored with it |
| Frame.KindRoundTrip | kernel/src/frame.rs:246-267 | every kind is decoded back from its byte |
| Frame.ArcRawRoundTrip | kernel/src/frame.rs:143-158 | `from_raw(into_raw(a))` gives back the same handle, and no count is touched |
| Frame.FrameAddressInjective | kernel/src/frame.rs:130 | distinct frame numbers have distinct addresses in the frame mapping, whatever its base |
| Frame.NewWithCount | kernel/src/frame.rs:97-114 | the claim succeeds iff the kind is the expected one and the count is 0, and leaves count 2 |
| Frame.CloneCount | kernel/src/frame.rs:169 | the increment adds exactly one below `u32::MAX` |
| Frame.DropCount | kernel/src/frame.rs:189-200 | as written, the contents are destroyed iff the count before the decrement is 1; otherwise the decrement subtracts exactly one |
| Frame.FrameTable.constructor | kernel/src/frame.rs:269-277 | initially every frame is Internal with count 0, and no frame mapping is set |
| Frame.FrameTable.SetFrameMappingAddr | kernel/src/frame.rs:279-281 | the frame mapping address becomes the given one |
| Frame.FrameTable.MarkNormal | kernel/src/frame.rs:283-285 | only this frame's kind changes, to Normal |
| Frame.FrameTable.MarkDevice | kernel/src/frame.rs:287-289 | only this frame's kind changes, to External |
| Frame.FrameTable.NewWith | kernel/src/frame.rs:88-120 | a handle is returned iff the kind matches and the count is 0; then only this frame's count changes, to 2; otherwise nothing changes |
| Frame.FrameTable.Clone | kernel/src/frame.rs:161-179 | only this frame's count changes, by one with 32-bit wrap; the assertion holds iff the prior count is below `u32::MAX / 2` |
| Frame.FrameTable.DropAsWritten | kernel/src/frame.rs:182-202 | as written: only this frame's count changes, decremented; destroyed (and count reset to 0) iff the prior count was 1 |
| Frame.FrameTable.Drop | kernel/src/frame.rs:182-202 | drop with the corrected release point (see Findings): destroyed and count reset to 0 iff this was the last handle, i.e. the prior count was 2; otherwise decremented |
| Frame.CountAfterClones | kernel/src/frame.rs:161-179 | after a claim and `k` clones the count is `k + 2`, one more than the handles |
| Frame.DropManyFromAbove | kernel/src/frame.rs:189 | as written, `n` drops from a count above `n` never destroy anything |
| Frame.DropAllHandlesLeaks | kernel/src/frame.rs:182-202 | as written, dropping every handle of a claimed frame destroys nothing and leaves count 1, so the frame can never be claimed again |
| Frame.DropCountReleasing | kernel/src/frame.rs:189-200 | the corrected drop destroys iff the prior count is 2, leaving 0; otherwise it subtracts one |
| Frame.DropAllHandlesReleases | kernel/src/frame.rs:182-202 | with the corrected drop, dropping every handle destroys the contents exactly once and the frame can be claimed again |
| Table.Bits | kernel/src/table.rs:40-52 | the permission bits are only R, W and X, never none, and W never without R |
| Table.PermissionsOf | kernel/src/table.rs:40-52 | an R/W/X field decodes only to the permissions whose bits it is |
| Table.PermissionsRoundTrip | kernel/src/table.rs:40-52 | every permission set is recovered from its bits, so `bits` is injective |
| Table.L2Kernel | kernel/src/table.rs:237-248 | a valid, global, accessed and dirty supervisor leaf with the permission bits and PPN `(n << 18)` cut to 44 bits |
| Table.Interior | kernel/src/table.rs:250-256 | a valid non-leaf (R=W=X=0), neither user nor global, whose PPN is the child table's frame |
| Table.KernelInterior | kernel/src/table.rs:258-265 | the same pointer to the child table with the global bit set |
| Table.Leaf | kernel/src/table.rs:300-311 | a valid user leaf, accessed and dirty, not global, with the permission bits and the page's frame as PPN |
| Table.KernelLeaf | kernel/src/table.rs:313-324 | a valid supervisor leaf, global, accessed and dirty, with the permission bits and the page's frame as PPN |
| Table.InvalidIsNotValid | kernel/src/table.rs:267-271 | the invalid entry (the zero word) has V clear |
| Table.CapWord | kernel/src/table.rs:333-339 | a capability word has V clear and bit 1 set, the tag in bits 2 to 9 and the frame from bit 10 |
| Table.Tag | kernel/src/table.rs:56-66 | tags are at most 7 and skip 3 and 4 |
| Table.CapEntry | kernel/src/table.rs:55-66 | a capability entry is never walked by the hardware |
| Table.CapOfTag | kernel/src/table.rs:57-64 | a tag names only a capability carrying that tag and frame |
| Table.CapFromEntry | kernel/src/table.rs:333-339 | only entries with V clear and the capability bit set read as capabilities |
| Table.CapRoundTrip | kernel/src/table.rs:55-66 | the capability word of every capability reads back as that same capability: kind and frame |
| Table.NoCapInMappings | kernel/src/table.rs:299-339 | neither the invalid entry nor any leaf or interior entry reads as a capability |
| Table.BootL2Table | kernel/src/table.rs:90-106 | the loop fills all 512 entries with the boot layout |
| Table.BootL2Layout | kernel/src/table.rs:90-106 | the user half is unmapped; the kernel half is global supervisor leaves, and only the last entry is executable, mapping gigapage 2 |
| Table.L0Table.constructor | kernel/src/table.rs:196-200 | a new level-0 table has every entry invalid |
| Table.L0Table.MapL0Page | kernel/src/table.rs:202-211 | exactly slot `index` changes, to a user leaf for the page |
| Table.L0Table.MapL0KernelPage | kernel/src/table.rs:213-222 | exactly slot `index` changes, to a supervisor leaf for the page |
| Table.L0Table.GiveCapability | kernel/src/table.rs:224-227 | exactly slot `index` changes, and it reads back as the given capability |
| Table.L1Table.constructor | kernel/src/table.rs:174-178 | a new level-1 table has every entry invalid |
| Table.L1Table.MapL0Table | kernel/src/table.rs:180-183 | exactly slot `index` changes, to a pointer to the level-0 table |
| Table.L1Table.MapL0KernelTable | kernel/src/table.rs:185-188 | exactly slot `index` changes, to a global pointer to the level-0 table |
| Table.L2Table.constructor | kernel/src/table.rs:157-158 | the root table owns the entries it was built from |
| Table.L2Table.MapL1Table | kernel/src/table.rs:161-166 | requires `0 < index < 256`; exactly slot `index` changes, to a pointer to the level-1 table |
| Table.KernelL1Slot.constructor | kernel/src/table.rs:108 | `KERNEL_L1_TABLE` starts empty |
| Table.KernelL1Slot.SetKernelL1Table | kernel/src/table.rs:110-113 | `KERNEL_L1_TABLE` holds the given table |
| Table.NewL1Table | kernel/src/table.rs:174-178 | succeeds iff the frame can be claimed as Normal; then only its count changes, to 2, and the table is empty; otherwise nothing changes |
| Table.NewL0Table | kernel/src/table.rs:196-200 | succeeds iff the frame can be claimed as Normal; then only its count changes, to 2, and the table is empty; otherwise nothing changes |
| Table.RootEntries | kernel/src/table.rs:152-156 | a root table's entries: the boot layout with the last entry pointing globally at the kernel level-1 table |
| Table.NewL2Table | kernel/src/table.rs:152-159 | the kernel level-1 handle is cloned first, even when the claim fails; the claim succeeds iff the frame is Normal with count 0 after that clone; the table has the root layout |
| Table.L2InitialLayout | kernel/src/table.rs:152-156 | every new root table has an empty user half and shares the kernel's top gigabyte through the kernel level-1 table |
| Table.Satp | kernel/src/table.rs:135-138 | the `satp` word selects Sv39 with ASID 0 |
| Table.SatpRoot | kernel/src/table.rs:141 | the root frame is read back iff the PPN field is a frame index |
| Table.SatpRoundTrip | kernel/src/table.rs:134-141 | the frame written into `satp` is the one read back from it |
| Table.Hart.constructor | kernel/src/table.rs:128-129 | a hart starts not bootstrapped |
| Table.Hart.Activate | kernel/src/table.rs:127-150 | `satp` holds the new root; the first activation changes no count, and later ones drop the handle of the replaced root with the corrected drop (destroyed iff its count was 2) and change nothing else |
| Thread.CallStep | kernel/src/thread.rs:62-79 | `call` fails iff the thread has no context or its stack holds `MAX_DEPTH` callers |
| Thread.RetStep | kernel/src/thread.rs:81-89 | `ret` fails iff the thread has no context or no saved caller |
| Thread.RetRestores | kernel/src/thread.rs:81-89 | a return takes `pc`, `sp` and root table from the newest saved caller, changes no other register, and removes that caller and no other |
| Thread.CallEntersTarget | kernel/src/thread.rs:62-79 | a call enters the target's `pc`, `sp` and root table, changes no other register, and pushes exactly the caller's `pc`, `sp` and root table |
| Thread.CallThenRet | kernel/src/thread.rs:62-89 | a return right after a successful call restores the thread exactly |
| Thread.StepsKeepDepth | kernel/src/thread.rs:144-169 | calls and returns never take the stack beyond `MAX_DEPTH` |
| Thread.CallStack.Empty | kernel/src/thread.rs:146-152 | a new stack holds no callers |
| Thread.CallStack.Push | kernel/src/thread.rs:154-159 | fails iff the stack is full, changing nothing; otherwise appends the call and increments the depth |
| Thread.CallStack.Pop | kernel/src/thread.rs:161-169 | fails iff the stack is empty; otherwise returns the newest caller and removes only it |
| Thread.PushThenPop | kernel/src/thread.rs:154-169 | LIFO: a push then a pop returns the pushed call and leaves the stack as it was |
| Thread.Thread.constructor | kernel/src/thread.rs:39-45 | a new thread has its context, with the full register file, an empty stack and no exception call |
| Thread.Thread.CallTo | kernel/src/thread.rs:62-79 | the thread changes exactly as `CallStep` says, or not at all when it fails |
| Thread.Thread.Ret | kernel/src/thread.rs:81-89 | the thread changes exactly as `RetStep` says, or not at all when it fails |
| Thread.Thread.SetExceptionCall | kernel/src/thread.rs:51-54 | stores the new call and keeps the thread's state; the replaced call's handle is dropped, and the root table handle of its record too when that destroys the record; no other count changes |
| Thread.Thread.CallException | kernel/src/thread.rs:56-60 | fails with no change while no exception call is set; otherwise makes that call |
| Thread.Thread.Resume | kernel/src/thread.rs:106-124 | fails when the context is taken, leaving `satp`, the bootstrapped flag, the counts and the thread unchanged; otherwise activates the thread's root table (the hart is then bootstrapped) and puts back the context the trap saved, returning `scause` and `stval`; the thread's root table and exception call never change |
| Thread.NewThread | kernel/src/thread.rs:39-49 | succeeds iff the frame can be claimed; the thread has its context, an empty stack and no exception call; only that frame's count changes; on failure the root table's handle is dropped and no other count changes |
| Thread.NewCallCap | kernel/src/thread.rs:14-19 | succeeds iff the frame can be claimed, recording the call's `pc`, `sp` and root table; only that frame's count changes; on failure the root table's handle is dropped and no other count changes |
| Kernel.BootAlloc.constructor | kernel/src/main.rs:214-220 | requires `start <= end`; nothing has been handed out |
| Kernel.BootAlloc.Len | kernel/src/main.rs:222-224 | the frames left and the frames handed out together are all the frames the allocator started with |
| Kernel.BootAlloc.Alloc | kernel/src/main.rs:226-236 | requires `len != 0`; offers frame `end - 1`; `end` drops by one only when the constructor accepts the frame; handed-out frames stay strictly decreasing, within the initial range, and are never repeated |
| Kernel.SectionOf | kernel/src/main.rs:101-116 | the first section holding the address, or none when no section holds it |
| Kernel.FindSection | kernel/src/main.rs:101-116 | the loop over the sections stops at the first section holding the address |
| Kernel.VirtAddr | kernel/src/main.rs:100 | the page's virtual address is page aligned and lies at or above the kernel base without wrapping |
| Kernel.PhysAddr | kernel/src/main.rs:103-104 | the physical address lies at the same offset from the physical base as the virtual address from the virtual base |
| Kernel.PhysFrameIsIdx | kernel/src/main.rs:105 | the `unwrap` after `Idx::from_raw` never fails |
| Kernel.KernelEntryKeepsOffset | kernel/src/main.rs:100-115 | a page is mapped iff some section holds it; the mapping keeps the page's offset, uses the first section's permissions, and is global and supervisor-only |
| Kernel.MapKernelPage | kernel/src/main.rs:100-115 | exactly one slot changes, to the kernel entry for that page |
| Kernel.MapKernelL0 | kernel/src/main.rs:99-118 | every slot of the level-0 table holds the kernel entry for its page |
| Kernel.BeBytes | kernel/src/main.rs:188 | `to_be_bytes` yields eight bytes |
| Kernel.BeBytesRoundTrip | kernel/src/main.rs:188 | reading the bytes back big-endian gives the word |
| Kernel.FromBeBytesRoundTrip | kernel/src/main.rs:188 | `to_be_bytes` recovers exactly the eight bytes a word was read from |
| Kernel.Dispatch | kernel/src/main.rs:183-197 | selector 0 is shutdown and 1 is print, exactly; a print carries the eight bytes whose big-endian reading is `a1` |
| Kernel.HandleTrap | kernel/src/main.rs:180-208 | on `scause` 8 the call is dispatched on `a0`/`a1` and `pc` advances by 4; any other cause is fatal and changes nothing |
| Kernel.TrapLoopTurn | kernel/src/main.rs:169-210 | one turn of the loop: with the context taken, it fails and changes neither the hart, the counts nor the thread; otherwise it resumes the thread on a bootstrapped hart whose `satp` holds the thread's root, then handles the trap on the registers the trap saved; the thread's root table and exception call never change |
| Root.Chunks | root/src/main.rs:22 | `ceil(len / 8)` chunks of 1 to 8 bytes, all but the last full |
| Root.ChunksFlatten | root/src/main.rs:22 | the chunks, joined in order, are the message |
| Root.Pad | root/src/main.rs:23-24 | eight bytes: the chunk at the front, spaces after it |
| Root.PrintCalls | root/src/main.rs:22-26 | one call per chunk, in order, with selector 1 and the padded chunk read big-endian |
| Root.Calls | root/src/main.rs:22-28 | the print calls in order, then a single shutdown call |
| Root.Checkin | root/src/main.rs:22-28 | the loop makes exactly the calls `Calls` describes |
| Root.PadBuffer | root/src/main.rs:23-24 | the filled word buffer holds the padded chunk |
| Root.PrintRecoversChunk | root/src/main.rs:25 | the kernel's print of a packed word gives back the padded chunk |
| Root.PrintedPrintCalls | root/src/main.rs:22-27 | the kernel prints every padded chunk, in order |
| Root.PadAllChunks | root/src/main.rs:22-24 | the padded chunks are the message plus the spaces that fill its last word |
| Root.KernelPrintsMessage | root/src/main.rs:21-28 | the kernel prints the whole message, in order, then the filling spaces, and stops |
| Root.CheckinPrints | root/src/main.rs:21-28 | "Hello, world!" is sent as two words and printed with three trailing spaces |

## Left out

- Atomics and memory orderings in kernel/src/frame.rs. The counts are plain sequential
  numbers, so the model is the behaviour of one hart holding the tables.
- The token spinlock of kernel/src/sync.rs. Holding the token is implicit.
- Inline assembly in kernel/src/plat.rs (`satp` set and swap, register save and restore,
  `ecall`). The user-mode run between `resume` and the trap is the parameter `run`, which
  gives back a full register file, as the trap's register save does, and
  the SBI `ecall` is replaced by the reply words as inputs.
- TLB fences and remote fences.
- Linker symbols (kernel/src/layout.rs, build scripts). Kernel sections are inputs to
  the model.
- Console output, logging (`kernel!`, `user!`), UTF-8 escaping, system reset and panics:
  kernel/src/debug.rs, kernel/src/sbi/legacy.rs, kernel/src/sbi/srst.rs,
  kernel/src/panic.rs. A print is modelled as the bytes printed; a shutdown ends the
  run.
- Entry code and `ecall` wrappers: kernel/src/entry.rs, root/src/entry.rs,
  root/src/abi/mod.rs. kernel/src/page.rs and kernel/src/align.rs are not part of this
  model; an `L0PageCap` is its frame index.
- `impl_version`, `machine_arch_id` and `machine_impl_id`. They return the raw value
  word, which is `Sbi.Decode` itself.
- The outer loop of the kernel mapping over level-1 slots, the mapping of the user
  image and the creation of the first thread (kernel/src/main.rs:96-167).
  - Their constructors change the frame table, so they cannot be passed to
    `Kernel.BootAlloc.Alloc` as pure function values.
  - The model proves the per-slot level-0 loop (`Kernel.MapKernelL0`), the allocator,
    and the table and thread constructors separately.
- `Kernel.BootAlloc.Alloc`: the constructor is a pure function `Idx -> Option<T>`, so its
  effect on the frame table is not composed with the allocation. A panic (`expect`) is
  returned as an error.
- `Kernel.MapKernelPage`: does not model the claim of the kernel image's frame by
  `L0PageCap::already_init`.
- `Kernel.TrapLoopTurn`: models one turn of the loop, not its infinite repetition. The
  root thread's final `loop {}` is not modelled.
- `Thread.Thread.Resume`: does not state the reference-count changes of the clone and
  activation of the root table, beyond keeping the tables well-formed.
- `Thread.Thread.CallTo`: does not count the clone of the callee's root table handle,
  nor the drop and transfer of handles; root tables are modelled by frame index.
- `Thread.Thread.Ret`: does not count the drop of the abandoned root table handle.
- `Table.NewL2Table`: takes the contents of `KERNEL_L1_TABLE` as a parameter instead of
  reading the global.
- `Frame.FrameTable.NewWith`: the initialiser's write into the frame is not modelled.
  Neither is the intermediate count 1, which the model overwrites with 2 at once.
- `Frame.FrameTable.Clone`: the debug assertions (kind Normal, count above 1) are not
  required of callers.
- `Table.Hart.Activate`: drops the replaced root's handle with the corrected drop
  (`Frame.FrameTable.Drop`), not the drop as written at kernel/src/frame.rs:189, which
  destroys only when the count was 1.
- `Thread.NewThread`: drops the root table's handle on failure with the corrected drop, not
  the drop as written.
- `Thread.NewCallCap`: drops the root table's handle on failure with the corrected drop,
  not the drop as written.
- `Thread.Thread.SetExceptionCall`: drops the replaced call with the corrected drop, not
  the drop as written.
- Debug builds panic when `context.pc += 0x4` (kernel/src/main.rs:199) or the frame address
  `addr + idx * L0_FRAME_SIZE` (kernel/src/frame.rs:130) overflows. The model follows a
  release build, where both wrap.
- `Frame.FrameTable.DropAsWritten`: the debug assertions (kind Normal, count above 1)
  are not required of callers.
- Capability derivation, scheduling and interrupt handling. The source has no code for
  them.

## Findings

| source | as written | input that shows it | evidently intended | confidence | as-written member | corrected member |
|---|---|---|---|---|---|---|
| kernel/src/sbi/base.rs:71-79 | offset is bits 5..0 and bank is bits 30..6 of `mvendorid` | vendor ID 0x489 (JEDEC bank 9, offset 9) reads as bank 18, offset 9 | offset in bits 6..0 and bank in bits 31..7, the JEDEC layout of `mvendorid` (section 3.1.2 of the RISC-V Privileged Architecture specification) that the code's own comments describe | high; not executed | SbiBase.VendorIdAsWrittenMisreads | SbiBase.JedecRoundTrip |
| kernel/src/frame.rs:189 | `drop` destroys the contents only when `fetch_sub` returns 1 | claim a frame with `new_with` (count 2), then drop that single handle: `fetch_sub` returns 2 and leaves count 1, nothing is destroyed, and `new_with` refuses the frame for ever | the last handle, which finds count 2, destroys the contents and stores 0, as the protocol implies: `new_with` stores 2 for one handle, and `drop` asserts a count above 1 | medium; not executed | Frame.DropAllHandlesLeaks | Frame.DropAllHandlesReleases |
