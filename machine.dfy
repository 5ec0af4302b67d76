/**
 * Machine constants of the target (kernel/src/machine.rs) and the word types
 * used throughout the model.
 */
module Machine {

  /** A 64-bit machine word (`u64`, and `usize` on riscv64). */
  type Word = bv64

  /** A byte (`u8`). */
  type Byte = bv8

  /** Number of physical frames tracked by the kernel: 8 GiB of 4 KiB frames. */
  const FRAME_COUNT: nat := 0x20_0000

  /** Size in bytes of a page mapped by a level-0, level-1 and level-2 entry. */
  const L0_FRAME_SIZE: nat := 0x1000
  const L1_FRAME_SIZE: nat := 0x1000 * 512
  const L2_FRAME_SIZE: nat := 0x1000 * 512 * 512

  /** Number of entries in a page table of any level. */
  const TABLE_LEN: nat := 0x200

  const U32_LIMIT: nat := 0x1_0000_0000
  const U32_MAX: nat := 0xffff_ffff
}
