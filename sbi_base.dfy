/**
 * The SBI base extension (kernel/src/sbi/base.rs): chapter 4 of the RISC-V
 * Supervisor Binary Interface specification.
 *
 * Each query is one `ecall` with extension ID 0x10 and its own function ID;
 * the firmware's reply is an input, decoded by `Sbi.Decode`. The kernel
 * treats an error reply to any base query as fatal, which the
 * model keeps as the `Err` outcome of each reply decoder.
 */
module SbiBase {
  import opened Wrappers
  import opened Machine
  import Sbi

  /** Extension ID of the base extension. */
  const EID: bv32 := 0x10

  /** The seven base-extension queries the kernel makes. */
  datatype BaseFunction =
    | GetSpecVersion
    | GetImplId
    | GetImplVersion
    | ProbeExtension
    | GetMvendorid
    | GetMarchid
    | GetMimpid

  /** Function ID of each query. */
  function FunctionId(f: BaseFunction): (fid: bv32)
    ensures fid < 7
  {
    match f
    case GetSpecVersion => 0x0
    case GetImplId => 0x1
    case GetImplVersion => 0x2
    case ProbeExtension => 0x3
    case GetMvendorid => 0x4
    case GetMarchid => 0x5
    case GetMimpid => 0x6
  }

  /** Distinct queries use distinct function IDs, so the firmware can tell them apart. */
  lemma FunctionIdInjective(f: BaseFunction, g: BaseFunction)
    ensures FunctionId(f) == FunctionId(g) ==> f == g
  {
  }

  /** The registers of one base query: EID in `a7`, FID in `a6`, the argument in `a0`. */
  datatype Request = Request(eid: bv32, fid: bv32, a0: Word)

  /**
   * The request issued for a query; only `probe_extension` passes an
   * argument (the probed extension ID, zero-extended), the others pass 0.
   */
  function RequestFor(f: BaseFunction, probed: bv32): (r: Request)
    ensures r.eid == EID && r.fid == FunctionId(f)
    ensures r.a0 == if f == ProbeExtension then probed as Word else 0
  {
    Request(EID, FunctionId(f), if f == ProbeExtension then probed as Word else 0)
  }

  /**
   * Two queries issue the same request exactly when they are the same
   * query and, for `probe_extension`, probe the same extension: the
   * firmware can always tell what was asked.
   */
  lemma RequestDistinguishes(f: BaseFunction, p: bv32, g: BaseFunction, q: bv32)
    ensures RequestFor(f, p) == RequestFor(g, q) <==> f == g && (f == ProbeExtension ==> p == q)
  {
  }

  // ---------------------------------------------------------------- spec version

  /** `SpecVersion`: bit 31 reserved, major in bits 30..24, minor in bits 23..0. */
  datatype SpecVersion = SpecVersion(raw: Word) {
    function Major(): (m: Word)
      ensures m < 0x80
    {
      (raw >> 24) & 0x7f
    }

    function Minor(): (m: Word)
      ensures m < 0x100_0000
    {
      raw & 0xff_ffff
    }
  }

  /** The version word the firmware reports for a major and minor number. */
  function SpecVersionWord(major: Word, minor: Word): Word {
    (major << 24) | minor
  }

  /** Major and minor together are exactly the low 31 bits of the word. */
  lemma SpecVersionSplit(v: SpecVersion)
    ensures SpecVersionWord(v.Major(), v.Minor()) == v.raw & 0x7fff_ffff
  {
    SpecVersionBits(v.raw);
  }

  /** The split on the bare word: bits 30..24 shifted back, joined with bits 23..0. */
  lemma SpecVersionBits(w: Word)
    ensures (((w >> 24) & 0x7f) << 24) | (w & 0xff_ffff) == w & 0x7fff_ffff
  {
  }

  /** Encoding a version in range and reading it back yields the same numbers. */
  lemma SpecVersionRoundTrip(major: Word, minor: Word)
    requires major < 0x80 && minor < 0x100_0000
    ensures SpecVersion(SpecVersionWord(major, minor)).Major() == major
    ensures SpecVersion(SpecVersionWord(major, minor)).Minor() == minor
  {
  }

  /** `spec_version`: the reply's value word as a version. */
  function SpecVersionReply(error: Word, value: Word): (r: Result<SpecVersion, Sbi.StandardError>)
    ensures r.Ok? <==> error == 0
    ensures r.Ok? ==> r.value.raw == value
  {
    match Sbi.Decode(error, value)
    case Ok(v) => Ok(SpecVersion(v))
    case Err(e) => Err(e)
  }

  // ---------------------------------------------------------------- implementation ID

  /** Implementation IDs listed by the SBI specification that the kernel names. */
  datatype ImplId =
    | Bbl
    | OpenSbi
    | Xvisor
    | Kvm
    | RustSbi
    | Diosix
    | UnknownImpl(id: Word)

  /** `impl_id`'s match from the ID word to `ImplId`. */
  function DecodeImplId(id: Word): (r: ImplId)
    ensures r.UnknownImpl? <==> id > 5
    ensures r.UnknownImpl? ==> r.id == id
  {
    match id
    case 0 => Bbl
    case 1 => OpenSbi
    case 2 => Xvisor
    case 3 => Kvm
    case 4 => RustSbi
    case 5 => Diosix
    case _ => UnknownImpl(id)
  }

  /** The ID word of an implementation. */
  function ImplIdWord(i: ImplId): Word {
    match i
    case Bbl => 0
    case OpenSbi => 1
    case Xvisor => 2
    case Kvm => 3
    case RustSbi => 4
    case Diosix => 5
    case UnknownImpl(id) => id
  }

  /** Decoding loses nothing: the ID word is recovered from the decoded value. */
  lemma ImplIdRoundTrip(id: Word)
    ensures ImplIdWord(DecodeImplId(id)) == id
  {
  }

  /** Each named implementation decodes from its own ID word. */
  lemma ImplIdNamedRoundTrip(i: ImplId)
    requires !i.UnknownImpl?
    ensures DecodeImplId(ImplIdWord(i)) == i
  {
  }

  /** `impl_id` on a reply. */
  function ImplIdReply(error: Word, value: Word): (r: Result<ImplId, Sbi.StandardError>)
    ensures r.Ok? <==> error == 0
    ensures r.Ok? ==> ImplIdWord(r.value) == value
  {
    match Sbi.Decode(error, value)
    case Ok(v) => Ok(DecodeImplId(v))
    case Err(e) => Err(e)
  }

  // ---------------------------------------------------------------- probe

  /** `ExtAvail`: `Available` carries a non-zero word (`NonZeroUsize`). */
  datatype ExtAvail = Unavailable | Available(n: Word)

  /** `probe_extension` on a reply: available exactly when the value word is non-zero. */
  function ProbeReply(error: Word, value: Word): (r: Result<ExtAvail, Sbi.StandardError>)
    ensures r.Ok? <==> error == 0
    ensures r.Ok? ==> (r.value.Available? <==> value != 0)
    ensures r.Ok? && r.value.Available? ==> r.value.n == value && r.value.n != 0
  {
    match Sbi.Decode(error, value)
    case Ok(v) => Ok(if v != 0 then Available(v) else Unavailable)
    case Err(e) => Err(e)
  }

  // ---------------------------------------------------------------- vendor ID

  /**
   * `VendorId` as the kernel reads it: offset from bits 5..0 and bank from
   * bits 30..6. See `JedecBank`/`JedecOffset` for the layout of the
   * `mvendorid` register.
   */
  datatype VendorId = VendorId(raw: Word) {
    function Bank(): (b: Word)
      ensures b < 0x200_0000
    {
      (raw >> 6) & 0x1ff_ffff
    }

    function Offset(): (o: Word)
      ensures o < 0x40
    {
      raw & 0x3f
    }

    /**
     * The JEDEC manufacturer ID layout of `mvendorid` (section 3.1.2 of
     * the RISC-V Privileged Architecture specification): the bank, i.e.
     * the number of continuation codes, in bits 31..7 and the offset in
     * bits 6..0.
     */
    function JedecBank(): (b: Word)
      ensures b < 0x200_0000
    {
      (raw >> 7) & 0x1ff_ffff
    }

    function JedecOffset(): (o: Word)
      ensures o < 0x80
    {
      raw & 0x7f
    }
  }

  /** The `mvendorid` word of a JEDEC bank and offset. */
  function VendorIdWord(bank: Word, offset: Word): Word {
    (bank << 7) | offset
  }

  /** As written, the two fields cover only bits 30..0 and bit 6 lands in the bank. */
  lemma VendorIdAsWrittenSplit(v: VendorId)
    ensures (v.Bank() << 6) | v.Offset() == v.raw & 0x7fff_ffff
  {
  }

  /**
   * As written, SiFive's vendor ID 0x489 (bank 9, offset 9) reads as bank
   * 18, offset 9; and every ID in the JEDEC layout whose offset is at
   * least 0x40 is misread.
   */
  lemma VendorIdAsWrittenMisreads(bank: Word, offset: Word)
    requires bank < 0x200_0000 && 0x40 <= offset < 0x80
    ensures VendorId(0x489).Bank() == 18 && VendorId(0x489).Offset() == 9
    ensures VendorId(0x489).JedecBank() == 9 && VendorId(0x489).JedecOffset() == 9
    ensures VendorId(VendorIdWord(bank, offset)).Offset() != offset
  {
  }

  /** With the JEDEC layout, bank and offset cover the whole 32-bit register and round-trip. */
  lemma JedecRoundTrip(v: VendorId, bank: Word, offset: Word)
    requires bank < 0x200_0000 && offset < 0x80
    ensures VendorIdWord(v.JedecBank(), v.JedecOffset()) == v.raw & 0xffff_ffff
    ensures VendorId(VendorIdWord(bank, offset)).JedecBank() == bank
    ensures VendorId(VendorIdWord(bank, offset)).JedecOffset() == offset
  {
  }

  /** `machine_vendor_id` on a reply. */
  function VendorIdReply(error: Word, value: Word): (r: Result<VendorId, Sbi.StandardError>)
    ensures r.Ok? <==> error == 0
    ensures r.Ok? ==> r.value.raw == value
  {
    match Sbi.Decode(error, value)
    case Ok(v) => Ok(VendorId(v))
    case Err(e) => Err(e)
  }
}
