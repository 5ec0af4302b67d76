/**
 * Reference-counted physical frames (kernel/src/frame.rs).
 *
 * Every physical frame has a kind and a 32-bit reference count, held in two
 * global tables. A live `Arc` is only a frame index; constructing one claims
 * a frame whose count is 0, and clones and drops move the count. The atomics
 * of the source are modelled as plain sequential updates, so the model is
 * the behaviour of one hart holding the tables.
 */
module Frame {
  import opened Wrappers
  import opened Machine

  // ---------------------------------------------------------------- frame indices

  /**
   * `Idx`: a frame number. The source keeps it in a `u32` and hands it out
   * as a `usize`; the model keeps the machine word, whose every value is at
   * most `Idx::MAX`, that is `FRAME_COUNT - 1` (0x1f_ffff).
   */
  type Idx = i: Word | i <= 0x1f_ffff

  /** `Idx::MAX`. */
  const IDX_MAX: Word := 0x1f_ffff

  /** `Idx::into_raw`: the frame number as a `usize`. */
  function IntoRaw(i: Idx): (v: Word)
    ensures v <= IDX_MAX
  {
    i
  }

  /** `Idx::from_raw`: accepts exactly the values up to `Idx::MAX`, and keeps them. */
  function FromRaw(value: Word): (r: Option<Idx>)
    ensures r.Some? <==> value <= IDX_MAX
    ensures r.Some? ==> IntoRaw(r.value) == value
  {
    if value > IDX_MAX then None else Some(value)
  }

  lemma IdxRoundTrip(i: Idx)
    ensures FromRaw(IntoRaw(i)) == Some(i)
  {
  }

  /**
   * The number spelled by the low bits of `w`: as many bits as values below
   * `limit` need when `limit` is a power of two (21 bits for `FRAME_COUNT`).
   * It is read one bit at a time, lowest first.
   */
  function Number(w: Word, limit: nat): (n: nat)
    requires limit >= 1
    ensures n < limit
    decreases limit
  {
    if limit == 1 then 0
    else 2 * Number(w >> 1, limit / 2) + (if w & 1 == 1 then 1 else 0)
  }

  /** The position of frame `i` in the global tables: `into_raw()` used as an array index. */
  function Index(i: Idx): (n: nat)
    ensures n < FRAME_COUNT
  {
    Number(i, FRAME_COUNT)
  }

  /** The word whose low bits below `limit` are all set. */
  function Mask(limit: nat): (m: Word)
    requires limit >= 1
    decreases limit
  {
    if limit == 1 then 0 else (Mask(limit / 2) << 1) | 1
  }

  predicate IsPow2(limit: nat)
    decreases limit
  {
    limit == 1 || (limit >= 2 && limit % 2 == 0 && IsPow2(limit / 2))
  }

  /** Two words spelling the same number agree on every bit the number reads. */
  lemma {:induction false} NumberInjective(a: Word, b: Word, limit: nat)
    requires limit >= 1 && Number(a, limit) == Number(b, limit)
    ensures (a ^ b) & Mask(limit) == 0
    decreases limit
  {
    if limit > 1 {
      NumberInjective(a >> 1, b >> 1, limit / 2);
    }
  }

  lemma NumberUnfold(w: Word, limit: nat)
    requires limit >= 2
    ensures Number(w, limit) == 2 * Number(w >> 1, limit / 2) + (if w & 1 == 1 then 1 else 0)
  {
  }

  lemma OddSucc(w: Word)
    requires w & 1 == 1 && w != 0xffff_ffff_ffff_ffff
    ensures (w + 1) >> 1 == (w >> 1) + 1 && (w + 1) & 1 == 0 && w >> 1 != 0x7fff_ffff_ffff_ffff
  {
  }

  lemma EvenSucc(w: Word)
    requires w & 1 == 0
    ensures (w + 1) >> 1 == w >> 1 && (w + 1) & 1 == 1
  {
  }

  /** Adding one to the word adds one to the number it spells, short of the top. */
  lemma {:induction false} NumberSucc(w: Word, limit: nat)
    requires IsPow2(limit) && Number(w, limit) + 1 < limit && w != 0xffff_ffff_ffff_ffff
    ensures Number(w + 1, limit) == Number(w, limit) + 1
    decreases limit
  {
    NumberUnfold(w, limit);
    NumberUnfold(w + 1, limit);
    if w & 1 == 1 {
      OddSucc(w);
      NumberSucc(w >> 1, limit / 2);
    } else {
      EvenSucc(w);
    }
  }

  lemma {:induction false} NumberZero(limit: nat)
    requires limit >= 1
    ensures Number(0, limit) == 0
    decreases limit
  {
    if limit > 1 {
      NumberZero(limit / 2);
    }
  }

  lemma IdxMask()
    ensures Mask(FRAME_COUNT) == IDX_MAX
  {
    assert Mask(0x200) == 0x1ff;
    assert Mask(0x1000) == 0xfff;
    assert Mask(0x8000) == 0x7fff;
    assert Mask(0x4_0000) == 0x3_ffff;
  }

  lemma FrameCountPow2()
    ensures IsPow2(FRAME_COUNT)
  {
    assert IsPow2(0x200);
    assert IsPow2(0x1000);
    assert IsPow2(0x8000);
    assert IsPow2(0x4_0000);
  }

  lemma TopIndex()
    ensures Index(IDX_MAX) == FRAME_COUNT - 1
  {
    assert Number(0x1ff, 0x200) == 0x1ff;
    assert Number(0xfff, 0x1000) == 0xfff;
  }

  /** Distinct frames have distinct table positions. */
  lemma IndexInjective(a: Idx, b: Idx)
    requires Index(a) == Index(b)
    ensures a == b
  {
    NumberInjective(a, b, FRAME_COUNT);
    IdxMask();
  }

  lemma IdxSucc(p: Idx)
    requires Index(p) + 1 < FRAME_COUNT
    ensures p < IDX_MAX && Index(p + 1) == Index(p) + 1
  {
    TopIndex();
    FrameCountPow2();
    NumberSucc(p, FRAME_COUNT);
  }

  /** The frame at table position `n`: every position is some frame's. */
  function IdxOf(n: nat): (i: Idx)
    requires n < FRAME_COUNT
    ensures Index(i) == n
  {
    if n == 0 then
      NumberZero(FRAME_COUNT);
      0
    else
      var p := IdxOf(n - 1);
      IdxSucc(p);
      p + 1
  }

  /** `Idx::from_raw` applied to a frame number computed as an unsigned number. */
  function FromNumber(n: nat): (r: Option<Idx>)
    ensures r.Some? <==> n < FRAME_COUNT
    ensures r.Some? ==> Index(r.value) == n
  {
    if n < FRAME_COUNT then Some(IdxOf(n)) else None
  }

  // ---------------------------------------------------------------- frame kinds

  datatype FrameKind = Internal | Normal | External

  /** The byte stored in `FRAME_KINDS` for a kind (its enum discriminant). */
  function KindByte(k: FrameKind): (b: Byte)
    ensures b <= 2
  {
    match k
    case Internal => 0
    case Normal => 1
    case External => 2
  }

  /** `FrameKind::try_from`: bytes 0, 1, 2 and nothing else. */
  function KindFromByte(b: Byte): (r: Option<FrameKind>)
    ensures r.Some? <==> b <= 2
    ensures r.Some? ==> KindByte(r.value) == b
  {
    match b
    case 0 => Some(Internal)
    case 1 => Some(Normal)
    case 2 => Some(External)
    case _ => None
  }

  /** The bytes `FRAME_KINDS` can hold: only `KindByte` ever writes it. */
  type KindCode = b: Byte | b <= 2

  lemma KindRoundTrip(k: FrameKind)
    ensures KindFromByte(KindByte(k)) == Some(k)
  {
  }

  // ---------------------------------------------------------------- handles

  /** An `Arc` handle: the index of the frame it owns a count on. */
  datatype Arc = Arc(idx: Idx)

  /** `Arc::into_raw`: gives up the handle without touching the count. */
  function ArcIntoRaw(a: Arc): Idx {
    a.idx
  }

  /** `Arc::from_raw`: rebuilds a handle from an index `into_raw` returned. */
  function ArcFromRaw(i: Idx): Arc {
    Arc(i)
  }

  lemma ArcRawRoundTrip(a: Arc)
    ensures ArcFromRaw(ArcIntoRaw(a)) == a
  {
  }

  // ---------------------------------------------------------------- frame addresses

  const ADDR_LIMIT: nat := 0x1_0000_0000_0000_0000

  /** A 64-bit address, as an unsigned number. */
  type Addr = a: nat | a < ADDR_LIMIT

  /**
   * The address of frame number `n` in the kernel's frame mapping: the
   * mapping base plus `n * L0_FRAME_SIZE`, in wrapping 64-bit arithmetic
   * (the offset is below 8 GiB, so at most one turn of the address space).
   */
  function FrameAddress(base: Addr, n: nat): Addr
    requires n < FRAME_COUNT
  {
    var sum := base + n * L0_FRAME_SIZE;
    if sum < ADDR_LIMIT then sum else sum - ADDR_LIMIT
  }

  /** Distinct frame numbers have distinct addresses, whatever the mapping base. */
  lemma FrameAddressInjective(base: Addr, n: nat, m: nat)
    requires n < FRAME_COUNT && m < FRAME_COUNT && n != m
    ensures FrameAddress(base, n) != FrameAddress(base, m)
  {
  }

  // ---------------------------------------------------------------- the count protocol

  /** The clone limit asserted after an increment (`u32::MAX / 2`). */
  const CLONE_LIMIT: nat := U32_MAX / 2

  /** `new_with`: the new count, or `None` when the kind is wrong or the frame is in use. */
  function NewWithCount(kind: FrameKind, count: nat, wanted: FrameKind): (r: Option<nat>)
    ensures r.Some? <==> kind == wanted && count == 0
    ensures r.Some? ==> r.value == 2
  {
    if kind != wanted then None
    else if count != 0 then None
    else Some(2)
  }

  /** A reference count, as the `u32` that `REF_COUNTS` holds. */
  type Count = c: nat | c < 0x1_0000_0000

  /** `clone`'s `fetch_add(1)` on a 32-bit count. */
  function CloneCount(count: Count): (c: Count)
    ensures count < U32_MAX ==> c == count + 1
  {
    if count == U32_MAX then 0 else count + 1
  }

  /**
   * `drop` as written: `fetch_sub(1)` on a 32-bit count, and whether the
   * frame's contents are destroyed: only when the count before the decrement
   * was 1, after which the count is stored back as 0.
   */
  function DropCount(count: Count): (r: (Count, bool))
    ensures r.1 <==> count == 1
    ensures count >= 1 ==> r.0 == count - 1
  {
    if count == 1 then (0, true) else if count == 0 then (U32_MAX, false) else (count - 1, false)
  }

  // ---------------------------------------------------------------- the global tables

  /** `FRAME_KINDS`, `REF_COUNTS` and `FRAME_MAPPING_ADDR`. */
  class FrameTable {
    const kinds: array<KindCode>
    const counts: array<Count>
    var mappingAddr: Addr

    ghost predicate Valid()
      reads this, kinds, counts
    {
      && kinds as object != counts as object
      && kinds.Length == FRAME_COUNT
      && counts.Length == FRAME_COUNT
    }

    /** The initial tables: every frame Internal with count 0; no frame mapping yet. */
    constructor ()
      ensures Valid() && fresh(kinds) && fresh(counts)
      ensures forall i :: 0 <= i < FRAME_COUNT ==> kinds[i] == KindByte(Internal) && counts[i] == 0
      ensures mappingAddr == 0
    {
      kinds := new KindCode[FRAME_COUNT](_ => 0);
      counts := new Count[FRAME_COUNT](_ => 0);
      mappingAddr := 0;
    }

    /** The kind of frame `i`, decoded as `frame` does. */
    function Kind(i: Idx): FrameKind
      reads this, kinds
      requires kinds.Length == FRAME_COUNT
    {
      KindFromByte(kinds[Index(i)]).value
    }

    /**
     * What `frame` needs to avoid a panic: a mapping address has been set,
     * and `MaybeDangling::new` accepts the frame's address. The pointee there
     * is `()`, whose alignment is 1, so only the null check can fail.
     */
    predicate Accessible(i: Idx)
      reads this
    {
      mappingAddr != 0 && FrameAddress(mappingAddr, Index(i)) != 0
    }

    /** `set_frame_mapping_addr`. */
    method SetFrameMappingAddr(addr: Addr)
      modifies this
      ensures mappingAddr == addr
    {
      mappingAddr := addr;
    }

    /** `mark_normal`: changes only `FRAME_KINDS[i]`. */
    method MarkNormal(i: Idx)
      requires Valid()
      modifies kinds
      ensures Valid()
      ensures kinds[..] == old(kinds[..])[Index(i) := KindByte(Normal)]
      ensures Kind(i) == Normal
    {
      kinds[Index(i)] := KindByte(Normal);
    }

    /** `mark_device`: changes only `FRAME_KINDS[i]`. */
    method MarkDevice(i: Idx)
      requires Valid()
      modifies kinds
      ensures Valid()
      ensures kinds[..] == old(kinds[..])[Index(i) := KindByte(External)]
      ensures Kind(i) == External
    {
      kinds[Index(i)] := KindByte(External);
    }

    /**
     * `Arc::new_with` (and so `Arc::new` for Normal frames and the unchecked initialiser
     * for Internal and External ones): claims frame `i` if it has the
     * wanted kind and count 0, leaving the count at 2; otherwise nothing
     * changes. The initialiser's write to the frame is not modelled.
     */
    method NewWith(i: Idx, wanted: FrameKind) returns (r: Option<Arc>)
      requires Valid() && Accessible(i)
      modifies counts
      ensures Valid()
      ensures r.Some? <==> NewWithCount(old(Kind(i)), old(counts[Index(i)]), wanted).Some?
      ensures r.Some? ==> r.value.idx == i && counts[..] == old(counts[..])[Index(i) := 2]
      ensures r.None? ==> counts[..] == old(counts[..])
    {
      var kind := KindFromByte(kinds[Index(i)]).value;
      if kind != wanted {
        return None;
      }
      if counts[Index(i)] != 0 {
        return None;
      }
      counts[Index(i)] := 1;
      counts[Index(i)] := 2;
      r := Some(Arc(i));
    }

    /**
     * `Clone::clone`: adds exactly one to the frame's count. `ok` is false
     * when the count before the increment was not below `u32::MAX / 2`,
     * where the kernel panics (after the increment has happened).
     */
    method Clone(a: Arc) returns (b: Arc, ok: bool)
      requires Valid() && Accessible(a.idx)
      modifies counts
      ensures Valid()
      ensures b == a
      ensures counts[..] == old(counts[..])[Index(a.idx) := CloneCount(old(counts[Index(a.idx)]))]
      ensures ok <==> old(counts[Index(a.idx)]) < CLONE_LIMIT
    {
      var prior := counts[Index(a.idx)];
      counts[Index(a.idx)] := if prior == U32_MAX then 0 else prior + 1;
      ok := prior < CLONE_LIMIT;
      b := a;
    }

    /**
     * `Drop::drop` as written: subtracts one from the frame's count; only
     * when the count before the decrement was 1 are the contents destroyed
     * and the count stored back as 0.
     */
    method DropAsWritten(a: Arc) returns (destroyed: bool)
      requires Valid() && Accessible(a.idx)
      modifies counts
      ensures Valid()
      ensures destroyed == DropCount(old(counts[Index(a.idx)])).1
      ensures counts[..] == old(counts[..])[Index(a.idx) := DropCount(old(counts[Index(a.idx)])).0]
    {
      var prior := counts[Index(a.idx)];
      counts[Index(a.idx)] := if prior == 0 then U32_MAX else prior - 1;
      destroyed := prior == 1;
      if destroyed {
        counts[Index(a.idx)] := 0;
      }
    }

    /**
     * `Drop::drop` with the release point corrected (see `DropCountReleasing`):
     * subtracts one from the frame's count; when the count before the
     * decrement was 2 this was the last handle, so the contents are destroyed
     * while the count reads 1 and the count is then stored back as 0.
     */
    method Drop(a: Arc) returns (destroyed: bool)
      requires Valid() && Accessible(a.idx)
      modifies counts
      ensures Valid()
      ensures destroyed == DropCountReleasing(old(counts[Index(a.idx)])).1
      ensures counts[..] == old(counts[..])[Index(a.idx) := DropCountReleasing(old(counts[Index(a.idx)])).0]
    {
      var prior := counts[Index(a.idx)];
      counts[Index(a.idx)] := if prior == 0 then U32_MAX else prior - 1;
      destroyed := prior == 2;
      if destroyed {
        counts[Index(a.idx)] := 0;
      }
    }
  }

  // ---------------------------------------------------------------- handles and counts

  /** The count after dropping `n` handles, and how many drops destroyed the contents. */
  function DropMany(count: Count, n: nat): (r: (Count, nat))
    decreases n
  {
    if n == 0 then (count, 0)
    else
      var (c, d) := DropCount(count);
      var (c', d') := DropMany(c, n - 1);
      (c', d' + if d then 1 else 0)
  }

  /**
   * A frame claimed by `new_with` and cloned `k` times holds `k + 1`
   * handles and count `k + 2`: the count is one more than the handles.
   */
  function CountAfterClones(k: nat): (c: Count)
    requires k < CLONE_LIMIT
    ensures c == NewWithCount(Normal, 0, Normal).value + k
  {
    if k == 0 then 2 else CloneCount(CountAfterClones(k - 1))
  }

  /**
   * As written, dropping every handle of a claimed frame never destroys its
   * contents and leaves its count at 1, so `new_with` refuses the frame for
   * ever after.
   */
  lemma {:induction false} DropAllHandlesLeaks(k: nat)
    requires k < CLONE_LIMIT
    ensures DropMany(CountAfterClones(k), k + 1) == (1, 0)
    ensures NewWithCount(Normal, DropMany(CountAfterClones(k), k + 1).0, Normal).None?
  {
    DropManyFromAbove(k + 2, k + 1);
  }

  /** Dropping `n` times from a count above `n` never reaches the destroying case. */
  lemma {:induction false} DropManyFromAbove(count: Count, n: nat)
    requires n < count
    ensures DropMany(count, n) == (count - n, 0)
  {
    if n > 0 {
      DropManyFromAbove(count - 1, n - 1);
    }
  }

  // ---------------------------------------------------------------- evidently intended drop

  /**
   * Drop with the release point the count protocol implies: counts are
   * handles plus one, so the last handle is the one that finds the count
   * at 2; it destroys the contents and stores 0.
   */
  function DropCountReleasing(count: Count): (r: (Count, bool))
    ensures r.1 <==> count == 2
    ensures r.1 ==> r.0 == 0
    ensures !r.1 && count >= 1 ==> r.0 == count - 1
  {
    if count == 2 then (0, true) else if count == 0 then (U32_MAX, false) else (count - 1, false)
  }

  /** The table of counts after the corrected drop of one handle of frame `i`. */
  function DropAt(counts: seq<Count>, i: Idx): (r: seq<Count>)
    requires |counts| == FRAME_COUNT
    ensures |r| == FRAME_COUNT
  {
    counts[Index(i) := DropCountReleasing(counts[Index(i)]).0]
  }

  function DropManyReleasing(count: Count, n: nat): (r: (Count, nat))
    decreases n
  {
    if n == 0 then (count, 0)
    else
      var (c, d) := DropCountReleasing(count);
      var (c', d') := DropManyReleasing(c, n - 1);
      (c', d' + if d then 1 else 0)
  }

  /**
   * With the intended drop, dropping every handle of a claimed frame destroys
   * its contents exactly once, returns the count to 0, and the frame can be
   * claimed again.
   */
  lemma {:induction false} DropAllHandlesReleases(k: nat)
    requires k < CLONE_LIMIT
    ensures DropManyReleasing(CountAfterClones(k), k + 1) == (0, 1)
    ensures NewWithCount(Normal, DropManyReleasing(CountAfterClones(k), k + 1).0, Normal) == Some(2)
  {
    DropManyReleasingLast(k + 2, k + 1);
  }

  lemma {:induction false} DropManyReleasingLast(count: Count, n: nat)
    requires n >= 1 && count == n + 1
    ensures DropManyReleasing(count, n) == (0, 1)
  {
    if n > 1 {
      DropManyReleasingLast(count - 1, n - 1);
    }
  }
}
