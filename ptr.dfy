/**
 * Aligned, non-null pointers (kernel/src/ptr.rs).
 *
 * A Rust `MaybeDangling<T>` is a non-null address that is aligned for `T`.
 * The model keeps the address together with the alignment of the pointee
 * type, which the Rust code carries in the type parameter.
 */
module Ptr {
  import opened Wrappers
  import opened Machine

  /** `align_of::<T>()` is always a non-zero power of two. */
  predicate IsAlignment(align: Word) {
    align != 0 && align & (align - 1) == 0
  }

  /** The low bits selected by `align - 1` are clear. */
  predicate IsAligned(addr: Word, align: Word) {
    addr & (align - 1) == 0
  }

  datatype MaybeDangling = MaybeDangling(addr: Word, align: Word) {
    /** The invariant every `MaybeDangling` value keeps. */
    predicate Valid() {
      IsAlignment(align) && addr != 0 && IsAligned(addr, align)
    }

    /** `as_ptr`: the raw address. */
    function AsPtr(): Word {
      addr
    }
  }

  /** `MaybeDangling::new`: rejects a misaligned or a null address. */
  function New(t: Word, align: Word): (r: Option<MaybeDangling>)
    requires IsAlignment(align)
    ensures r.None? <==> !IsAligned(t, align) || t == 0
    ensures r.Some? ==> r.value.Valid() && r.value.AsPtr() == t && r.value.align == align
  {
    if t & (align - 1) != 0 then None
    else if t == 0 then None
    else Some(MaybeDangling(t, align))
  }

  /** `cast`: the pointee type changes, the address does not. */
  function Cast(p: MaybeDangling, align: Word): (q: MaybeDangling)
    requires IsAlignment(align)
    ensures q.AsPtr() == p.AsPtr() && q.align == align
    ensures p.Valid() && align <= p.align ==> q.Valid()
  {
    CastToSmallerAlignment(p.addr, p.align, align);
    MaybeDangling(p.addr, align)
  }

  /** An address aligned for a larger power of two is aligned for a smaller one. */
  lemma CastToSmallerAlignment(addr: Word, big: Word, small: Word)
    requires IsAlignment(small)
    ensures IsAlignment(big) && IsAligned(addr, big) && small <= big ==> IsAligned(addr, small)
  {
  }

  /**
   * `From<&T>` and `From<&mut T>`: a reference is non-null and aligned, so
   * the conversion needs no check and agrees with `New`.
   */
  function FromRef(addr: Word, align: Word): (r: MaybeDangling)
    requires IsAlignment(align) && addr != 0 && IsAligned(addr, align)
    ensures r.Valid() && r.AsPtr() == addr
    ensures New(addr, align) == Some(r)
  {
    MaybeDangling(addr, align)
  }

  /** Every valid pointer is what `New` builds from its own address. */
  lemma NewAsPtrRoundTrip(p: MaybeDangling)
    requires p.Valid()
    ensures New(p.AsPtr(), p.align) == Some(p)
  {
  }
}
