/**
 The handle type `Index` of the index list (src/lib.rs:18-82).

 A handle wraps an `Option<NonZeroU32>` that stores slot + 1, so that the
 all-zero value (`Index::new()`, `Default`) means "no slot". Conversions from
 the unsigned integer types go through `Index::set`, which computes
 `n as u32 + 1`: the cast truncates to 32 bits and, in a release build, the
 addition wraps, so that `u32::MAX` becomes the invalid handle.
 */
module Handles {
  import opened Wrappers

  const U32_MAX: nat := 0xFFFF_FFFF
  const U32_MODULUS: nat := 0x1_0000_0000
  /** usize on the 64-bit targets this model assumes. */
  const USIZE_MAX: nat := 0xFFFF_FFFF_FFFF_FFFF

  /** Number of slots a handle can address: slots 0 .. u32::MAX - 1. */
  const MAX_SLOTS: nat := U32_MAX

  type U32 = n: int | 0 <= n <= U32_MAX
  type U64 = n: int | 0 <= n <= USIZE_MAX
  type Usize = n: int | 0 <= n <= USIZE_MAX
  type NonZeroU32 = n: int | 0 < n <= U32_MAX witness 1

  datatype Index = Index(raw: Option<NonZeroU32>) {

    /** `Index::new()`, also the `Default` handle: no slot. */
    static function New(): (r: Index)
      ensures forall slot: nat :: slot < MAX_SLOTS ==> r != ForSlot(slot)
    {
      Index(None)
    }

    /** The handle of a slot, as the list stores it (slot + 1). */
    static function ForSlot(slot: nat): Index
      requires slot < MAX_SLOTS
    {
      Index(Some(slot + 1))
    }

    /** A handle is valid exactly when it is not the invalid one. */
    predicate IsSome()
      ensures IsSome() <==> !IsNone()
    {
      raw.Some?
    }

    /** The invalid handle is `Index::new()`. */
    predicate IsNone()
      ensures IsNone() <==> this == New()
    {
      raw.None?
    }

    /** The slot a valid handle names. */
    function Slot(): nat
      requires IsSome()
    {
      raw.value - 1
    }

    /** `Index::get`: the slot of a valid handle, `None` for the invalid one. */
    function Get(): (r: Option<nat>)
      ensures r.Some? <==> IsSome()
      ensures r.Some? ==> r.value < MAX_SLOTS && this == ForSlot(r.value)
    {
      match raw
      case Some(n) => Some(n - 1)
      case None => None
    }

    /** `Index::set`: the handle of a slot number, through `n as u32 + 1`. */
    function Set(index: Option<nat>): (r: Index)
      ensures index.None? ==> r.IsNone()
      ensures index.Some? && index.value % U32_MODULUS < U32_MAX ==> r.Get() == Some(index.value % U32_MODULUS)
      ensures index.Some? && index.value % U32_MODULUS == U32_MAX ==> r.IsNone()
    {
      match index
      case Some(n) =>
        // the cast keeps the low 32 bits; the release-build `+ 1` wraps to zero
        var num := (n % U32_MODULUS + 1) % U32_MODULUS;
        if num != 0 then Index(Some(num)) else Index(None)
      case None => Index(None)
    }

    /** `From<u32>`: every slot below u32::MAX gets its own handle; u32::MAX gets none. */
    static function FromU32(index: U32): (r: Index)
      ensures index < U32_MAX ==> r.IsSome() && r.Get() == Some(index)
      ensures index == U32_MAX ==> r.IsNone()
    {
      New().Set(Some(index))
    }

    /** `From<u64>` (`index as usize` is the identity on 64-bit targets). */
    static function FromU64(index: U64): (r: Index)
      ensures index < U32_MAX ==> r.IsSome() && r.Get() == Some(index)
      ensures r.IsSome() ==> r.Get() == Some(index % U32_MODULUS)
      ensures index % U32_MODULUS < U32_MAX ==> r.Get() == Some(index % U32_MODULUS)
      ensures index % U32_MODULUS == U32_MAX ==> r.IsNone()
    {
      New().Set(Some(index))
    }

    /** `From<usize>`, the conversion the list itself uses for its slot positions. */
    static function FromUsize(index: Usize): (r: Index)
      ensures index < U32_MAX ==> r == ForSlot(index) && r.Get() == Some(index)
      ensures index % U32_MODULUS < U32_MAX ==> r.Get() == Some(index % U32_MODULUS)
      ensures index % U32_MODULUS == U32_MAX ==> r.IsNone()
    {
      New().Set(Some(index))
    }

    /** `From<Option<usize>>`: `None` is the invalid handle. */
    static function FromOption(index: Option<nat>): (r: Index)
      ensures index.None? ==> r.IsNone()
      ensures index.Some? && index.value < U32_MAX ==> r == ForSlot(index.value)
      ensures index.Some? && index.value % U32_MODULUS < U32_MAX ==> r.Get() == Some(index.value % U32_MODULUS)
      ensures index.Some? && index.value % U32_MODULUS == U32_MAX ==> r.IsNone()
    {
      New().Set(index)
    }
  }

  /** Decoding a handle and encoding the slot again gives the same handle back:
      the slot + 1 encoding loses nothing, and the invalid handle stays invalid. */
  lemma GetSetRoundTrip(h: Index)
    ensures Index.New().Set(h.Get()) == h
  {
    match h.raw
    case None =>
    case Some(n) =>
      assert h.Get() == Some(n - 1);
      assert (n - 1) % U32_MODULUS == n - 1;
  }

  /** Two valid handles are equal exactly when they name the same slot. */
  lemma SlotInjective(a: Index, b: Index)
    requires a.IsSome() && b.IsSome()
    ensures a == b <==> a.Slot() == b.Slot()
  {
  }
}
