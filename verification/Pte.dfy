/** The Sv39 page-table entry as a 64-bit word: the field macros of the kernel header,
    and what packing and unpacking preserve. */
module Pte {
  type Word = bv64

  const V: Word := 1
  const R: Word := 2
  const W: Word := 4
  const X: Word := 8
  const U: Word := 16
  const A: Word := 64
  const D: Word := 128
  const FLAGS_MASK: Word := 0x3FF
  const OFFSET_MASK: Word := 0xFFF

  predicate Valid(w: Word) { w & V != 0 }

  predicate Writable(w: Word) { w & W != 0 }

  /** PTE_FLAGS */
  function Flags(w: Word): Word { w & FLAGS_MASK }

  /** PTE2PA; the shift left drops the top two bits of the word. */
  function Target(w: Word): Word { (w >> 10) << 12 }

  /** PA2PPN */
  function PpnField(pa: Word): Word { (pa >> 12) << 10 }

  /** Address rounded down to its page. */
  function PageBase(pa: Word): Word { pa & !OFFSET_MASK }

  predicate PageAligned(pa: Word) { pa & OFFSET_MASK == 0 }

  /** Sv39 physical addresses have 56 bits. */
  predicate Physical(pa: Word) { pa >> 56 == 0 }

  /** The word the kernel stores: frame number, permission bits and the valid bit or-ed together. */
  function Make(pa: Word, perm: Word): Word { PpnField(pa) | perm | V }

  /** An int32 permission argument is sign-extended before it is or-ed into the word. */
  function SignExtend(perm: bv32): Word {
    if perm & 0x8000_0000 != 0 then 0xFFFF_FFFF_0000_0000 | (perm as bv64) else perm as bv64
  }

  lemma MakeIsValid(pa: Word, perm: Word)
    ensures Valid(Make(pa, perm))
  {
  }

  /** The permission argument reaches the address field exactly when it has a bit above the
      flags that the frame number does not have: otherwise the entry decodes to the page asked for. */
  lemma MakeTarget(pa: Word, perm: Word)
    ensures Target(Make(pa, perm)) == PageBase(pa)
            <==> (perm & 0x3FFF_FFFF_FFFF_FC00) & !PpnField(pa) == 0
    ensures Flags(Make(pa, perm)) == Flags(perm) | V
  {
  }

  lemma MakeInFlags(pa: Word, perm: Word)
    requires perm & !FLAGS_MASK == 0
    ensures Valid(Make(pa, perm))
    ensures Target(Make(pa, perm)) == PageBase(pa)
    ensures Flags(Make(pa, perm)) == perm | V
  {
  }

  /** Unpacking an entry and packing it again with other flags keeps the page. */
  lemma Repack(w: Word, perm: Word)
    requires perm & !FLAGS_MASK == 0
    ensures Target(Make(Target(w), perm)) == Target(w)
    ensures Flags(Make(Target(w), perm)) == perm | V
    ensures Valid(Make(Target(w), perm))
  {
  }

  /** Or-ing a byte offset into a page address keeps both parts readable. */
  lemma OffsetRoundTrip(w: Word, offset: bv12)
    ensures PageBase(Target(w) | (offset as bv64)) == Target(w)
    ensures (Target(w) | (offset as bv64)) & OFFSET_MASK == offset as bv64
  {
  }
}
