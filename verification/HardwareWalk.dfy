/** Address translation as the processor does it: section 4.3.2 with the Sv39 parameters of section 4.4
    of the RISC-V Privileged Architecture (version 20211203), without the access and A/D checks. */
module HardwareWalk {
  import opened Pte
  import opened PageTree
  import opened PageEffects

  /** Bits 63 to 54 are reserved in Sv39 without extensions; a set bit faults. */
  predicate Reserved(e: Word) { e >> 54 != 0 }

  predicate Readable(e: Word) { e & R != 0 }
  predicate Executable(e: Word) { e & X != 0 }

  /** Bits 63 to 39 must equal bit 38. */
  predicate Canonical(va: nat) { va < MAXVA || MODULUS - MAXVA <= va < MODULUS }

  /** VA.vpn[i]: nine bits each, all 39 address bits used. */
  function VpnField(i: nat, va: nat): (d: nat)
    requires i <= 2
    ensures d < ENTRIES
  {
    (if i == 2 then va / 0x4000_0000 else if i == 1 then va / 0x20_0000 else va / 0x1000) % ENTRIES
  }

  /** The page the processor reads next or translates to: PTE.ppn times the page size. */
  function PpnPage(e: Word): Page { Page(((e >> 10) & 0xFFF_FFFF_FFFF) << 12) }

  predicate MisalignedSuperpage(e: Word, i: nat) {
    (i == 1 && e & 0x7_FC00 != 0) || (i == 2 && e & 0xFFF_FC00 != 0)
  }

  /** A leaf entry and its level, or a page fault. */
  function Walk(mem: Memory, table: Page, i: nat, va: nat): Option<(Word, nat)>
    requires i <= 2
    decreases i
  {
    if table !in mem || VpnField(i, va) >= |mem[table]| then None else
    var e := mem[table][VpnField(i, va)];
    if !Valid(e) || (!Readable(e) && Writable(e)) || Reserved(e) then None
    else if Readable(e) || Executable(e) then (if MisalignedSuperpage(e, i) then None else Some((e, i)))
    else if i == 0 then None
    else Walk(mem, PpnPage(e), i - 1, va)
  }

  function Translate(mem: Memory, root: Page, va: nat): Option<(Word, nat)> {
    if Canonical(va) then Walk(mem, root, 2, va) else None
  }

  /** A leaf entry the processor accepts at the last level. */
  predicate Usable(e: Word) {
    Valid(e) && !Reserved(e) && (Readable(e) || Executable(e)) && (Writable(e) ==> Readable(e))
  }

  /** A pointer entry the kernel writes is one to the processor, to the same table. */
  lemma PointerEntry(e: Word)
    requires Valid(e) && e == Make(Target(e), 0) && Physical(Target(e))
    ensures !Readable(e) && !Writable(e) && !Executable(e) && !Reserved(e) && PpnPage(e) == PageOf(e)
  {
  }

  lemma LeafTarget(e: Word)
    ensures !Reserved(e) ==> PpnPage(e) == PageOf(e)
    ensures !MisalignedSuperpage(e, 0)
  {
  }

  /** At every level the processor stands on the table the kernel's walk is on. */
  lemma {:induction false} WalkFrom(mem: Memory, owner: Owners, free: seq<Page>, root: Page, i: nat, va: nat, p: Page)
    requires Inv(mem, owner, free) && IsRoot(owner, root) && i <= 2 && va < MAXVA
    requires TableAt(mem, root, i, va / PAGE_SIZE) == Some(p)
    ensures Walk(mem, p, i, va) ==
              match Leaf(mem, root, va / PAGE_SIZE)
              case Some(e) => if Usable(e) then Some((e, 0)) else None
              case None => None
  {
    var vpn := va / PAGE_SIZE;
    TableAtOwned(mem, owner, free, root, i, vpn);
    OwnedInMemory(mem, owner, free);
    SameDigit(i, va);
    var e := mem[p][Digit(i, vpn)];
    if Valid(e) {
      if i > 0 {
        ChildOwned(mem, owner, free, p, Digit(i, vpn));
        assert TableOk(mem, owner, p) && EntryOk(mem, owner, p, Digit(i, vpn));
        PointerEntry(e);
        WalkFrom(mem, owner, free, root, i - 1, va, PageOf(e));
      } else {
        LeafTarget(e);
      }
    } else if i > 0 {
      MissingBelow(mem, root, i - 1, vpn);
    }
  }

  lemma SameDigit(i: nat, va: nat)
    requires i <= 2 && va < MAXVA
    ensures VpnField(i, va) == Digit(i, va / PAGE_SIZE)
  {
  }

  /** The upper half of a root is never filled, so upper-half addresses fault. */
  lemma UpperHalf(mem: Memory, owner: Owners, free: seq<Page>, root: Page, va: nat)
    requires Inv(mem, owner, free) && IsRoot(owner, root) && MODULUS - MAXVA <= va < MODULUS
    ensures Walk(mem, root, 2, va) == None
  {
    OwnedInMemory(mem, owner, free);
    assert VpnField(2, va) >= 256;
    assert TableOk(mem, owner, root) && EntryOk(mem, owner, root, VpnField(2, va));
  }

  /** For every address the processor finds a page exactly where the flat map has a usable entry,
      it finds that entry, and it is the page the kernel's own lookup reports. */
  lemma HardwareAgrees(mem: Memory, owner: Owners, free: seq<Page>, root: Page, va: nat)
    requires Inv(mem, owner, free) && IsRoot(owner, root) && va < MODULUS
    ensures var vpn, flat := va / PAGE_SIZE, Flat(mem, root);
            && Translate(mem, root, va) == (if vpn in flat && Usable(flat[vpn]) then Some((flat[vpn], 0)) else None)
            && (vpn in flat && Usable(flat[vpn]) ==> PpnPage(flat[vpn]) == PageOf(flat[vpn]))
  {
    var vpn := va / PAGE_SIZE;
    FlatAt(mem, root, vpn);
    if va < MAXVA {
      WalkFrom(mem, owner, free, root, 2, va, root);
      if vpn in Flat(mem, root) {
        LeafTarget(Flat(mem, root)[vpn]);
      }
    } else if Canonical(va) {
      UpperHalf(mem, owner, free, root, va);
    }
  }
}
