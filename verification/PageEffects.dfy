/** What page-table operations do to physical memory, stated on values: address rounding,
    frames, cleared ranges and copied ranges. */
module PageEffects {
  import opened Pte
  import opened PageTree

  const PAGE_SIZE := 0x1000
  const MAXVA := 0x40_0000_0000            // 1 << 38
  const MODULUS := 0x1_0000_0000_0000_0000 // 64-bit addresses wrap here

  /** ROUNDUP of the kernel on uint64: the subtraction and the product both wrap. */
  function RoundUp(a: nat): nat
    requires a < MODULUS
  {
    (((a + MODULUS - 1) % MODULUS / PAGE_SIZE + 1) * PAGE_SIZE) % MODULUS
  }

  /** Rounds up to a page, except that what would pass the top of the address space becomes 0. */
  lemma RoundUpMeaning(a: nat)
    requires a < MODULUS
    ensures RoundUp(a) < MODULUS && RoundUp(a) % PAGE_SIZE == 0
    ensures a == 0 || a > MODULUS - PAGE_SIZE ==> RoundUp(a) == 0
    ensures 0 < a <= MODULUS - PAGE_SIZE ==> a <= RoundUp(a) < a + PAGE_SIZE
  {
  }

  /** What an operation on one tree may do: take pages from the front of the free list, own each of
      them below that root, and write only pages of that tree. */
  ghost predicate Extends(mem: Memory, owner: Owners, free: seq<Page>, mem': Memory, owner': Owners, free': seq<Page>,
                          root: Page) {
    && |free'| <= |free| && free' == free[|free| - |free'|..]
    && (forall p :: p in free && p !in free' ==> p in owner')
    && (forall p :: p in owner ==> p in owner' && owner'[p] == owner[p])
    && (forall p :: p in owner' && p !in owner ==> p in free && owner'[p].root == root && owner'[p].level < 2)
    && mem'.Keys == mem.Keys
    && (forall p :: p in mem ==> mem'[p] == mem[p] || (p in owner' && owner'[p].root == root))
  }

  lemma ExtendsRefl(mem: Memory, owner: Owners, free: seq<Page>, root: Page)
    ensures Extends(mem, owner, free, mem, owner, free, root) && SameFlats(owner, mem, mem)
      && OtherFlats(owner, root, mem, mem)
  {
  }

  lemma ExtendsRoots(mem: Memory, owner: Owners, free: seq<Page>, mem': Memory, owner': Owners, free': seq<Page>,
                     root: Page)
    requires Extends(mem, owner, free, mem', owner', free', root)
    ensures forall r :: IsRoot(owner, r) <==> IsRoot(owner', r)
  {
  }

  lemma ExtendsTrans(mem: Memory, owner: Owners, free: seq<Page>, mem1: Memory, owner1: Owners, free1: seq<Page>,
                     mem2: Memory, owner2: Owners, free2: seq<Page>, root: Page)
    requires Extends(mem, owner, free, mem1, owner1, free1, root)
      && Extends(mem1, owner1, free1, mem2, owner2, free2, root)
    ensures Extends(mem, owner, free, mem2, owner2, free2, root)
    ensures forall r :: IsRoot(owner, r) <==> IsRoot(owner2, r)
    ensures SameFlats(owner, mem, mem1) && SameFlats(owner1, mem1, mem2) ==> SameFlats(owner, mem, mem2)
    ensures SameFlats(owner, mem, mem1) ==> OtherFlats(owner, root, mem, mem1)
    ensures OtherFlats(owner, root, mem, mem1) && OtherFlats(owner1, root, mem1, mem2) ==>
      OtherFlats(owner, root, mem, mem2)
  {
    hide Flat;
    assert forall p :: p in owner1 && p !in owner ==> owner2[p] == owner1[p];
    assert forall p :: p in free1 ==> p in free;
  }

  /** One step of an allocating walk: a fresh zeroed table under an empty upper entry. */
  lemma LinkStep(mem: Memory, owner: Owners, free: seq<Page>, root: Page, level: nat, vpn: nat, p: Page)
    requires Inv(mem, owner, free) && IsRoot(owner, root) && 0 < level <= 2 && vpn < MAXVPN && free != []
    requires TableAt(mem, root, level, vpn) == Some(p) && p in mem && p in owner && !Valid(mem[p][Digit(level, vpn)])
    ensures var t := free[0];
            var mem' := Link(mem[t := Zeros()], p, Digit(level, vpn), t);
            var owner' := owner[t := Slot(root, level - 1, Prefix(level - 1, vpn), p)];
            && Inv(mem', owner', free[1..])
            && TableAt(mem', root, level - 1, vpn) == Some(t)
            && SameFlats(owner, mem, mem') && OtherFlats(owner, root, mem, mem')
            && Extends(mem, owner, free, mem', owner', free[1..], root)
  {
    var t := free[0];
    TakeFree(mem, owner, free);
    OwnedInMemory(mem, owner, free);
    var mem1 := mem[t := Zeros()];
    WriteUnowned(mem, owner, free[1..], t, Zeros());
    TableAtFrame(mem, mem1, owner, free, root, level, vpn, t);
    LinkTable(mem1, owner, free[1..], root, level, vpn, p, t);
  }

  /** `flat` with the pages of [lo, hi) taken out. */
  ghost function Without(flat: map<nat, Word>, lo: nat, hi: nat): map<nat, Word> {
    map v | v in flat && !(lo <= v < hi) :: flat[v]
  }

  /** From memory `mem` to `mem'` the tree at `root` lost its mappings in [lo, hi) and nothing else. */
  ghost predicate Cleared(owner: Owners, free: seq<Page>, root: Page, mem: Memory, mem': Memory, lo: nat, hi: nat) {
    && Inv(mem', owner, free)
    && Extends(mem, owner, free, mem', owner, free, root)
    && OtherFlats(owner, root, mem, mem')
    && Flat(mem', root) == Without(Flat(mem, root), lo, hi)
  }

  lemma ClearedNone(owner: Owners, free: seq<Page>, root: Page, mem: Memory, lo: nat)
    requires Inv(mem, owner, free)
    ensures Cleared(owner, free, root, mem, mem, lo, lo)
  {
    ExtendsRefl(mem, owner, free, root);
  }

  lemma RemoveOne(flat: map<nat, Word>, v: nat)
    ensures v !in flat ==> flat - {v} == flat
    ensures v in flat ==> |flat - {v}| == |flat| - 1
  {
    assert (flat - {v}).Keys == flat.Keys - {v};
  }

  lemma ClearedOne(owner: Owners, free: seq<Page>, root: Page, mem: Memory, mem': Memory, v: nat)
    requires Inv(mem', owner, free) && Extends(mem, owner, free, mem', owner, free, root)
      && OtherFlats(owner, root, mem, mem')
    requires Flat(mem', root) == Flat(mem, root) - {v}
    ensures Cleared(owner, free, root, mem, mem', v, v + 1)
  {
    hide Inv, Flat, Extends, OtherFlats;
    WithoutStep(Flat(mem, root), v, v);
  }

  lemma ClearedStep(owner: Owners, free: seq<Page>, root: Page, mem: Memory, mem1: Memory, mem2: Memory, lo: nat,
                    hi: nat)
    requires lo <= hi && Cleared(owner, free, root, mem, mem1, lo, hi)
      && Cleared(owner, free, root, mem1, mem2, hi, hi + 1)
    ensures Cleared(owner, free, root, mem, mem2, lo, hi + 1)
    ensures forall b :: FreedOne(Flat(mem1, root), hi, b) == FreedOne(Flat(mem, root), hi, b)
  {
    hide Inv, Flat, Extends, OtherFlats;
    WithoutStep(Flat(mem, root), lo, hi);
    WithoutStep(Flat(mem1, root), hi, hi);
    ExtendsTrans(mem, owner, free, mem1, owner, free, mem2, owner, free, root);
  }

  lemma WithoutStep(flat: map<nat, Word>, lo: nat, hi: nat)
    requires lo <= hi
    ensures Without(flat, lo, lo) == flat
    ensures Without(flat, lo, hi + 1) == Without(flat, lo, hi) - {hi}
    ensures hi in Without(flat, lo, hi) <==> hi in flat
    ensures hi in flat ==> Without(flat, lo, hi)[hi] == flat[hi]
  {
  }

  ghost function FreedOne(flat: map<nat, Word>, vpn: nat, freePhys: bool): seq<Page> {
    if freePhys && vpn in flat then [PageOf(flat[vpn])] else []
  }

  /** The physical pages released for [lo, hi): what `flat` maps there, in address order. */
  ghost function Freed(flat: map<nat, Word>, lo: nat, hi: nat, freePhys: bool): seq<Page> {
    if hi <= lo then [] else Freed(flat, lo, hi - 1, freePhys) + FreedOne(flat, hi - 1, freePhys)
  }

  lemma FreedStep(released: seq<Page>, flat: map<nat, Word>, lo: nat, hi: nat, freePhys: bool)
    requires lo <= hi
    ensures Freed(flat, lo, lo, freePhys) == []
    ensures released + Freed(flat, lo, hi, freePhys) + FreedOne(flat, hi, freePhys) == released
      + Freed(flat, lo, hi + 1, freePhys)
    ensures FreedOne(Without(flat, lo, hi), hi, freePhys) == FreedOne(flat, hi, freePhys)
  {
  }
}
