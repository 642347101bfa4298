/** The three-level Sv39 tree as a value: physical memory, who owns each table page,
    the walk, and how single writes change what the walk finds. */
module PageTree {
  import opened Pte

  datatype Option<+T> = None | Some(value: T)

  /** A physical page, named by the address of its first byte. */
  datatype Page = Page(base: Word)

  const NULL := Page(0)

  /** The 512 words of each page of physical memory. */
  type Memory = map<Page, seq<Word>>

  function PageOf(e: Word): Page { Page(Target(e)) }

  /** Place of a table page in its tree: `prefix` is the virtual page number shifted
      down to the bits above this table's index. */
  datatype Slot = Slot(root: Page, level: nat, prefix: nat, parent: Page)

  type Owners = map<Page, Slot>

  const ENTRIES := 512
  const MAXVPN := 0x400_0000    // MAXVA >> 12

  /** PX(level, va) with the page offset already shifted out. */
  function Digit(level: nat, vpn: nat): (d: nat)
    requires level <= 2 && vpn < MAXVPN
    ensures d < ENTRIES
  {
    if level == 2 then vpn / 0x40000
    else if level == 1 then vpn / 0x200 % 0x200
    else vpn % 0x200
  }

  function Prefix(level: nat, vpn: nat): nat
    requires level <= 2 && vpn < MAXVPN
  {
    if level == 2 then 0 else if level == 1 then vpn / 0x40000 else vpn / 0x200
  }

  ghost predicate MemoryOk(mem: Memory) {
    forall p :: p in mem ==> |mem[p]| == ENTRIES && p != NULL && PageAligned(p.base) && Physical(p.base)
  }

  ghost predicate FreeOk(mem: Memory, owner: Owners, free: seq<Page>) {
    && (forall i :: 0 <= i < |free| ==> free[i] in mem && free[i] !in owner)
    && (forall i, j :: 0 <= i < j < |free| ==> free[i] != free[j])
  }

  /** Entry `k` of `p` above the leaf level: it points to the table owned for that place,
      has no bit set beside that address and V, and the upper half of a root stays empty. */
  ghost predicate EntryOk(mem: Memory, owner: Owners, p: Page, k: nat)
    requires p in mem && p in owner && k < |mem[p]|
  {
    var e, s := mem[p][k], owner[p];
    Valid(e) ==>
      && PageOf(e) in owner
      && owner[PageOf(e)] == Slot(s.root, if s.level > 0 then s.level - 1 else 0, s.prefix * ENTRIES + k, p)
      && e == Make(Target(e), 0)
      && (s.level == 2 ==> k < 256)
  }

  ghost predicate TableOk(mem: Memory, owner: Owners, p: Page)
    requires MemoryOk(mem) && p in owner
  {
    var s := owner[p];
    && p in mem
    && s.level <= 2
    && (if s.level == 2 then s == Slot(p, 2, 0, NULL)
        else
          && s.parent in mem && s.parent in owner
          && owner[s.parent].root == s.root
          && owner[s.parent].level == s.level + 1
          && s.prefix / ENTRIES == owner[s.parent].prefix
          && Valid(mem[s.parent][s.prefix % ENTRIES])
          && PageOf(mem[s.parent][s.prefix % ENTRIES]) == p)
    && (s.level > 0 ==> forall k: nat :: k < ENTRIES ==> EntryOk(mem, owner, p, k))
  }

  ghost predicate Inv(mem: Memory, owner: Owners, free: seq<Page>) {
    && MemoryOk(mem)
    && FreeOk(mem, owner, free)
    && (forall p {:trigger TableOk(mem, owner, p)} :: p in owner ==> TableOk(mem, owner, p))
  }

  predicate IsRoot(owner: Owners, r: Page) { r in owner && owner[r].level == 2 }

  /** The table of `level` on the path of `vpn`, following valid entries from the root. */
  function TableAt(mem: Memory, root: Page, level: nat, vpn: nat): Option<Page>
    requires level <= 2 && vpn < MAXVPN
    decreases 2 - level
  {
    if level == 2 then Some(root) else
    match TableAt(mem, root, level + 1, vpn)
    case None => None
    case Some(p) => Follow(mem, p, Digit(level + 1, vpn))
  }

  function Follow(mem: Memory, p: Page, k: nat): Option<Page> {
    if p in mem && k < |mem[p]| && Valid(mem[p][k]) then Some(PageOf(mem[p][k])) else None
  }

  function Read(mem: Memory, p: Page, k: nat): Option<Word> {
    if p in mem && k < |mem[p]| && Valid(mem[p][k]) then Some(mem[p][k]) else None
  }

  /** The valid leaf entry for a virtual page, if the walk reaches one. */
  function Leaf(mem: Memory, root: Page, vpn: nat): Option<Word>
    requires vpn < MAXVPN
  {
    match TableAt(mem, root, 0, vpn)
    case None => None
    case Some(p) => Read(mem, p, Digit(0, vpn))
  }

  /** The tree seen as one flat map from virtual page number to leaf entry. */
  ghost function Flat(mem: Memory, root: Page): map<nat, Word> {
    map v: nat | v < MAXVPN && Leaf(mem, root, v).Some? :: Leaf(mem, root, v).value
  }

  lemma FlatAt(mem: Memory, root: Page, v: nat)
    ensures v in Flat(mem, root) <==> v < MAXVPN && Leaf(mem, root, v).Some?
    ensures v in Flat(mem, root) ==> v < MAXVPN && Leaf(mem, root, v) == Some(Flat(mem, root)[v])
  {
  }

  /** Every tree but the one at `root` means the same in both memories. */
  ghost predicate OtherFlats(owner: Owners, root: Page, mem: Memory, mem': Memory) {
    forall r {:trigger Flat(mem', r)} :: IsRoot(owner, r) && r != root ==> Flat(mem', r) == Flat(mem, r)
  }

  /** Every tree of `owner` means the same in both memories. */
  ghost predicate SameFlats(owner: Owners, mem: Memory, mem': Memory) {
    forall r {:trigger Flat(mem', r)} :: IsRoot(owner, r) ==> Flat(mem', r) == Flat(mem, r)
  }

  /** The walk lands on the page that owns the place asked for. */
  lemma TableAtOwned(mem: Memory, owner: Owners, free: seq<Page>, root: Page, level: nat, vpn: nat)
    requires Inv(mem, owner, free) && IsRoot(owner, root) && level <= 2 && vpn < MAXVPN
    ensures TableAt(mem, root, level, vpn).Some? ==>
              var p := TableAt(mem, root, level, vpn).value;
              p in owner && owner[p].root == root && owner[p].level == level && owner[p].prefix == Prefix(level, vpn)
    decreases 2 - level
  {
    assert TableOk(mem, owner, root);
    if level < 2 {
      TableAtOwned(mem, owner, free, root, level + 1, vpn);
      if TableAt(mem, root, level, vpn).Some? {
        var q := TableAt(mem, root, level + 1, vpn).value;
        assert TableOk(mem, owner, q) && EntryOk(mem, owner, q, Digit(level + 1, vpn));
      }
    }
  }

  lemma ChildOwned(mem: Memory, owner: Owners, free: seq<Page>, p: Page, k: nat)
    requires Inv(mem, owner, free) && p in owner && owner[p].level > 0 && p in mem && k < ENTRIES && k < |mem[p]|
      && Valid(mem[p][k])
    ensures PageOf(mem[p][k]) in owner && owner[PageOf(mem[p][k])].level == owner[p].level - 1
  {
    assert TableOk(mem, owner, p) && EntryOk(mem, owner, p, k);
  }

  lemma MissingBelow(mem: Memory, root: Page, level: nat, vpn: nat)
    requires level <= 2 && vpn < MAXVPN && TableAt(mem, root, level, vpn) == None
    ensures TableAt(mem, root, 0, vpn) == None
  {
    if level > 0 {
      MissingBelow(mem, root, level - 1, vpn);
    }
  }

  /** Writing inside one table leaves every walk that does not read that table alone. */
  lemma TableAtFrame(mem: Memory, mem': Memory, owner: Owners, free: seq<Page>, root: Page, level: nat, vpn: nat,
                     p: Page)
    requires Inv(mem, owner, free) && IsRoot(owner, root) && level <= 2 && vpn < MAXVPN
    requires forall q :: q in owner && q != p ==> q in mem && q in mem' && mem'[q] == mem[q]
    requires p in owner ==> owner[p].level <= level || owner[p].root != root
    ensures TableAt(mem', root, level, vpn) == TableAt(mem, root, level, vpn)
    decreases 2 - level
  {
    if level < 2 {
      TableAtFrame(mem, mem', owner, free, root, level + 1, vpn, p);
      TableAtOwned(mem, owner, free, root, level + 1, vpn);
      assert forall q :: q in owner ==> TableOk(mem, owner, q);
    }
  }

  lemma PageLength(mem: Memory, owner: Owners, free: seq<Page>, p: Page)
    requires Inv(mem, owner, free) && p in mem
    ensures |mem[p]| == ENTRIES
  {
  }

  lemma OwnedInMemory(mem: Memory, owner: Owners, free: seq<Page>)
    requires Inv(mem, owner, free)
    ensures forall q :: q in owner ==> q in mem && |mem[q]| == ENTRIES && q != NULL
  {
    assert forall q :: q in owner ==> TableOk(mem, owner, q);
  }

  function Store(mem: Memory, p: Page, k: nat, w: Word): Memory
    requires p in mem && k < |mem[p]|
  {
    mem[p := mem[p][k := w]]
  }

  /** What a table is, depends on its own entries and on the one entry that points to it. */
  lemma TableOkFrame(mem: Memory, mem': Memory, owner: Owners, owner': Owners, q: Page)
    requires MemoryOk(mem) && MemoryOk(mem') && q in owner && TableOk(mem, owner, q)
    requires forall x :: x in owner ==> x in owner' && owner'[x] == owner[x]
    requires q in mem'
    requires var s := owner[q];
             s.level < 2 ==> s.parent in mem' && mem'[s.parent][s.prefix % ENTRIES] == mem[s.parent][s.prefix % ENTRIES]
    requires owner[q].level > 0 ==>
      forall k: nat :: k < ENTRIES ==> mem'[q][k] == mem[q][k] || EntryOk(mem', owner', q, k)
    ensures TableOk(mem', owner', q)
  {
    hide Valid, PageOf, Flags;
    if owner[q].level > 0 {
      forall k: nat | k < ENTRIES ensures EntryOk(mem', owner', q, k) {
        assert EntryOk(mem, owner, q, k);
      }
    }
  }

  lemma StoreLeafInv(mem: Memory, owner: Owners, free: seq<Page>, p: Page, k: nat, w: Word)
    requires Inv(mem, owner, free) && p in owner && owner[p].level == 0 && p in mem && k < ENTRIES
    ensures Inv(Store(mem, p, k, w), owner, free)
  {
    var mem' := Store(mem, p, k, w);
    forall q | q in owner ensures TableOk(mem', owner, q) {
      assert TableOk(mem, owner, q);
      TableOkFrame(mem, mem', owner, owner, q);
    }
  }

  function ValidOnly(w: Word): Option<Word> { if Valid(w) then Some(w) else None }

  lemma StoreLeafAt(mem: Memory, owner: Owners, free: seq<Page>, root: Page, vpn: nat, p: Page, w: Word, r: Page,
                    v: nat)
    requires Inv(mem, owner, free) && IsRoot(owner, root) && vpn < MAXVPN
    requires TableAt(mem, root, 0, vpn) == Some(p) && p in mem
    requires IsRoot(owner, r) && v < MAXVPN
    ensures TableAt(Store(mem, p, Digit(0, vpn), w), r, 0, v) == TableAt(mem, r, 0, v)
    ensures Leaf(Store(mem, p, Digit(0, vpn), w), r, v)
      == if r == root && v == vpn then ValidOnly(w) else Leaf(mem, r, v)
  {
    hide Inv, TableAt;
    OwnedInMemory(mem, owner, free);
    TableAtOwned(mem, owner, free, root, 0, vpn);
    var mem' := Store(mem, p, Digit(0, vpn), w);
    TableAtFrame(mem, mem', owner, free, r, 0, v, p);
    TableAtOwned(mem, owner, free, r, 0, v);
  }

  /** Storing a leaf entry changes exactly one virtual page of exactly one tree. */
  lemma StoreLeaf(mem: Memory, owner: Owners, free: seq<Page>, root: Page, vpn: nat, p: Page, w: Word)
    requires Inv(mem, owner, free) && IsRoot(owner, root) && vpn < MAXVPN
    requires TableAt(mem, root, 0, vpn) == Some(p) && p in mem
    ensures var mem' := Store(mem, p, Digit(0, vpn), w);
            && Inv(mem', owner, free)
            && Flat(mem', root) == (if Valid(w) then Flat(mem, root)[vpn := w] else Flat(mem, root) - {vpn})
            && OtherFlats(owner, root, mem, mem')
  {
    hide Inv, TableAt, Leaf;
    OwnedInMemory(mem, owner, free);
    TableAtOwned(mem, owner, free, root, 0, vpn);
    StoreLeafInv(mem, owner, free, p, Digit(0, vpn), w);
    forall r, v: nat | IsRoot(owner, r) && v < MAXVPN
      ensures Leaf(Store(mem, p, Digit(0, vpn), w), r, v)
        == if r == root && v == vpn then ValidOnly(w) else Leaf(mem, r, v)
    {
      StoreLeafAt(mem, owner, free, root, vpn, p, w, r, v);
    }
  }

  function Zeros(): (z: seq<Word>)
    ensures |z| == ENTRIES && forall k :: 0 <= k < ENTRIES ==> z[k] == 0
  {
    seq(ENTRIES, _ => 0)
  }

  function Link(mem: Memory, p: Page, k: nat, t: Page): Memory
    requires p in mem && k < |mem[p]|
  {
    Store(mem, p, k, Make(t.base, 0))
  }

  lemma LinkEntry(t: Page)
    requires PageAligned(t.base)
    ensures Valid(Make(t.base, 0)) && PageOf(Make(t.base, 0)) == t
      && Make(t.base, 0) == Make(Target(Make(t.base, 0)), 0)
  {
    MakeInFlags(t.base, 0);
  }

  lemma PrefixStep(level: nat, vpn: nat)
    requires 0 < level <= 2 && vpn < MAXVPN
    ensures Prefix(level - 1, vpn) == Prefix(level, vpn) * ENTRIES + Digit(level, vpn)
    ensures Prefix(level - 1, vpn) / ENTRIES == Prefix(level, vpn)
    ensures Prefix(level - 1, vpn) % ENTRIES == Digit(level, vpn)
    ensures level == 2 ==> Digit(level, vpn) < 256
  {
  }

  /** A zeroed page hung under an empty upper entry keeps the tree shape. */
  lemma LinkInv(mem: Memory, owner: Owners, free: seq<Page>, root: Page, level: nat, vpn: nat, p: Page, t: Page)
    requires Inv(mem, owner, free) && 0 < level <= 2 && vpn < MAXVPN
    requires p in owner && owner[p].root == root && owner[p].level == level && owner[p].prefix == Prefix(level, vpn)
    requires p in mem && |mem[p]| == ENTRIES && !Valid(mem[p][Digit(level, vpn)])
    requires t in mem && t !in owner && t !in free && mem[t] == Zeros()
    ensures Inv(Link(mem, p, Digit(level, vpn), t), owner[t := Slot(root, level - 1, Prefix(level - 1, vpn), p)], free)
  {
    var k := Digit(level, vpn);
    var mem' := Link(mem, p, k, t);
    var owner' := owner[t := Slot(root, level - 1, Prefix(level - 1, vpn), p)];
    LinkEntry(t);
    PrefixStep(level, vpn);
    hide Valid, PageOf, Flags, Make, Prefix, Digit;
    assert EntryOk(mem', owner', p, k);
    forall q | q in owner' ensures TableOk(mem', owner', q) {
      hide EntryOk;
      if q != t {
        assert TableOk(mem, owner, q);
        TableOkFrame(mem, mem', owner, owner', q);
      } else {
        LinkedOk(mem', owner', t);
      }
    }
  }

  lemma LinkedOk(mem: Memory, owner: Owners, t: Page)
    requires MemoryOk(mem) && t in owner && t in mem && mem[t] == Zeros()
    requires var s := owner[t];
             && s.level < 2 && s.parent in owner && s.parent in mem
             && owner[s.parent].root == s.root
             && owner[s.parent].level == s.level + 1
             && s.prefix / ENTRIES == owner[s.parent].prefix
             && Valid(mem[s.parent][s.prefix % ENTRIES])
             && PageOf(mem[s.parent][s.prefix % ENTRIES]) == t
    ensures TableOk(mem, owner, t)
  {
    ZeroInvalid();
  }

  lemma ZeroInvalid()
    ensures !Valid(0)
  {
  }

  lemma LeafFrame(mem: Memory, mem': Memory, owner: Owners, free: seq<Page>, r: Page, level: nat, v: nat)
    requires Inv(mem, owner, free) && IsRoot(owner, r) && level <= 2 && v < MAXVPN
    requires forall q :: q in owner && owner[q].level <= level ==> q in mem && q in mem' && mem'[q] == mem[q]
    requires TableAt(mem', r, level, v) == TableAt(mem, r, level, v)
    ensures Leaf(mem', r, v) == Leaf(mem, r, v)
  {
    TableAtOwned(mem, owner, free, r, level, v);
    if level > 0 {
      LeafFrame(mem, mem', owner, free, r, level - 1, v);
    }
  }

  lemma ZeroTable(mem: Memory, t: Page, k: nat)
    requires t in mem && mem[t] == Zeros()
    ensures Follow(mem, t, k) == None && Read(mem, t, k) == None
  {
    ZeroInvalid();
  }

  /** After the link the path of `vpn` reaches the new table, and no other walk moves. */
  lemma LinkAt(mem: Memory, mem': Memory, owner: Owners, free: seq<Page>, root: Page, level: nat, vpn: nat, p: Page,
               t: Page, r: Page, v: nat)
    requires Inv(mem, owner, free) && IsRoot(owner, root) && 0 < level <= 2 && vpn < MAXVPN
    requires TableAt(mem, root, level, vpn) == Some(p)
    requires Follow(mem, p, Digit(level, vpn)) == None
    requires t !in owner
    requires forall q :: q in owner && q != p ==> q in mem && q in mem' && mem'[q] == mem[q]
    requires forall k: nat :: k != Digit(level, vpn) ==> Follow(mem', p, k) == Follow(mem, p, k)
    requires Follow(mem', p, Digit(level, vpn)) == Some(t)
    requires forall k: nat :: Follow(mem', t, k) == None && Read(mem', t, k) == None
    requires IsRoot(owner, r) && v < MAXVPN
    ensures Leaf(mem', r, v) == Leaf(mem, r, v)
    ensures r == root && v == vpn ==> TableAt(mem', r, level - 1, v) == Some(t)
  {
    TableAtOwned(mem, owner, free, root, level, vpn);
    TableAtOwned(mem, owner, free, r, level, v);
    TableAtFrame(mem, mem', owner, free, r, level, v, p);
    assert forall q, k: nat :: q in owner && q != p ==> Follow(mem', q, k) == Follow(mem, q, k);
    hide Inv, Follow, Read, Digit, Prefix;
    if TableAt(mem, r, level, v) == Some(p) && Digit(level, v) == Digit(level, vpn) {
      assert TableAt(mem', r, level - 1, v) == Some(t);
      assert TableAt(mem, r, level - 1, v) == None;
      if level == 2 {
        assert TableAt(mem', r, 0, v) == None;
      }
    } else {
      LeafFrame(mem, mem', owner, free, r, level - 1, v);
    }
  }

  /** Hanging a zeroed table into a tree changes no flat map. */
  lemma LinkTable(mem: Memory, owner: Owners, free: seq<Page>, root: Page, level: nat, vpn: nat, p: Page, t: Page)
    requires Inv(mem, owner, free) && IsRoot(owner, root) && 0 < level <= 2 && vpn < MAXVPN
    requires TableAt(mem, root, level, vpn) == Some(p)
    requires p in mem && |mem[p]| == ENTRIES && !Valid(mem[p][Digit(level, vpn)])
    requires t in mem && t !in owner && t !in free && mem[t] == Zeros() && PageAligned(t.base)
    ensures var mem' := Link(mem, p, Digit(level, vpn), t);
            && p in owner && owner[p].root == root && owner[p].level == level
            && Inv(mem', owner[t := Slot(root, level - 1, Prefix(level - 1, vpn), p)], free)
            && TableAt(mem', root, level - 1, vpn) == Some(t)
            && SameFlats(owner, mem, mem')
  {
    TableAtOwned(mem, owner, free, root, level, vpn);
    LinkInv(mem, owner, free, root, level, vpn, p, t);
    OwnedInMemory(mem, owner, free);
    LinkEntry(t);
    ghost var mem' := Link(mem, p, Digit(level, vpn), t);
    forall k: nat ensures Follow(mem', t, k) == None && Read(mem', t, k) == None {
      ZeroTable(mem', t, k);
    }
    LinkAt(mem, mem', owner, free, root, level, vpn, p, t, root, vpn);
    hide Inv, TableAt, Leaf, Valid, Follow, Read, Link;
    forall r, v: nat | IsRoot(owner, r) && v < MAXVPN
      ensures Leaf(mem', r, v) == Leaf(mem, r, v)
    {
      LinkAt(mem, mem', owner, free, root, level, vpn, p, t, r, v);
    }
  }

  /** Taking a page off the free list, or writing a page that no tree owns, changes no tree. */
  lemma WriteUnowned(mem: Memory, owner: Owners, free: seq<Page>, t: Page, words: seq<Word>)
    requires Inv(mem, owner, free) && t in mem && t !in owner && |words| == ENTRIES
    ensures Inv(mem[t := words], owner, free)
    ensures SameFlats(owner, mem, mem[t := words])
  {
    var mem' := mem[t := words];
    OwnedInMemory(mem, owner, free);
    forall q | q in owner ensures TableOk(mem', owner, q) {
      assert TableOk(mem, owner, q);
      TableOkFrame(mem, mem', owner, owner, q);
    }
    assert Inv(mem', owner, free);
    hide Inv, TableAt;
    forall r, v: nat | IsRoot(owner, r) && v < MAXVPN ensures Leaf(mem', r, v) == Leaf(mem, r, v) {
      TableAtFrame(mem, mem', owner, free, r, 0, v, t);
      TableAtOwned(mem, owner, free, r, 0, v);
    }
  }

  lemma TakeFree(mem: Memory, owner: Owners, free: seq<Page>)
    requires Inv(mem, owner, free) && free != []
    ensures Inv(mem, owner, free[1..])
    ensures free[0] in mem && free[0] !in owner && free[0] !in free[1..] && free[0] != NULL && PageAligned(free[0].base)
  {
  }

  /** A zeroed page is a page table that maps nothing. */
  lemma NewRoot(mem: Memory, owner: Owners, free: seq<Page>, t: Page)
    requires Inv(mem, owner, free) && t in mem && t !in owner && t !in free && mem[t] == Zeros()
    ensures Inv(mem, owner[t := Slot(t, 2, 0, NULL)], free)
    ensures Flat(mem, t) == map[]
  {
    var owner' := owner[t := Slot(t, 2, 0, NULL)];
    ZeroInvalid();
    forall q | q in owner' ensures TableOk(mem, owner', q) {
      if q != t {
        assert TableOk(mem, owner, q);
        TableOkFrame(mem, mem, owner, owner', q);
      }
    }
    forall v: nat | v < MAXVPN ensures Leaf(mem, t, v) == None {
      ZeroTable(mem, t, Digit(2, v));
      MissingBelow(mem, t, 1, v);
    }
  }
}
