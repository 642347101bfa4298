/** The page-table operations on shared physical memory, proved against the flat map. */
module PageTable {
  import opened Common
  import opened Pte
  import opened PageTree
  import opened PageEffects
  import opened PageSpec
  import opened PageFree
  import opened PageCopy
  import opened PageNeed

  class PageTables {
    var mem: Memory
    var free: seq<Page>        // pages alloc_page can hand out
    var mapped: int            // pt_stats.mapped_pages
    var released: seq<Page>    // arguments of put_page, in call order
    ghost var owner: Owners

    constructor (pages: seq<Page>)
      requires NoDup(pages) && forall p :: p in pages ==> p != NULL && PageAligned(p.base) && Physical(p.base)
      ensures Ok() && free == pages && owner == map[] && mapped == 0 && released == []
      ensures mem == map p | p in pages :: Zeros()
    {
      mem, free, mapped, released, owner := map p | p in pages :: Zeros(), pages, 0, [], map[];
    }

    ghost predicate Ok()
      reads this
    {
      Inv(mem, owner, free)
    }

    ghost function FlatOf(root: Page): map<nat, Word>
      reads this
    {
      Flat(mem, root)
    }

    ghost function ViewOf(root: Page): Table
      reads this
    {
      View(mem, owner, free, root)
    }

    /** A zeroed page off the free list, or NULL when memory is exhausted. */
    method AllocPage() returns (t: Page)
      requires Ok()
      modifies this`mem, this`free
      ensures Ok()
      ensures old(free) == [] ==> t == NULL && mem == old(mem) && free == []
      ensures old(free) != [] ==>
        && t == old(free[0]) && t != NULL && t !in owner && t !in free && PageAligned(t.base)
        && free == old(free[1..]) && mem == old(mem)[t := Zeros()]
      ensures SameFlats(owner, old(mem), mem)
    {
      if free == [] {
        return NULL;
      }
      t := free[0];
      TakeFree(mem, owner, free);
      free := free[1..];
      WriteUnowned(mem, owner, free, t, Zeros());
      mem := mem[t := Zeros()];
    }

    /** The allocating branch of page_walk: a zeroed page becomes the missing table below `table`. */
    method Grow(root: Page, vpn: nat, level: nat, table: Page, ghost s: Table) returns (t: Page)
      requires Ok() && IsRoot(owner, root) && vpn < MAXVPN && 0 < level <= 2
      requires TableAt(mem, root, level, vpn) == Some(table) && TableAt(mem, root, level - 1, vpn) == None
      requires WalkedTo(s, vpn, level) == (ViewOf(root), true)
      modifies this`mem, this`free, this`owner
      ensures Ok() && Extends(old(mem), old(owner), old(free), mem, owner, free, root)
      ensures SameFlats(old(owner), old(mem), mem) && OtherFlats(old(owner), root, old(mem), mem)
      ensures t == NULL ==> mem == old(mem) && free == [] && Walked(s, vpn) == (ViewOf(root), false)
      ensures t != NULL ==>
        TableAt(mem, root, level - 1, vpn) == Some(t) && WalkedTo(s, vpn, level - 1) == (ViewOf(root), true)
    {
      hide Inv, Extends, OtherFlats, SameFlats, Digit, Prefix, Flat, PageOf, View, Walked, WalkedTo;
      TableAtOwned(mem, owner, free, root, level, vpn);
      OwnedInMemory(mem, owner, free);
      WalkDown(s, vpn, level, mem, owner, free, root);
      ExtendsRefl(mem, owner, free, root);
      t := AllocPage();
      if t != NULL {
        LinkStep(old(mem), owner, old(free), root, level, vpn, table);
        mem := Link(mem, table, Digit(level, vpn), t);
        FlatKept(owner, root, old(mem), mem);
        WalkGrow(s, vpn, level, old(mem), owner, old(free), root, mem, table);
        owner := owner[t := Slot(root, level - 1, Prefix(level - 1, vpn), table)];
      }
    }

    /** The place of the leaf entry for `va`, as (table, index), or NULL. With `alloc` missing tables are
        created as `Walked` says: a walk that runs out of memory half way changes no mapping. */
    method PageWalk(root: Page, va: nat, alloc: bool) returns (table: Page, k: nat)
      requires Ok() && (root == NULL || IsRoot(owner, root)) && va < MODULUS
      modifies this`mem, this`free, this`owner
      ensures Ok()
      ensures Extends(old(mem), old(owner), old(free), mem, owner, free, root)
      ensures SameFlats(old(owner), old(mem), mem) && OtherFlats(old(owner), root, old(mem), mem)
      ensures !alloc ==> mem == old(mem) && free == old(free) && owner == old(owner)
      ensures table != NULL ==>
        root != NULL && va < MAXVA && k == Digit(0, va / PAGE_SIZE) && table in mem && k < |mem[table]|
          && TableAt(mem, root, 0, va / PAGE_SIZE) == Some(table)
      ensures table == NULL && root != NULL && va < MAXVA ==>
        TableAt(mem, root, 0, va / PAGE_SIZE) == None && (alloc ==> free == [])
      ensures root != NULL && va < MAXVA && alloc ==>
        Walked(old(ViewOf(root)), va / PAGE_SIZE) == (ViewOf(root), table != NULL)
    {
      hide Inv, Extends, OtherFlats, SameFlats, Digit, Prefix, Flat, Pte.Valid, PageOf, View, Walked, WalkedTo;
      ExtendsRefl(mem, owner, free, root);
      if root == NULL || va >= MAXVA {
        return NULL, 0;
      }
      var vpn := va / PAGE_SIZE;
      ghost var s := ViewOf(root);
      WalkEnds(s, vpn);
      table := root;
      var level := 2;
      while level > 0
        invariant 0 <= level <= 2
        invariant Ok() && IsRoot(owner, root)
        invariant Extends(old(mem), old(owner), old(free), mem, owner, free, root)
        invariant SameFlats(old(owner), old(mem), mem) && OtherFlats(old(owner), root, old(mem), mem)
        invariant !alloc ==> mem == old(mem) && free == old(free) && owner == old(owner)
        invariant TableAt(mem, root, level, vpn) == Some(table)
        invariant alloc ==> WalkedTo(s, vpn, level) == (ViewOf(root), true)
      {
        if alloc {
          WalkDown(s, vpn, level, mem, owner, free, root);
        }
        TableAtOwned(mem, owner, free, root, level, vpn);
        OwnedInMemory(mem, owner, free);
        var d := Digit(level, vpn);
        if Pte.Valid(mem[table][d]) {
          table := PageOf(mem[table][d]);
        } else {
          MissingBelow(mem, root, level - 1, vpn);
          if !alloc {
            return NULL, 0;
          }
          ghost var before, owned, pages := mem, owner, free;
          table := Grow(root, vpn, level, table, s);
          ExtendsTrans(old(mem), old(owner), old(free), before, owned, pages, mem, owner, free, root);
          if table == NULL {
            return NULL, 0;
          }
        }
        level := level - 1;
      }
      TableAtOwned(mem, owner, free, root, 0, vpn);
      OwnedInMemory(mem, owner, free);
      k := Digit(0, vpn);
    }

    /** create_pagetable: an empty tree on a fresh page. */
    method CreatePagetable() returns (t: Page)
      requires Ok()
      modifies this`mem, this`free, this`owner
      ensures Ok() && SameFlats(old(owner), old(mem), mem)
      ensures old(free) == [] ==> t == NULL && mem == old(mem) && free == [] && owner == old(owner)
      ensures old(free) != [] ==>
        && t == old(free[0]) && t != NULL && t !in old(owner) && free == old(free[1..])
        && owner == old(owner)[t := Slot(t, 2, 0, NULL)] && mem == old(mem)[t := Zeros()]
        && FlatOf(t) == map[]
    {
      t := AllocPage();
      if t != NULL {
        NewRoot(mem, owner, free, t);
        owner := owner[t := Slot(t, 2, 0, NULL)];
      }
    }

    /** Store through the pointer a walk returned. */
    method StoreEntry(ghost root: Page, ghost vpn: nat, table: Page, k: nat, w: Word)
      requires Ok() && IsRoot(owner, root) && vpn < MAXVPN
      requires table in mem && k == Digit(0, vpn) && k < |mem[table]| && TableAt(mem, root, 0, vpn) == Some(table)
      modifies this`mem
      ensures Ok() && Extends(old(mem), owner, free, mem, owner, free, root)
      ensures FlatOf(root) == if Pte.Valid(w) then old(FlatOf(root))[vpn := w] else old(FlatOf(root)) - {vpn}
      ensures OtherFlats(owner, root, old(mem), mem)
      ensures forall v: nat :: v < MAXVPN ==> TableAt(mem, root, 0, v) == old(TableAt(mem, root, 0, v))
    {
      StoreLeaf(mem, owner, free, root, vpn, table, w);
      TableAtOwned(mem, owner, free, root, 0, vpn);
      forall v: nat | v < MAXVPN ensures TableAt(Store(mem, table, k, w), root, 0, v) == TableAt(mem, root, 0, v) {
        StoreLeafAt(mem, owner, free, root, vpn, table, w, root, v);
      }
      mem := Store(mem, table, k, w);
    }

    /** lookup_pa reads the flat map and keeps the offset inside the page. */
    method LookupPa(root: Page, va: nat) returns (pa: Word)
      requires Ok() && (root == NULL || IsRoot(owner, root)) && va < MODULUS
      modifies this`mem, this`free, this`owner
      ensures mem == old(mem) && free == old(free) && owner == old(owner)
      ensures root != NULL && va / PAGE_SIZE in FlatOf(root) ==>
        && PageBase(pa) == Target(FlatOf(root)[va / PAGE_SIZE])
        && pa & OFFSET_MASK == (va % PAGE_SIZE) as bv12 as bv64
      ensures root == NULL || va / PAGE_SIZE !in FlatOf(root) ==> pa == 0
    {
      hide Inv, Extends, OtherFlats, Flat, Digit, TableAt, Walked, SameFlats;
      var table, k := PageWalk(root, va, false);
      FlatAt(mem, root, va / PAGE_SIZE);
      if table == NULL || !Pte.Valid(mem[table][k]) {
        return 0;
      }
      OffsetRoundTrip(mem[table][k], (va % PAGE_SIZE) as bv12);
      pa := Target(mem[table][k]) | ((va % PAGE_SIZE) as bv12 as bv64);
    }

    /** Maps one page, or only changes its permissions when it is already mapped to that physical page;
        a page mapped elsewhere and a path with more missing tables than pages left change no mapping. */
    method MapPage(root: Page, va: nat, pa: Word, perm: bv32) returns (ret: int)
      requires Ok() && (root == NULL || IsRoot(owner, root)) && va < MODULUS
      modifies this`mem, this`free, this`owner, this`mapped
      ensures Ok() && Extends(old(mem), old(owner), old(free), mem, owner, free, root)
      ensures OtherFlats(old(owner), root, old(mem), mem)
      ensures ret == 0 || ret == -1
      ensures root == NULL ==> ret == -1
      ensures root != NULL ==> Mapped(old(ViewOf(root)), va, pa, perm) == (ViewOf(root), ret)
      ensures root != NULL ==> mapped - old(mapped) == |FlatOf(root)| - |old(FlatOf(root))|
      ensures root == NULL ==> mapped == old(mapped)
    {
      hide Inv, Extends, OtherFlats, Make, SignExtend, PageBase, Digit, TableAt, Flat, Pte.Valid, Target, Tables,
        Walked;
      ExtendsRefl(mem, owner, free, root);
      if root == NULL {
        return -1;
      }
      var alignedVa := va / PAGE_SIZE * PAGE_SIZE;
      var alignedPa := PageBase(pa);
      if alignedVa >= MAXVA {
        return -1;
      }
      var vpn := alignedVa / PAGE_SIZE;
      var table, k := PageWalk(root, alignedVa, true);
      if table == NULL {
        return -1;
      }
      ghost var before, owned, pages := mem, owner, free;
      ExtendsRoots(old(mem), old(owner), old(free), mem, owner, free, root);
      FlatAt(mem, root, vpn);
      assert Leaf(mem, root, vpn) == Read(mem, table, k);
      var e := mem[table][k];
      if Pte.Valid(e) {
        if Target(e) == alignedPa {
          MakeIsValid(alignedPa, SignExtend(perm));
          StoreEntry(root, vpn, table, k, Make(alignedPa, SignExtend(perm)));
        } else {
          return -1;
        }
      } else {
        MakeIsValid(alignedPa, SignExtend(perm));
        StoreEntry(root, vpn, table, k, Make(alignedPa, SignExtend(perm)));
        mapped := mapped + 1;
      }
      ExtendsTrans(old(mem), old(owner), old(free), before, owned, pages, mem, owner, free, root);
      return 0;
    }

    /** Requests every page of the byte range and reports success whatever the requests answered: each page is
        installed, unless it is mapped to another page or memory ran out before its leaf table was there. */
    method MapPages(root: Page, va: nat, pa: Word, size: nat, perm: bv32) returns (ret: int)
      requires Ok() && (root == NULL || IsRoot(owner, root)) && va < MODULUS && size < MODULUS
      requires va % PAGE_SIZE == 0 && PageAligned(pa)
      modifies this`mem, this`free, this`owner, this`mapped
      ensures Ok() && Extends(old(mem), old(owner), old(free), mem, owner, free, root)
      ensures OtherFlats(old(owner), root, old(mem), mem)
      ensures ret == 0
      ensures root != NULL ==>
        var n := RoundUp(size) / PAGE_SIZE;
        && ViewOf(root) == RangeMapped(old(ViewOf(root)), va, n, pa, perm)
        && (forall v: nat :: v < MAXVPN ==>
          PageRequested(old(FlatOf(root)), ViewOf(root), va / PAGE_SIZE, n, pa, perm, v))
        && mapped - old(mapped) == |FlatOf(root)| - |old(FlatOf(root))|
      ensures root == NULL ==> mapped == old(mapped)
    {
      hide Inv, Extends, OtherFlats, Flat, RoundUp, PageRequested, Mapped, Nth, Closed, View;
      ExtendsRefl(mem, owner, free, root);
      RoundUpMeaning(size);
      var rounded := RoundUp(size);
      ghost var s := ViewOf(root);
      var i := 0;
      while i < rounded / PAGE_SIZE
        invariant 0 <= i <= rounded / PAGE_SIZE
        invariant Ok() && Extends(old(mem), old(owner), old(free), mem, owner, free, root)
        invariant OtherFlats(old(owner), root, old(mem), mem)
        invariant root != NULL ==> ViewOf(root) == RangeMapped(s, va, i, pa, perm)
        invariant root != NULL ==> mapped - old(mapped) == |FlatOf(root)| - |old(FlatOf(root))|
        invariant root == NULL ==> mapped == old(mapped)
      {
        ghost var mem1, owner1, free1 := mem, owner, free;
        ExtendsRoots(old(mem), old(owner), old(free), mem, owner, free, root);
        var ret' := MapPage(root, (va + i * PAGE_SIZE) % MODULUS, Nth(pa, i), perm);
        ExtendsTrans(old(mem), old(owner), old(free), mem1, owner1, free1, mem, owner, free, root);
        i := i + 1;
      }
      if root != NULL {
        ViewClosed(old(mem), old(owner), old(free), root);
        RangeMeaning(s, va, rounded / PAGE_SIZE, pa, perm);
        ViewFlat(old(mem), old(owner), old(free), root);
      }
      return 0;
    }

    /** The loop body of pgt_unmap, for one virtual page. */
    method UnmapOne(root: Page, vpn: nat, freePhys: bool)
      requires Ok() && IsRoot(owner, root) && vpn < MAXVPN
      modifies this`mem, this`free, this`owner, this`mapped, this`released
      ensures Ok() && free == old(free) && owner == old(owner)
      ensures Cleared(owner, free, root, old(mem), mem, vpn, vpn + 1)
      ensures mapped - old(mapped) == |FlatOf(root)| - |old(FlatOf(root))|
      ensures released == old(released) + FreedOne(old(FlatOf(root)), vpn, freePhys)
    {
      hide Inv, Extends, OtherFlats, Cleared, Pte.Valid, PageOf, Digit, TableAt, Flat;
      var table, k := PageWalk(root, vpn * PAGE_SIZE, false);
      FlatAt(mem, root, vpn);
      OwnedInMemory(mem, owner, free);
      assert vpn * PAGE_SIZE / PAGE_SIZE == vpn;
      ExtendsRefl(mem, owner, free, root);
      ghost var flat := FlatOf(root);
      RemoveOne(flat, vpn);
      if table != NULL && Pte.Valid(mem[table][k]) {
        if freePhys {
          released := released + [PageOf(mem[table][k])];
        }
        ZeroInvalid();
        StoreEntry(root, vpn, table, k, 0);
        mapped := mapped - 1;
      }
      ClearedOne(owner, free, root, old(mem), mem, vpn);
    }

    /** The loop of pgt_unmap over virtual page numbers. */
    method UnmapRange(root: Page, lo: nat, hi: nat, freePhys: bool)
      requires Ok() && IsRoot(owner, root) && lo <= hi <= MAXVPN
      modifies this`mem, this`free, this`owner, this`mapped, this`released
      ensures Ok() && free == old(free) && owner == old(owner)
      ensures Cleared(owner, free, root, old(mem), mem, lo, hi)
      ensures mapped - old(mapped) == |FlatOf(root)| - |old(FlatOf(root))|
      ensures released == old(released) + Freed(old(FlatOf(root)), lo, hi, freePhys)
    {
      hide Inv, Flat, Cleared, Freed, FreedOne;
      ghost var flat := FlatOf(root);
      ClearedNone(owner, free, root, mem, lo);
      FreedStep([], flat, lo, lo, freePhys);
      for vpn := lo to hi
        invariant Ok() && free == old(free) && owner == old(owner)
        invariant Cleared(owner, free, root, old(mem), mem, lo, vpn)
        invariant mapped - old(mapped) == |FlatOf(root)| - |flat|
        invariant released == old(released) + Freed(flat, lo, vpn, freePhys)
      {
        ghost var before := mem;
        UnmapOne(root, vpn, freePhys);
        FreedStep(old(released), flat, lo, vpn, freePhys);
        ClearedStep(owner, free, root, old(mem), before, mem, lo, vpn);
      }
    }

    /** Clears every mapping of the pages the byte range touches and no other; with `freePhys`
        each page that was mapped is released once, in address order. */
    method Unmap(root: Page, va: nat, size: nat, freePhys: bool) returns (ret: int)
      requires Ok() && (root == NULL || IsRoot(owner, root)) && va < MODULUS && size < MODULUS
      modifies this`mem, this`free, this`owner, this`mapped, this`released
      ensures Ok() && free == old(free) && owner == old(owner)
      ensures Extends(old(mem), owner, free, mem, owner, free, root)
      ensures OtherFlats(owner, root, old(mem), mem)
      ensures var lo, hi := va / PAGE_SIZE, RoundUp((va + size) % MODULUS) / PAGE_SIZE;
              if root == NULL || lo >= MAXVPN || hi > MAXVPN || hi < lo then
                ret == -1 && mem == old(mem) && mapped == old(mapped) && released == old(released)
              else
                && ret == 0
                && FlatOf(root) == Without(old(FlatOf(root)), lo, hi)
                && mapped - old(mapped) == |FlatOf(root)| - |old(FlatOf(root))|
                && released == old(released) + Freed(old(FlatOf(root)), lo, hi, freePhys)
    {
      hide Inv, Extends, OtherFlats, RoundUp, Flat, Freed, Without;
      ExtendsRefl(mem, owner, free, root);
      if root == NULL {
        return -1;
      }
      var start := va / PAGE_SIZE * PAGE_SIZE;
      var end := RoundUp((va + size) % MODULUS);
      RoundUpMeaning((va + size) % MODULUS);
      if start >= MAXVA || end > MAXVA || end < start {
        return -1;
      }
      UnmapRange(root, start / PAGE_SIZE, end / PAGE_SIZE, freePhys);
      return 0;
    }

    /** _pagetable_free_level, with its own counting of levels: 0 is the root, 2 a leaf table. */
    method FreeLevel(p: Page, depth: nat)
      requires Ok() && p in owner && depth <= 2 && owner[p].level == 2 - depth
      modifies this`released
      ensures released == old(released) + Below(mem, p, 2 - depth, ENTRIES)
      decreases 2 - depth
    {
      hide Inv, Pte.Valid, PageOf, Below;
      BelowEmpty(mem, p, 2 - depth);
      if depth == 2 {
        return;
      }
      OwnedInMemory(mem, owner, free);
      for i := 0 to ENTRIES
        invariant released == old(released) + Below(mem, p, 2 - depth, i)
      {
        BelowStep(old(released), mem, p, 2 - depth, i);
        if Pte.Valid(mem[p][i]) {
          var next := PageOf(mem[p][i]);
          ChildOwned(mem, owner, free, p, i);
          FreeLevel(next, depth + 1);
          released := released + [next];
        }
      }
    }

    /** Hands every table page of the tree to put_page exactly once and nothing else;
        the tree is gone, memory and all other trees stay. */
    method FreePagetable(root: Page)
      requires Ok() && (root == NULL || IsRoot(owner, root))
      modifies this`released, this`owner
      ensures Ok()
      ensures root == NULL ==> released == old(released) && owner == old(owner)
      ensures root != NULL ==>
        && owner == DropTree(old(owner), root)
        && old(released) <= released
        && NoDup(released[|old(released)|..])
        && forall q :: q in released[|old(released)|..] <==> q in old(owner) && old(owner)[q].root == root
    {
      if root == NULL {
        return;
      }
      FreeLevel(root, 0);
      FreesExactly(mem, owner, free, root);
      released := released + [root];
      assert released[|old(released)|..] == Below(mem, root, 2, ENTRIES) + [root];
      DropTreeInv(mem, owner, free, root);
      owner := DropTree(owner, root);
    }

    /** The fragment each branch of pagetable_copy repeats: walk the new tree with allocation, store, count. */
    method Install(dst: Page, vpn: nat, e: Word) returns (ok: bool)
      requires Ok() && IsRoot(owner, dst) && vpn < MAXVPN && Pte.Valid(e)
      modifies this`mem, this`free, this`owner, this`mapped
      ensures Ok() && Extends(old(mem), old(owner), old(free), mem, owner, free, dst)
      ensures OtherFlats(old(owner), dst, old(mem), mem)
      ensures FlatOf(dst) == if ok then old(FlatOf(dst))[vpn := e] else old(FlatOf(dst))
      ensures mapped == old(mapped) + if ok then 1 else 0
      ensures !ok ==> free == []
      ensures var (w, arrived) := Walked(old(ViewOf(dst)), vpn);
              ok == arrived && Tables(owner, dst, 1) == w.mids && Tables(owner, dst, 0) == w.leaves && |free| == w.pages
    {
      hide Inv, Extends, OtherFlats, Pte.Valid, Digit, TableAt, Flat, Tables, Walked;
      OwnedInMemory(mem, owner, free);
      assert vpn * PAGE_SIZE / PAGE_SIZE == vpn;
      var table, k := PageWalk(dst, vpn * PAGE_SIZE, true);
      if table == NULL {
        return false;
      }
      ExtendsRoots(old(mem), old(owner), old(free), mem, owner, free, dst);
      ghost var before, owned, pages := mem, owner, free;
      StoreEntry(dst, vpn, table, k, e);
      mapped := mapped + 1;
      ExtendsTrans(old(mem), old(owner), old(free), before, owned, pages, mem, owner, free, dst);
      return true;
    }

    /** A fresh page with the bytes of page `p`. */
    method CopyPage(p: Page, src: Page, dst: Page, ghost mem0: Memory, ghost owner0: Owners, ghost free0: seq<Page>)
      returns (t: Page)
      requires Inv(mem0, owner0, free0) && CopyFrame(0, mem0, owner0, free0, mem, owner, free, src, dst) && p in mem
      modifies this`mem, this`free
      ensures CopyFrame(0, mem0, owner0, free0, mem, owner, free, src, dst)
      ensures FlatOf(src) == old(FlatOf(src)) && FlatOf(dst) == old(FlatOf(dst))
      ensures t == NULL ==> mem == old(mem) && old(free) == [] && free == []
      ensures t != NULL ==>
        && old(free) != [] && t == old(free[0]) && free == old(free[1..]) && PageAligned(t.base)
        && t in free0 && mem == old(mem)[t := CopyWords(old(mem), t, p)]
    {
      hide Inv, Flat, OtherFlats;
      t := AllocPage();
      if t == NULL {
        return;
      }
      PageLength(old(mem), owner, old(free), p);
      FrameFresh(0, mem0, owner0, free0, old(mem), owner, old(free), src, dst, CopyWords(old(mem), t, p));
      mem := mem[t := mem[p]];
      assert mem == old(mem)[t := CopyWords(old(mem), t, p)];
    }

    /** Mode 0 for one mapped page: a fresh page with the same bytes and flags. When there is no page for it or
        none for a table, `loose` is the page to put back. */
    method DuplicateOne(src: Page, dst: Page, vpn: nat, e: Word,
                        ghost mem0: Memory, ghost owner0: Owners, ghost free0: seq<Page>, ghost flat: map<nat, Word>,
                        ghost lo: nat)
      returns (ok: bool, ghost loose: seq<Page>)
      requires Inv(mem0, owner0, free0) && CopyFrame(0, mem0, owner0, free0, mem, owner, free, src, dst)
      requires lo <= vpn < MAXVPN && vpn in flat && flat[vpn] == e && Pte.Valid(e) && PageOf(e) in mem
      requires Duplicate(mem0, free0, mem, owner, free, flat, FlatOf(dst), lo, vpn)
      requires Counted(0, Within(flat, lo, vpn), owner, free, dst, |free0|)
      requires Spent(free0, free, owner, Images(0, FlatOf(dst)))
      modifies this`mem, this`free, this`owner, this`mapped, this`released
      ensures CopyFrame(0, mem0, owner0, free0, mem, owner, free, src, dst) && FlatOf(src) == old(FlatOf(src))
      ensures Duplicate(mem0, free0, mem, owner, free, flat, FlatOf(dst), lo, if ok then vpn + 1 else vpn)
      ensures mapped == old(mapped) + if ok then 1 else 0
      ensures released == old(released) + loose
      ensures ok ==> loose == [] && Spent(free0, free, owner, Images(0, FlatOf(dst)))
      ensures ok ==> Counted(0, Within(flat, lo, vpn)[vpn := e], owner, free, dst, |free0|)
      ensures !ok ==> free == [] && |free0| < Need(0, Within(flat, lo, vpn)[vpn := e])
      ensures !ok ==> Unsettled(free0, owner, Images(0, FlatOf(dst)), loose)
    {
      hide Inv, Flat, Pte.Valid, PageOf, Flags, Make, Duplicate, OtherFlats, Images, Need, Tables, Walked, Spent,
        Unsettled, Within, View, Extends, CopyFrame;
      ghost var d, m := FlatOf(dst), Within(flat, lo, vpn);
      WantedStep(0, flat, lo, vpn);
      DuplicateKeys(mem0, free0, mem, owner, free, flat, d, lo, vpn);
      loose := [];
      UnsettledNone(free0, free, owner, Images(0, d));
      var t := CopyPage(PageOf(e), src, dst, mem0, owner0, free0);
      if t == NULL {
        NoPageLeft(m, vpn, e, |free0|);
        return false, [];
      }
      FrameOk(0, mem0, owner0, free0, mem, owner, free, src, dst);
      ghost var before, owned, pages := mem, owner, free;
      FlagsInMask(e);
      MakeIsValid(t.base, Flags(e));
      ViewClosed(mem, owner, free, dst);
      ViewTables(mem, owner, free, dst);
      CountWalk(0, m, vpn, e, ViewOf(dst), |free0|);
      SpentTake(free0, old(free), owner, Images(0, d));
      ok := Install(dst, vpn, Make(t.base, Flags(e)));
      SpentExtends(free0, before, owned, pages, mem, owner, free, dst, Images(0, d) + {t});
      FrameExtends(0, mem0, owner0, free0, before, owned, pages, mem, owner, free, src, dst);
      DuplicateMapped(mem0, owner0, free0, old(mem), old(owner), old(free), mem, owner, free, src, dst, flat, lo, vpn);
      if ok {
        MadePage(t, e);
        ImagesStep(d, vpn, Make(t.base, Flags(e)));
      } else {
        released := released + [t];
        loose := [t];
        DuplicateFresh(mem0, free0, old(mem), old(owner), old(free), flat, d, lo, vpn, t);
        UnsettledOne(free0, owner, Images(0, d), t);
      }
    }

    /** Modes 1 and 2 for one mapped page: the same physical page, in mode 2 read-only on both sides. */
    method ShareOne(share: int, src: Page, dst: Page, vpn: nat, table: Page, k: nat,
                    ghost mem0: Memory, ghost owner0: Owners, ghost free0: seq<Page>, ghost flat: map<nat, Word>,
                    ghost lo: nat)
      returns (ok: bool)
      requires Inv(mem0, owner0, free0) && CopyFrame(share, mem0, owner0, free0, mem, owner, free, src, dst)
      requires (share == 1 || share == 2) && lo <= vpn < MAXVPN && vpn in flat
      requires TableAt(mem, src, 0, vpn) == Some(table) && table in mem && k == Digit(0, vpn) && k < |mem[table]|
      requires flat[vpn] == mem[table][k] && Pte.Valid(flat[vpn])
      requires FlatOf(src) == SourceAfter(share, flat, lo, vpn) && FlatOf(dst) == SharedRange(share, flat, lo, vpn)
      requires Counted(share, Within(flat, lo, vpn), owner, free, dst, |free0|) && Spent(free0, free, owner, {})
      modifies this`mem, this`free, this`owner, this`mapped
      ensures CopyFrame(share, mem0, owner0, free0, mem, owner, free, src, dst)
      ensures FlatOf(src) == SourceAfter(share, flat, lo, if ok then vpn + 1 else vpn)
      ensures FlatOf(dst) == SharedRange(share, flat, lo, if ok then vpn + 1 else vpn)
      ensures mapped == old(mapped) + if ok then 1 else 0
      ensures Spent(free0, free, owner, {})
      ensures ok ==> Counted(share, Within(flat, lo, vpn)[vpn := flat[vpn]], owner, free, dst, |free0|)
      ensures !ok ==> free == [] && |free0| < Need(share, Within(flat, lo, vpn)[vpn := flat[vpn]])
    {
      hide Inv, Flat, OtherFlats, Digit, TableAt, Pte.Valid, Target, Flags, Make, SharedRange, SourceAfter, Extends,
        Need, Tables, Walked,
        Spent, Within, View;
      var e := mem[table][k];
      SharedStep(share, flat, lo, vpn);
      SourceStep(share, flat, lo, vpn);
      SharedEntryMeaning(share, e);
      WantedStep(share, flat, lo, vpn);
      ViewClosed(mem, owner, free, dst);
      ViewTables(mem, owner, free, dst);
      CountWalk(share, Within(flat, lo, vpn), vpn, e, ViewOf(dst), |free0|);
      ok := Install(dst, vpn, SharedEntry(share, e));
      SpentExtends(free0, old(mem), old(owner), old(free), mem, owner, free, dst, {});
      FrameExtends(share, mem0, owner0, free0, old(mem), old(owner), old(free), mem, owner, free, src, dst);
      if ok && share == 2 && Writable(e) {
        OtherTree(old(mem), old(owner), old(free), mem, owner, free, dst, src, vpn);
        ghost var before := mem;
        SharedEntryMeaning(2, e);
        StoreEntry(src, vpn, table, k, SharedEntry(2, e));
        FrameSource(mem0, owner0, free0, before, owner, free, mem, src, dst);
      }
    }

    /** One page of pagetable_copy. `lo` and the 0-suffixed ghosts describe the start of the loop. */
    method CopyOne(share: int, src: Page, dst: Page, vpn: nat,
                   ghost mem0: Memory, ghost owner0: Owners, ghost free0: seq<Page>, ghost flat: map<nat, Word>,
                   ghost lo: nat)
      returns (ok: bool, ghost loose: seq<Page>)
      requires Inv(mem0, owner0, free0) && CopyFrame(share, mem0, owner0, free0, mem, owner, free, src, dst)
      requires lo <= vpn < MODULUS / PAGE_SIZE
      requires FlatOf(src) == SourceAfter(share, flat, lo, vpn)
      requires Copied(share, mem0, free0, mem, owner, free, flat, FlatOf(dst), lo, vpn)
      requires Counted(share, Wanted(share, flat, lo, vpn), owner, free, dst, |free0|)
      requires Spent(free0, free, owner, Images(share, FlatOf(dst)))
      requires share == 0 && vpn in flat ==> PageOf(flat[vpn]) in mem0
      modifies this`mem, this`free, this`owner, this`mapped, this`released
      ensures CopyFrame(share, mem0, owner0, free0, mem, owner, free, src, dst)
      ensures FlatOf(src) == SourceAfter(share, flat, lo, if ok then vpn + 1 else vpn)
      ensures Copied(share, mem0, free0, mem, owner, free, flat, FlatOf(dst), lo, if ok then vpn + 1 else vpn)
      ensures mapped == old(mapped) + if ok && vpn in flat && 0 <= share <= 2 then 1 else 0
      ensures released == old(released) + loose
      ensures ok ==> loose == [] && Spent(free0, free, owner, Images(share, FlatOf(dst)))
      ensures ok ==> Counted(share, Wanted(share, flat, lo, vpn + 1), owner, free, dst, |free0|)
      ensures !ok ==> free == [] && |free0| < Need(share, Wanted(share, flat, lo, vpn + 1))
      ensures !ok ==> Unsettled(free0, owner, Images(share, FlatOf(dst)), loose)
    {
      hide Inv, Flat, CopyFrame, Copied, SourceAfter, Extends, OtherFlats, Digit, TableAt, Pte.Valid, PageOf, Target,
        Flags, Make, Counted,
        Need, Spent, Unsettled, Within;
      loose := [];
      FrameOk(share, mem0, owner0, free0, mem, owner, free, src, dst);
      OwnedInMemory(mem, owner, free);
      SourceStep(share, flat, lo, vpn);
      WantedStep(share, flat, lo, vpn);
      assert vpn * PAGE_SIZE / PAGE_SIZE == vpn;
      var table, k := PageWalk(src, vpn * PAGE_SIZE, false);
      FlatAt(mem, src, vpn);
      if table == NULL || !Pte.Valid(mem[table][k]) {
        assert vpn !in flat;
        CopiedSkip(share, mem0, free0, mem, owner, free, flat, FlatOf(dst), lo, vpn);
        return true, [];
      }
      assert vpn in flat && flat[vpn] == mem[table][k];
      CopiedMode(share, mem0, free0, mem, owner, free, flat, FlatOf(dst), lo, vpn);
      if share == 0 {
        ok, loose := DuplicateOne(src, dst, vpn, mem[table][k], mem0, owner0, free0, flat, lo);
      } else if share == 1 || share == 2 {
        ok := ShareOne(share, src, dst, vpn, table, k, mem0, owner0, free0, flat, lo);
        UnsettledNone(free0, free, owner, {});
      } else {
        ok := true;
      }
      CopiedMode(share, mem0, free0, mem, owner, free, flat, FlatOf(dst), lo, if ok then vpn + 1 else vpn);
    }

    /** The loop of pagetable_copy over virtual page numbers. */
    method CopyRange(share: int, src: Page, dst: Page, lo: nat, hi: nat,
                     ghost mem0: Memory, ghost owner0: Owners, ghost free0: seq<Page>, ghost flat: map<nat, Word>)
      returns (ok: bool, ghost cut: nat, ghost loose: seq<Page>)
      requires Inv(mem0, owner0, free0) && CopyFrame(share, mem0, owner0, free0, mem, owner, free, src, dst)
      requires hi <= MODULUS / PAGE_SIZE && FlatOf(src) == SourceAfter(share, flat, lo, lo)
      requires Copied(share, mem0, free0, mem, owner, free, flat, FlatOf(dst), lo, lo)
      requires Counted(share, Wanted(share, flat, lo, lo), owner, free, dst, |free0|)
      requires Spent(free0, free, owner, Images(share, FlatOf(dst))) && Wanted(share, flat, lo, lo) == map[]
      requires share == 0 ==> forall v :: v in flat && lo <= v < hi ==> PageOf(flat[v]) in mem0
      modifies this`mem, this`free, this`owner, this`mapped, this`released
      ensures lo <= cut <= (if lo < hi then hi else lo)
      ensures CopyFrame(share, mem0, owner0, free0, mem, owner, free, src, dst)
      ensures FlatOf(src) == SourceAfter(share, flat, lo, cut)
      ensures Copied(share, mem0, free0, mem, owner, free, flat, FlatOf(dst), lo, cut)
      ensures mapped == old(mapped) + |Wanted(share, flat, lo, cut)|
      ensures released == old(released) + loose
      ensures ok ==> loose == [] && cut >= hi && |free0| == |free| + Need(share, Wanted(share, flat, lo, cut))
      ensures !ok ==> free == [] && cut < hi && Unsettled(free0, owner, Images(share, FlatOf(dst)), loose)
      ensures !ok ==>
        Need(share, Wanted(share, flat, lo, cut)) <= |free0| < Need(share, Wanted(share, flat, lo, cut + 1))
    {
      hide Inv, Flat, CopyFrame, Copied, SourceAfter, Within, Need, Spent, Unsettled, Wanted, Images, PageOf;
      var vpn := lo;
      cut := lo;
      while vpn < hi
        invariant lo <= vpn <= (if lo < hi then hi else lo) && cut == vpn
        invariant CopyFrame(share, mem0, owner0, free0, mem, owner, free, src, dst)
        invariant FlatOf(src) == SourceAfter(share, flat, lo, vpn)
        invariant Copied(share, mem0, free0, mem, owner, free, flat, FlatOf(dst), lo, vpn)
        invariant Counted(share, Wanted(share, flat, lo, vpn), owner, free, dst, |free0|)
        invariant Spent(free0, free, owner, Images(share, FlatOf(dst)))
        invariant mapped == old(mapped) + |Wanted(share, flat, lo, vpn)|
        invariant released == old(released)
      {
        WantedCount(share, flat, lo, vpn);
        ok, loose := CopyOne(share, src, dst, vpn, mem0, owner0, free0, flat, lo);
        if !ok {
          return false, vpn, loose;
        }
        vpn, cut := vpn + 1, cut + 1;
      }
      return true, cut, [];
    }

    /** A copy that ran out of memory: the new tree is released; where all pages went is settled. */
    method Discard(share: int, src: Page, dst: Page, ghost mem0: Memory, ghost owner0: Owners, ghost free0: seq<Page>,
                   ghost flat: map<nat, Word>, ghost lo: nat, ghost cut: nat, ghost loose: seq<Page>,
                   ghost put: seq<Page>)
      requires Inv(mem0, owner0, free0) && CopyFrame(share, mem0, owner0, free0, mem, owner, free, src, dst)
        && free == []
      requires Copied(share, mem0, free0, mem, owner, free, flat, FlatOf(dst), lo, cut)
      requires Unsettled(free0, owner, Images(share, FlatOf(dst)), loose) && released == put + loose
      modifies this`released, this`owner
      ensures Ok() && owner == owner0 && put <= released
      ensures Copied(share, mem0, free0, mem, owner, free, flat, FlatOf(dst), lo, cut)
      ensures Settled(free0, released[|put|..], Images(share, FlatOf(dst)))
    {
      hide Inv, Flat, CopyFrame, Copied, Unsettled, Settled, Images;
      FrameOk(share, mem0, owner0, free0, mem, owner, free, src, dst);
      OwnedInMemory(mem, owner, free);
      CopyAbandoned(share, mem0, owner0, free0, mem, owner, free, src, dst);
      FreePagetable(dst);
      ghost var tables := released[|put| + |loose|..];
      assert released[|put|..] == loose + tables;
      TreeSettled(share, mem0, owner0, free0, mem, old(owner), flat, FlatOf(dst), lo, cut, dst, loose, tables);
    }

    /** Copies the mappings of [start, end) into a new tree, which fails exactly when that takes more pages than
        there are. On success the tree maps nothing outside the range and inside it what `Copied` says for the
        mode. On failure the new tree is gone, but mode 2 has already made the pages before `cut` read-only in the
        source, the pages mode 0 has copied by then are lost, and mapped_pages keeps counting the entries the
        discarded tree had; `gone` is what that tree mapped. */
    method Copy(src: Page, start: nat, end: nat, share: int)
      returns (dst: Page, ghost cut: nat, ghost gone: map<nat, Word>)
      requires Ok() && (src == NULL || IsRoot(owner, src)) && start < MODULUS && end < MODULUS
      requires share == 0 && src != NULL ==>
        forall v :: v in FlatOf(src) && start / PAGE_SIZE <= v < RoundUp(end) / PAGE_SIZE ==>
          PageOf(FlatOf(src)[v]) in mem
      modifies this`mem, this`free, this`owner, this`mapped, this`released
      ensures Ok()
      ensures src == NULL ==>
        dst == NULL && mem == old(mem) && free == old(free) && owner == old(owner) && mapped == old(mapped)
          && released == old(released)
      ensures src != NULL ==>
        var lo, hi, flat := start / PAGE_SIZE, RoundUp(end) / PAGE_SIZE, old(FlatOf(src));
        && (dst == NULL <==> Need(share, Wanted(share, flat, lo, hi)) > |old(free)|)
        && lo <= cut <= (if lo < hi then hi else lo)
        && OtherFlats(old(owner), src, old(mem), mem)
        && FlatOf(src) == SourceAfter(share, flat, lo, cut)
        && mapped == old(mapped) + |Wanted(share, flat, lo, cut)|
        && (dst != NULL ==>
              && cut >= hi && IsRoot(owner, dst) && dst !in old(owner) && released == old(released)
              && |old(free)| - |free| == Need(share, Wanted(share, flat, lo, hi))
              && Copied(share, old(mem), old(free), mem, owner, free, flat, FlatOf(dst), lo, cut)
              && CopyFrame(share, old(mem), old(owner), old(free), mem, owner, free, src, dst))
        && (dst == NULL ==>
              && StopsAt(share, flat, lo, cut, |old(free)|)
              && Copied(share, old(mem), old(free), mem, owner, free, flat, gone, lo, cut)
              && free == [] && owner == old(owner) && old(released) <= released
              && Settled(old(free), released[|old(released)|..], Images(share, gone)))
    {
      hide Inv, Flat, RoundUp, CopyFrame, Copied, SourceAfter, Within, OtherFlats, Need, Spent, Unsettled, Settled,
        Wanted, Images, Counted, PageOf;
      cut, gone := start / PAGE_SIZE, map[];
      if src == NULL {
        return NULL, cut, gone;
      }
      ghost var lo, flat := start / PAGE_SIZE, FlatOf(src);
      ghost var mem0, owner0, free0 := mem, owner, free;
      RoundUpMeaning(end);
      var hi := RoundUp(end) / PAGE_SIZE;
      NothingCopied(share, flat, lo);
      WantedStep(share, flat, lo, lo);
      NeedPositive(share, Wanted(share, flat, lo, hi));
      dst := CreatePagetable();
      if dst == NULL {
        ExtendsRefl(mem, owner, free, src);
        SettledNone(share, mem, owner, flat, lo);
        assert released[|old(released)|..] == [];
        return NULL, cut, gone;
      }
      CopyStart(share, mem0, owner0, free0, mem, owner, src, flat, lo);
      CountStart(share, mem0, owner0, free0, owner);
      SpentStart(share, free0, owner, FlatOf(dst));
      var ok;
      ghost var loose;
      ok, cut, loose := CopyRange(share, src, dst, start / PAGE_SIZE, hi, mem0, owner0, free0, flat);
      FrameOk(share, mem0, owner0, free0, mem, owner, free, src, dst);
      if ok {
        WantedEnd(share, flat, lo, hi, cut);
      } else {
        gone := FlatOf(dst);
        Discard(share, src, dst, mem0, owner0, free0, flat, lo, cut, loose, old(released));
        NeedGrows(share, flat, lo, cut + 1, hi);
        dst := NULL;
      }
    }

    /** Any run of map and unmap requests on a tree gives the answers and the outcome of the run on its view.
        With a page left at the end, or two per request at the start, that is the run on the flat map.
        mapped_pages follows the size of the map, and no other tree is disturbed. */
    method Run(root: Page, ops: seq<Op>) returns (rets: seq<int>)
      requires Ok() && IsRoot(owner, root)
      requires forall op :: op in ops ==> op.va < MODULUS && (op.Unmap? ==> op.size < MODULUS)
      modifies this`mem, this`free, this`owner, this`mapped, this`released
      ensures Ok() && IsRoot(owner, root)
      ensures Ran(old(ViewOf(root)), ops) == (ViewOf(root), rets)
      ensures free != [] || |old(free)| >= 2 * |ops| ==> FlatRan(old(FlatOf(root)), ops) == (FlatOf(root), rets)
      ensures mapped - old(mapped) == |FlatOf(root)| - |old(FlatOf(root))|
      ensures Extends(old(mem), old(owner), old(free), mem, owner, free, root)
        && OtherFlats(old(owner), root, old(mem), mem)
    {
      hide Inv, Extends, OtherFlats, Flat, View, Applied, FlatApplied, Closed;
      ExtendsRefl(mem, owner, free, root);
      OwnedInMemory(mem, owner, free);
      ghost var s := ViewOf(root);
      rets := [];
      for i := 0 to |ops|
        invariant Ok() && IsRoot(owner, root)
        invariant Ran(s, ops[..i]) == (ViewOf(root), rets)
        invariant mapped - old(mapped) == |FlatOf(root)| - |old(FlatOf(root))|
        invariant Extends(old(mem), old(owner), old(free), mem, owner, free, root)
          && OtherFlats(old(owner), root, old(mem), mem)
      {
        ghost var mem1, owner1, free1 := mem, owner, free;
        var ret := Serve(root, ops[i]);
        ExtendsTrans(old(mem), old(owner), old(free), mem1, owner1, free1, mem, owner, free, root);
        RanSnoc(s, ops[..i], ops[i]);
        assert ops[..i + 1] == ops[..i] + [ops[i]];
        rets := rets + [ret];
      }
      assert ops[..|ops|] == ops;
      ViewClosed(old(mem), old(owner), old(free), root);
      RunsAsFlat(s, ops);
      ViewFlat(old(mem), old(owner), old(free), root);
      ViewFlat(mem, owner, free, root);
    }

    method Serve(root: Page, op: Op) returns (ret: int)
      requires Ok() && IsRoot(owner, root) && op.va < MODULUS && (op.Unmap? ==> op.size < MODULUS)
      modifies this`mem, this`free, this`owner, this`mapped, this`released
      ensures Ok() && IsRoot(owner, root)
      ensures Applied(old(ViewOf(root)), op) == (ViewOf(root), ret)
      ensures mapped - old(mapped) == |FlatOf(root)| - |old(FlatOf(root))|
      ensures Extends(old(mem), old(owner), old(free), mem, owner, free, root)
        && OtherFlats(old(owner), root, old(mem), mem)
    {
      hide Inv, Extends, OtherFlats, Flat, RoundUp, Mapped, Without, Tables;
      OwnedInMemory(mem, owner, free);
      match op
      case Map(va, pa, perm) =>
        ret := MapPage(root, va, pa, perm);
        ExtendsRoots(old(mem), old(owner), old(free), mem, owner, free, root);
      case Unmap(va, size, freePhys) =>
        ret := Unmap(root, va, size, freePhys);
    }
  }

  /** Seven pages of memory and a tree that maps pages 0 and 0x200: three pages are left. */
  method TwoMapped(pages: seq<Page>, pa: Word, perm: bv32) returns (t: PageTables, src: Page)
    requires |pages| == 7 && NoDup(pages)
      && forall p :: p in pages ==> p != NULL && PageAligned(p.base) && Physical(p.base)
    ensures fresh(t) && t.Ok() && IsRoot(t.owner, src) && src != NULL && t.released == [] && NoDup(t.free)
    ensures t.ViewOf(src) == TwoPages(Make(PageBase(pa), SignExtend(perm)))
  {
    hide Inv, Flat, View, Mapped, OtherFlats, Extends, Make, PageBase, SignExtend;
    t := new PageTables(pages);
    src := t.CreatePagetable();
    FreshView(t.mem, t.owner, t.free, src);
    MapTwo(pa, perm);
    ghost var mem0, owner0, free0 := t.mem, t.owner, t.free;
    var ret := t.MapPage(src, 0, pa, perm);
    ExtendsRoots(mem0, owner0, free0, t.mem, t.owner, t.free, src);
    ghost var mem1, owner1, free1 := t.mem, t.owner, t.free;
    ret := t.MapPage(src, 0x20_0000, pa, perm);
    ExtendsTrans(mem0, owner0, free0, mem1, owner1, free1, t.mem, t.owner, t.free, src);
    FreeDistinct(t.mem, t.owner, t.free);
  }

  /** With three pages left a copy-on-write copy of two writable pages that need four fails, and page 0 of the
      source has become read-only. */
  method FailedCopy(pages: seq<Page>, pa: Word, perm: bv32)
    returns (t: PageTables, src: Page, dst: Page, ghost before: map<nat, Word>)
    requires |pages| == 7 && NoDup(pages)
      && forall p :: p in pages ==> p != NULL && PageAligned(p.base) && Physical(p.base)
    requires SignExtend(perm) & W != 0
    ensures t.Ok() && IsRoot(t.owner, src) && dst == NULL && |t.released| == 3
    ensures 0 in before && Writable(before[0]) && 0 in t.FlatOf(src) && !Writable(t.FlatOf(src)[0])
  {
    hide Inv, Flat, View, Make, SignExtend, PageBase, PageOf, Writable, Copied, CopyFrame, SourceAfter, OtherFlats,
      Need, Wanted, Settled;
    t, src := TwoMapped(pages, pa, perm);
    before := t.FlatOf(src);
    ViewFlat(t.mem, t.owner, t.free, src);
    ghost var left := t.free;
    ghost var cut, gone;
    assert RoundUp(0x20_1000) / PAGE_SIZE == 0x201;
    dst, cut, gone := t.Copy(src, 0, 0x20_1000, 2);
    TwoNeed(Make(PageBase(pa), SignExtend(perm)));
    assert cut > 0;
    NowReadOnly(before, cut, pa, perm);
    assert t.released[0..] == t.released;
    SettledCount(left, t.released);
  }
}
