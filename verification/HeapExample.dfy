/** A heap page that lowering the break hands to put_page twice. */
module HeapExample {
  import opened Common
  import opened Pte
  import opened PageTree
  import opened PageEffects
  import opened PageSpec
  import opened PageNeed
  import opened PageTable
  import opened HeapDrop
  import opened Areas

  /** Two pages of heap; only the second has a page. */
  function TwoPageHeap(page: Page): Area { Area(0x1000, 0x3000, Kind.Heap, 0, 0, [NULL, page], 2, 0, 0) }

  lemma MapSecond(page: Page, perm: bv32)
    requires PageAligned(page.base) && SignExtend(perm) & !FLAGS_MASK == 0
    ensures var (s, ret) := PageSpec.Mapped(Table(map[], {}, {}, 2), 0x2000, page.base, perm);
            ret == 0 && s.flat.Keys == {2} && PageOf(s.flat[2]) == page
  {
    MakeInFlags(page.base, SignExtend(perm));
    assert PageOf(Make(page.base, SignExtend(perm))) == page && PageBase(page.base) == page.base;
    hide Make, SignExtend, PageOf, PageBase, PageSpec.Mapped;
    MappedMeaning(Table(map[], {}, {}, 2), 0x2000, page.base, perm);
  }

  lemma DropSecond(s: State, s': State, page: Page, ret: int)
    requires s.areas == [TwoPageHeap(page)] && s.brk == 0x3000 && page != NULL
    requires s.flat.Keys == {2} && PageOf(s.flat[2]) == page && s.put == []
    requires Moved(s, s', 0x1000, 0x2000, true, ret)
    ensures ret == 0x2000 == s'.brk && s'.put == [page, page] && s'.flat == map[] && s'.areas[0].pages == [NULL, NULL]
  {
    MovedDown(s, s', page, ret);
    hide PageOf, Moved;
    assert Index(0x1000, 0x2000) == 1;
    var b := Dropping([NULL, page], s.flat, [], {});
    assert Drop(b, 0x1000, 2, 0x2000, 0) == b;
    assert Drop(b, 0x1000, 2, 0x2000, 1) == DropOne(b, 0x1000, 2, 0x2000);
  }

  lemma MovedDown(s: State, s': State, page: Page, ret: int)
    requires s.areas == [TwoPageHeap(page)] && s.brk == 0x3000 && Moved(s, s', 0x1000, 0x2000, true, ret)
    ensures ret == 0x2000 == s'.brk && CutAt(s, s', 0, 0x2000, 0x3000)
  {
    RoundUpMeaning(0x2000);
    hide RoundUp, Drop, PageOf;
    assert s.areas[0].kind == Kind.Heap;
    assert HeapAcross(s.areas, 0x2000);
  }

  /** The page is taken, mapped at the second page of the heap and recorded there; then the break moves down one
      page. */
  method BrkPutsTwice(pages: seq<Page>, perm: bv32) returns (space: AddressSpace, pt: PageTables, page: Page)
    requires |pages| == 4 && NoDup(pages)
      && forall p :: p in pages ==> p != NULL && PageAligned(p.base) && Physical(p.base)
    requires SignExtend(perm) & !FLAGS_MASK == 0
    ensures space.Valid() && pt.Ok() && space.brk == 0x2000 && page != NULL && pt.released == [page, page]
  {
    hide Inv, Flat, Extends, OtherFlats, View, PageOf, Moved, PageSpec.Mapped;
    pt := new PageTables(pages);
    page := pt.AllocPage();
    var root := pt.CreatePagetable();
    FreshView(pt.mem, pt.owner, pt.free, root);
    MapSecond(page, perm);
    ghost var mem0, owner0, free0 := pt.mem, pt.owner, pt.free;
    var ret := pt.MapPage(root, 0x2000, page.base, perm);
    ExtendsRoots(mem0, owner0, free0, pt.mem, pt.owner, pt.free, root);
    ViewFlat(pt.mem, pt.owner, pt.free, root);
    space := new AddressSpace([TwoPageHeap(page)], 0x1000, 0x3000);
    ghost var before := space.Now(pt, root);
    ret := space.DoBrk(0x2000, true, pt, root);
    DropSecond(before, space.Now(pt, root), page, ret);
  }
}
