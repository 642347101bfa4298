/** How many pages a copy takes, when it stops, and where the pages it took went. */
module PageNeed {
  import opened Common
  import opened Pte
  import opened PageTree
  import opened PageEffects
  import opened PageSpec
  import opened PageFree
  import opened PageCopy

  /** The mappings of a range that a copy in this mode takes over. */
  ghost function Wanted(share: int, flat: map<nat, Word>, lo: nat, hi: nat): map<nat, Word> {
    if 0 <= share <= 2 then Within(flat, lo, hi) else map[]
  }

  /** The aligned regions of `size` pages that hold a mapped page. */
  ghost function Regions(m: map<nat, Word>, size: nat): set<nat>
    requires size > 0
  {
    set v | v in m :: v / size
  }

  /** Pages that copying the mappings `m` takes: a root, the middle and leaf tables, in mode 0 also the copies. */
  ghost function Need(share: int, m: map<nat, Word>): nat {
    1 + |Regions(m, 0x40000)| + |Regions(m, 0x200)| + if share == 0 then |m| else 0
  }

  lemma SubsetCount<T>(a: set<T>, b: set<T>)
    requires a <= b
    ensures |a| <= |b|
  {
    assert b == a + (b - a);
  }

  lemma NeedGrows(share: int, flat: map<nat, Word>, lo: nat, hi: nat, hi': nat)
    requires hi <= hi'
    ensures Need(share, Wanted(share, flat, lo, hi)) <= Need(share, Wanted(share, flat, lo, hi'))
  {
    var m, m' := Wanted(share, flat, lo, hi), Wanted(share, flat, lo, hi');
    RegionsGrow(m, m', 0x40000);
    RegionsGrow(m, m', 0x200);
    SubsetCount(m.Keys, m'.Keys);
  }

  lemma RegionsGrow(m: map<nat, Word>, m': map<nat, Word>, size: nat)
    requires size > 0 && m.Keys <= m'.Keys
    ensures |Regions(m, size)| <= |Regions(m', size)|
  {
    forall v | v in m ensures v / size in Regions(m', size) {
      assert v in m';
    }
    SubsetCount(Regions(m, size), Regions(m', size));
  }

  lemma WantedStep(share: int, flat: map<nat, Word>, lo: nat, v: nat)
    requires lo <= v
    ensures v !in Wanted(share, flat, lo, v) && Wanted(share, flat, lo, lo) == map[]
    ensures Wanted(share, flat, lo, v + 1) ==
              if 0 <= share <= 2 && v in flat then Wanted(share, flat, lo, v)[v := flat[v]]
                else Wanted(share, flat, lo, v)
  {
  }

  lemma WantedCount(share: int, flat: map<nat, Word>, lo: nat, v: nat)
    requires lo <= v
    ensures |Wanted(share, flat, lo, v + 1)|
      == |Wanted(share, flat, lo, v)| + if 0 <= share <= 2 && v in flat then 1 else 0
  {
    WantedStep(share, flat, lo, v);
  }

  lemma WantedEnd(share: int, flat: map<nat, Word>, lo: nat, hi: nat, cut: nat)
    requires hi <= cut <= (if lo < hi then hi else lo)
    ensures Wanted(share, flat, lo, cut) == Wanted(share, flat, lo, hi)
  {
  }

  lemma RegionsStep(m: map<nat, Word>, v: nat, e: Word, size: nat)
    requires size > 0 && v !in m
    ensures Regions(m[v := e], size) == Regions(m, size) + {v / size}
    ensures |m[v := e]| == |m| + 1
  {
    var m' := m[v := e];
    assert m'.Keys == m.Keys + {v};
    forall u | u in m ensures u / size in Regions(m', size) {
      assert u in m';
    }
    assert v in m';
  }

  /** The tree copied to has exactly the tables that the mappings copied so far ask for, and the pages taken add up. */
  ghost predicate Counted(share: int, m: map<nat, Word>, owner: Owners, free: seq<Page>, dst: Page, total: nat) {
    && Tables(owner, dst, 1) == Regions(m, 0x40000) && Tables(owner, dst, 0) == Regions(m, 0x200)
    && total == |free| + Need(share, m)
  }

  lemma CountStart(share: int, mem0: Memory, owner0: Owners, free0: seq<Page>, owner: Owners)
    requires Inv(mem0, owner0, free0) && free0 != []
    requires owner == owner0[free0[0] := Slot(free0[0], 2, 0, NULL)] && free0[0] !in owner0
    ensures Counted(share, map[], owner, free0[1..], free0[0], |free0|)
    ensures forall p :: p in free0 && p !in free0[1..] ==> p in owner
  {
    RootsOwned(mem0, owner0, free0);
    hide Inv;
    var dst := free0[0];
    assert forall p :: p in owner0 ==> owner0[p].root != dst;
    assert Tables(owner, dst, 0) == {} && Tables(owner, dst, 1) == {};
    assert Regions(map[], 0x40000) == {} && Regions(map[], 0x200) == {};
  }

  /** One more mapping: the walk arrives exactly when the pages suffice, and then the count goes on. */
  lemma CountWalk(share: int, m: map<nat, Word>, v: nat, e: Word, s: Table, total: nat)
    requires Closed(s) && v !in m && s.mids == Regions(m, 0x40000) && s.leaves == Regions(m, 0x200)
    requires total == s.pages + Need(share, m) + if share == 0 then 1 else 0
    ensures var (w, ok) := Walked(s, v);
            && (ok ==> w.mids == Regions(m[v := e], 0x40000) && w.leaves == Regions(m[v := e], 0x200))
            && (ok ==> total == w.pages + Need(share, m[v := e]))
            && (!ok ==> total < Need(share, m[v := e]))
  {
    WalkedMeaning(s, v);
    RegionsStep(m, v, e, 0x40000);
    RegionsStep(m, v, e, 0x200);
    hide Walked, Regions, Closed;
    CountAdded(s.mids, v / 0x40000);
    CountAdded(s.leaves, v / 0x200);
    if !Walked(s, v).1 {
      SubsetCount(Walked(s, v).0.mids, s.mids + {v / 0x40000});
    }
  }

  lemma CountAdded(a: set<nat>, x: nat)
    ensures |a + {x}| == |a| + Count(x !in a)
  {
    if x in a {
      assert a + {x} == a;
    }
  }

  lemma NoPageLeft(m: map<nat, Word>, v: nat, e: Word, total: nat)
    requires v !in m && total == Need(0, m)
    ensures total < Need(0, m[v := e])
  {
    RegionsStep(m, v, e, 0x40000);
    RegionsStep(m, v, e, 0x200);
    RegionsGrow(m, m[v := e], 0x40000);
    RegionsGrow(m, m[v := e], 0x200);
  }

  /** The physical pages a mode 0 copy has made. */
  ghost function Images(share: int, d: map<nat, Word>): set<Page> {
    if share == 0 then set v | v in d :: PageOf(d[v]) else {}
  }

  /** Every page taken is a table or one of `others`. */
  ghost predicate Spent(free0: seq<Page>, free: seq<Page>, owner: Owners, others: set<Page>) {
    forall p :: p in free0 && p !in free ==> p in owner || p in others
  }

  lemma SpentExtends(free0: seq<Page>, mem: Memory, owner: Owners, free: seq<Page>, mem': Memory, owner': Owners,
                     free': seq<Page>,
                     dst: Page, others: set<Page>)
    requires Spent(free0, free, owner, others) && Extends(mem, owner, free, mem', owner', free', dst)
    ensures Spent(free0, free', owner', others)
  {
  }

  lemma SpentTake(free0: seq<Page>, free: seq<Page>, owner: Owners, others: set<Page>)
    requires Spent(free0, free, owner, others) && free != []
    ensures Spent(free0, free[1..], owner, others + {free[0]})
  {
  }

  lemma ImagesStep(d: map<nat, Word>, v: nat, e: Word)
    requires v !in d
    ensures Images(0, d[v := e]) == Images(0, d) + {PageOf(e)}
  {
    hide PageOf;
    var d' := d[v := e];
    forall u | u in d ensures PageOf(d[u]) in Images(0, d') {
      assert u in d' && d'[u] == d[u];
    }
    assert v in d' && d'[v] == e;
  }

  /** Every page of `free0` was handed back once or is lost, and none both. */
  ghost predicate Settled(free0: seq<Page>, put: seq<Page>, lost: set<Page>) {
    && NoDup(put)
    && (forall p :: p in free0 <==> p in put || p in lost)
    && (forall p :: p in lost ==> p !in put)
  }

  lemma SettledNone(share: int, mem: Memory, owner: Owners, flat: map<nat, Word>, lo: nat)
    ensures Settled([], [], Images(share, map[])) && Copied(share, mem, [], mem, owner, [], flat, map[], lo, lo)
  {
    NothingCopied(share, flat, lo);
  }

  lemma SpentStart(share: int, free0: seq<Page>, owner: Owners, d: map<nat, Word>)
    requires free0 != [] && forall p :: p in free0 && p !in free0[1..] ==> p in owner
    ensures Spent(free0, free0[1..], owner, Images(share, d))
  {
  }

  /** Memory is used up: besides the tables and the copies made there is at most one more page, to be put back. */
  ghost predicate Unsettled(free0: seq<Page>, owner: Owners, copies: set<Page>, loose: seq<Page>) {
    && Spent(free0, [], owner, copies + set p | p in loose)
    && |loose| <= 1 && (forall p :: p in loose ==> p in free0 && p !in owner && p !in copies)
  }

  lemma UnsettledNone(free0: seq<Page>, free: seq<Page>, owner: Owners, copies: set<Page>)
    requires Spent(free0, free, owner, copies)
    ensures free == [] ==> Unsettled(free0, owner, copies, [])
  {
  }

  lemma UnsettledOne(free0: seq<Page>, owner: Owners, copies: set<Page>, t: Page)
    requires Spent(free0, [], owner, copies + {t}) && t in free0 && t !in owner && t !in copies
    ensures Unsettled(free0, owner, copies, [t])
  {
    assert t in [t];
  }

  lemma DuplicateKeys(mem0: Memory, free0: seq<Page>, mem: Memory, owner: Owners, free: seq<Page>,
                      flat: map<nat, Word>, d: map<nat, Word>, lo: nat, v: nat)
    requires Duplicate(mem0, free0, mem, owner, free, flat, d, lo, v)
    ensures v !in d
  {
  }

  /** A page that was free is none of the copies. */
  lemma DuplicateFresh(mem0: Memory, free0: seq<Page>, mem: Memory, owner: Owners, free: seq<Page>,
                       flat: map<nat, Word>, d: map<nat, Word>, lo: nat, v: nat, t: Page)
    requires Duplicate(mem0, free0, mem, owner, free, flat, d, lo, v) && t in free
    ensures t !in Images(0, d)
  {
    hide Valid, PageOf, Flags;
  }

  /** The tables of the discarded tree and the loose page are handed back; what is left are the copies. */
  lemma TreeSettled(share: int, mem0: Memory, owner0: Owners, free0: seq<Page>, mem: Memory, owner: Owners,
                    flat: map<nat, Word>, d: map<nat, Word>, lo: nat, v: nat, dst: Page, loose: seq<Page>,
                    tables: seq<Page>)
    requires Copied(share, mem0, free0, mem, owner, [], flat, d, lo, v)
      && Unsettled(free0, owner, Images(share, d), loose)
    requires NoDup(tables) && forall p :: p in tables <==> p in owner && owner[p].root == dst
    requires forall p :: p in owner && owner[p].root == dst ==> p in free0
    requires forall p :: p in owner && p in free0 ==> owner[p].root == dst
    requires forall p :: p in owner0 ==> p in owner
    ensures Settled(free0, loose + tables, Images(share, d))
    ensures Copied(share, mem0, free0, mem, owner0, [], flat, d, lo, v)
  {
    hide Valid, PageOf, Flags, Make;
    if share == 0 {
      assert forall u :: u in d ==> PrivateCopy(mem0, free0, mem, owner, [], flat[u], d[u]);
    }
    assert forall p :: p in Images(share, d) ==> p in free0 && p !in owner;
    var put := loose + tables;
    NoDupConcat(loose, tables);
    assert forall p :: p in put <==> p in loose || p in tables;
  }

  /** Where a copy that fails stops: at the first page whose mapping asks for more pages than there were. */
  ghost predicate StopsAt(share: int, flat: map<nat, Word>, lo: nat, cut: nat, pages: nat) {
    if pages == 0 then cut == lo
    else Need(share, Wanted(share, flat, lo, cut)) <= pages < Need(share, Wanted(share, flat, lo, cut + 1))
  }

  /** A copy-on-write copy that fails leaves the source as it was if and only if the pages do not suffice up to
      and including any writable page of the range. */
  lemma CopyResidue(flat: map<nat, Word>, lo: nat, hi: nat, cut: nat, pages: nat)
    requires forall v :: v in flat ==> Valid(flat[v])
    requires lo <= cut <= (if lo < hi then hi else lo) && StopsAt(2, flat, lo, cut, pages)
    ensures SourceAfter(2, flat, lo, cut) == flat <==>
              forall v :: v in flat && lo <= v < hi && Writable(flat[v]) ==> Need(2, Wanted(2, flat, lo, v + 1)) > pages
  {
    hide Writable, Valid, Need, Wanted;
    SourceKept(flat, lo, cut);
    forall v | v in flat && lo <= v < hi ensures v < cut <==> Need(2, Wanted(2, flat, lo, v + 1)) <= pages {
      if pages == 0 {
        NeedPositive(2, Wanted(2, flat, lo, v + 1));
      } else if v < cut {
        NeedGrows(2, flat, lo, v + 1, cut);
      } else {
        NeedGrows(2, flat, lo, cut + 1, v + 1);
      }
    }
  }

  lemma NeedPositive(share: int, m: map<nat, Word>)
    ensures Need(share, m) >= 1
  {
  }

  lemma SourceKept(flat: map<nat, Word>, lo: nat, cut: nat)
    requires forall v :: v in flat ==> Valid(flat[v])
    ensures SourceAfter(2, flat, lo, cut) == flat <==> forall v :: v in flat && lo <= v < cut ==> !Writable(flat[v])
  {
    forall v | v in flat && Writable(flat[v]) ensures SharedEntry(2, flat[v]) != flat[v] {
      SharedEntryMeaning(2, flat[v]);
      WriteBit(flat[v]);
    }
    hide SharedEntry, Writable, Valid;
    var after := SourceAfter(2, flat, lo, cut);
    if v :| v in flat && lo <= v < cut && Writable(flat[v]) {
      assert after[v] != flat[v];
    } else {
      assert after == flat;
    }
  }

  lemma FreshView(mem: Memory, owner: Owners, free: seq<Page>, root: Page)
    requires owner == map[root := Slot(root, 2, 0, NULL)] && Flat(mem, root) == map[]
    ensures View(mem, owner, free, root) == Table(map[], {}, {}, |free|)
  {
    assert Tables(owner, root, 0) == {} && Tables(owner, root, 1) == {};
  }

  /** Pages 0 and 0x200 mapped by the same entry, in three tables below the root; three pages left. */
  ghost function TwoPages(e: Word): Table { Table(map[0 := e, 0x200 := e], {0}, {0, 1}, 3) }

  lemma MapTwo(pa: Word, perm: bv32)
    ensures var (s, ret) := Mapped(Table(map[], {}, {}, 6), 0, pa, perm);
            Mapped(s, 0x20_0000, pa, perm).0 == TwoPages(Make(PageBase(pa), SignExtend(perm)))
  {
    hide Make, PageBase, SignExtend, PageOf;
  }

  /** Sharing them takes a root, one middle table and two leaf tables, page 0 alone one less. */
  lemma TwoNeed(e: Word)
    ensures var flat := TwoPages(e).flat;
            && Need(2, Wanted(2, flat, 0, 0x201)) == 4 && Need(2, Wanted(2, flat, 0, 1)) == 3
  {
    var flat := map[0 := e, 0x200 := e];
    assert Wanted(2, flat, 0, 0x201) == flat && Wanted(2, flat, 0, 1) == map[0 := e];
    assert 0 in flat && 0x200 in flat;
    assert Regions(flat, 0x40000) == {0} && Regions(flat, 0x200) == {0, 1};
    assert 0 in map[0 := e];
    assert Regions(map[0 := e], 0x40000) == {0} && Regions(map[0 := e], 0x200) == {0};
  }

  lemma FreeDistinct(mem: Memory, owner: Owners, free: seq<Page>)
    requires Inv(mem, owner, free)
    ensures NoDup(free)
  {
  }

  lemma NowReadOnly(flat: map<nat, Word>, cut: nat, pa: Word, perm: bv32)
    requires 0 in flat && flat[0] == Make(PageBase(pa), SignExtend(perm)) && SignExtend(perm) & W != 0 && cut > 0
    ensures Writable(flat[0]) && 0 in SourceAfter(2, flat, 0, cut) && !Writable(SourceAfter(2, flat, 0, cut)[0])
  {
    var base, p := PageBase(pa), SignExtend(perm);
    hide PageBase, SignExtend;
    assert Writable(Make(base, p));
    MakeIsValid(base, p);
    SharedEntryMeaning(2, flat[0]);
    var e := SharedEntry(2, flat[0]);
    hide Make, SharedEntry;
    assert Flags(e) & W == 0;
  }

  lemma SettledCount(free: seq<Page>, put: seq<Page>)
    requires Settled(free, put, {}) && NoDup(free)
    ensures |put| == |free|
  {
    DistinctCount(free);
    DistinctCount(put);
    assert (set p | p in free) == (set p | p in put);
  }

  lemma {:induction false} DistinctCount(s: seq<Page>)
    requires NoDup(s)
    ensures |set p | p in s| == |s|
  {
    if s != [] {
      var n := |s| - 1;
      DistinctCount(s[..n]);
      assert (set p | p in s) == (set p | p in s[..n]) + {s[n]};
    }
  }
}
