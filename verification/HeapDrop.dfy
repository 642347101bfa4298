/** The loop of do_brk that gives up the pages above a lowered break: for every recorded page it clears the
    mapping, which hands the mapped frame to put_page, and then hands over the recorded page itself. */
module HeapDrop {
  import opened Pte
  import opened PageTree
  import opened PageEffects
  import opened PageTable

  /** Page counts and indexes are kept in an int32. */
  const MAX_PAGES := 0x7FFF_FFFF

  /** Conversion of an unsigned 64-bit value to int32. */
  function Int32(n: nat): (r: int)
    ensures -MAX_PAGES - 1 <= r <= MAX_PAGES && (r - n) % 0x1_0000_0000 == 0
  {
    var m := n % 0x1_0000_0000;
    if m < 0x8000_0000 then m else m - 0x1_0000_0000
  }

  /** The element of the page array a heap address is recorded under, as the kernel computes it. */
  function Index(start: nat, addr: nat): int
    requires start <= addr
  {
    Int32((addr - start) / PAGE_SIZE)
  }

  /** An area records a page for the address. */
  predicate Recorded(start: nat, count: int, pages: seq<Page>, addr: nat)
    requires start <= addr
  {
    var i := Index(start, addr);
    0 <= i < count && i < |pages| && pages[i] != NULL
  }

  /** The page array of the area, the mappings, the arguments of put_page, and the virtual pages given up. */
  datatype Dropping = Dropping(pages: seq<Page>, flat: map<nat, Word>, put: seq<Page>, hits: set<nat>)

  ghost function DropOne(s: Dropping, start: nat, count: int, addr: nat): Dropping
    requires start <= addr
  {
    var v := addr / PAGE_SIZE;
    if Recorded(start, count, s.pages, addr) then
      var i := Index(start, addr);
      Dropping(s.pages[i := NULL], s.flat - {v}, s.put + FreedOne(s.flat, v, true) + [s.pages[i]], s.hits + {v})
    else s
  }

  /** The first `n` pages from address `lo` on, one after the other. */
  ghost function Drop(s: Dropping, start: nat, count: int, lo: nat, n: nat): Dropping
    requires start <= lo
  {
    if n == 0 then s else DropOne(Drop(s, start, count, lo, n - 1), start, count, lo + (n - 1) * PAGE_SIZE)
  }

  /** Element `k` belongs to an address from `lo` on, among `n` pages. */
  ghost predicate Hit(start: nat, lo: nat, n: nat, k: int)
    requires start <= lo
  {
    exists j: nat :: j < n && Index(start, lo + j * PAGE_SIZE) == k
  }

  /** The array of `a` with exactly the recorded pages of the range taken out. */
  ghost predicate Released(start: nat, count: int, pages: seq<Page>, pages': seq<Page>, lo: nat, n: nat)
    requires start <= lo
  {
    && |pages'| == |pages|
    && forall k :: 0 <= k < |pages| ==> pages'[k] == if k < count && Hit(start, lo, n, k) then NULL else pages[k]
  }

  /** The page `j` pages after `lo` is given up: one is recorded for it, and no address before it in the range has
      the same element of the array. */
  ghost predicate GivenUp(start: nat, count: int, pages: seq<Page>, lo: nat, j: nat)
    requires start <= lo
  {
    var addr := lo + j * PAGE_SIZE;
    Recorded(start, count, pages, addr) && !Hit(start, lo, j, Index(start, addr))
  }

  /** What is left: exactly the array elements of the range are clear, and exactly the pages of the range that the
      array before says are given up lost their mapping. */
  lemma {:induction false} DropMeaning(s: Dropping, start: nat, count: int, lo: nat, n: nat)
    requires start <= lo && lo % PAGE_SIZE == 0 && count <= |s.pages| && s.hits == {}
    ensures var e := Drop(s, start, count, lo, n);
            && Released(start, count, s.pages, e.pages, lo, n)
            && e.flat == s.flat - e.hits
            && (forall v :: v in e.hits ==> lo / PAGE_SIZE <= v < lo / PAGE_SIZE + n)
            && forall j: nat :: j < n ==> (lo / PAGE_SIZE + j in e.hits <==> GivenUp(start, count, s.pages, lo, j))
    decreases n
  {
    hide Index, Released, GivenUp;
    if n == 0 {
      NoneReleased(start, count, s.pages, lo);
    } else {
      DropMeaning(s, start, count, lo, n - 1);
      var b := Drop(s, start, count, lo, n - 1);
      ReleaseOne(s.pages, b, start, count, lo, n - 1);
      StillRecorded(start, count, s.pages, b.pages, lo, n - 1);
      NextPage(lo, n - 1);
    }
  }

  /** What the loop finds recorded when it gets there. */
  lemma StillRecorded(start: nat, count: int, pages: seq<Page>, pages': seq<Page>, lo: nat, n: nat)
    requires start <= lo && Released(start, count, pages, pages', lo, n)
    ensures Recorded(start, count, pages', lo + n * PAGE_SIZE) <==> GivenUp(start, count, pages, lo, n)
  {
    hide Index, Hit;
  }

  /** In a range of at most 2^32 pages every page has an element of its own. */
  lemma GivenUpIs(start: nat, count: int, pages: seq<Page>, lo: nat, j: nat)
    requires start <= lo && j < 0x1_0000_0000
    ensures GivenUp(start, count, pages, lo, j) <==> RecordedAfter(start, count, pages, lo, j)
  {
    forall i: nat | i < j ensures Index(start, lo + i * PAGE_SIZE) != Index(start, lo + j * PAGE_SIZE) {
      IndexesDiffer(lo - start, i, j);
    }
    hide Index;
  }

  lemma IndexesDiffer(d: nat, i: nat, j: nat)
    requires i < j < i + 0x1_0000_0000
    ensures Int32((d + i * PAGE_SIZE) / PAGE_SIZE) != Int32((d + j * PAGE_SIZE) / PAGE_SIZE)
  {
    assert (d + i * PAGE_SIZE) / PAGE_SIZE == d / PAGE_SIZE + i;
    assert (d + j * PAGE_SIZE) / PAGE_SIZE == d / PAGE_SIZE + j;
  }

  lemma NextPage(lo: nat, n: nat)
    requires lo % PAGE_SIZE == 0
    ensures (lo + n * PAGE_SIZE) / PAGE_SIZE == lo / PAGE_SIZE + n
  {
  }

  /** The pages given up so far are unmapped, and the one at `addr` is not among them. */
  ghost predicate Untouched(flat: map<nat, Word>, s: Dropping, addr: nat) {
    s.flat == flat - s.hits && addr / PAGE_SIZE !in s.hits
  }

  lemma NotYetHit(s: Dropping, start: nat, count: int, lo: nat, n: nat)
    requires start <= lo && lo % PAGE_SIZE == 0 && count <= |s.pages| && s.hits == {}
    ensures Untouched(s.flat, Drop(s, start, count, lo, n), lo + n * PAGE_SIZE)
  {
    hide Released, Drop;
    DropMeaning(s, start, count, lo, n);
    NextPage(lo, n);
  }

  lemma NoneReleased(start: nat, count: int, pages: seq<Page>, lo: nat)
    requires start <= lo
    ensures Released(start, count, pages, pages, lo, 0)
  {
  }

  lemma ReleaseOne(pages: seq<Page>, s: Dropping, start: nat, count: int, lo: nat, n: nat)
    requires start <= lo && count <= |pages| && Released(start, count, pages, s.pages, lo, n)
    ensures Released(start, count, pages, DropOne(s, start, count, lo + n * PAGE_SIZE).pages, lo, n + 1)
  {
    hide Index;
    var e := DropOne(s, start, count, lo + n * PAGE_SIZE);
    forall k | 0 <= k < |pages| ensures e.pages[k] == if k < count && Hit(start, lo, n + 1, k) then NULL else pages[k] {
      HitStep(start, lo, n, k);
    }
  }

  lemma HitStep(start: nat, lo: nat, n: nat, k: int)
    requires start <= lo
    ensures Hit(start, lo, n + 1, k) <==> Hit(start, lo, n, k) || Index(start, lo + n * PAGE_SIZE) == k
  {
    hide Index;
    if Hit(start, lo, n + 1, k) {
      var j: nat :| j < n + 1 && Index(start, lo + j * PAGE_SIZE) == k;
      assert j < n || j == n;
    }
    if Index(start, lo + n * PAGE_SIZE) == k {
      assert n < n + 1;
    }
  }

  /** Every page that left the array was handed to put_page once. */
  ghost predicate Conserved(pages: seq<Page>, put: seq<Page>, pages': seq<Page>, put': seq<Page>) {
    forall q :: q != NULL ==> multiset(pages')[q] + multiset(put')[q] == multiset(pages)[q] + multiset(put)[q]
  }

  /** The virtual pages among `hits` that map physical page `q`. */
  ghost function MappedTo(flat: map<nat, Word>, hits: set<nat>, q: Page): set<nat> {
    set v | v in hits && v in flat && PageOf(flat[v]) == q
  }

  /** Beside the pages that leave the array, put_page gets the frames their addresses are mapped to. */
  lemma {:induction false} PutCount(s: Dropping, start: nat, count: int, lo: nat, n: nat, q: Page)
    requires start <= lo && lo % PAGE_SIZE == 0 && count <= |s.pages| && s.hits == {} && q != NULL
    ensures var e := Drop(s, start, count, lo, n);
            Copies(e, q) == Copies(s, q) + |MappedTo(s.flat, e.hits, q)|
    decreases n
  {
    if n == 0 {
      assert MappedTo(s.flat, {}, q) == {};
    } else {
      hide Drop, MappedTo, Copies;
      PutCount(s, start, count, lo, n - 1, q);
      PutStep(s, start, count, lo, n, q);
    }
  }

  lemma PutStep(s: Dropping, start: nat, count: int, lo: nat, n: nat, q: Page)
    requires start <= lo && lo % PAGE_SIZE == 0 && count <= |s.pages| && s.hits == {} && q != NULL && n > 0
    ensures var e, b := Drop(s, start, count, lo, n), Drop(s, start, count, lo, n - 1);
            Copies(e, q) + |MappedTo(s.flat, b.hits, q)| == Copies(b, q) + |MappedTo(s.flat, e.hits, q)|
  {
    DropStep(s, start, count, lo, n);
    NotYetHit(s, start, count, lo, n - 1);
    hide Drop, DropOne, MappedTo, Copies, Untouched;
    PutOne(s.flat, Drop(s, start, count, lo, n - 1), start, count, lo + (n - 1) * PAGE_SIZE, q);
  }

  /** How often a page is in the array or was handed to put_page. */
  ghost function Copies(s: Dropping, q: Page): nat { multiset(s.pages)[q] + multiset(s.put)[q] }

  lemma DropStep(s: Dropping, start: nat, count: int, lo: nat, n: nat)
    requires start <= lo && n > 0
    ensures Drop(s, start, count, lo, n)
      == DropOne(Drop(s, start, count, lo, n - 1), start, count, lo + (n - 1) * PAGE_SIZE)
  {
  }

  lemma PutOne(flat: map<nat, Word>, s: Dropping, start: nat, count: int, addr: nat, q: Page)
    requires start <= addr && Untouched(flat, s, addr) && q != NULL
    ensures var e := DropOne(s, start, count, addr);
            Copies(e, q) + |MappedTo(flat, s.hits, q)| == Copies(s, q) + |MappedTo(flat, e.hits, q)|
  {
    hide Index, PageOf, MappedTo;
    var v := addr / PAGE_SIZE;
    if Recorded(start, count, s.pages, addr) {
      MappedToStep(flat, s.hits, v, q);
      FreedCount(s.flat, v, q);
      hide FreedOne;
    }
  }

  lemma MappedToStep(flat: map<nat, Word>, hits: set<nat>, v: nat, q: Page)
    requires v !in hits
    ensures |MappedTo(flat, hits + {v}, q)| ==
              |MappedTo(flat, hits, q)| + if v in flat && PageOf(flat[v]) == q then 1 else 0
  {
    if v in flat && PageOf(flat[v]) == q {
      assert MappedTo(flat, hits + {v}, q) == MappedTo(flat, hits, q) + {v};
    } else {
      assert MappedTo(flat, hits + {v}, q) == MappedTo(flat, hits, q);
    }
  }

  lemma FreedCount(flat: map<nat, Word>, v: nat, q: Page)
    ensures multiset(FreedOne(flat, v, true))[q] == if v in flat && PageOf(flat[v]) == q then 1 else 0
  {
  }

  /** Page `v` is mapped to a physical page. */
  predicate Framed(flat: map<nat, Word>, v: nat) { v in flat && PageOf(flat[v]) != NULL }

  /** An area records a page for the address `j` pages after `lo`. */
  predicate RecordedAfter(start: nat, count: int, pages: seq<Page>, lo: nat, j: nat)
    requires start <= lo
  {
    Recorded(start, count, pages, lo + j * PAGE_SIZE)
  }

  /** Told from the state before: the pages given up are handed over once if and only if none of them is mapped at
      its address; in a range of at most 2^32 pages, if and only if no address with a recorded page is mapped. */
  lemma PutOnce(s: Dropping, start: nat, count: int, lo: nat, n: nat)
    requires start <= lo && lo % PAGE_SIZE == 0 && count <= |s.pages| && s.hits == {}
    ensures var e := Drop(s, start, count, lo, n);
            Conserved(s.pages, s.put, e.pages, e.put) <==>
              forall j: nat :: j < n && GivenUp(start, count, s.pages, lo, j) ==> !Framed(s.flat, lo / PAGE_SIZE + j)
    ensures var e := Drop(s, start, count, lo, n);
            n <= 0x1_0000_0000 ==>
              (Conserved(s.pages, s.put, e.pages, e.put) <==>
                 forall j: nat :: j < n && RecordedAfter(start, count, s.pages, lo, j) ==>
                   !Framed(s.flat, lo / PAGE_SIZE + j))
  {
    hide Drop, GivenUp, RecordedAfter, Conserved, Framed, Released;
    PutOnceHits(s, start, count, lo, n);
    DropMeaning(s, start, count, lo, n);
    var hits, v0 := Drop(s, start, count, lo, n).hits, lo / PAGE_SIZE;
    if forall j: nat :: j < n && GivenUp(start, count, s.pages, lo, j) ==> !Framed(s.flat, v0 + j) {
      forall v | v in hits ensures !Framed(s.flat, v) {
        var j := v - v0;
        assert v == v0 + j && GivenUp(start, count, s.pages, lo, j);
      }
    }
    if n <= 0x1_0000_0000 {
      forall j: nat | j < n
        ensures GivenUp(start, count, s.pages, lo, j) <==> RecordedAfter(start, count, s.pages, lo, j)
      {
        GivenUpIs(start, count, s.pages, lo, j);
      }
    }
  }

  lemma PutOnceHits(s: Dropping, start: nat, count: int, lo: nat, n: nat)
    requires start <= lo && lo % PAGE_SIZE == 0 && count <= |s.pages| && s.hits == {}
    ensures var e := Drop(s, start, count, lo, n);
            Conserved(s.pages, s.put, e.pages, e.put) <==> forall v :: v in e.hits ==> !Framed(s.flat, v)
  {
    hide Drop, PageOf;
    var e := Drop(s, start, count, lo, n);
    forall q | q != NULL
      ensures multiset(e.pages)[q] + multiset(e.put)[q] ==
                multiset(s.pages)[q] + multiset(s.put)[q] + |MappedTo(s.flat, e.hits, q)|
    {
      PutCount(s, start, count, lo, n, q);
    }
    if v :| v in e.hits && Framed(s.flat, v) {
      assert v in MappedTo(s.flat, e.hits, PageOf(s.flat[v]));
    } else {
      forall q | q != NULL ensures MappedTo(s.flat, e.hits, q) == {} {
      }
    }
  }

  /** The page recorded for virtual page `v`, or NULL. */
  ghost function PageFor(start: nat, count: int, pages: seq<Page>, v: nat): Page {
    var addr := v * PAGE_SIZE;
    if start <= addr && Recorded(start, count, pages, addr) then pages[Index(start, addr)] else NULL
  }

  /** Every recorded page is mapped at its address, which is how a heap page gets there. */
  ghost predicate Backed(s: Dropping, start: nat, count: int) {
    forall v: nat :: PageFor(start, count, s.pages, v) != NULL ==>
      v in s.flat && PageOf(s.flat[v]) == PageFor(start, count, s.pages, v)
  }

  lemma TwiceOne(s: Dropping, start: nat, count: int, addr: nat, q: Page)
    requires start <= addr && addr % PAGE_SIZE == 0 && q != NULL && Backed(s, start, count)
    ensures var e := DropOne(s, start, count, addr);
            && Backed(e, start, count)
            && multiset(e.put)[q] + 2 * multiset(e.pages)[q] == multiset(s.put)[q] + 2 * multiset(s.pages)[q]
  {
    hide Index, PageOf;
    var v, e := addr / PAGE_SIZE, DropOne(s, start, count, addr);
    assert addr == v * PAGE_SIZE;
    if Recorded(start, count, s.pages, addr) {
      assert PageFor(start, count, s.pages, v) == s.pages[Index(start, addr)];
      forall u: nat | PageFor(start, count, e.pages, u) != NULL
        ensures u in e.flat && PageOf(e.flat[u]) == PageFor(start, count, e.pages, u)
      {
        assert PageFor(start, count, s.pages, u) == PageFor(start, count, e.pages, u);
      }
    }
  }

  /** When every recorded page is mapped at its address, each page given up is handed over twice. */
  lemma {:induction false} PutTwice(s: Dropping, start: nat, count: int, lo: nat, n: nat, q: Page)
    requires start <= lo && lo % PAGE_SIZE == 0 && q != NULL && Backed(s, start, count)
    ensures var e := Drop(s, start, count, lo, n);
            && Backed(e, start, count)
            && multiset(e.put)[q] + 2 * multiset(e.pages)[q] == multiset(s.put)[q] + 2 * multiset(s.pages)[q]
    decreases n
  {
    hide DropOne, Backed;
    if n > 0 {
      PutTwice(s, start, count, lo, n - 1, q);
      TwiceOne(Drop(s, start, count, lo, n - 1), start, count, lo + (n - 1) * PAGE_SIZE, q);
    }
  }

  lemma OnePage(addr: nat)
    requires addr < MODULUS && addr % PAGE_SIZE == 0
    ensures var v := addr / PAGE_SIZE;
      v >= MAXVPN || RoundUp((addr + PAGE_SIZE) % MODULUS) / PAGE_SIZE == v + 1 <= MAXVPN
  {
  }

  lemma BeyondFlat(mem: Memory, root: Page, v: nat)
    requires v >= MAXVPN
    ensures v !in Flat(mem, root)
  {
  }

  lemma FlatOfNull(mem: Memory, owner: Owners, free: seq<Page>)
    requires Inv(mem, owner, free)
    ensures Flat(mem, NULL) == map[]
  {
    forall v: nat | v < MAXVPN ensures Leaf(mem, NULL, v) == None {
      MissingBelow(mem, NULL, 1, v);
    }
  }

  /** Unmapping one page with its frame, at any page-aligned address. */
  method UnmapPage(pt: PageTables, root: Page, addr: nat)
    requires pt.Ok() && (root == NULL || IsRoot(pt.owner, root)) && addr < MODULUS && addr % PAGE_SIZE == 0
    modifies pt
    ensures pt.Ok() && pt.free == old(pt.free) && pt.owner == old(pt.owner)
    ensures Extends(old(pt.mem), pt.owner, pt.free, pt.mem, pt.owner, pt.free, root)
      && OtherFlats(pt.owner, root, old(pt.mem), pt.mem)
    ensures pt.FlatOf(root) == old(pt.FlatOf(root)) - {addr / PAGE_SIZE}
    ensures pt.released == old(pt.released) + FreedOne(old(pt.FlatOf(root)), addr / PAGE_SIZE, true)
    ensures pt.mapped - old(pt.mapped) == |pt.FlatOf(root)| - |old(pt.FlatOf(root))|
  {
    hide Inv, Flat, RoundUp, Extends, OtherFlats, Freed, FreedOne, Without;
    var v := addr / PAGE_SIZE;
    ghost var flat := pt.FlatOf(root);
    OnePage(addr);
    if v >= MAXVPN {
      BeyondFlat(pt.mem, root, v);
    }
    FlatOfNull(pt.mem, pt.owner, pt.free);
    OneGone(flat, v);
    var ret := pt.Unmap(root, addr, PAGE_SIZE, true);
  }

  lemma OneGone(flat: map<nat, Word>, v: nat)
    ensures Without(flat, v, v + 1) == flat - {v} && Freed(flat, v, v + 1, true) == FreedOne(flat, v, true)
    ensures v !in flat ==> FreedOne(flat, v, true) == [] && flat - {v} == flat
  {
    WithoutStep(flat, v, v);
    FreedStep([], flat, v, v, true);
    RemoveOne(flat, v);
  }
}
