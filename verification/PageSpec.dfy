/** A page table as its callers can see it, and the requests as functions on that view: the answer
    and the outcome of every request are determined by the flat map, the tables there are, and the
    number of pages left. */
module PageSpec {
  import opened Pte
  import opened PageTree
  import opened PageEffects

  /** The flat map, the tables below the root by the address bits above their index, and the pages left. */
  datatype Table = Table(flat: map<nat, Word>, mids: set<nat>, leaves: set<nat>, pages: nat)

  /** The prefixes of the tables a tree has at one level. */
  ghost function Tables(owner: Owners, root: Page, level: nat): set<nat> {
    set p | p in owner && owner[p].root == root && owner[p].level == level :: owner[p].prefix
  }

  ghost function View(mem: Memory, owner: Owners, free: seq<Page>, root: Page): Table {
    Table(Flat(mem, root), Tables(owner, root, 1), Tables(owner, root, 0), |free|)
  }

  lemma ViewFlat(mem: Memory, owner: Owners, free: seq<Page>, root: Page)
    ensures View(mem, owner, free, root).flat == Flat(mem, root) && View(mem, owner, free, root).pages == |free|
  {
  }

  lemma ViewTables(mem: Memory, owner: Owners, free: seq<Page>, root: Page)
    ensures View(mem, owner, free, root).mids == Tables(owner, root, 1)
      && View(mem, owner, free, root).leaves == Tables(owner, root, 0)
    ensures View(mem, owner, free, root).pages == |free|
  {
  }

  /** A mapped page has its leaf table, and a leaf table its middle table. */
  ghost predicate Closed(s: Table) {
    && (forall v :: v in s.flat ==> v < MAXVPN && v / 0x200 in s.leaves)
    && (forall l :: l in s.leaves ==> l / 0x200 in s.mids)
  }

  ghost function Count(missing: bool): nat { if missing then 1 else 0 }

  /** How many tables the path of page `v` lacks. */
  ghost function Missing(s: Table, v: nat): nat { Count(v / 0x40000 !in s.mids) + Count(v / 0x200 !in s.leaves) }

  /** The next table on a path: there already, created, or refused because no page is left. */
  ghost function Reached(s: Table, level: nat, prefix: nat): (Table, bool) {
    if prefix in (if level == 1 then s.mids else s.leaves) then (s, true)
    else if s.pages == 0 then (s, false)
    else if level == 1 then (s.(mids := s.mids + {prefix}, pages := s.pages - 1), true)
    else (s.(leaves := s.leaves + {prefix}, pages := s.pages - 1), true)
  }

  /** A walk to page `v` that allocates, and whether it arrived. */
  ghost function Walked(s: Table, v: nat): (Table, bool) {
    var (mid, ok) := Reached(s, 1, v / 0x40000);
    if ok then Reached(mid, 0, v / 0x200) else (mid, false)
  }

  /** An allocating walk arrives exactly when there are pages for the tables that are missing; then it has
      created those and no others. When it fails, memory is used up and the leaf table is still missing. */
  lemma WalkedMeaning(s: Table, v: nat)
    requires Closed(s)
    ensures Walked(s, v).0.flat == s.flat
    ensures Walked(s, v).1 <==> Missing(s, v) <= s.pages
    ensures Walked(s, v).1 ==>
      Walked(s, v).0 == Table(s.flat, s.mids + {v / 0x40000}, s.leaves + {v / 0x200}, s.pages - Missing(s, v))
    ensures !Walked(s, v).1 ==>
      && Walked(s, v).0.pages == 0 && Walked(s, v).0.leaves == s.leaves && v / 0x200 !in s.leaves
      && s.mids <= Walked(s, v).0.mids <= s.mids + {v / 0x40000}
      && |Walked(s, v).0.mids| == |s.mids| + s.pages
  {
    assert v / 0x200 / 0x200 == v / 0x40000;
    assert v / 0x40000 in s.mids ==> s.mids + {v / 0x40000} == s.mids;
    assert v / 0x200 in s.leaves ==> s.leaves + {v / 0x200} == s.leaves;
  }

  /** An owned table is the one the walk of its addresses reaches. */
  lemma OwnedAt(mem: Memory, owner: Owners, free: seq<Page>, p: Page, v: nat)
    requires Inv(mem, owner, free) && p in owner && owner[p].level <= 2 && v < MAXVPN
    requires owner[p].prefix == Prefix(owner[p].level, v)
    ensures TableAt(mem, owner[p].root, owner[p].level, v) == Some(p)
    decreases 2 - owner[p].level
  {
    hide Valid, PageOf, Prefix, Digit, Make;
    var level := owner[p].level;
    assert TableOk(mem, owner, p);
    if level < 2 {
      PrefixStep(level + 1, v);
      assert TableOk(mem, owner, owner[p].parent);
      OwnedAt(mem, owner, free, owner[p].parent, v);
    }
  }

  /** A tree has a table for a place exactly when the walk finds one there. */
  lemma TableThere(mem: Memory, owner: Owners, free: seq<Page>, root: Page, level: nat, v: nat)
    requires Inv(mem, owner, free) && IsRoot(owner, root) && level <= 2 && v < MAXVPN
    ensures Prefix(level, v) in Tables(owner, root, level) <==> TableAt(mem, root, level, v).Some?
  {
    hide Inv, Prefix, TableAt;
    TableAtOwned(mem, owner, free, root, level, v);
    if Prefix(level, v) in Tables(owner, root, level) {
      var p :| p in owner && owner[p].root == root && owner[p].level == level && owner[p].prefix == Prefix(level, v);
      OwnedAt(mem, owner, free, p, v);
    }
  }

  lemma ViewClosed(mem: Memory, owner: Owners, free: seq<Page>, root: Page)
    requires Inv(mem, owner, free) && IsRoot(owner, root)
    ensures Closed(View(mem, owner, free, root))
  {
    var s := View(mem, owner, free, root);
    forall v | v in s.flat ensures v < MAXVPN && v / 0x200 in s.leaves {
      hide Inv;
      FlatAt(mem, root, v);
      TableThere(mem, owner, free, root, 0, v);
    }
    forall l | l in s.leaves ensures l / 0x200 in s.mids {
      var p :| p in owner && owner[p].root == root && owner[p].level == 0 && owner[p].prefix == l;
      hide Flat;
      assert TableOk(mem, owner, p);
      assert owner[p].parent in owner;
    }
  }

  /** How far an allocating walk to page `v` has come when it stands at `level`. */
  ghost function WalkedTo(s: Table, v: nat, level: nat): (Table, bool) {
    if level >= 2 then (s, true) else if level == 1 then Reached(s, 1, v / 0x40000) else Walked(s, v)
  }

  lemma FlatKept(owner: Owners, root: Page, mem: Memory, mem': Memory)
    requires SameFlats(owner, mem, mem') && IsRoot(owner, root)
    ensures Flat(mem', root) == Flat(mem, root)
  {
  }

  lemma WalkEnds(s: Table, v: nat)
    ensures WalkedTo(s, v, 2) == (s, true) && WalkedTo(s, v, 0) == Walked(s, v)
  {
  }

  lemma NewTable(owner: Owners, root: Page, level: nat, prefix: nat, parent: Page, t: Page, l: nat)
    requires t !in owner
    ensures var owner' := owner[t := Slot(root, level, prefix, parent)];
            Tables(owner', root, l) == if l == level then Tables(owner, root, l) + {prefix} else Tables(owner, root, l)
  {
    var owner' := owner[t := Slot(root, level, prefix, parent)];
    assert forall p :: p in owner ==> owner'[p] == owner[p];
    assert forall p :: p in owner' ==> p == t || p in owner;
    assert t in owner';
  }

  /** The walk goes one level down to a table that was there, or stops because no page is left. */
  lemma WalkDown(s: Table, v: nat, level: nat, mem: Memory, owner: Owners, free: seq<Page>, root: Page)
    requires Inv(mem, owner, free) && IsRoot(owner, root) && v < MAXVPN && 0 < level <= 2
    requires WalkedTo(s, v, level) == (View(mem, owner, free, root), true)
    ensures TableAt(mem, root, level - 1, v).Some? ==> WalkedTo(s, v, level - 1) == (View(mem, owner, free, root), true)
    ensures TableAt(mem, root, level - 1, v) == None && free == [] ==>
      Walked(s, v) == (View(mem, owner, free, root), false)
  {
    hide Inv, TableAt, Flat, Tables;
    TableThere(mem, owner, free, root, level - 1, v);
  }

  /** The walk goes one level down to a fresh table. */
  lemma WalkGrow(s: Table, v: nat, level: nat, mem: Memory, owner: Owners, free: seq<Page>, root: Page, mem': Memory,
                 parent: Page)
    requires Inv(mem, owner, free) && IsRoot(owner, root) && v < MAXVPN && 0 < level <= 2
    requires WalkedTo(s, v, level) == (View(mem, owner, free, root), true)
    requires TableAt(mem, root, level - 1, v) == None && free != [] && Flat(mem', root) == Flat(mem, root)
    ensures var owner' := owner[free[0] := Slot(root, level - 1, Prefix(level - 1, v), parent)];
            WalkedTo(s, v, level - 1) == (View(mem', owner', free[1..], root), true)
  {
    TakeFree(mem, owner, free);
    TableThere(mem, owner, free, root, level - 1, v);
    NewTable(owner, root, level - 1, Prefix(level - 1, v), parent, free[0], 0);
    NewTable(owner, root, level - 1, Prefix(level - 1, v), parent, free[0], 1);
    hide Inv, TableAt, Flat, Tables;
  }

  /** Whether page `v` is mapped to another physical page than the one of `pa`. */
  ghost predicate Conflict(flat: map<nat, Word>, v: nat, pa: Word) {
    v in flat && PageOf(flat[v]) != Page(PageBase(pa))
  }

  /** Mapping one page in a flat map. */
  ghost function FlatMapped(flat: map<nat, Word>, va: nat, pa: Word, perm: bv32): (map<nat, Word>, int) {
    if va >= MAXVA || Conflict(flat, va / PAGE_SIZE, pa) then (flat, -1)
    else (flat[va / PAGE_SIZE := Make(PageBase(pa), SignExtend(perm))], 0)
  }

  ghost function Mapped(s: Table, va: nat, pa: Word, perm: bv32): (Table, int) {
    if va >= MAXVA then (s, -1) else
    var (w, ok) := Walked(s, va / PAGE_SIZE);
    if !ok then (w, -1) else
    var (flat, ret) := FlatMapped(s.flat, va, pa, perm);
    (w.(flat := flat), ret)
  }

  /** Memory is used up and the leaf table of page `v` is missing. */
  ghost predicate Short(s: Table, v: nat) { s.pages == 0 && v / 0x200 !in s.leaves }

  /** A request to map is refused exactly when the address is out of range, the page is mapped elsewhere, or its
      path lacks more tables than there are pages, and a mapped page lacks none. In the last case the shortage
      can be seen afterwards. One request takes at most two pages. */
  lemma MappedMeaning(s: Table, va: nat, pa: Word, perm: bv32)
    requires Closed(s)
    ensures var (s', ret) := Mapped(s, va, pa, perm);
            var v := va / PAGE_SIZE;
            && Closed(s')
            && (ret == 0 || ret == -1)
            && (ret == -1 <==> va >= MAXVA || Conflict(s.flat, v, pa) || Missing(s, v) > s.pages)
            && (v in s.flat ==> Missing(s, v) == 0)
            && (ret == -1 ==> s'.flat == s.flat)
            && (ret == -1 && va < MAXVA && !Conflict(s.flat, v, pa) ==> Short(s', v))
            && (ret == 0 ==> s'.flat == s.flat[v := Make(PageBase(pa), SignExtend(perm))])
            && s'.pages <= s.pages <= s'.pages + 2
            && s.leaves <= s'.leaves && (s.pages == 0 ==> s'.leaves == s.leaves)
  {
    hide Make, SignExtend, PageBase, PageOf, Walked;
    WalkedMeaning(s, va / PAGE_SIZE);
    assert va / PAGE_SIZE / 0x200 / 0x200 == va / PAGE_SIZE / 0x40000;
  }

  /** A request to the page-table module, for runs. */
  datatype Op = Map(va: nat, pa: Word, perm: bv32) | Unmap(va: nat, size: nat, freePhys: bool)

  ghost function FlatUnmapped(flat: map<nat, Word>, va: nat, size: nat): (map<nat, Word>, int) {
    var lo, hi := va / PAGE_SIZE, RoundUp((va + size) % MODULUS) / PAGE_SIZE;
    if lo >= MAXVPN || hi > MAXVPN || hi < lo then (flat, -1) else (Without(flat, lo, hi), 0)
  }

  /** One request on a flat map, without tables and without a limit of memory. */
  ghost function FlatApplied(flat: map<nat, Word>, op: Op): (map<nat, Word>, int) {
    match op
    case Map(va, pa, perm) => FlatMapped(flat, va, pa, perm)
    case Unmap(va, size, _) => FlatUnmapped(flat, va, size)
  }

  ghost function Applied(s: Table, op: Op): (Table, int) {
    match op
    case Map(va, pa, perm) => Mapped(s, va, pa, perm)
    case Unmap(va, size, _) => var (flat, ret) := FlatUnmapped(s.flat, va, size); (s.(flat := flat), ret)
  }

  /** The outcome of a run and its answers. */
  ghost function Ran(s: Table, ops: seq<Op>): (Table, seq<int>) {
    if ops == [] then (s, []) else
    var (mid, rets) := Ran(s, ops[..|ops| - 1]);
    var (s', ret) := Applied(mid, ops[|ops| - 1]);
    (s', rets + [ret])
  }

  ghost function FlatRan(flat: map<nat, Word>, ops: seq<Op>): (map<nat, Word>, seq<int>) {
    if ops == [] then (flat, []) else
    var (mid, rets) := FlatRan(flat, ops[..|ops| - 1]);
    var (flat', ret) := FlatApplied(mid, ops[|ops| - 1]);
    (flat', rets + [ret])
  }

  lemma RanSnoc(s: Table, ops: seq<Op>, op: Op)
    ensures var (mid, rets) := Ran(s, ops);
            var (s', ret) := Applied(mid, op);
            Ran(s, ops + [op]) == (s', rets + [ret])
  {
    assert (ops + [op])[..|ops|] == ops;
  }

  lemma AppliedMeaning(s: Table, op: Op)
    requires Closed(s)
    ensures var (s', ret) := Applied(s, op);
            && Closed(s') && s'.pages <= s.pages <= s'.pages + 2
            && (s'.pages > 0 || s.pages >= 2 ==> FlatApplied(s.flat, op) == (s'.flat, ret))
  {
    hide Make, SignExtend, PageBase, PageOf, RoundUp, Walked;
    if op.Map? {
      MappedMeaning(s, op.va, op.pa, op.perm);
      WalkedMeaning(s, op.va / PAGE_SIZE);
    }
  }

  /** Every run that leaves a page over, or starts with two for each request, gives the answers and the map of
      the same run on a flat map: there only conflicts and addresses out of range are refused. */
  lemma {:induction false} RunsAsFlat(s: Table, ops: seq<Op>)
    requires Closed(s)
    ensures var (s', rets) := Ran(s, ops);
            && Closed(s') && |rets| == |ops| && s'.pages <= s.pages <= s'.pages + 2 * |ops|
            && (s'.pages > 0 || s.pages >= 2 * |ops| ==> FlatRan(s.flat, ops) == (s'.flat, rets))
    decreases |ops|
  {
    hide Applied, FlatApplied, Closed;
    if ops != [] {
      RunsAsFlat(s, ops[..|ops| - 1]);
      AppliedMeaning(Ran(s, ops[..|ops| - 1]).0, ops[|ops| - 1]);
    }
  }

  const PAGES := 0x10_0000_0000_0000       // virtual page numbers wrap here

  /** How many pages after page `base` the page `v` lies, counting round the address space. */
  function Ahead(base: nat, v: nat): nat
    requires base < PAGES && v < PAGES
  {
    (v + PAGES - base) % PAGES
  }

  lemma AheadInverse(base: nat, i: nat)
    requires base < PAGES && i < PAGES
    ensures Ahead(base, (base + i) % PAGES) == i
    ensures forall v: nat :: v < PAGES && Ahead(base, v) == i ==> v == (base + i) % PAGES
  {
  }

  /** The physical address `i` pages after `pa`, wrapping at 64 bits. */
  function Nth(pa: Word, i: nat): Word
    requires i < PAGES
  {
    pa + (i * PAGE_SIZE) as bv64
  }

  /** The first `n` pages from address `va` requested one after the other, whatever the answers. */
  ghost function RangeMapped(s: Table, va: nat, n: nat, pa: Word, perm: bv32): Table
    requires n <= PAGES
  {
    if n == 0 then s
      else Mapped(RangeMapped(s, va, n - 1, pa, perm), (va + (n - 1) * PAGE_SIZE) % MODULUS, Nth(pa, n - 1), perm).0
  }

  ghost predicate SameAt(before: map<nat, Word>, after: map<nat, Word>, v: nat) {
    (v in after <==> v in before) && (v in before ==> after[v] == before[v])
  }

  /** Page `v` after a request to map it: installed, or left alone because it is mapped to another page or
      because memory ran out before its leaf table was there. */
  ghost predicate Requested(before: map<nat, Word>, s: Table, v: nat, pa: Word, perm: bv32) {
    if Conflict(before, v, pa) || Short(s, v) then SameAt(before, s.flat, v)
    else v in s.flat && s.flat[v] == Make(PageBase(pa), SignExtend(perm))
  }

  /** Page `v` after the first `n` pages from page `base` were requested. */
  ghost predicate PageRequested(before: map<nat, Word>, s: Table, base: nat, n: nat, pa: Word, perm: bv32, v: nat)
    requires base < PAGES && v < PAGES
  {
    if Ahead(base, v) < n then Requested(before, s, v, Nth(pa, Ahead(base, v)), perm) else SameAt(before, s.flat, v)
  }

  lemma PageAhead(va: nat, n: nat)
    requires va < MODULUS && va % PAGE_SIZE == 0 && n < PAGES
    ensures (va + n * PAGE_SIZE) % MODULUS / PAGE_SIZE == (va / PAGE_SIZE + n) % PAGES
    ensures (va + n * PAGE_SIZE) % MODULUS >= MAXVA ==> (va / PAGE_SIZE + n) % PAGES >= MAXVPN
  {
  }

  /** One request settles its own page, and keeps what holds of a page requested before or not yet. */
  lemma RequestStep(before: map<nat, Word>, s: Table, at: nat, pa: Word, perm: bv32, v: nat, pa': Word)
    requires Closed(s) && v < MAXVPN
    ensures var s' := Mapped(s, at, pa, perm).0;
            && (v == at / PAGE_SIZE && SameAt(before, s.flat, v) ==> Requested(before, s', v, pa, perm))
            && (v != at / PAGE_SIZE && SameAt(before, s.flat, v) ==> SameAt(before, s'.flat, v))
            && (v != at / PAGE_SIZE && Requested(before, s, v, pa', perm) ==> Requested(before, s', v, pa', perm))
  {
    MappedMeaning(s, at, pa, perm);
    hide Make, SignExtend, PageBase, PageOf, Mapped, Conflict;
    if SameAt(before, s.flat, v) {
      ConflictSame(before, s.flat, v, pa);
    }
  }

  lemma RequestNextAt(before: map<nat, Word>, s: Table, va: nat, n: nat, pa: Word, perm: bv32, v: nat)
    requires va < MODULUS && va % PAGE_SIZE == 0 && n < PAGES && v < MAXVPN && Closed(s)
    requires PageRequested(before, s, va / PAGE_SIZE, n, pa, perm, v)
    ensures PageRequested(before, Mapped(s, (va + n * PAGE_SIZE) % MODULUS, Nth(pa, n), perm).0, va / PAGE_SIZE, n + 1,
      pa, perm, v)
  {
    hide Nth, Mapped, Ahead, Requested, SameAt, Closed;
    var at := (va + n * PAGE_SIZE) % MODULUS;
    PageAhead(va, n);
    AheadInverse(va / PAGE_SIZE, n);
    var i := Ahead(va / PAGE_SIZE, v);
    RequestStep(before, s, at, Nth(pa, n), perm, v, if i < n then Nth(pa, i) else pa);
  }

  lemma ConflictSame(a: map<nat, Word>, b: map<nat, Word>, v: nat, pa: Word)
    requires SameAt(a, b, v)
    ensures Conflict(a, v, pa) == Conflict(b, v, pa)
  {
  }

  /** A range request treats every page on its own: each page of the range ends up mapped as asked, unless it was
      mapped elsewhere or memory ran out before its leaf table was there; every other page is as before. */
  lemma {:induction false} RangeMeaning(s: Table, va: nat, n: nat, pa: Word, perm: bv32)
    requires va < MODULUS && va % PAGE_SIZE == 0 && n <= PAGES && Closed(s)
    ensures Closed(RangeMapped(s, va, n, pa, perm))
    ensures forall v: nat :: v < MAXVPN ==>
      PageRequested(s.flat, RangeMapped(s, va, n, pa, perm), va / PAGE_SIZE, n, pa, perm, v)
    decreases n
  {
    hide Make, SignExtend, PageBase, PageOf, Nth, Mapped, Ahead, Closed, Requested;
    if n > 0 {
      RangeMeaning(s, va, n - 1, pa, perm);
      var before := RangeMapped(s, va, n - 1, pa, perm);
      MappedMeaning(before, (va + (n - 1) * PAGE_SIZE) % MODULUS, Nth(pa, n - 1), perm);
      forall v: nat | v < MAXVPN ensures PageRequested(s.flat, RangeMapped(s, va, n, pa, perm), va / PAGE_SIZE, n, pa,
        perm, v) {
        RequestNextAt(s.flat, before, va, n - 1, pa, perm, v);
      }
    }
  }
}
