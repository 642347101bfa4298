/** The areas of an address space: looking them up, adding them, and searching for a free range. */
module Areas {
  import opened Pte
  import opened PageTree
  import opened PageEffects
  import opened PageTable
  import opened HeapDrop

  type Bits = bv64
  type Prot = bv32

  datatype Kind = Anonymous | Private | Shared | Mapped | Stack | Heap | Text | Data | Bss | Vdso

  const PROT_READ: Prot := 1
  const PROT_WRITE: Prot := 2
  const PROT_EXEC: Prot := 4

  const VM_READ: Bits := 1
  const VM_WRITE: Bits := 2
  const VM_EXEC: Bits := 4
  const VM_SHARED: Bits := 8
  const VM_PRIVATE: Bits := 0x10
  const VM_MAYREAD: Bits := 0x20
  const VM_MAYWRITE: Bits := 0x40
  const VM_MAYEXEC: Bits := 0x80
  const VM_GROWSDOWN: Bits := 0x200
  const VM_GROWSUP: Bits := 0x400
  const VM_USER: Bits := 0x800

  const MAP_SHARED: Bits := 1
  const MAP_PRIVATE: Bits := 2
  const MAP_FIXED: Bits := 0x10
  const MAP_ANONYMOUS: Bits := 0x20
  const MAP_GROWSDOWN: Bits := 0x100

  const ENOMEM := 12
  const EACCES := 13
  const EINVAL := 22

  const MAX_BYTES := MAX_PAGES * PAGE_SIZE

  /** `pages` is the page array (empty when there is none), `count` the recorded number of its elements. */
  datatype Area = Area(start: nat, end: nat, kind: Kind, prot: Prot, flags: Bits, pages: seq<Page>, count: int,
    file: nat, pgoff: int)

  predicate Contains(a: Area, x: nat) { a.start <= x < a.end }

  predicate Meets(a: Area, start: nat, end: nat) { start < a.end && end > a.start }

  predicate Apart(a: Area, b: Area) { a.end <= b.start || b.end <= a.start }

  ghost predicate AreaOk(a: Area) {
    a.start < a.end < MODULUS && -MAX_PAGES - 1 <= a.count <= MAX_PAGES && a.count <= |a.pages|
  }

  /** Areas are not empty and do not overlap. */
  ghost predicate ListOk(areas: seq<Area>) {
    && (forall i :: 0 <= i < |areas| ==> AreaOk(areas[i]))
    && (forall i, j :: 0 <= i < j < |areas| ==> Apart(areas[i], areas[j]))
  }

  lemma AreaAt(areas: seq<Area>, k: nat)
    requires ListOk(areas) && k < |areas|
    ensures AreaOk(areas[k])
  {
  }

  /** The page array has an element for every page of the area. */
  ghost predicate Covers(a: Area) { a.end - a.start <= a.count * PAGE_SIZE }

  ghost predicate AllCover(areas: seq<Area>) { forall i :: 0 <= i < |areas| ==> Covers(areas[i]) }

  /** No area meets the range. */
  ghost predicate Clear(areas: seq<Area>, start: nat, end: nat) {
    forall i :: 0 <= i < |areas| ==> !Meets(areas[i], start, end)
  }

  /** Number of pages of a range as the kernel computes and stores it. */
  function PageCount(len: nat): (r: int)
    ensures -MAX_PAGES - 1 <= r <= MAX_PAGES
  {
    Int32((len + PAGE_SIZE - 1) % MODULUS / PAGE_SIZE)
  }

  /** The recorded count covers the range exactly when the range has at most 2^31 - 1 pages. */
  lemma PageCountCovers(len: nat)
    requires 0 < len < MODULUS
    ensures len <= PageCount(len) * PAGE_SIZE <==> len <= MAX_BYTES
    ensures len <= MAX_BYTES ==> PageCount(len) == (len + PAGE_SIZE - 1) / PAGE_SIZE > 0
  {
    var n := (len + PAGE_SIZE - 1) % MODULUS / PAGE_SIZE;
    if len <= MAX_BYTES {
      assert (len + PAGE_SIZE - 1) % MODULUS == len + PAGE_SIZE - 1;
      assert n <= MAX_PAGES;
    } else {
      assert PageCount(len) <= MAX_PAGES;
    }
  }

  /** An area one page longer than 2^32 pages records a single page. */
  lemma HugeAreaIsNotCovered()
    ensures PageCount(0x1000_0000_1000) == 1 && 0x1000_0000_1000 > 1 * PAGE_SIZE
  {
  }

  function AccessFlags(prot: Prot): Bits {
    (if prot & PROT_READ != 0 then VM_READ | VM_MAYREAD else 0)
    | (if prot & PROT_WRITE != 0 then VM_WRITE | VM_MAYWRITE else 0)
    | (if prot & PROT_EXEC != 0 then VM_EXEC | VM_MAYEXEC else 0)
  }

  /** The flags of a new area: those asked for and those of its protection. */
  function AreaFlags(flags: Bits, prot: Prot): Bits { flags | AccessFlags(prot) }

  ghost predicate NoPages(pages: seq<Page>) { forall i :: 0 <= i < |pages| ==> pages[i] == NULL }

  /** A cleared array of `count` elements, or none. */
  function EmptyArray(count: int): (pages: seq<Page>)
    ensures NoPages(pages) && |pages| == if count > 0 then count else 0
  {
    if count > 0 then seq(count, _ => NULL) else []
  }

  /** One area was put in front of the list: the range was free, the page array is clear, and it covers the area exactly
      when the area has at most 2^31 - 1 pages. */
  ghost predicate Added(areas: seq<Area>, areas': seq<Area>, start: nat, end: nat, kind: Kind, flags: Bits, file: nat) {
    && start < end && Clear(areas, start, end) && |areas'| == |areas| + 1 && areas' == [areas'[0]] + areas
    && var a := areas'[0];
       && a.start == start && a.end == end && a.kind == kind && a.flags == flags && a.file == file
       && NoPages(a.pages) && a.count == PageCount(end - start) && (Covers(a) <==> end - start <= MAX_BYTES)
  }

  /** A new area in front of a list it does not overlap. */
  lemma AddOk(areas: seq<Area>, a: Area)
    requires ListOk(areas) && AreaOk(a) && Clear(areas, a.start, a.end)
    ensures ListOk([a] + areas)
  {
    forall i, j | 0 <= i < j < |areas| + 1 ensures Apart(([a] + areas)[i], ([a] + areas)[j]) {
      if i == 0 {
        assert !Meets(areas[j - 1], a.start, a.end);
      }
    }
  }

  /** Changing one area within the room it has. */
  lemma ChangeOk(areas: seq<Area>, k: nat, a: Area)
    requires ListOk(areas) && k < |areas| && AreaOk(a)
    requires forall i :: 0 <= i < |areas| && i != k ==> Apart(areas[i], a)
    ensures ListOk(areas[k := a])
  {
  }

  /** The bounds of a segment widened by a new area; 0 stands for no start. */
  function Widened(bounds: (nat, nat), start: nat, end: nat): (nat, nat) {
    (if bounds.0 == 0 || start < bounds.0 then start else bounds.0, if end > bounds.1 then end else bounds.1)
  }

  /** A request; `memory` says whether the allocations it makes succeed. */
  datatype Request =
    | Setup(addr: nat, len: nat, kind: Kind, prot: Prot, flags: Bits, memory: bool)
    | Mmap(addr: nat, len: nat, prot: Prot, flags: Bits, file: nat, pgoff: int, memory: bool)
    | Brk(to: nat, memory: bool)

  /** The arguments are 64-bit values. */
  predicate InRange(r: Request) { if r.Brk? then r.to < MODULUS else r.addr < MODULUS && r.len < MODULUS }

  /** Areas, break, mappings and the arguments of put_page. */
  datatype State = State(areas: seq<Area>, brk: nat, flat: map<nat, Word>, put: seq<Page>)

  /** The area a request makes or extends gets at most 2^31 - 1 pages. */
  ghost predicate Small(r: Request, s: State)
    requires InRange(r)
  {
    match r
    case Setup(_, len, _, _, _, _) => len <= MAX_BYTES
    case Mmap(_, len, _, _, _, _, _) => RoundUp(len) <= MAX_BYTES
    case Brk(to, _) => RoundUp(to) > s.brk ==> HeapLength(s.areas, s.brk, RoundUp(to)) <= MAX_BYTES
  }

  /** vm_area_setup on a list of areas: with memory it succeeds exactly for a range that is not empty, does not wrap
      and meets no area. */
  ghost predicate SetUp(areas: seq<Area>, areas': seq<Area>, addr: nat, len: nat, kind: Kind, flags: Bits, memory: bool,
                        ok: bool) {
    && (ok <==> memory && 0 < len && addr + len < MODULUS && Clear(areas, addr, addr + len))
    && if ok then Added(areas, areas', addr, addr + len, kind, flags, 0) else areas' == areas
  }

  /** mmap_file on a list of areas, at address `at`. */
  ghost predicate MappedFile(areas: seq<Area>, areas': seq<Area>, brk: nat, addr: nat, length: nat, prot: Prot,
                             flags: Bits,
                             file: nat, pgoff: int, memory: bool, ret: int, at: nat)
    requires length < MODULUS && addr < MODULUS
  {
    && (if addr != 0 || length == 0 then at == addr else FirstFree(areas, brk, RoundUp(length), at))
    && (ret >= 0 <==>
      memory && 0 < RoundUp(length) && at + RoundUp(length) < MODULUS && Clear(areas, at, at + RoundUp(length)))
    && (ret == -EINVAL <==>
      length == 0 || (addr != 0 && flags & MAP_FIXED != 0 && Blocked(areas, addr, RoundUp(length))))
    && (ret < 0 ==> ret in {-EINVAL, -ENOMEM} && areas' == areas)
    && (ret >= 0 ==>
          && ret == at && (file != 0 ==> areas' != [] && areas'[0].pgoff == pgoff)
          && Added(areas, areas', ret, ret + RoundUp(length), MapKind(prot, flags, file), MapFlags(prot, flags), file))
  }

  /** do_brk: the break moves to a page boundary at or above its start, or the error says why not. Growing adds exactly
      the new range to a heap area or to a new one; shrinking cuts the heap area that contains the new break and
      gives up its pages above it. */
  ghost predicate Moved(s: State, s': State, startBrk: nat, newBrk: nat, memory: bool, ret: int)
    requires newBrk < MODULUS
  {
    && (newBrk == 0 ==> ret == s.brk)
    && (ret < 0 || newBrk == 0 || RoundUp(newBrk) == s.brk ==> s' == s)
    && (ret < 0 ==> ret in {-EINVAL, -ENOMEM})
    && (ret == -EINVAL <==> newBrk != 0 && RoundUp(newBrk) < startBrk)
    && (ret == -ENOMEM <==>
          && newBrk != 0 && startBrk <= RoundUp(newBrk) && s.brk < RoundUp(newBrk)
          && (!Clear(s.areas, s.brk, RoundUp(newBrk)) || (!memory && NeedsMemory(s.areas, s.brk, RoundUp(newBrk)))))
    && (ret >= 0 ==> ret == s'.brk && (newBrk == 0 || s'.brk == RoundUp(newBrk)))
    && (s'.brk > s.brk ==> Grown(s.areas, s'.areas, s.brk, s'.brk) && s'.flat == s.flat && s'.put == s.put)
    && (s'.brk < s.brk ==>
          if HeapAcross(s.areas, s'.brk) then Cut(s, s', s'.brk, s.brk) else s' == s.(brk := s'.brk))
  }

  /** What one request does. */
  ghost predicate Stepped(s: State, r: Request, ret: int, s': State, startBrk: nat)
    requires InRange(r)
  {
    match r
    case Setup(addr, len, kind, prot, flags, memory) =>
      && s' == s.(areas := s'.areas)
      && SetUp(s.areas, s'.areas, addr, len, kind, AreaFlags(flags, prot), memory, ret == 0)
    case Mmap(addr, len, prot, flags, file, pgoff, memory) =>
      && s' == s.(areas := s'.areas)
      && exists at :: MappedFile(s.areas, s'.areas, s.brk, addr, len, prot, flags, file, pgoff, memory, ret, at)
    case Brk(to, memory) => Moved(s, s', startBrk, to, memory, ret)
  }

  /** The length of the heap area that ends at the break once the break has moved up. */
  ghost function HeapLength(areas: seq<Area>, lo: nat, hi: nat): int {
    if HeapEndsAt(areas, lo) then
      var k :| 0 <= k < |areas| && areas[k].kind == Heap && areas[k].end == lo;
      hi - areas[k].start
    else hi - lo
  }

  lemma NewHeapLength(areas: seq<Area>, lo: nat, hi: nat)
    requires !HeapEndsAt(areas, lo)
    ensures HeapLength(areas, lo, hi) == hi - lo
  {
  }

  lemma HeapLengthAt(areas: seq<Area>, k: nat, hi: nat)
    requires ListOk(areas) && k < |areas| && areas[k].kind == Heap
    ensures HeapLength(areas, areas[k].end, hi) == hi - areas[k].start
  {
    assert HeapEndsAt(areas, areas[k].end);
    forall i | 0 <= i < |areas| && i != k ensures areas[i].end != areas[k].end {
      OneEnd(areas, i, k);
    }
  }

  class AddressSpace {
    var areas: seq<Area>
    var mapCount: int
    var startBrk: nat
    var brk: nat
    var code: (nat, nat)
    var data: (nat, nat)

    constructor (areas: seq<Area>, startBrk: nat, brk: nat)
      requires ListOk(areas) && startBrk <= brk < MODULUS && brk % PAGE_SIZE == 0
      ensures Valid() && this.areas == areas && this.startBrk == startBrk && this.brk == brk
    {
      this.areas, this.startBrk, this.brk := areas, startBrk, brk;
      mapCount, code, data := |areas|, (0, 0), (0, 0);
    }

    ghost function Now(pt: PageTables, root: Page): State
      reads this, pt
    {
      State(areas, brk, pt.FlatOf(root), pt.released)
    }

    ghost predicate Valid()
      reads this
    {
      ListOk(areas) && mapCount == |areas| && startBrk <= brk < MODULUS && brk % PAGE_SIZE == 0
    }

    /** find_vma: the area that contains an address; there is at most one. */
    method FindVma(addr: nat) returns (k: int)
      requires ListOk(areas)
      ensures -1 <= k < |areas|
      ensures k == -1 <==> forall i :: 0 <= i < |areas| ==> !Contains(areas[i], addr)
      ensures forall i :: 0 <= i < |areas| ==> (Contains(areas[i], addr) <==> i == k)
    {
      k := 0;
      while k < |areas|
        invariant 0 <= k <= |areas| && forall i :: 0 <= i < k ==> !Contains(areas[i], addr)
      {
        if addr >= areas[k].start && addr < areas[k].end {
          assert forall i :: k < i < |areas| ==> Apart(areas[k], areas[i]);
          return;
        }
        k := k + 1;
      }
      return -1;
    }

    /** find_vma_intersection: some area that meets the range; a range that is empty or wraps meets none. */
    method FindIntersection(start: nat, end: nat) returns (k: int)
      ensures -1 <= k < |areas|
      ensures k == -1 <==> start >= end || Clear(areas, start, end)
      ensures k >= 0 ==> Meets(areas[k], start, end)
    {
      if start >= end {
        return -1;
      }
      k := 0;
      while k < |areas|
        invariant 0 <= k <= |areas| && forall i :: 0 <= i < k ==> !Meets(areas[i], start, end)
      {
        if start < areas[k].end && end > areas[k].start {
          return;
        }
        k := k + 1;
      }
      return -1;
    }

    /** vm_area_setup. Given memory, it succeeds exactly for a range that is not empty, does not wrap and meets no area;
        then the area is at the front of the list, and its page array covers it exactly when it has at most 2^31 - 1
        pages. */
    method AreaSetup(addr: nat, len: nat, kind: Kind, prot: Prot, flags: Bits, memory: bool) returns (ok: bool)
      requires Valid() && addr < MODULUS && len < MODULUS
      modifies this`areas, this`mapCount, this`code, this`data
      ensures Valid()
      ensures SetUp(old(areas), areas, addr, len, kind, AreaFlags(flags, prot), memory, ok)
      ensures !ok ==> mapCount == old(mapCount) && code == old(code) && data == old(data)
      ensures ok ==>
        && code == (if kind == Text then Widened(old(code), addr, addr + len) else old(code))
        && data == (if kind == Data then Widened(old(data), addr, addr + len) else old(data))
    {
      hide ListOk, PageCount, AreaFlags, AccessFlags, Widened, NoPages, Clear;
      var end := (addr + len) % MODULUS;
      if addr >= end {
        return false;
      }
      if !memory {
        return false;
      }
      var count := PageCount(end - addr);
      var pages := EmptyArray(count);
      var a := Area(addr, end, kind, 0, AreaFlags(flags, prot), pages, count, 0, 0);
      var k := FindIntersection(addr, end);
      if k != -1 {
        return false;
      }
      AddOk(areas, a);
      PageCountCovers(len);
      areas := [a] + areas;
      mapCount := mapCount + 1;
      if kind == Text {
        code := Widened(code, addr, end);
      } else if kind == Data {
        data := Widened(data, addr, end);
      }
      return true;
    }

    /** find_free_area: the first candidate from the break on, in steps of a page, that meets no area, or, past the last
        area, the first whose range wraps. */
    method FindFreeArea(length: nat) returns (addr: nat, ghost k: nat)
      requires Valid() && length < MODULUS && length % PAGE_SIZE == 0
      ensures addr == Candidate(brk, k) < MODULUS && !Blocked(areas, addr, length)
      ensures forall j: nat :: j < k ==> Blocked(areas, Candidate(brk, j), length)
      ensures FirstFree(areas, brk, length, addr)
    {
      hide RoundUp, ListOk, Blocked, Candidate;
      addr, k := brk, 0;
      assert addr == Candidate(brk, k) by { CandidateStep(brk, 0); }
      var hit := Probe(addr, length);
      while hit
        invariant addr == Candidate(brk, k) < MODULUS && addr % PAGE_SIZE == 0
        invariant hit <==> Blocked(areas, addr, length)
        invariant forall j: nat :: j < k ==> Blocked(areas, Candidate(brk, j), length)
        decreases MODULUS - addr
      {
        CandidateStep(brk, k);
        BlockedRoom(areas, addr, length);
        addr := RoundUp((addr + PAGE_SIZE) % MODULUS);
        k := k + 1;
        hit := Probe(addr, length);
      }
    }

    /** The loop's test: with 64-bit wrap-around of the end address. */
    method Probe(addr: nat, length: nat) returns (hit: bool)
      requires addr < MODULUS && length < MODULUS
      ensures hit <==> Blocked(areas, addr, length)
    {
      hide Clear;
      var k := FindIntersection(addr, (addr + length) % MODULUS);
      hit := k != -1;
    }

    /** mmap_file without MAP_POPULATE: the range asked for, or the first free one when no address is given. */
    method MmapFile(addr: nat, length: nat, prot: Prot, flags: Bits, file: nat, pgoff: int, memory: bool)
      returns (ret: int, ghost at: nat)
      requires Valid() && addr < MODULUS && length < MODULUS
      modifies this`areas, this`mapCount, this`code, this`data
      ensures Valid()
      ensures MappedFile(old(areas), areas, brk, addr, length, prot, flags, file, pgoff, memory, ret, at)
      ensures ret < 0 ==> mapCount == old(mapCount) && code == old(code) && data == old(data)
      ensures ret >= 0 ==>
        && code ==
          (if MapKind(prot, flags, file) == Text then Widened(old(code), ret, ret + RoundUp(length)) else old(code))
        && data == (if file != 0 then Widened(old(data), ret, ret + RoundUp(length)) else old(data))
    {
      hide ListOk, RoundUp, AreaFlags, AccessFlags, Widened, Clear, Candidate, Blocked, MapKind, MapFlags, Added,
        FirstFree;
      RoundUpMeaning(length);
      if length == 0 {
        return -EINVAL, addr;
      }
      var len, kind := RoundUp(length), MapKind(prot, flags, file);
      var taken, start := ChooseAddress(addr, len, flags);
      BlockedIs(areas, start, len);
      if taken {
        return -EINVAL, start;
      }
      var ok := AreaSetup(start, len, kind, prot, MapFlags(prot, flags), memory);
      if !ok {
        return -ENOMEM, start;
      }
      MapFlagsAccess(prot, flags);
      MapKindFile(prot, flags, file);
      Attach(old(areas), old(code), start, len, kind, MapFlags(prot, flags), file, pgoff);
      return start, start;
    }

    /** The address of a new mapping; a fixed one must be free. */
    method ChooseAddress(addr: nat, len: nat, flags: Bits) returns (taken: bool, at: nat)
      requires Valid() && addr < MODULUS && len < MODULUS && len % PAGE_SIZE == 0
      ensures at < MODULUS && if addr != 0 then at == addr else FirstFree(areas, brk, len, at)
      ensures taken <==> addr != 0 && flags & MAP_FIXED != 0 && Blocked(areas, addr, len)
    {
      hide ListOk, FirstFree, Candidate, Blocked, Clear;
      taken, at := false, addr;
      if addr == 0 {
        ghost var k;
        at, k := FindFreeArea(len);
      } else if flags & MAP_FIXED != 0 {
        taken := Probe(addr, len);
      }
    }

    /** The file of a new mapping, and the segment bounds, which for text are widened a second time. */
    method Attach(ghost was: seq<Area>, ghost wasCode: (nat, nat), at: nat, len: nat, kind: Kind, ghost flags: Bits,
                  file: nat, pgoff: int)
      requires Valid() && Added(was, areas, at, at + len, kind, flags, 0) && (kind == Mapped <==> file != 0)
        && kind != Data
      requires code == if kind == Text then Widened(wasCode, at, at + len) else wasCode
      modifies this`areas, this`code, this`data
      ensures Valid() && Added(was, areas, at, at + len, kind, flags, file) && code == old(code)
      ensures data == if file != 0 then Widened(old(data), at, at + len) else old(data)
      ensures file != 0 ==> areas != [] && areas[0].pgoff == pgoff
    {
      hide ListOk, Widened, Added;
      if file != 0 {
        SetFile(was, areas, at, at + len, kind, flags, file, pgoff);
        areas := areas[0 := areas[0].(file := file, pgoff := pgoff)];
      }
      WidenedTwice(wasCode, at, at + len);
      if kind == Text {
        code := Widened(code, at, at + len);
      } else if kind == Data || kind == Mapped {
        data := Widened(data, at, at + len);
      }
    }

    /** do_brk. Page arrays that cover their areas still do if and only if the heap area has at most 2^31 - 1 pages. */
    method DoBrk(newBrk: nat, memory: bool, pt: PageTables, root: Page) returns (ret: int)
      requires Valid() && newBrk < MODULUS && pt.Ok() && (root == NULL || IsRoot(pt.owner, root))
      modifies this`areas, this`mapCount, this`brk, this`code, this`data, pt
      ensures Valid() && startBrk == old(startBrk)
      ensures Kept(old(pt.mem), old(pt.owner), old(pt.free), pt.mem, pt.owner, pt.free, root)
      ensures pt.mapped - old(pt.mapped) == |pt.FlatOf(root)| - |old(pt.FlatOf(root))|
      ensures Moved(old(Now(pt, root)), Now(pt, root), startBrk, newBrk, memory, ret)
      ensures AllCover(old(areas)) ==>
        (AllCover(areas) <==> brk > old(brk) ==> HeapLength(old(areas), old(brk), brk) <= MAX_BYTES)
    {
      hide ListOk, RoundUp, Clear, Covers, AllCover, Grown, Cut, HeapAcross, HeapLength, Inv, Flat, Extends, OtherFlats;
      KeptRefl(pt.mem, pt.owner, pt.free, root);
      if newBrk == 0 {
        return brk;
      }
      RoundUpMeaning(newBrk);
      var to, from := RoundUp(newBrk), brk;
      if to < startBrk {
        return -EINVAL;
      }
      if to == from {
        return from;
      }
      if to > from {
        var ok := Grow(to, memory);
        if !ok {
          return -ENOMEM;
        }
        CoverGrown(old(areas), areas, from, to);
        brk := to;
      } else {
        Shrink(to, pt, root);
        if HeapAcross(old(areas), to) {
          CoverCut(old(Now(pt, root)), Now(pt, root), to, from);
        }
      }
      return to;
    }

    /** The expansion branch of do_brk. */
    method Grow(to: nat, memory: bool) returns (ok: bool)
      requires Valid() && brk < to < MODULUS && to % PAGE_SIZE == 0
      modifies this`areas, this`mapCount, this`code, this`data
      ensures Valid()
      ensures ok <==> Clear(old(areas), brk, to) && (memory || !NeedsMemory(old(areas), brk, to))
      ensures if ok then Grown(old(areas), areas, brk, to) else areas == old(areas)
    {
      hide ListOk, Clear, AreaFlags, AccessFlags, Widened, SetUp, Grown, HeapEndsAt, Extended, Outgrows, NeedsMemory;
      var hit := FindIntersection(brk, to);
      if hit != -1 {
        return false;
      }
      var k := FindVma((brk + MODULUS - 1) % MODULUS);
      if k == -1 || areas[k].end != brk || areas[k].kind != Heap {
        NoHeapEnd(areas, brk, k);
        NewHeapNeeds(areas, brk, to);
        ok := AreaSetup(brk, to - brk, Heap, PROT_READ | PROT_WRITE, VM_GROWSUP | VM_PRIVATE | VM_USER, memory);
        GrownNew(old(areas), areas, brk, to, memory, ok);
        return;
      }
      AreaAt(areas, k);
      var a := areas[k];
      OldHeapNeeds(areas, k, to);
      if Outgrows(a, to) && !memory {
        return false;
      }
      ExtendOk(areas, k, to);
      GrownOld(areas, k, brk, to);
      areas := areas[k := Extended(a, to)];
      return true;
    }

    /** The contraction branch of do_brk. */
    method Shrink(to: nat, pt: PageTables, root: Page)
      requires Valid() && startBrk <= to < brk && to % PAGE_SIZE == 0 && pt.Ok()
        && (root == NULL || IsRoot(pt.owner, root))
      modifies this`areas, this`brk, pt
      ensures Valid() && brk == to
      ensures Kept(old(pt.mem), old(pt.owner), old(pt.free), pt.mem, pt.owner, pt.free, root)
      ensures pt.mapped - old(pt.mapped) == |pt.FlatOf(root)| - |old(pt.FlatOf(root))|
      ensures if HeapAcross(old(areas), to) then Cut(old(Now(pt, root)), Now(pt, root), to, old(brk))
              else Now(pt, root) == old(Now(pt, root)).(brk := to)
    {
      hide ListOk, Drop, Inv, Flat, Kept, Cut, AreaOk;
      KeptRefl(pt.mem, pt.owner, pt.free, root);
      var k := FindVma(to);
      if k == -1 || areas[k].start >= to || areas[k].kind != Heap {
        NoHeapAcross(areas, to, k);
        brk := to;
        return;
      }
      AreaAt(areas, k);
      var a := areas[k];
      ghost var s := Now(pt, root);
      var pages := ReleasePages(a, to, pt, root);
      CutHere(s, k, to, pages, pt.FlatOf(root), pt.released);
      areas := areas[k := a.(end := to, pages := pages)];
      brk := to;
    }

    /** The body of the loop: the page recorded for one address. */
    method ReleaseOnePage(a: Area, was: seq<Page>, addr: nat, pt: PageTables, root: Page) returns (pages: seq<Page>)
      requires AreaOk(a) && |was| == |a.pages| && a.start <= addr < MODULUS && addr % PAGE_SIZE == 0
      requires pt.Ok() && (root == NULL || IsRoot(pt.owner, root))
      modifies pt
      ensures Kept(old(pt.mem), old(pt.owner), old(pt.free), pt.mem, pt.owner, pt.free, root)
      ensures pt.mapped - old(pt.mapped) == |pt.FlatOf(root)| - |old(pt.FlatOf(root))|
      ensures |pages| == |was|
      ensures forall hits ::
        var e := DropOne(Dropping(was, old(pt.FlatOf(root)), old(pt.released), hits), a.start, a.count, addr);
              pages == e.pages && pt.FlatOf(root) == e.flat && pt.released == e.put
    {
      hide Index, Inv, Flat, Extends, OtherFlats, FreedOne;
      pages := was;
      KeptRefl(pt.mem, pt.owner, pt.free, root);
      var i := Index(a.start, addr);
      if 0 <= i < a.count && pages[i] != NULL {
        UnmapPage(pt, root, addr);
        pt.released := pt.released + [pages[i]];
        pages := pages[i := NULL];
      }
    }

    /** The loop over the pages above the new break. */
    method ReleasePages(a: Area, to: nat, pt: PageTables, root: Page) returns (pages: seq<Page>)
      requires AreaOk(a) && a.start < to < brk && to % PAGE_SIZE == 0 && brk < MODULUS && brk % PAGE_SIZE == 0
      requires pt.Ok() && (root == NULL || IsRoot(pt.owner, root))
      modifies pt
      ensures Kept(old(pt.mem), old(pt.owner), old(pt.free), pt.mem, pt.owner, pt.free, root)
      ensures pt.mapped - old(pt.mapped) == |pt.FlatOf(root)| - |old(pt.FlatOf(root))|
      ensures var e := Drop(Dropping(a.pages, old(pt.FlatOf(root)), old(pt.released), {}), a.start, a.count, to,
        (brk - to) / PAGE_SIZE);
              pages == e.pages && pt.FlatOf(root) == e.flat && pt.released == e.put
    {
      hide Index, Inv, Flat, Kept, FreedOne, DropOne;
      pages := a.pages;
      KeptRefl(pt.mem, pt.owner, pt.free, root);
      ghost var s, hits: set<nat> := Dropping(a.pages, pt.FlatOf(root), pt.released, {}), {};
      var addr, n := to, 0;
      while addr < brk
        invariant to <= addr <= brk && addr == to + n * PAGE_SIZE
        invariant Kept(old(pt.mem), old(pt.owner), old(pt.free), pt.mem, pt.owner, pt.free, root)
        invariant pt.mapped - old(pt.mapped) == |pt.FlatOf(root)| - |old(pt.FlatOf(root))|
        invariant |pages| == |a.pages|
          && Dropping(pages, pt.FlatOf(root), pt.released, hits) == Drop(s, a.start, a.count, to, n)
      {
        ghost var mem1, owner1, free1 := pt.mem, pt.owner, pt.free;
        ghost var was := Dropping(pages, pt.FlatOf(root), pt.released, hits);
        KeptOk(old(pt.mem), old(pt.owner), old(pt.free), pt.mem, pt.owner, pt.free, root);
        pages := ReleaseOnePage(a, pages, addr, pt, root);
        hits := DropOne(was, a.start, a.count, addr).hits;
        KeptTrans(old(pt.mem), old(pt.owner), old(pt.free), mem1, owner1, free1, pt.mem, pt.owner, pt.free, root);
        addr, n := addr + PAGE_SIZE, n + 1;
      }
    }

    /** Every run of requests is a run of steps, and keeps the areas apart and counted; while no area is made or
        extended past the int32 page count, every page array also covers its area. */
    method Serve(requests: seq<Request>, pt: PageTables, root: Page) returns (rets: seq<int>, ghost states: seq<State>)
      requires Valid() && pt.Ok() && (root == NULL || IsRoot(pt.owner, root))
        && forall r :: r in requests ==> InRange(r)
      modifies this, pt
      ensures Valid() && startBrk == old(startBrk)
      ensures Kept(old(pt.mem), old(pt.owner), old(pt.free), pt.mem, pt.owner, pt.free, root)
      ensures |rets| == |requests| && |states| == |requests| + 1
      ensures states[0] == old(Now(pt, root)) && states[|requests|] == Now(pt, root)
      ensures forall i :: 0 <= i < |requests| ==> Stepped(states[i], requests[i], rets[i], states[i + 1], startBrk)
      ensures AllCover(old(areas)) && (forall i :: 0 <= i < |requests| ==> Small(requests[i], states[i])) ==>
        AllCover(areas)
    {
      hide ListOk, Covers, AllCover, Small, Stepped, Inv, Flat, Extends, OtherFlats;
      KeptRefl(pt.mem, pt.owner, pt.free, root);
      rets, states := [], [Now(pt, root)];
      for n := 0 to |requests|
        invariant Valid() && startBrk == old(startBrk)
        invariant Kept(old(pt.mem), old(pt.owner), old(pt.free), pt.mem, pt.owner, pt.free, root)
        invariant |rets| == n && |states| == n + 1 && states[0] == old(Now(pt, root)) && states[n] == Now(pt, root)
        invariant forall i :: 0 <= i < n ==> Stepped(states[i], requests[i], rets[i], states[i + 1], startBrk)
        invariant AllCover(old(areas)) && (forall i :: 0 <= i < n ==> Small(requests[i], states[i])) ==> AllCover(areas)
      {
        ghost var mem1, owner1, free1 := pt.mem, pt.owner, pt.free;
        assert InRange(requests[n]);
        ghost var s := Now(pt, root);
        var ret := ServeOne(requests[n], pt, root);
        CoverStep(s, requests[n], ret, Now(pt, root), startBrk);
        KeptTrans(old(pt.mem), old(pt.owner), old(pt.free), mem1, owner1, free1, pt.mem, pt.owner, pt.free, root);
        rets, states := rets + [ret], states + [Now(pt, root)];
      }
    }

    method ServeOne(r: Request, pt: PageTables, root: Page) returns (ret: int)
      requires Valid() && pt.Ok() && (root == NULL || IsRoot(pt.owner, root)) && InRange(r)
      modifies this, pt
      ensures Valid() && startBrk == old(startBrk)
      ensures Kept(old(pt.mem), old(pt.owner), old(pt.free), pt.mem, pt.owner, pt.free, root)
      ensures Stepped(old(Now(pt, root)), r, ret, Now(pt, root), startBrk)
    {
      hide ListOk, SetUp, MappedFile, Moved, AreaFlags, AccessFlags, Inv, Flat, Widened, MapKind, MapFlags, Kept,
        Stepped, RoundUp;
      KeptRefl(pt.mem, pt.owner, pt.free, root);
      ghost var s := Now(pt, root);
      match r
      case Setup(addr, len, kind, prot, flags, memory) =>
        var ok := AreaSetup(addr, len, kind, prot, flags, memory);
        ret := if ok then 0 else -1;
        AreaStep(s, r, ret, areas, startBrk, 0);
      case Mmap(addr, len, prot, flags, file, pgoff, memory) =>
        ghost var at;
        ret, at := MmapFile(addr, len, prot, flags, file, pgoff, memory);
        AreaStep(s, r, ret, areas, startBrk, at);
      case Brk(to, memory) =>
        ret := DoBrk(to, memory, pt, root);
        BrkStep(s, r, ret, Now(pt, root), startBrk);
    }
  }

  lemma AreaStep(s: State, r: Request, ret: int, areas: seq<Area>, startBrk: nat, at: nat)
    requires InRange(r) && !r.Brk?
    requires r.Setup? ==> SetUp(s.areas, areas, r.addr, r.len, r.kind, AreaFlags(r.flags, r.prot), r.memory, ret == 0)
    requires r.Mmap? ==>
      MappedFile(s.areas, areas, s.brk, r.addr, r.len, r.prot, r.flags, r.file, r.pgoff, r.memory, ret, at)
    ensures Stepped(s, r, ret, s.(areas := areas), startBrk)
  {
    hide SetUp, MappedFile, AreaFlags, AccessFlags;
  }

  lemma BrkStep(s: State, r: Request, ret: int, s': State, startBrk: nat)
    requires InRange(r) && r.Brk? && Moved(s, s', startBrk, r.to, r.memory, ret)
    ensures Stepped(s, r, ret, s', startBrk)
  {
  }

  /** Page tables were changed in one tree only, without taking a page. */
  ghost predicate Kept(mem: Memory, owner: Owners, free: seq<Page>, mem': Memory, owner': Owners, free': seq<Page>,
                       root: Page) {
    && Inv(mem', owner', free') && owner' == owner && free' == free
    && Extends(mem, owner, free, mem', owner', free', root) && OtherFlats(owner, root, mem, mem')
  }

  lemma KeptRefl(mem: Memory, owner: Owners, free: seq<Page>, root: Page)
    requires Inv(mem, owner, free)
    ensures Kept(mem, owner, free, mem, owner, free, root)
  {
    ExtendsRefl(mem, owner, free, root);
  }

  lemma KeptOk(mem: Memory, owner: Owners, free: seq<Page>, mem': Memory, owner': Owners, free': seq<Page>, root: Page)
    requires Kept(mem, owner, free, mem', owner', free', root)
    ensures Inv(mem', owner', free') && owner' == owner && free' == free
  {
  }

  lemma KeptTrans(mem: Memory, owner: Owners, free: seq<Page>, mem1: Memory, owner1: Owners, free1: seq<Page>,
                  mem2: Memory, owner2: Owners, free2: seq<Page>, root: Page)
    requires Kept(mem, owner, free, mem1, owner1, free1, root) && Kept(mem1, owner1, free1, mem2, owner2, free2, root)
    ensures Kept(mem, owner, free, mem2, owner2, free2, root)
  {
    hide Inv, Extends, OtherFlats;
    ExtendsTrans(mem, owner, free, mem1, owner1, free1, mem2, owner2, free2, root);
  }

  /** Pages of an area that ends at `to`, as a uint64. */
  function PagesTo(a: Area, to: nat): nat
    requires a.start <= to
  {
    (to - a.start + PAGE_SIZE - 1) % MODULUS / PAGE_SIZE
  }

  /** The page array is too short for an area that ends at `to`; the count is compared as a uint64. */
  predicate Outgrows(a: Area, to: nat)
    requires AreaOk(a) && a.end <= to
  {
    PagesTo(a, to) > if a.count >= 0 then a.count else MODULUS + a.count
  }

  /** A heap area whose end moved up, with a page array long enough for it. */
  function Extended(a: Area, to: nat): Area
    requires AreaOk(a) && a.end <= to < MODULUS
  {
    if Outgrows(a, to) then
      a.(end := to, pages := a.pages[..a.count] + seq(PagesTo(a, to) - a.count, _ => NULL),
         count := Int32(PagesTo(a, to)))
    else a.(end := to)
  }

  /** Moving the break up to `hi` takes an allocation: no heap area ends at the break, or its page array is too
      short. */
  ghost predicate NeedsMemory(areas: seq<Area>, lo: nat, hi: nat) {
    forall k :: 0 <= k < |areas| && areas[k].kind == Heap && areas[k].end == lo <= hi && AreaOk(areas[k]) ==>
      Outgrows(areas[k], hi)
  }

  lemma NewHeapNeeds(areas: seq<Area>, lo: nat, hi: nat)
    requires !HeapEndsAt(areas, lo)
    ensures NeedsMemory(areas, lo, hi)
  {
  }

  lemma OldHeapNeeds(areas: seq<Area>, k: nat, hi: nat)
    requires ListOk(areas) && k < |areas| && areas[k].kind == Heap && areas[k].end <= hi && AreaOk(areas[k])
    ensures NeedsMemory(areas, areas[k].end, hi) <==> Outgrows(areas[k], hi)
  {
    hide Outgrows;
    forall i | 0 <= i < |areas| && i != k ensures areas[i].end != areas[k].end {
      OneEnd(areas, i, k);
    }
  }

  /** Areas apart do not end at the same address. */
  lemma OneEnd(areas: seq<Area>, i: nat, k: nat)
    requires ListOk(areas) && i < |areas| && k < |areas| && i != k
    ensures areas[i].end != areas[k].end
  {
    assert AreaOk(areas[i]) && AreaOk(areas[k]);
    assert Apart(areas[i], areas[k]) || Apart(areas[k], areas[i]);
  }

  /** From one list of areas to the other exactly the range from `lo` to `hi` was added: by a new heap area, or by
      moving the end of the heap area that ended at `lo`, which keeps the pages it had. */
  ghost predicate Grown(areas: seq<Area>, areas': seq<Area>, lo: nat, hi: nat) {
    && Clear(areas, lo, hi)
    && if HeapEndsAt(areas, lo) then exists k :: 0 <= k < |areas| && GrownAt(areas, areas', k, lo, hi)
       else Added(areas, areas', lo, hi, Heap, HeapFlags(), 0)
  }

  ghost predicate HeapEndsAt(areas: seq<Area>, lo: nat) {
    exists k :: 0 <= k < |areas| && areas[k].kind == Heap && areas[k].end == lo
  }

  lemma GrownNew(areas: seq<Area>, areas': seq<Area>, lo: nat, hi: nat, memory: bool, ok: bool)
    requires lo < hi < MODULUS && Clear(areas, lo, hi) && !HeapEndsAt(areas, lo)
    requires SetUp(areas, areas', lo, hi - lo, Heap,
      AreaFlags(VM_GROWSUP | VM_PRIVATE | VM_USER, PROT_READ | PROT_WRITE), memory, ok)
    ensures ok <==> memory
    ensures if ok then Grown(areas, areas', lo, hi) else areas' == areas
  {
    hide AreaFlags, AccessFlags, Added, Clear, HeapEndsAt;
  }

  lemma GrownOld(areas: seq<Area>, k: nat, lo: nat, hi: nat)
    requires Clear(areas, lo, hi) && k < |areas| && AreaOk(areas[k]) && areas[k].kind == Heap
      && areas[k].end == lo < hi < MODULUS
    ensures Grown(areas, areas[k := Extended(areas[k], hi)], lo, hi)
  {
    hide Extended, Clear;
    assert GrownAt(areas, areas[k := Extended(areas[k], hi)], k, lo, hi);
  }

  /** Flags of a heap area that the break creates. */
  function HeapFlags(): Bits { AreaFlags(VM_GROWSUP | VM_PRIVATE | VM_USER, PROT_READ | PROT_WRITE) }

  /** The area that ends at the break is the one that contains the last byte before it. */
  lemma NoHeapEnd(areas: seq<Area>, brk: nat, k: int)
    requires ListOk(areas) && brk < MODULUS && -1 <= k < |areas|
      && (k == -1 || areas[k].end != brk || areas[k].kind != Heap)
    requires forall i :: 0 <= i < |areas| ==> (Contains(areas[i], (brk + MODULUS - 1) % MODULUS) <==> i == k)
    ensures !HeapEndsAt(areas, brk)
  {
    forall i | 0 <= i < |areas| && areas[i].end == brk ensures i == k {
      AreaAt(areas, i);
      assert Contains(areas[i], (brk + MODULUS - 1) % MODULUS);
    }
  }

  ghost predicate GrownAt(areas: seq<Area>, areas': seq<Area>, k: nat, lo: nat, hi: nat)
    requires k < |areas|
  {
    && AreaOk(areas[k]) && areas[k].kind == Heap && areas[k].end == lo < hi < MODULUS
    && areas' == areas[k := Extended(areas[k], hi)]
  }

  /** Some area contains the address. */
  ghost predicate Occupied(areas: seq<Area>, x: nat) { exists i :: 0 <= i < |areas| && Contains(areas[i], x) }

  lemma ReplacedOccupies(areas: seq<Area>, k: nat, a: Area, x: nat)
    requires k < |areas|
    ensures Occupied(areas[k := a], x) <==>
      Contains(a, x) || exists i :: 0 <= i < |areas| && i != k && Contains(areas[i], x)
    ensures Occupied(areas, x) <==>
      Contains(areas[k], x) || exists i :: 0 <= i < |areas| && i != k && Contains(areas[i], x)
  {
    var areas' := areas[k := a];
    assert Contains(a, x) ==> Contains(areas'[k], x);
    assert forall i :: 0 <= i < |areas| && i != k ==> areas'[i] == areas[i];
  }

  lemma FrontOccupies(areas: seq<Area>, a: Area, x: nat)
    ensures Occupied([a] + areas, x) <==> Contains(a, x) || Occupied(areas, x)
  {
    var areas' := [a] + areas;
    assert areas'[0] == a && forall i :: 0 <= i < |areas| ==> areas'[i + 1] == areas[i];
    if Occupied(areas', x) && !Contains(a, x) {
      var i :| 0 <= i < |areas'| && Contains(areas'[i], x);
      assert areas[i - 1] == areas'[i];
    }
  }

  /** Growing the heap occupies exactly the new range. */
  lemma GrownOccupies(areas: seq<Area>, areas': seq<Area>, lo: nat, hi: nat, x: nat)
    requires Grown(areas, areas', lo, hi) && lo < hi
    ensures Occupied(areas', x) <==> Occupied(areas, x) || lo <= x < hi
  {
    hide Clear, Extended, Occupied, HeapFlags, NoPages, Covers, PageCount, HeapEndsAt;
    if HeapEndsAt(areas, lo) {
      var k :| 0 <= k < |areas| && GrownAt(areas, areas', k, lo, hi);
      ExtendedOk(areas[k], hi);
      ReplacedOccupies(areas, k, areas'[k], x);
    } else {
      FrontOccupies(areas, areas'[0], x);
    }
  }

  /** Moving the end of an area down gives up exactly what lay above the new end. */
  lemma CutOccupies(areas: seq<Area>, k: nat, to: nat, pages: seq<Page>, x: nat)
    requires ListOk(areas) && k < |areas| && areas[k].start < to < areas[k].end
    ensures Occupied(areas[k := areas[k].(end := to, pages := pages)], x) <==>
      Occupied(areas, x) && !(to <= x < areas[k].end)
  {
    var a := areas[k].(end := to, pages := pages);
    ReplacedOccupies(areas, k, a, x);
    hide Occupied;
    if Contains(areas[k], x) {
      forall i | 0 <= i < |areas| && i != k ensures !Contains(areas[i], x) {
        assert Apart(areas[i], areas[k]);
      }
    }
  }

  /** A heap area reaches across `to`. */
  ghost predicate HeapAcross(areas: seq<Area>, to: nat) {
    exists k :: 0 <= k < |areas| && areas[k].kind == Heap && areas[k].start < to < areas[k].end
  }

  /** The heap area that contains `to` now ends there, and its pages up to `from` are given up. */
  ghost predicate Cut(s: State, s': State, to: nat, from: nat) {
    exists k :: 0 <= k < |s.areas| && CutAt(s, s', k, to, from)
  }

  ghost predicate CutAt(s: State, s': State, k: nat, to: nat, from: nat)
    requires k < |s.areas|
  {
    var a := s.areas[k];
    && a.start < to < a.end && a.kind == Heap && to <= from
    && var e := Drop(Dropping(a.pages, s.flat, s.put, {}), a.start, a.count, to, (from - to) / PAGE_SIZE);
       s' == State(s.areas[k := a.(end := to, pages := e.pages)], to, e.flat, e.put)
  }

  /** Lowering the break hands over the pages it gives up once if and only if none of them is mapped at its address;
      for at most 2^32 pages, if and only if no address with a page in the array before is mapped. */
  lemma CutPutsOnce(s: State, s': State, k: nat, to: nat, from: nat)
    requires k < |s.areas| && AreaOk(s.areas[k]) && CutAt(s, s', k, to, from) && to % PAGE_SIZE == 0
    ensures var a, n := s.areas[k], (from - to) / PAGE_SIZE;
            Conserved(a.pages, s.put, s'.areas[k].pages, s'.put) <==>
              forall j: nat :: j < n && GivenUp(a.start, a.count, a.pages, to, j) ==>
                !Framed(s.flat, to / PAGE_SIZE + j)
    ensures var a, n := s.areas[k], (from - to) / PAGE_SIZE;
            n <= 0x1_0000_0000 ==>
              (Conserved(a.pages, s.put, s'.areas[k].pages, s'.put) <==>
                 forall j: nat :: j < n && RecordedAfter(a.start, a.count, a.pages, to, j) ==>
                   !Framed(s.flat, to / PAGE_SIZE + j))
  {
    hide Drop, Conserved, RecordedAfter, GivenUp, Framed;
    var a := s.areas[k];
    PutOnce(Dropping(a.pages, s.flat, s.put, {}), a.start, a.count, to, (from - to) / PAGE_SIZE);
  }

  lemma NoHeapAcross(areas: seq<Area>, to: nat, k: int)
    requires -1 <= k < |areas| && forall i :: 0 <= i < |areas| ==> (Contains(areas[i], to) <==> i == k)
    requires k == -1 || areas[k].start >= to || areas[k].kind != Heap
    ensures !HeapAcross(areas, to)
  {
    assert forall i :: 0 <= i < |areas| && areas[i].start < to < areas[i].end ==> Contains(areas[i], to);
  }

  lemma CutHere(s: State, k: nat, to: nat, pages: seq<Page>, flat: map<nat, Word>, put: seq<Page>)
    requires ListOk(s.areas) && k < |s.areas| && s.areas[k].start < to < s.areas[k].end && s.areas[k].kind == Heap
    requires to <= s.brk && to % PAGE_SIZE == 0
    requires var a := s.areas[k];
             var e := Drop(Dropping(a.pages, s.flat, s.put, {}), a.start, a.count, to, (s.brk - to) / PAGE_SIZE);
             pages == e.pages && flat == e.flat && put == e.put
    ensures ListOk(s.areas[k := s.areas[k].(end := to, pages := pages)])
    ensures Cut(s, State(s.areas[k := s.areas[k].(end := to, pages := pages)], to, flat, put), to, s.brk)
    ensures HeapAcross(s.areas, to)
  {
    hide Drop, Released;
    var a, n := s.areas[k], (s.brk - to) / PAGE_SIZE;
    assert AreaOk(a);
    hide ListOk;
    DropMeaning(Dropping(a.pages, s.flat, s.put, {}), a.start, a.count, to, n);
    ReleasedLength(a.start, a.count, a.pages, pages, to, n);
    ShrinkOk(s.areas, k, to, pages);
    assert CutAt(s, State(s.areas[k := a.(end := to, pages := pages)], to, flat, put), k, to, s.brk);
  }

  lemma ReleasedLength(start: nat, count: int, pages: seq<Page>, pages': seq<Page>, lo: nat, n: nat)
    requires start <= lo && Released(start, count, pages, pages', lo, n)
    ensures |pages'| == |pages|
  {
  }

  lemma CoverAdded(areas: seq<Area>, areas': seq<Area>, start: nat, end: nat, kind: Kind, flags: Bits, file: nat)
    requires Added(areas, areas', start, end, kind, flags, file)
    ensures AllCover(areas) ==> (AllCover(areas') <==> end - start <= MAX_BYTES)
  {
  }

  lemma CoverSetUp(areas: seq<Area>, areas': seq<Area>, addr: nat, len: nat, kind: Kind, flags: Bits, memory: bool,
                   ok: bool)
    requires SetUp(areas, areas', addr, len, kind, flags, memory, ok)
    ensures AllCover(areas) && len <= MAX_BYTES ==> AllCover(areas')
  {
    hide AllCover, Added, Clear;
    if ok {
      CoverAdded(areas, areas', addr, addr + len, kind, flags, 0);
    }
  }

  lemma CoverMapped(areas: seq<Area>, areas': seq<Area>, brk: nat, addr: nat, length: nat, prot: Prot, flags: Bits,
                    file: nat, pgoff: int, memory: bool, ret: int, at: nat)
    requires length < MODULUS && addr < MODULUS
      && MappedFile(areas, areas', brk, addr, length, prot, flags, file, pgoff, memory, ret, at)
    ensures AllCover(areas) && RoundUp(length) <= MAX_BYTES ==> AllCover(areas')
  {
    hide AllCover, Added, Clear, RoundUp, FirstFree, Blocked, MapKind, MapFlags;
    if ret >= 0 {
      CoverAdded(areas, areas', ret, ret + RoundUp(length), MapKind(prot, flags, file), MapFlags(prot, flags), file);
    }
  }

  lemma CoverGrown(areas: seq<Area>, areas': seq<Area>, lo: nat, hi: nat)
    requires ListOk(areas) && Grown(areas, areas', lo, hi) && lo < hi
    ensures AllCover(areas) ==> (AllCover(areas') <==> HeapLength(areas, lo, hi) <= MAX_BYTES)
  {
    hide ListOk, AllCover, Clear, Added, HeapEndsAt, HeapFlags, Extended, HeapLength;
    if HeapEndsAt(areas, lo) {
      var k :| 0 <= k < |areas| && GrownAt(areas, areas', k, lo, hi);
      HeapLengthAt(areas, k, hi);
      ExtendOk(areas, k, hi);
    } else {
      NewHeapLength(areas, lo, hi);
      CoverAdded(areas, areas', lo, hi, Kind.Heap, HeapFlags(), 0);
    }
  }

  lemma CoverCut(s: State, s': State, to: nat, from: nat)
    requires ListOk(s.areas) && Cut(s, s', to, from) && to % PAGE_SIZE == 0
    ensures AllCover(s.areas) ==> AllCover(s'.areas)
  {
    hide AllCover, Drop, Released;
    var k :| 0 <= k < |s.areas| && CutAt(s, s', k, to, from);
    var a := s.areas[k];
    assert AreaOk(a);
    hide ListOk;
    var b, n := Dropping(a.pages, s.flat, s.put, {}), (from - to) / PAGE_SIZE;
    DropMeaning(b, a.start, a.count, to, n);
    ReleasedLength(a.start, a.count, a.pages, Drop(b, a.start, a.count, to, n).pages, to, n);
    ShrinkOk(s.areas, k, to, Drop(b, a.start, a.count, to, n).pages);
  }

  /** Page arrays that cover their areas still do after a request that stays within the int32 page count. */
  lemma CoverStep(s: State, r: Request, ret: int, s': State, startBrk: nat)
    requires InRange(r) && ListOk(s.areas) && Stepped(s, r, ret, s', startBrk)
    ensures AllCover(s.areas) && Small(r, s) ==> AllCover(s'.areas)
  {
    hide ListOk, AllCover, SetUp, MappedFile, AreaFlags, AccessFlags, Grown, Cut, HeapAcross, HeapLength, RoundUp,
      Clear;
    match r
    case Setup(addr, len, kind, prot, flags, memory) =>
      CoverSetUp(s.areas, s'.areas, addr, len, kind, AreaFlags(flags, prot), memory, ret == 0);
    case Mmap(addr, len, prot, flags, file, pgoff, memory) =>
      var at :| MappedFile(s.areas, s'.areas, s.brk, addr, len, prot, flags, file, pgoff, memory, ret, at);
      CoverMapped(s.areas, s'.areas, s.brk, addr, len, prot, flags, file, pgoff, memory, ret, at);
    case Brk(to, memory) =>
      RoundUpMeaning(to);
      if s'.brk > s.brk {
        CoverGrown(s.areas, s'.areas, s.brk, s'.brk);
      } else if s'.brk < s.brk && HeapAcross(s.areas, s'.brk) {
        CoverCut(s, s', s'.brk, s.brk);
      }
  }

  lemma ExtendOk(areas: seq<Area>, k: nat, to: nat)
    requires ListOk(areas) && k < |areas| && areas[k].end < to < MODULUS && Clear(areas, areas[k].end, to)
    ensures AreaOk(areas[k]) && ListOk(areas[k := Extended(areas[k], to)])
    ensures AllCover(areas) ==> (AllCover(areas[k := Extended(areas[k], to)]) <==> to - areas[k].start <= MAX_BYTES)
  {
    assert AreaOk(areas[k]);
    ExtendedOk(areas[k], to);
    hide Extended;
    forall i | 0 <= i < |areas| && i != k ensures Apart(areas[i], Extended(areas[k], to)) {
      assert Apart(areas[i], areas[k]) && AreaOk(areas[i]) && !Meets(areas[i], areas[k].end, to);
    }
    ChangeOk(areas, k, Extended(areas[k], to));
    if AllCover(areas) {
      CoverChange(areas, k, Extended(areas[k], to));
    }
  }

  lemma CoverChange(areas: seq<Area>, k: nat, a: Area)
    requires k < |areas| && AllCover(areas)
    ensures AllCover(areas[k := a]) <==> Covers(a)
  {
    var areas' := areas[k := a];
    assert areas'[k] == a && forall i :: 0 <= i < |areas| && i != k ==> areas'[i] == areas[i];
  }

  lemma ExtendedOk(a: Area, to: nat)
    requires AreaOk(a) && a.end < to < MODULUS
    ensures AreaOk(Extended(a, to)) && Extended(a, to).start == a.start && Extended(a, to).end == to
    ensures Covers(a) ==> (Covers(Extended(a, to)) <==> to - a.start <= MAX_BYTES)
  {
  }

  lemma ShrinkOk(areas: seq<Area>, k: nat, to: nat, pages: seq<Page>)
    requires ListOk(areas) && k < |areas| && areas[k].start < to < areas[k].end && |pages| == |areas[k].pages|
    ensures ListOk(areas[k := areas[k].(end := to, pages := pages)])
    ensures AllCover(areas) ==> AllCover(areas[k := areas[k].(end := to, pages := pages)])
  {
    assert AreaOk(areas[k]);
    var a := areas[k].(end := to, pages := pages);
    assert AllCover(areas) ==> Covers(areas[k]);
    ChangeOk(areas, k, a);
  }

  function MapKind(prot: Prot, flags: Bits, file: nat): Kind {
    if file != 0 then Mapped
    else if flags & MAP_ANONYMOUS != 0 then Anonymous
    else if prot & PROT_EXEC != 0 then Text
    else Stack
  }

  function MapFlags(prot: Prot, flags: Bits): Bits {
    AccessFlags(prot)
    | (if flags & MAP_SHARED != 0 then VM_SHARED else 0)
    | (if flags & MAP_PRIVATE != 0 then VM_PRIVATE else 0)
    | (if flags & MAP_GROWSDOWN != 0 then VM_GROWSDOWN else 0)
  }

  /** The access flags are set twice, once by the mapping and once by the area. */
  lemma MapFlagsAccess(prot: Prot, flags: Bits)
    ensures AreaFlags(MapFlags(prot, flags), prot) == MapFlags(prot, flags)
  {
    hide AccessFlags;
  }

  lemma MapKindFile(prot: Prot, flags: Bits, file: nat)
    ensures MapKind(prot, flags, file) == Mapped <==> file != 0
    ensures MapKind(prot, flags, file) != Data
  {
  }

  lemma WidenedTwice(b: (nat, nat), start: nat, end: nat)
    ensures Widened(Widened(b, start, end), start, end) == Widened(b, start, end)
  {
  }

  lemma SetFile(areas: seq<Area>, areas': seq<Area>, start: nat, end: nat, kind: Kind, flags: Bits, file: nat,
                pgoff: int)
    requires ListOk(areas') && Added(areas, areas', start, end, kind, flags, 0)
    ensures areas' != []
    ensures var a := areas'[0].(file := file, pgoff := pgoff);
      ListOk(areas'[0 := a]) && Added(areas, areas'[0 := a], start, end, kind, flags, file)
  {
    var a := areas'[0].(file := file, pgoff := pgoff);
    ChangeOk(areas', 0, a);
    assert areas'[0 := a] == [a] + areas;
  }

  /** The k-th address the search tries. */
  ghost function Candidate(brk: nat, k: nat): nat { brk + k * PAGE_SIZE }

  /** The first candidate that is not blocked. */
  ghost predicate FirstFree(areas: seq<Area>, brk: nat, length: nat, addr: nat) {
    exists k: nat :: addr == Candidate(brk, k) && !Blocked(areas, addr, length) && forall j: nat :: j < k ==>
      Blocked(areas, Candidate(brk, j), length)
  }

  /** A range that does not wrap and meets an area. */
  ghost predicate Blocked(areas: seq<Area>, addr: nat, length: nat) {
    addr + length < MODULUS && !Clear(areas, addr, addr + length) && length > 0
  }

  lemma BlockedIs(areas: seq<Area>, addr: nat, length: nat)
    ensures Blocked(areas, addr, length) <==>
      addr + length < MODULUS && length > 0 && !Clear(areas, addr, addr + length)
  {
  }

  lemma CandidateStep(brk: nat, k: nat)
    ensures Candidate(brk, 0) == brk && Candidate(brk, k + 1) == Candidate(brk, k) + PAGE_SIZE
  {
  }

  /** Above a blocked candidate there is room for a step of the search. */
  lemma BlockedRoom(areas: seq<Area>, addr: nat, length: nat)
    requires Blocked(areas, addr, length) && addr % PAGE_SIZE == 0 && length % PAGE_SIZE == 0
    ensures addr + PAGE_SIZE < MODULUS && RoundUp((addr + PAGE_SIZE) % MODULUS) == addr + PAGE_SIZE
  {
    hide Clear;
    RoundUpMeaning(addr + PAGE_SIZE);
  }
}
