/** mprotect: the areas of a range and the leaf entries behind them. */
module Protect {
  import opened Pte
  import opened PageTree
  import opened PageEffects
  import opened PageTable
  import opened Areas

  /** prot_to_type */
  function PteFlags(prot: Prot, user: bool): (w: Word)
    ensures w & !FLAGS_MASK == 0 && w & (R | W | X) != 0 && w & V == 0
    ensures w & U != 0 <==> user
    ensures w & W != 0 <==> prot & PROT_WRITE != 0
    ensures w & X != 0 <==> prot & PROT_EXEC != 0
    ensures w & R != 0 <==> prot & PROT_READ != 0 || prot & (PROT_WRITE | PROT_EXEC) == 0
  {
    var perm: Word :=
      (if prot & PROT_READ != 0 then R | A else 0)
      | (if prot & PROT_WRITE != 0 then W | D else 0)
      | (if prot & PROT_EXEC != 0 then X | A else 0);
    (if perm == 0 then R else perm) | (if user then U else 0)
  }

  /** The request is allowed by the area's MAY flags. */
  predicate Permits(a: Area, prot: Prot) {
    && (prot & PROT_READ != 0 ==> a.flags & VM_MAYREAD != 0)
    && (prot & PROT_WRITE != 0 ==> a.flags & VM_MAYWRITE != 0)
    && (prot & PROT_EXEC != 0 ==> a.flags & VM_MAYEXEC != 0)
  }

  function RequestFlags(prot: Prot): Bits {
    (if prot & PROT_READ != 0 then VM_READ else 0)
    | (if prot & PROT_WRITE != 0 then VM_WRITE else 0)
    | (if prot & PROT_EXEC != 0 then VM_EXEC else 0)
  }

  function Reprotected(a: Area, prot: Prot): Area {
    a.(prot := prot, flags := (a.flags & !(VM_READ | VM_WRITE | VM_EXEC)) | RequestFlags(prot))
  }

  /** Changing the access flags of an area neither grants nor takes what it may be given later. */
  lemma ReprotectedPermits(a: Area, prot: Prot, other: Prot)
    ensures Permits(Reprotected(a, prot), other) <==> Permits(a, other)
    ensures Reprotected(Reprotected(a, prot), prot) == Reprotected(a, prot)
  {
  }

  /** The same mappings to the same pages; exactly those from page `lo` up to `hi` carry the new flags. */
  ghost predicate Protected(flat: map<nat, Word>, flat': map<nat, Word>, lo: nat, hi: nat, perm: Word) {
    && flat'.Keys == flat.Keys
    && forall v :: v in flat ==> flat'[v] == if lo <= v < hi then Make(Target(flat[v]), perm) else flat[v]
  }

  lemma ProtectedStep(flat: map<nat, Word>, flat1: map<nat, Word>, flat2: map<nat, Word>, lo: nat, m: nat, v: nat,
                      perm: Word)
    requires Protected(flat, flat1, lo, m, perm) && lo <= v <= m <= v + 1 && perm & !FLAGS_MASK == 0
    requires flat2 == if v in flat1 then flat1[v := Make(Target(flat1[v]), perm)] else flat1
    ensures Protected(flat, flat2, lo, v + 1, perm)
  {
    if v in flat {
      Repack(flat[v], perm);
    }
    hide Make, Target;
  }

  /** A protected mapping still leads to its page, and has the flags asked for. */
  lemma ProtectedMeaning(flat: map<nat, Word>, flat': map<nat, Word>, lo: nat, hi: nat, perm: Word, v: nat)
    requires Protected(flat, flat', lo, hi, perm) && v in flat && perm & !FLAGS_MASK == 0
    ensures v in flat' && Target(flat'[v]) == Target(flat[v])
    ensures Flags(flat'[v]) == if lo <= v < hi then perm | V else Flags(flat[v])
  {
    Repack(flat[v], perm);
    hide Make, Target, Flags;
  }

  /** One leaf entry of the inner loop. */
  method ProtectPage(pt: PageTables, root: Page, addr: nat, perm: Word)
    requires pt.Ok() && IsRoot(pt.owner, root) && addr < MODULUS && perm & !FLAGS_MASK == 0
    modifies pt`mem, pt`free, pt`owner
    ensures pt.Ok() && pt.owner == old(pt.owner) && pt.free == old(pt.free)
    ensures OtherFlats(pt.owner, root, old(pt.mem), pt.mem)
    ensures var flat, v := old(pt.FlatOf(root)), addr / PAGE_SIZE;
      pt.FlatOf(root) == if v in flat then flat[v := Make(Target(flat[v]), perm)] else flat
  {
    hide Inv, Extends, OtherFlats, Make, Digit, TableAt, Flat, Pte.Valid, Target, SameFlats;
    ExtendsRefl(pt.mem, pt.owner, pt.free, root);
    var table, k := pt.PageWalk(root, addr, false);
    FlatAt(pt.mem, root, addr / PAGE_SIZE);
    OwnedInMemory(pt.mem, pt.owner, pt.free);
    if table != NULL {
      assert Leaf(pt.mem, root, addr / PAGE_SIZE) == Read(pt.mem, table, k);
    }
    if table != NULL && Pte.Valid(pt.mem[table][k]) {
      var pa := Target(pt.mem[table][k]);
      MakeIsValid(pa, perm);
      pt.StoreEntry(root, addr / PAGE_SIZE, table, k, Make(pa, perm));
    }
  }

  /** The inner loop over one area's part of the range. Pages from `lo` up to `m` are done before, up to `done`
      after. */
  method ProtectRange(pt: PageTables, root: Page, from: nat, to: nat, perm: Word, ghost flat: map<nat, Word>,
                      ghost lo: nat, ghost m: nat)
    returns (ghost done: nat)
    requires pt.Ok() && IsRoot(pt.owner, root) && from < to <= MODULUS - PAGE_SIZE && perm & !FLAGS_MASK == 0
    requires lo <= from / PAGE_SIZE <= m <= from / PAGE_SIZE + 1 && Protected(flat, pt.FlatOf(root), lo, m, perm)
    modifies pt`mem, pt`free, pt`owner
    ensures pt.Ok() && pt.owner == old(pt.owner) && pt.free == old(pt.free)
    ensures OtherFlats(pt.owner, root, old(pt.mem), pt.mem)
    ensures Protected(flat, pt.FlatOf(root), lo, done, perm)
    ensures done == PagesFrom(from, to)
  {
    hide Inv, OtherFlats, Flat, Protected, SameFlats, PagesFrom;
    ExtendsRefl(pt.mem, pt.owner, pt.free, root);
    var addr := from;
    done := m;
    while addr < to
      invariant from <= addr < to + PAGE_SIZE && (addr == from || addr / PAGE_SIZE == done)
      invariant lo <= addr / PAGE_SIZE <= done <= addr / PAGE_SIZE + 1 && addr % PAGE_SIZE == from % PAGE_SIZE
      invariant pt.Ok() && pt.owner == old(pt.owner) && pt.free == old(pt.free)
      invariant OtherFlats(pt.owner, root, old(pt.mem), pt.mem)
      invariant Protected(flat, pt.FlatOf(root), lo, done, perm)
    {
      ghost var mem1, flat1, v := pt.mem, pt.FlatOf(root), addr / PAGE_SIZE;
      ProtectPage(pt, root, addr, perm);
      ProtectedStep(flat, flat1, pt.FlatOf(root), lo, done, v, perm);
      OthersTrans(pt.owner, root, old(pt.mem), mem1, pt.mem);
      done := v + 1;
      addr := addr + PAGE_SIZE;
    }
    StepsEnd(from, to, addr);
  }

  /** The page a walk in steps of a page from `from` is at when it comes to `to` or beyond. */
  function PagesFrom(from: nat, to: nat): nat {
    to / PAGE_SIZE + (if to % PAGE_SIZE > from % PAGE_SIZE then 1 else 0)
  }

  lemma StepsEnd(from: nat, to: nat, addr: nat)
    requires to <= addr < to + PAGE_SIZE && addr % PAGE_SIZE == from % PAGE_SIZE
    ensures addr / PAGE_SIZE == PagesFrom(from, to)
  {
  }

  /** The page up to which a call that came to `at` has changed leaf entries: each area is walked in steps of a page
      from its first address in the range. */
  ghost predicate LeavesTo(areas: seq<Area>, start: nat, at: nat, hi: nat) {
    if at <= start then hi == start / PAGE_SIZE
    else forall i :: 0 <= i < |areas| && Contains(areas[i], at - 1) ==>
      hi == PagesFrom(if areas[i].start > start then areas[i].start else start, at)
  }

  /** An area the loop comes to is walked from the place the loop is at. */
  lemma LeavesStep(areas: seq<Area>, areas': seq<Area>, start: nat, at: nat, k: nat, next: nat, prot: Prot)
    requires Reached(areas, areas', start, at, prot) && k < |areas| && Contains(areas[k], at)
    requires start <= at < next <= areas[k].end
    ensures LeavesTo(areas, start, next, PagesFrom(at, next))
  {
    hide PagesFrom, AreasProtected, AllPermitted;
    assert !Shares(areas[k], start, at);
    assert forall i :: 0 <= i < |areas| && Contains(areas[i], next - 1) ==> i == k;
  }

  lemma OthersTrans(owner: Owners, root: Page, mem: Memory, mem1: Memory, mem2: Memory)
    requires OtherFlats(owner, root, mem, mem1) && OtherFlats(owner, root, mem1, mem2)
    ensures OtherFlats(owner, root, mem, mem2)
  {
    hide Flat;
  }

  /** The area has an address in the range. */
  predicate Shares(a: Area, lo: nat, hi: nat) { lo < hi && Meets(a, lo, hi) }

  /** Every area with an address in the range was changed as a whole, no other was. */
  ghost predicate AreasProtected(areas: seq<Area>, areas': seq<Area>, lo: nat, hi: nat, prot: Prot) {
    && |areas'| == |areas|
    && forall i :: 0 <= i < |areas| ==>
      areas'[i] == if Shares(areas[i], lo, hi) then Reprotected(areas[i], prot) else areas[i]
  }

  /** Every address of the range lies in an area that permits the request. */
  ghost predicate AllPermitted(areas: seq<Area>, lo: nat, hi: nat, prot: Prot) {
    forall x: nat :: lo <= x < hi ==> PermittedAt(areas, x, prot)
  }

  ghost predicate PermittedAt(areas: seq<Area>, x: nat, prot: Prot) {
    exists i :: 0 <= i < |areas| && Contains(areas[i], x) && Permits(areas[i], prot)
  }

  /** What the outer loop has established when it reaches `at`. */
  ghost predicate Reached(areas: seq<Area>, areas': seq<Area>, start: nat, at: nat, prot: Prot) {
    && ListOk(areas) && AreasProtected(areas, areas', start, at, prot) && AllPermitted(areas, start, at, prot)
    && forall i :: 0 <= i < |areas| && Contains(areas[i], at) ==> !Shares(areas[i], start, at)
  }

  lemma ReachedStart(areas: seq<Area>, start: nat, prot: Prot)
    requires ListOk(areas)
    ensures Reached(areas, areas, start, start, prot)
  {
  }

  lemma SharesStep(a: Area, b: Area, start: nat, at: nat, next: nat)
    requires Apart(a, b) && a.start < a.end && Contains(b, at) && start <= at < next <= b.end
    ensures Shares(a, start, next) <==> Shares(a, start, at)
  {
  }

  /** The area at `at` is untouched so far; after it is changed the loop has reached its end, or the end of the
      range. */
  lemma ReachedStep(areas: seq<Area>, areas': seq<Area>, start: nat, at: nat, k: nat, next: nat, prot: Prot)
    requires Reached(areas, areas', start, at, prot) && start <= at < next
    requires k < |areas| && Contains(areas[k], at) && Permits(areas[k], prot) && next <= areas[k].end
    ensures k < |areas'| && areas'[k] == areas[k]
    ensures AreasProtected(areas, areas'[k := Reprotected(areas[k], prot)], start, next, prot)
      && AllPermitted(areas, start, next, prot)
    ensures next == areas[k].end ==> Reached(areas, areas'[k := Reprotected(areas[k], prot)], start, next, prot)
  {
    hide Permits, Reprotected;
    assert !Shares(areas[k], start, at);
    forall i | 0 <= i < |areas| && i != k ensures Shares(areas[i], start, next) <==> Shares(areas[i], start, at) {
      assert Apart(areas[i], areas[k]) && AreaOk(areas[i]);
      SharesStep(areas[i], areas[k], start, at, next);
    }
    assert Shares(areas[k], start, next);
    forall x: nat | start <= x < next ensures PermittedAt(areas, x, prot) {
      if x >= at {
        assert Contains(areas[k], x);
      }
    }
    if next == areas[k].end {
      forall i | 0 <= i < |areas| && Contains(areas[i], next) ensures !Shares(areas[i], start, next) {
        if i != k {
          assert Apart(areas[i], areas[k]);
        }
      }
    }
  }

  /** The state between two areas of the outer loop: areas and leaf entries are done up to `at`. */
  ghost predicate Progress(space: AddressSpace, pt: PageTables, root: Page, was: Before, start: nat, at: nat, hi: nat,
                           prot: Prot, perm: Word)
    reads space, pt
  {
    && space.Valid() && ListOk(was.areas) && pt.Ok() && pt.owner == was.owner && pt.free == was.free
      && IsRoot(was.owner, root) && OtherFlats(pt.owner, root, was.mem, pt.mem)
    && Protected(Flat(was.mem, root), pt.FlatOf(root), start / PAGE_SIZE, hi, perm)
    && start <= at && at / PAGE_SIZE <= hi <= at / PAGE_SIZE + 1 && (at % PAGE_SIZE == 0 ==> hi == at / PAGE_SIZE)
    && LeavesTo(was.areas, start, at, hi)
    && AreasProtected(was.areas, space.areas, start, at, prot) && AllPermitted(was.areas, start, at, prot)
  }

  /** The state at the call. */
  datatype Before = Before(areas: seq<Area>, mem: Memory, owner: Owners, free: seq<Page>)

  lemma ReachedArea(areas: seq<Area>, areas': seq<Area>, start: nat, at: nat, prot: Prot, k: int)
    requires Reached(areas, areas', start, at, prot) && -1 <= k < |areas'|
    requires forall i :: 0 <= i < |areas'| ==> (Contains(areas'[i], at) <==> i == k)
    ensures |areas| == |areas'|
    ensures k == -1 ==> !Occupied(areas, at) && !PermittedAt(areas, at, prot)
    ensures k != -1 ==>
      areas'[k] == areas[k] && Contains(areas[k], at) && Occupied(areas, at)
      && (PermittedAt(areas, at, prot) <==> Permits(areas[k], prot))
  {
    hide Permits;
    assert forall i :: 0 <= i < |areas| ==> areas'[i].start == areas[i].start && areas'[i].end == areas[i].end;
    assert forall i :: 0 <= i < |areas| ==> (Contains(areas[i], at) <==> i == k);
  }

  lemma ReprotectedOk(areas: seq<Area>, k: nat, prot: Prot)
    requires ListOk(areas) && k < |areas|
    ensures ListOk(areas[k := Reprotected(areas[k], prot)])
  {
    ChangeOk(areas, k, Reprotected(areas[k], prot));
  }

  /** The outer loop's body: the area at `cur`, or the error it stops with. */
  method ProtectArea(space: AddressSpace, pt: PageTables, root: Page, ghost was: Before, ghost start: nat,
                     ghost hi: nat, cur: nat, end: nat, prot: Prot, perm: Word)
    returns (err: int, next: nat, ghost done: nat)
    requires Progress(space, pt, root, was, start, cur, hi, prot, perm)
      && Reached(was.areas, space.areas, start, cur, prot)
    requires cur < end <= MODULUS - PAGE_SIZE && perm & !FLAGS_MASK == 0
    modifies space`areas, pt`mem, pt`free, pt`owner
    ensures err != 0 ==>
      err in {-ENOMEM, -EACCES} && next == cur && !PermittedAt(was.areas, cur, prot)
      && (err == -EACCES <==> Occupied(was.areas, cur)) && done == hi
      && Progress(space, pt, root, was, start, cur, hi, prot, perm)
    ensures err == 0 ==>
      && cur < next && Progress(space, pt, root, was, start, if next < end then next else end, done, prot, perm)
      && (next < end ==> Reached(was.areas, space.areas, start, next, prot))
  {
    hide Inv, ListOk, Protected, Flat, OtherFlats, AreasProtected, AllPermitted, PermittedAt, Reached, Permits,
      Occupied, Reprotected, Extends, SameFlats, LeavesTo;
    done := hi;
    var k := space.FindVma(cur);
    ReachedArea(was.areas, space.areas, start, cur, prot, k);
    if k == -1 || space.areas[k].start >= end {
      return -ENOMEM, cur, hi;
    }
    var a := space.areas[k];
    if !Permits(a, prot) {
      return -EACCES, cur, hi;
    }
    var changeStart, changeEnd := if cur > a.start then cur else a.start, if end < a.end then end else a.end;
    ReachedStep(was.areas, space.areas, start, cur, k, changeEnd, prot);
    LeavesStep(was.areas, space.areas, start, cur, k, changeEnd, prot);
    ReprotectedOk(space.areas, k, prot);
    space.areas := space.areas[k := Reprotected(a, prot)];
    ghost var mem1 := pt.mem;
    done := ProtectRange(pt, root, changeStart, changeEnd, perm, Flat(was.mem, root), start / PAGE_SIZE, hi);
    OthersTrans(pt.owner, root, was.mem, mem1, pt.mem);
    return 0, a.end, done;
  }

  /** do_protect. It returns 0 exactly when the start is aligned and, for the length rounded up to pages, the range does
      not wrap and every address in it lies in an area that permits the request. Mappings keep their pages; the leaf
      entries from the first page up to `hi` carry the new flags, which on success is the whole range. */
  method DoProtect(space: AddressSpace, pt: PageTables, root: Page, user: bool, start: nat, len: nat, prot: Prot)
    returns (ret: int, ghost at: nat, ghost hi: nat)
    requires space.Valid() && pt.Ok() && IsRoot(pt.owner, root) && start < MODULUS && len < MODULUS
    modifies space`areas, pt`mem, pt`free, pt`owner
    ensures space.Valid() && pt.Ok() && pt.owner == old(pt.owner) && pt.free == old(pt.free)
    ensures ret == 0 <==>
      start % PAGE_SIZE == 0
      && (len == 0
      || (start + RoundUp(len) < MODULUS && AllPermitted(old(space.areas), start, start + RoundUp(len), prot)))
    ensures ret != 0 ==> ret in {-EINVAL, -ENOMEM, -EACCES}
    ensures start <= at && AreasProtected(old(space.areas), space.areas, start, at, prot)
    ensures Protected(old(pt.FlatOf(root)), pt.FlatOf(root), start / PAGE_SIZE, hi, PteFlags(prot, user))
    ensures OtherFlats(pt.owner, root, old(pt.mem), pt.mem)
    ensures ret == 0 && len != 0 ==> at == start + RoundUp(len) && hi == at / PAGE_SIZE
    ensures ret != 0 && ret != -EINVAL ==>
      at < start + RoundUp(len) && !PermittedAt(old(space.areas), at, prot)
        && (ret == -EACCES <==> Occupied(old(space.areas), at)) && hi <= (start + RoundUp(len)) / PAGE_SIZE
        && AllPermitted(old(space.areas), start, at, prot) && LeavesTo(old(space.areas), start, at, hi)
    ensures ret == -EINVAL || len == 0 ==> at == start && hi == start / PAGE_SIZE
    ensures ret == -EINVAL <==> start % PAGE_SIZE != 0 || (len != 0 && start + RoundUp(len) >= MODULUS)
  {
    hide ListOk, RoundUp, Protected, Flat, OtherFlats, Inv, AreasProtected, AllPermitted, PermittedAt, Reached, Permits,
      Occupied, Reprotected, PteFlags, Extends, SameFlats, LeavesTo;
    at, hi := start, start / PAGE_SIZE;
    ghost var was, perm' := Before(space.areas, pt.mem, pt.owner, pt.free), PteFlags(prot, user);
    assert Progress(space, pt, root, was, start, at, hi, prot, perm')
      && Reached(was.areas, was.areas, start, start, prot) by {
      Begin(space, pt, root, was, start, prot, perm');
    }
    if start % PAGE_SIZE != 0 {
      return -EINVAL, at, hi;
    }
    if len == 0 {
      return 0, at, hi;
    }
    RoundUpMeaning(len);
    var rounded := RoundUp(len);
    var end := (start + rounded) % MODULUS;
    if end < start {
      return -EINVAL, at, hi;
    }
    var cur, perm := start, PteFlags(prot, user);
    while cur < end
      invariant start <= cur && at == (if cur < end then cur else end)
      invariant Progress(space, pt, root, was, start, at, hi, prot, perm)
      invariant cur < end ==> Reached(was.areas, space.areas, start, cur, prot)
      decreases end - cur
    {
      ret, cur, hi := ProtectArea(space, pt, root, was, start, hi, cur, end, prot, perm);
      if ret != 0 {
        NotAll(was.areas, start, end, cur, prot);
        return;
      }
      at := if cur < end then cur else end;
    }
    return 0, at, hi;
  }

  lemma NotAll(areas: seq<Area>, lo: nat, hi: nat, x: nat, prot: Prot)
    requires lo <= x < hi && !PermittedAt(areas, x, prot)
    ensures !AllPermitted(areas, lo, hi, prot)
  {
  }

  lemma Begin(space: AddressSpace, pt: PageTables, root: Page, was: Before, start: nat, prot: Prot, perm: Word)
    requires was == Before(space.areas, pt.mem, pt.owner, pt.free) && space.Valid() && pt.Ok() && IsRoot(pt.owner, root)
    ensures Progress(space, pt, root, was, start, start, start / PAGE_SIZE, prot, perm)
      && Reached(was.areas, was.areas, start, start, prot)
  {
    hide Inv, Flat;
    ReachedStart(was.areas, start, prot);
  }

  /** Success implies that every byte of the range asked for is permitted. */
  ghost predicate SuccessMeant(areas: seq<Area>, start: nat, len: nat, prot: Prot)
    requires len < MODULUS
  {
    AllPermitted(areas, start, start + RoundUp(len), prot) ==> AllPermitted(areas, start, start + len, prot)
  }

  /** The rounded range that success speaks about contains every byte asked for exactly when the length can be rounded
      up without wrapping; a longer request becomes empty and is granted whatever the areas are. */
  lemma RangeMeant(start: nat, len: nat, prot: Prot)
    requires 0 < len < MODULUS
    ensures (forall areas :: SuccessMeant(areas, start, len, prot)) <==> len <= MODULUS - PAGE_SIZE
  {
    RoundUpMeaning(len);
    hide RoundUp;
    if len > MODULUS - PAGE_SIZE {
      var none: seq<Area> := [];
      assert AllPermitted(none, start, start + RoundUp(len), prot);
      assert !PermittedAt(none, start, prot);
      NotAll(none, start, start + len, start, prot);
      assert !SuccessMeant(none, start, len, prot);
    }
  }

  /** A request for all bytes but one of an address space without areas is granted. */
  method GrantedWithoutAreas(pt: PageTables, root: Page, user: bool, prot: Prot) returns (space: AddressSpace, ret: int)
    requires pt.Ok() && IsRoot(pt.owner, root)
    modifies pt`mem, pt`free, pt`owner
    ensures ret == 0 && space.areas == [] && !SuccessMeant([], 0, MODULUS - 1, prot) && !PermittedAt([], 0, prot)
  {
    hide Inv, Flat, OtherFlats, RoundUp, Protected;
    space := new AddressSpace([], 0, 0);
    RoundUpMeaning(MODULUS - 1);
    ghost var at, hi;
    ret, at, hi := DoProtect(space, pt, root, user, 0, MODULUS - 1, prot);
    NotAll([], 0, MODULUS - 1, 0, prot);
  }

  /** A change of protection has no influence on what later requests are granted, or on which error they get. */
  lemma ProtectIndependent(areas: seq<Area>, areas': seq<Area>, lo: nat, hi: nat, prot: Prot, x: nat, other: Prot)
    requires AreasProtected(areas, areas', lo, hi, prot)
    ensures PermittedAt(areas', x, other) <==> PermittedAt(areas, x, other)
    ensures Occupied(areas', x) <==> Occupied(areas, x)
  {
    forall i | 0 <= i < |areas|
      ensures Contains(areas'[i], x) == Contains(areas[i], x) && Permits(areas'[i], other) == Permits(areas[i], other)
    {
      ReprotectedPermits(areas[i], prot, other);
    }
    hide Permits, Contains, Reprotected;
  }
}
