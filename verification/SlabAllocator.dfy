/** Allocating and freeing through the eight slab caches. */
module SlabAllocator {
  import opened Bitmap
  import opened Slab

  ghost predicate CachesOk(slabs: Slabs, caches: seq<Cache>) {
    && |caches| == |SIZES|
    && forall k :: 0 <= k < |caches| ==> caches[k].size == SIZES[k] && CacheOk(slabs, caches[k])
  }

  /** From one state to the other exactly one object came into use. */
  ghost predicate TookOne(slabs: Slabs, slabs': Slabs, b: nat, i: nat) {
    && !Live(slabs, b, i) && Live(slabs', b, i)
    && forall b', i' {:trigger Live(slabs', b', i')} :: Live(slabs', b', i') <==>
      Live(slabs, b', i') || (b' == b && i' == i)
  }

  /** From one state to the other exactly one object went out of use. */
  ghost predicate GaveOne(slabs: Slabs, slabs': Slabs, b: nat, i: nat) {
    && Live(slabs, b, i)
    && forall b', i' {:trigger Live(slabs', b', i')} :: Live(slabs', b', i') <==>
      Live(slabs, b', i') && !(b' == b && i' == i)
  }

  ghost predicate SameSizes(slabs: Slabs, slabs': Slabs) {
    forall b :: b in slabs && b in slabs' ==> slabs'[b].size == slabs[b].size
  }

  /** The pointer is that of an object in use. */
  ghost predicate LivePtr(slabs: Slabs, p: nat) {
    var b := FindSlab(p);
    b in slabs && slabs[b].size > 0 && Used(slabs[b], ObjIndex(b, slabs[b].size, p))
      && p == Addr(b, slabs[b].size, ObjIndex(b, slabs[b].size, p))
  }

  /** Writing one slab of a cache, and the cache, leaves the other caches alone. */
  lemma OtherCaches(slabs: Slabs, caches: seq<Cache>, k: nat, slabs': Slabs, c: Cache)
    requires CachesOk(slabs, caches) && k < |caches| && c.size == caches[k].size && CacheOk(slabs', c)
    requires forall b :: b in slabs && slabs[b].size != c.size ==> b in slabs' && slabs'[b] == slabs[b]
    requires forall b :: b in slabs' && slabs'[b].size != c.size ==> b in slabs && slabs'[b] == slabs[b]
    ensures CachesOk(slabs', caches[k := c])
  {
    forall n | 0 <= n < |caches| && n != k ensures CacheOk(slabs', caches[n]) {
      assert CacheOk(slabs, caches[n]) && SIZES[n] != SIZES[k];
      forall b ensures Listed(slabs', caches[n], b) {
        assert Listed(slabs, caches[n], b);
      }
    }
  }

  /** A request, with the page alloc_page offers at that moment (0 for none). */
  datatype Request = Alloc(size: nat, page: nat) | Free(ptr: nat)

  class Allocator {
    var slabs: Slabs
    var caches: seq<Cache>
    var released: seq<nat>   // pages handed to put_page, in call order

    ghost predicate Valid()
      reads this
    {
      SlabsOk(slabs) && CachesOk(slabs, caches)
    }

    /** slab_init */
    constructor ()
      ensures Valid() && (forall b, i :: !Live(slabs, b, i)) && forall p :: !LivePtr(slabs, p)
    {
      slabs, released := map[], [];
      caches := seq(|SIZES|, k requires 0 <= k < |SIZES| => Cache(SIZES[k], [], [], []));
    }

    /** slab_cache_for_size: the smallest cache whose objects are large enough. */
    method CacheFor(size: nat) returns (k: nat)
      requires Valid() && size <= 2048
      ensures k < |caches| && size <= caches[k].size && forall n :: 0 <= n < k ==> caches[n].size < size
    {
      hide CacheOk;
      var rounded := (size + 7) / 8 * 8;
      k := 0;
      while rounded > SIZES[k]
        invariant k < |SIZES| && forall n :: 0 <= n < k ==> SIZES[n] < size
        decreases |SIZES| - k
      {
        assert SIZES[k] % 8 == 0;
        k := k + 1;
      }
    }

    /** The first part of slab_alloc_obj: a slab with a free object heads the partial list. */
    method ChooseSlab(k: nat, page: nat) returns (ok: bool, c: Cache)
      requires Valid() && k < |caches| && (page == 0 || (page !in slabs && page % PAGE == 0))
      modifies this`slabs
      ensures SlabsOk(slabs) && caches == old(caches) && c.size == SIZES[k] && IsSize(c.size)
      ensures !ok ==>
        slabs == old(slabs) && page == 0 && forall b :: b in slabs && slabs[b].size == c.size ==> slabs[b].free == 0
      ensures ok ==> c.partial != [] && Chosen(slabs, c, c.partial[0])
      ensures ok ==>
        slabs == old(slabs)
        || (page != 0 && page !in old(slabs) && c.partial[0] == page && slabs == old(slabs)[page := NewSlab(c.size)])
    {
      hide Chosen, NewSlab, SlabOk;
      c := caches[k];
      assert IsSize(c.size);
      if c.partial == [] {
        if c.empty == [] {
          if page == 0 {
            NoneFree(slabs, c);
            return false, c;
          }
          NewSlabOk(c.size);
          ChooseNew(slabs, c, page, NewSlab(c.size));
          slabs := slabs[page := NewSlab(c.size)];
          return true, c.(partial := [page]);
        }
        ChooseEmpty(slabs, c);
        return true, c.(empty := c.empty[1..], partial := [c.empty[0]]);
      }
      ChoosePartial(slabs, c);
      return true, c;
    }

    /** slab_alloc_obj: an object that was not in use, and the only one whose use changes. It fails only without a page
        when every slab of the cache is full. */
    method AllocObj(k: nat, page: nat) returns (obj: nat, ghost b: nat, ghost i: nat)
      requires Valid() && k < |caches| && (page == 0 || (page !in slabs && page % PAGE == 0))
      modifies this`slabs, this`caches
      ensures Valid()
      ensures obj == 0 ==>
        && slabs == old(slabs) && caches == old(caches) && page == 0
        && forall x :: x in slabs && slabs[x].size == SIZES[k] ==> slabs[x].free == 0
      ensures obj != 0 ==>
        TookOne(old(slabs), slabs, b, i) && SameSizes(old(slabs), slabs) && b in slabs && slabs[b].size == SIZES[k]
        && obj == Addr(b, SIZES[k], i) && slabs.Keys <= old(slabs).Keys + {page}
    {
      hide CachesOk, SlabsOk, SlabOk, CacheOk, Chosen, Taken, NewSlab, TookOne, Total, BitmapBytes, IsSize;
      CachesAt(slabs, caches, k);
      var ok, c := ChooseSlab(k, page);
      if !ok {
        return 0, 0, 0;
      }
      ghost var slabs1 := slabs;
      var base := c.partial[0];
      ChosenOk(slabs, c, base);
      var s := slabs[base];
      var n := FirstZero(s.bits, s.total);
      assert n != -1 && !Used(s, n);
      b, i := base, n;
      TakenOk(s, i);
      TakeOk(slabs, c, base, Taken(s, i));
      TakeLive(old(slabs), slabs, base, i, c.size);
      SlabsSet(slabs, base, Taken(s, i));
      slabs := slabs[base := Taken(s, n)];
      OtherCaches(old(slabs), caches, k, slabs, AfterTake(c, slabs[base].free));
      caches := caches[k := AfterTake(c, slabs[base].free)];
      return Addr(base, s.size, n), b, i;
    }

    /** slab_alloc: NULL for more than 2048 bytes; otherwise a pointer that was not in use, to an object of at least the
        size asked for, and no other pointer's use changes. */
    method SlabAlloc(size: nat, page: nat) returns (obj: nat)
      requires Valid() && (page == 0 || (page !in slabs && page % PAGE == 0))
      modifies this`slabs, this`caches
      ensures Valid()
      ensures size > 2048 ==> obj == 0
      ensures obj == 0 ==> slabs == old(slabs) && caches == old(caches)
      ensures obj == 0 && size <= 2048 ==>
        page == 0 && forall x :: x in slabs && slabs[x].size == SizeClass(size) ==> slabs[x].free == 0
      ensures obj != 0 ==>
        !LivePtr(old(slabs), obj) && forall p :: LivePtr(slabs, p) <==> LivePtr(old(slabs), p) || p == obj
      ensures obj != 0 ==> FindSlab(obj) in slabs && size <= slabs[FindSlab(obj)].size == SizeClass(size)
      ensures SameSizes(old(slabs), slabs) && slabs.Keys <= old(slabs).Keys + {page}
    {
      hide CachesOk, SlabsOk, LivePtr, TookOne, Addr, FindSlab;
      if size > 2048 {
        return 0;
      }
      var k := CacheFor(size);
      ClassAt(slabs, caches, size, k);
      ghost var b, i;
      obj, b, i := AllocObj(k, page);
      if obj != 0 {
        SizeAt(old(slabs), old(caches), k);
        PtrTook(old(slabs), slabs, b, i);
      }
    }

    /** slab_free_obj; the object must be in use, which the code checks and panics otherwise. A slab that was full
        becomes available again, an empty one may be given up, and no other object's use changes. */
    method FreeObj(k: nat, base: nat, ptr: nat)
      requires Valid() && k < |caches| && base in slabs && slabs[base].size == SIZES[k] > 0
      requires Used(slabs[base], ObjIndex(base, SIZES[k], ptr))
      modifies this`slabs, this`caches, this`released
      ensures Valid()
      ensures GaveOne(old(slabs), slabs, base, ObjIndex(base, SIZES[k], ptr)) && SameSizes(old(slabs), slabs)
      ensures if released == old(released) then slabs.Keys == old(slabs).Keys
              else exists p :: p in old(slabs) && released == old(released) + [p] && slabs.Keys == old(slabs).Keys - {p}
    {
      hide CachesOk, SlabsOk, SlabOk, CacheOk, Given, Used, GaveOne, ObjIndex, IsSize, AfterGive, SameSizes;
      CachesAt(slabs, caches, k);
      SlabAt(slabs, base);
      var c, s, n := caches[k], slabs[base], ObjIndex(base, SIZES[k], ptr);
      GivenOk(s, n);
      UsedBit(s, n);
      var t := Given(s, n);
      GiveOk(slabs, c, base, t);
      GiveLive(slabs, base, n);
      SlabsSet(slabs, base, t);
      slabs := slabs[base := t];
      c := AfterGive(c, base, t);
      GiveSize(caches[k], base, t);
      OtherCaches(old(slabs), caches, k, slabs, c);
      caches := caches[k := c];
      if 1 != t.free == t.total {
        EmptyHead(old(caches)[k], base, t);
        if * {
          // more free objects than two slabs hold: the last empty slab is given up
          var last := c.empty[|c.empty| - 1];
          ghost var slabs1 := slabs;
          DropOk(slabs, c);
          EmptyUnused(slabs, c, last);
          slabs := slabs - {last};
          released := released + [last];
          OtherCaches(slabs1, caches, k, slabs, c.(empty := c.empty[..|c.empty| - 1]));
          SlabsLess(slabs1, last);
          GaveLess(old(slabs), slabs1, base, n, last);
          caches := caches[k := c.(empty := c.empty[..|c.empty| - 1])];
        }
      }
    }

    /** slab_free of a pointer into a slab page: 0 when it is NULL or past the last object; otherwise the object it
        points into must be in use and is freed. For the pointer of an object that is exactly that object. */
    method SlabFree(ptr: nat) returns (ret: int)
      requires Valid() && (ptr != 0 ==> FindSlab(ptr) in slabs && slabs[FindSlab(ptr)].size > 0)
      requires ptr != 0 ==>
        var s := slabs[FindSlab(ptr)];
          ObjIndex(FindSlab(ptr), s.size, ptr) < s.total ==> Used(s, ObjIndex(FindSlab(ptr), s.size, ptr))
      modifies this`slabs, this`caches, this`released
      ensures Valid()
      ensures ret == 0 ==> slabs == old(slabs) && caches == old(caches) && released == old(released)
      ensures ret == 1 <==>
        ptr != 0 && ObjIndex(FindSlab(ptr), old(slabs)[FindSlab(ptr)].size, ptr) < old(slabs)[FindSlab(ptr)].total
      ensures ret == 0 || ret == 1
      ensures SameSizes(old(slabs), slabs) && slabs.Keys <= old(slabs).Keys
      ensures ret == 1 ==>
        GaveOne(old(slabs), slabs, FindSlab(ptr), ObjIndex(FindSlab(ptr), old(slabs)[FindSlab(ptr)].size, ptr))
      ensures LivePtr(old(slabs), ptr) && ptr != 0 ==>
        ret == 1 && forall p :: LivePtr(slabs, p) <==> LivePtr(old(slabs), p) && p != ptr
    {
      hide CachesOk, SlabsOk, SlabOk, Used, GaveOne, ObjIndex, IsSize, SameSizes, FindSlab, Addr;
      SizesRefl(slabs);
      if ptr == 0 {
        return 0;
      }
      var base := FindSlab(ptr);
      var s := slabs[base];
      var n := ObjIndex(base, s.size, ptr);
      if n >= s.total {
        assert LivePtr(slabs, ptr) ==> Used(s, n);
        NotUsed(s, n);
        return 0;
      }
      SlabAt(slabs, base);
      SizeListed(slabs, caches, base);
      for k := 0 to |SIZES|
        invariant Valid() && slabs == old(slabs) && caches == old(caches) && released == old(released)
        invariant forall j :: 0 <= j < k ==> SIZES[j] != s.size
      {
        SizeAt(slabs, caches, k);
        if caches[k].size == s.size {
          FreeObj(k, base, ptr);
          PtrGave(old(slabs), slabs, ptr);
          return 1;
        }
      }
      assert false;
      return 0;
    }

    /** Every run of requests by a client that frees only what it holds. Each answer is as `Answered` says; in the end
        the pointers in use are exactly those handed out and not freed since, their objects are as large as was asked
        for, and no two of them overlap. */
    method Serve(requests: seq<Request>) returns (answers: seq<nat>)
      requires Valid() && forall p :: !LivePtr(slabs, p)
      modifies this
      ensures Valid() && |answers| == |requests|
      ensures forall p :: LivePtr(slabs, p) <==> p in Outstanding(requests, answers)
      ensures LargeEnough(slabs, Outstanding(requests, answers)) && Disjoint(Outstanding(requests, answers))
      ensures forall n :: 0 <= n < |requests| ==>
        Answered(requests[n], answers[n], Outstanding(requests[..n], answers[..n]),
                 old(slabs).Keys + Offered(requests[..n]))
    {
      hide CachesOk, SlabsOk, LivePtr, Answered, Outstanding, Offered, LargeEnough, Disjoint;
      answers := [];
      var held: map<nat, nat> := map[];
      NoneOutstanding(slabs);
      for n := 0 to |requests|
        invariant Valid() && |answers| == n && held == Outstanding(requests[..n], answers) && Consistent(held)
        invariant slabs.Keys <= old(slabs).Keys + Offered(requests[..n])
        invariant forall k :: 0 <= k < n ==>
          Answered(requests[k], answers[k], Outstanding(requests[..k], answers[..k]),
                   old(slabs).Keys + Offered(requests[..k]))
      {
        var ans := ServeOne(requests[n], held, old(slabs).Keys + Offered(requests[..n]));
        OutstandingSnoc(requests[..n], answers, requests[n], ans);
        assert requests[..n + 1] == requests[..n] + [requests[n]];
        assert forall k :: 0 <= k <= n ==> (answers + [ans])[..k] == answers[..k];
        assert answers[..n] == answers;
        answers, held := answers + [ans], After(requests[n], ans, held);
      }
      assert requests[..|requests|] == requests;
      HeldApart(slabs, held);
    }

    /** What a client holds and the allocator knows agree. */
    ghost predicate Consistent(held: map<nat, nat>)
      reads this
    {
      0 !in held && (forall p :: LivePtr(slabs, p) <==> p in held) && LargeEnough(slabs, held)
    }

    /** One request; a pointer that is not held is not freed. */
    method ServeOne(r: Request, held: map<nat, nat>, ghost pages: set<nat>) returns (ans: nat)
      requires Valid() && Consistent(held) && slabs.Keys <= pages
      modifies this
      ensures Valid() && Consistent(After(r, ans, held)) && Answered(r, ans, held, pages)
      ensures slabs.Keys <= pages + OfferedBy(r)
    {
      hide CachesOk, SlabsOk, GaveOne, Used, ObjIndex, FindSlab, LivePtr, LargeEnough, SameSizes;
      match r
      case Alloc(size, page) =>
        ans := SlabAlloc(size, if page in slabs || page % PAGE != 0 then 0 else page);
        if ans != 0 {
          LargeAlloc(old(slabs), slabs, held, ans, size);
        }
      case Free(ptr) =>
        ans := 0;
        if ptr in held {
          LiveMeans(slabs, ptr);
          ans := SlabFree(ptr);
          LargeFree(old(slabs), slabs, held, ptr);
        } else {
          assert held - {ptr} == held;
        }
    }
  }

  lemma SizesRefl(slabs: Slabs)
    ensures SameSizes(slabs, slabs)
  {
  }

  /** The cache found is that of the size class. */
  lemma ClassAt(slabs: Slabs, caches: seq<Cache>, size: nat, k: nat)
    requires CachesOk(slabs, caches) && size <= 2048 && k < |caches| && size <= caches[k].size
    requires forall n :: 0 <= n < k ==> caches[n].size < size
    ensures SIZES[k] == SizeClass(size) && size <= SizeClass(size)
  {
    assert |caches| == |SIZES| && forall n :: 0 <= n < |caches| ==> caches[n].size == SIZES[n];
    hide CacheOk;
    assert k > 0 ==> SIZES[k - 1] < size;
  }

  /** Every object is as large as was asked for. */
  ghost predicate LargeEnough(slabs: Slabs, held: map<nat, nat>) {
    forall p :: p in held ==> FindSlab(p) in slabs && held[p] <= slabs[FindSlab(p)].size
  }

  /** No two objects overlap. */
  ghost predicate Disjoint(held: map<nat, nat>) {
    forall p, q :: p in held && q in held && p != q ==> p + held[p] <= q || q + held[q] <= p
  }

  lemma LargeAlloc(slabs: Slabs, slabs': Slabs, held: map<nat, nat>, ptr: nat, size: nat)
    requires LargeEnough(slabs, held) && SameSizes(slabs, slabs') && (forall p :: p in held ==> LivePtr(slabs', p))
    requires FindSlab(ptr) in slabs' && size <= slabs'[FindSlab(ptr)].size
    ensures LargeEnough(slabs', held[ptr := size])
  {
    hide FindSlab, ObjIndex, Used, Addr;
  }

  lemma LargeFree(slabs: Slabs, slabs': Slabs, held: map<nat, nat>, ptr: nat)
    requires LargeEnough(slabs, held) && SameSizes(slabs, slabs')
      && (forall p :: p in held && p != ptr ==> LivePtr(slabs', p))
    ensures LargeEnough(slabs', held - {ptr})
  {
    hide FindSlab, ObjIndex, Used, Addr;
  }

  lemma HeldApart(slabs: Slabs, held: map<nat, nat>)
    requires SlabsOk(slabs) && LargeEnough(slabs, held) && forall p :: p in held ==> LivePtr(slabs, p)
    ensures Disjoint(held)
  {
    hide LivePtr, SlabsOk, FindSlab;
    forall p, q | p in held && q in held && p != q ensures p + held[p] <= q || q + held[q] <= p {
      LiveApart(slabs, p, q);
    }
  }

  /** The objects of two pointers in use do not overlap. */
  lemma LiveApart(slabs: Slabs, p: nat, q: nat)
    requires SlabsOk(slabs) && LivePtr(slabs, p) && LivePtr(slabs, q) && p != q
    ensures FindSlab(p) in slabs && FindSlab(q) in slabs
    ensures p + slabs[FindSlab(p)].size <= q || q + slabs[FindSlab(q)].size <= p
  {
    hide FindSlab, ObjIndex, Addr, Total, BitmapBytes, IsSize, Bit;
    var b, c := FindSlab(p), FindSlab(q);
    ObjectsApart(b, slabs[b].size, ObjIndex(b, slabs[b].size, p), c, slabs[c].size, ObjIndex(c, slabs[c].size, q));
  }

  /** The pointers handed out and not freed since, with the sizes asked for. */
  ghost function Outstanding(requests: seq<Request>, answers: seq<nat>): map<nat, nat>
    requires |answers| == |requests|
  {
    if requests == [] then map[] else
    var n := |requests| - 1;
    After(requests[n], answers[n], Outstanding(requests[..n], answers[..n]))
  }

  function After(r: Request, ans: nat, held: map<nat, nat>): map<nat, nat> {
    match r
    case Alloc(size, _) => if ans != 0 then held[ans := size] else held
    case Free(ptr) => held - {ptr}
  }

  /** The pages offered so far. */
  ghost function Offered(requests: seq<Request>): set<nat> {
    if requests == [] then {} else Offered(requests[..|requests| - 1]) + OfferedBy(requests[|requests| - 1])
  }

  function OfferedBy(r: Request): set<nat> { if r.Alloc? then {0, r.page} else {} }

  /** No pointer is handed out that is still held; a request that is too large gets none, and one that is not and comes
      with a page not seen before does; freeing answers whether the pointer was held. */
  ghost predicate Answered(r: Request, ans: nat, held: map<nat, nat>, pages: set<nat>) {
    match r
    case Alloc(size, page) =>
      && ans !in held && (size > 2048 ==> ans == 0)
      && (size <= 2048 && page != 0 && page % PAGE == 0 && page !in pages ==> ans != 0)
    case Free(ptr) => ans == if ptr in held then 1 else 0
  }

  lemma NoneOutstanding(slabs: Slabs)
    ensures Outstanding([], []) == map[] && LargeEnough(slabs, map[])
  {
  }

  lemma OutstandingSnoc(requests: seq<Request>, answers: seq<nat>, r: Request, ans: nat)
    requires |answers| == |requests|
    ensures Outstanding(requests + [r], answers + [ans]) == After(r, ans, Outstanding(requests, answers))
    ensures Offered(requests + [r]) == Offered(requests) + OfferedBy(r)
  {
    assert (requests + [r])[..|requests|] == requests && (answers + [ans])[..|answers|] == answers;
  }

  lemma NoneFree(slabs: Slabs, c: Cache)
    requires CacheOk(slabs, c) && c.partial == [] && c.empty == []
    ensures forall b :: b in slabs && slabs[b].size == c.size ==> slabs[b].free == 0
  {
    forall b | b in slabs && slabs[b].size == c.size ensures slabs[b].free == 0 {
      assert Listed(slabs, c, b);
    }
  }

  lemma CachesAt(slabs: Slabs, caches: seq<Cache>, k: nat)
    requires CachesOk(slabs, caches) && k < |caches|
    ensures |caches| == |SIZES| && caches[k].size == SIZES[k] && CacheOk(slabs, caches[k]) && IsSize(SIZES[k])
  {
  }

  lemma ChosenOk(slabs: Slabs, c: Cache, b: nat)
    requires SlabsOk(slabs) && Chosen(slabs, c, b)
    ensures b in slabs && b != 0 && b % PAGE == 0 && SlabOk(slabs[b]) && slabs[b].size == c.size
    ensures slabs[b].total <= 8 * |slabs[b].bits| && slabs[b].free >= 1
      && Ones(slabs[b].bits, slabs[b].total) < slabs[b].total
  {
  }

  lemma SlabsSet(slabs: Slabs, b: nat, s: Slab)
    requires SlabsOk(slabs) && b in slabs && SlabOk(s)
    ensures SlabsOk(slabs[b := s])
  {
  }

  lemma TakeLive(slabs0: Slabs, slabs: Slabs, b: nat, i: nat, size: nat)
    requires b in slabs && SlabOk(slabs[b]) && slabs[b].free >= 1 && i < slabs[b].total && i < 8 * |slabs[b].bits|
      && !Used(slabs[b], i)
    requires slabs == slabs0 || (b !in slabs0 && IsSize(size) && slabs == slabs0[b := NewSlab(size)])
    ensures TookOne(slabs0, slabs[b := Taken(slabs[b], i)], b, i)
  {
    hide Used, Taken, NewSlab, SlabOk, IsSize;
    TakenOk(slabs[b], i);
    var slabs' := slabs[b := Taken(slabs[b], i)];
    forall b', i' ensures Live(slabs', b', i') <==> Live(slabs0, b', i') || (b' == b && i' == i) {
      if b == b' && slabs != slabs0 {
        NewSlabOk(size);
      }
    }
    if slabs != slabs0 {
      NewSlabOk(size);
    }
  }

  lemma SizeAt(slabs: Slabs, caches: seq<Cache>, k: nat)
    requires CachesOk(slabs, caches) && k < |caches|
    ensures |caches| == |SIZES| && caches[k].size == SIZES[k]
  {
  }

  lemma SlabAt(slabs: Slabs, b: nat)
    requires SlabsOk(slabs) && b in slabs
    ensures b != 0 && b % PAGE == 0 && SlabOk(slabs[b])
  {
  }

  lemma UsedBit(s: Slab, i: nat)
    requires Used(s, i)
    ensures i < 8 * |s.bits| && i < s.total
  {
  }

  /** An object's pointer names it and nothing else. */
  lemma UsedPtr(slabs: Slabs, b: nat, i: nat)
    requires SlabsOk(slabs) && Live(slabs, b, i)
    ensures var p := Addr(b, slabs[b].size, i);
      FindSlab(p) == b && ObjIndex(b, slabs[b].size, p) == i && LivePtr(slabs, p)
  {
    hide Bit;
    assert SlabOk(slabs[b]);
    ObjectRoundTrip(b, slabs[b].size, i);
    hide Addr, FindSlab, ObjIndex, Total;
  }

  lemma PtrTook(slabs: Slabs, slabs': Slabs, b: nat, i: nat)
    requires SlabsOk(slabs') && TookOne(slabs, slabs', b, i) && SameSizes(slabs, slabs')
    ensures b in slabs' && var obj := Addr(b, slabs'[b].size, i);
      && FindSlab(obj) == b && !LivePtr(slabs, obj) && forall p :: LivePtr(slabs', p) <==> LivePtr(slabs, p) || p == obj
  {
    UsedPtr(slabs', b, i);
    hide Addr, FindSlab, ObjIndex, Used, SlabsOk;
    forall p ensures LivePtr(slabs', p) <==> LivePtr(slabs, p) || p == Addr(b, slabs'[b].size, i) {
      var x := FindSlab(p);
      if x in slabs' && slabs'[x].size > 0 {
        var n := ObjIndex(x, slabs'[x].size, p);
        assert Live(slabs', x, n) <==> Live(slabs, x, n) || (x == b && n == i);
      } else if x in slabs && slabs[x].size > 0 {
        var n := ObjIndex(x, slabs[x].size, p);
        assert Live(slabs', x, n) <==> Live(slabs, x, n) || (x == b && n == i);
      }
    }
  }

  lemma GiveLive(slabs: Slabs, b: nat, i: nat)
    requires b in slabs && SlabOk(slabs[b]) && Used(slabs[b], i) && i < 8 * |slabs[b].bits|
    ensures GaveOne(slabs, slabs[b := Given(slabs[b], i)], b, i) && SameSizes(slabs, slabs[b := Given(slabs[b], i)])
  {
    hide Used, Given, SlabOk;
    GivenOk(slabs[b], i);
  }

  lemma GiveSize(c: Cache, b: nat, s: Slab)
    ensures AfterGive(c, b, s).size == c.size
  {
  }

  lemma EmptyHead(c: Cache, b: nat, s: Slab)
    requires 1 != s.free == s.total
    ensures AfterGive(c, b, s).empty != []
  {
  }

  lemma EmptyUnused(slabs: Slabs, c: Cache, b: nat)
    requires SlabsOk(slabs) && CacheOk(slabs, c) && b in c.empty
    ensures b in slabs && slabs[b].size == c.size && forall i: nat :: !Used(slabs[b], i)
  {
    assert Listed(slabs, c, b) && SlabOk(slabs[b]);
    OnesNone(slabs[b].bits, slabs[b].total);
    hide Bit, Total;
  }

  lemma SlabsLess(slabs: Slabs, b: nat)
    requires SlabsOk(slabs)
    ensures SlabsOk(slabs - {b})
  {
  }

  lemma GaveLess(slabs: Slabs, slabs1: Slabs, b: nat, i: nat, last: nat)
    requires GaveOne(slabs, slabs1, b, i) && SameSizes(slabs, slabs1) && last in slabs1
      && forall j: nat :: !Used(slabs1[last], j)
    ensures GaveOne(slabs, slabs1 - {last}, b, i) && SameSizes(slabs, slabs1 - {last})
  {
    hide Used;
    forall b', i' ensures Live(slabs1 - {last}, b', i') <==> Live(slabs, b', i') && !(b' == b && i' == i) {
      assert Live(slabs1, b', i') <==> Live(slabs, b', i') && !(b' == b && i' == i);
    }
  }

  lemma NotUsed(s: Slab, i: nat)
    requires i >= s.total
    ensures !Used(s, i)
  {
  }

  lemma SizeListed(slabs: Slabs, caches: seq<Cache>, b: nat)
    requires CachesOk(slabs, caches) && b in slabs && SlabOk(slabs[b])
    ensures |caches| == |SIZES| && exists k :: 0 <= k < |SIZES| && SIZES[k] == slabs[b].size
  {
    var n := slabs[b].size;
    assert SIZES[0] == 16 && SIZES[1] == 32 && SIZES[2] == 64 && SIZES[3] == 128;
    assert SIZES[4] == 256 && SIZES[5] == 512 && SIZES[6] == 1024 && SIZES[7] == 2048;
    assert IsSize(n);
  }

  lemma LiveMeans(slabs: Slabs, p: nat)
    requires LivePtr(slabs, p)
    ensures FindSlab(p) in slabs && slabs[FindSlab(p)].size > 0
      && Used(slabs[FindSlab(p)], ObjIndex(FindSlab(p), slabs[FindSlab(p)].size, p))
  {
  }

  lemma PtrGave(slabs: Slabs, slabs': Slabs, ptr: nat)
    requires FindSlab(ptr) in slabs && slabs[FindSlab(ptr)].size > 0 && SameSizes(slabs, slabs')
    requires GaveOne(slabs, slabs', FindSlab(ptr), ObjIndex(FindSlab(ptr), slabs[FindSlab(ptr)].size, ptr))
    ensures LivePtr(slabs, ptr) ==> forall p :: LivePtr(slabs', p) <==> LivePtr(slabs, p) && p != ptr
  {
    hide Addr, FindSlab, ObjIndex, Used;
    if LivePtr(slabs, ptr) {
      var b := FindSlab(ptr);
      var i := ObjIndex(b, slabs[b].size, ptr);
      forall p ensures LivePtr(slabs', p) <==> LivePtr(slabs, p) && p != ptr {
        var x := FindSlab(p);
        if x in slabs && slabs[x].size > 0 {
          var n := ObjIndex(x, slabs[x].size, p);
          assert Live(slabs', x, n) <==> Live(slabs, x, n) && !(x == b && n == i);
        } else if x in slabs' && slabs'[x].size > 0 {
          var n := ObjIndex(x, slabs'[x].size, p);
          assert Live(slabs', x, n) <==> Live(slabs, x, n) && !(x == b && n == i);
        }
      }
    }
  }
}
