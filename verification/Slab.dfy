/** The slab allocator: eight caches of pages cut into equal objects, each page on one of three lists. */
module Slab {
  import opened Bitmap
  import opened Common

  const PAGE := 0x1000
  const HEADER := 40    // sizeof(struct slab_header)
  const SIZES: seq<nat> := [16, 32, 64, 128, 256, 512, 1024, 2048]

  predicate IsSize(n: nat) {
    n == 16 || n == 32 || n == 64 || n == 128 || n == 256 || n == 512 || n == 1024 || n == 2048
  }

  /** The smallest object size that is large enough. */
  function SizeClass(n: nat): nat
    requires n <= 2048
  {
    if n <= 16 then 16
    else if n <= 32 then 32
    else if n <= 64 then 64
    else if n <= 128 then 128
    else if n <= 256 then 256
    else if n <= 512 then 512
    else if n <= 1024 then 1024
    else 2048
  }

  /** The header of one slab; the page itself is the key it is stored under. */
  datatype Slab = Slab(free: nat, total: nat, size: nat, bits: seq<Byte>)

  datatype Cache = Cache(size: nat, full: seq<nat>, partial: seq<nat>, empty: seq<nat>)

  datatype Place = Full | Partial | Empty

  type Slabs = map<nat, Slab>

  function BitmapBytes(size: nat): nat
    requires size > 0
  {
    (PAGE / size + 7) / 8
  }

  /** Objects of a slab: what fits behind the header and the bitmap. */
  function Total(size: nat): nat
    requires IsSize(size)
  {
    (PAGE - HEADER - BitmapBytes(size)) / size
  }

  /** index_to_obj */
  function Addr(base: nat, size: nat, i: nat): nat { base + HEADER + Offset(size, i) }

  function Offset(size: nat, i: nat): nat { i * size }

  /** find_slab */
  function FindSlab(ptr: nat): nat { ptr / PAGE * PAGE }

  /** obj_index: the pointer difference is signed, its quotient truncates, and the result is a uint32. */
  function ObjIndex(base: nat, size: nat, ptr: nat): nat
    requires size > 0
  {
    var d := ptr - base - HEADER;
    var q := if d >= 0 then d / size else -((-d) / size);
    q % 0x1_0000_0000
  }

  lemma Fits(size: nat)
    requires IsSize(size)
    ensures 1 <= Total(size) <= 8 * BitmapBytes(size) && HEADER + Total(size) * size <= PAGE
    ensures Total(size) == 1 <==> size == 2048
  {
    if size == 16 { assert BitmapBytes(16) == 32 && Total(16) == 251; }
    else if size == 32 { assert BitmapBytes(32) == 16 && Total(32) == 126; }
    else if size == 64 { assert BitmapBytes(64) == 8 && Total(64) == 63; }
    else if size == 128 { assert BitmapBytes(128) == 4 && Total(128) == 31; }
    else if size == 256 { assert BitmapBytes(256) == 2 && Total(256) == 15; }
    else if size == 512 { assert BitmapBytes(512) == 1 && Total(512) == 7; }
    else if size == 1024 { assert BitmapBytes(1024) == 1 && Total(1024) == 3; }
    else { assert BitmapBytes(2048) == 1 && Total(2048) == 1; }
    hide BitmapBytes, Total;
  }

  const BITMAP := 36    // offset of the bitmap in the header, before the padding

  /** The bitmap in the page after object `i` was filled with zeros: bytes it shares with the object are cleared. */
  function Wiped(bits: seq<Byte>, size: nat, i: nat): (bits': seq<Byte>)
    ensures |bits'| == |bits|
  {
    seq(|bits|, k requires 0 <= k < |bits| =>
      if HEADER + Offset(size, i) <= BITMAP + k < HEADER + Offset(size, i) + size then 0 else bits[k])
  }

  /** The bitmap ends before the first object exactly for objects of 128 bytes and more; the smaller sizes 16, 32 and 64
      let the bitmap run into the first two objects, the first, and the first. */
  lemma BitmapInline(size: nat, i: nat)
    requires IsSize(size) && i < Total(size)
    ensures BITMAP + BitmapBytes(size) <= HEADER <==> size >= 128
    ensures BITMAP + BitmapBytes(size) <= HEADER + Offset(size, i) <==>
      !(size == 16 && i < 2) && !((size == 32 || size == 64) && i < 1)
  {
    if size == 16 { assert BitmapBytes(16) == 32; }
    else if size == 32 { assert BitmapBytes(32) == 16; }
    else if size == 64 { assert BitmapBytes(64) == 8; }
    else if size == 128 { assert BitmapBytes(128) == 4; }
    else if size == 256 { assert BitmapBytes(256) == 2; }
    else { assert BitmapBytes(512) == 1 && BitmapBytes(1024) == 1 && BitmapBytes(2048) == 1; }
    hide BitmapBytes, Total;
  }

  /** Handing out an object leaves every bitmap as it is if and only if the object lies behind the bitmap. */
  lemma WipedHarmless(size: nat, i: nat)
    requires IsSize(size) && i < Total(size)
    ensures (forall bits: seq<Byte> :: |bits| == BitmapBytes(size) ==> Wiped(bits, size, i) == bits) <==>
              !(size == 16 && i < 2) && !((size == 32 || size == 64) && i < 1)
  {
    BitmapInline(size, i);
    FirstByte(size, i);
    if BITMAP + BitmapBytes(size) > HEADER + Offset(size, i) {
      var bits: seq<Byte> := seq(BitmapBytes(size), _ => 1);
      var k := HEADER + Offset(size, i) - BITMAP;
      assert Wiped(bits, size, i)[k] == 0 && bits[k] == 1;
    } else {
      forall bits: seq<Byte> | |bits| == BitmapBytes(size) ensures Wiped(bits, size, i) == bits {
      }
    }
  }

  lemma FirstByte(size: nat, i: nat)
    requires IsSize(size) && i < Total(size)
    ensures HEADER + Offset(size, i) - BITMAP >= 4
  {
  }

  /** With 16-byte objects, handing out object 0 marks object 32 as free although it is in use. */
  lemma WipedExample()
    ensures var bits := SetBit(NoBits(BitmapBytes(16)), 32);
            |bits| == BitmapBytes(16) && Bit(bits, 32) && !Bit(Wiped(bits, 16, 0), 32)
  {
    var empty := NoBits(32);
    assert BitmapBytes(16) == 32;
    SetBitAt(empty, 32, 32);
    var bits := SetBit(empty, 32);
    assert Offset(16, 0) == 0;
    assert Wiped(bits, 16, 0)[4] == 0;
  }

  /** An object lies behind the header and inside its page; its pointer leads back to its page and its bit. */
  lemma ObjectRoundTrip(base: nat, size: nat, i: nat)
    requires IsSize(size) && base % PAGE == 0 && i < Total(size)
    ensures FindSlab(Addr(base, size, i)) == base && ObjIndex(base, size, Addr(base, size, i)) == i
    ensures base + HEADER <= Addr(base, size, i) && Addr(base, size, i) + size <= base + PAGE
  {
    OffsetFacts(size, i);
    hide Total, IsSize, Offset;
    MaskPage(base, HEADER + Offset(size, i));
  }

  lemma OffsetFacts(size: nat, i: nat)
    requires IsSize(size) && i < Total(size)
    ensures Offset(size, i) / size == i && i < PAGE && HEADER + Offset(size, i) + size <= PAGE
  {
    Fits(size);
    Quotient(i, size);
    Monotone(i + 1, Total(size), size);
    TotalSmall(size);
    hide Total, IsSize;
  }

  lemma TotalSmall(size: nat)
    requires IsSize(size)
    ensures Total(size) < PAGE
  {
  }

  lemma MaskPage(base: nat, d: nat)
    requires base % PAGE == 0 && d < PAGE
    ensures FindSlab(base + d) == base
  {
    var k := base / PAGE;
    assert base == k * PAGE;
    assert (k * PAGE + d) / PAGE == k;
  }

  lemma Quotient(i: nat, n: nat)
    requires IsSize(n)
    ensures i * n / n == i
  {
    if n == 16 { assert i * 16 / 16 == i; }
    else if n == 32 { assert i * 32 / 32 == i; }
    else if n == 64 { assert i * 64 / 64 == i; }
    else if n == 128 { assert i * 128 / 128 == i; }
    else if n == 256 { assert i * 256 / 256 == i; }
    else if n == 512 { assert i * 512 / 512 == i; }
    else if n == 1024 { assert i * 1024 / 1024 == i; }
    else { assert i * 2048 / 2048 == i; }
  }

  lemma Monotone(a: nat, b: nat, n: nat)
    requires a <= b
    ensures a * n <= b * n
  {
  }

  lemma OffsetsApart(size: nat, i: nat, j: nat)
    requires i < j
    ensures Offset(size, i) + size <= Offset(size, j)
  {
    Monotone(i + 1, j, size);
  }

  lemma PagesApart(a: nat, b: nat)
    requires a % PAGE == 0 && b % PAGE == 0 && a != b
    ensures a + PAGE <= b || b + PAGE <= a
  {
  }

  /** Different objects do not overlap. */
  lemma ObjectsApart(base: nat, size: nat, i: nat, base': nat, size': nat, i': nat)
    requires IsSize(size) && base % PAGE == 0 && i < Total(size)
    requires IsSize(size') && base' % PAGE == 0 && i' < Total(size')
    requires base != base' || (size == size' && i != i')
    ensures Addr(base, size, i) + size <= Addr(base', size', i')
      || Addr(base', size', i') + size' <= Addr(base, size, i)
  {
    ObjectRoundTrip(base, size, i);
    ObjectRoundTrip(base', size', i');
    hide Total, BitmapBytes, IsSize, ObjIndex, FindSlab, Offset;
    if base == base' {
      if i < i' { OffsetsApart(size, i, i'); } else { OffsetsApart(size, i', i); }
    } else {
      hide Addr;
      PagesApart(base, base');
    }
  }

  ghost predicate SlabOk(s: Slab) {
    && IsSize(s.size) && s.total == Total(s.size) && |s.bits| == BitmapBytes(s.size) && s.total <= 8 * |s.bits|
    && s.free + Ones(s.bits, s.total) == s.total
  }

  /** The list a slab belongs on. A slab of a single object never counts as empty. */
  ghost function PlaceOf(s: Slab): Place {
    if s.free == 0 then Full else if s.free < s.total || s.total == 1 then Partial else Empty
  }

  /** Only the list of empty slabs is ever shortened, and a slab is on it exactly when all its objects are free and it
      has more than one: 2048-byte slabs stay available but are never given up. */
  lemma EmptyIff(s: Slab)
    requires SlabOk(s)
    ensures PlaceOf(s) == Empty <==> s.free == s.total && s.size != 2048
    ensures PlaceOf(s) == Full <==> s.free == 0
  {
    Fits(s.size);
    hide Total, BitmapBytes;
  }

  /** The slab `b` of the cache's size is on exactly the list it belongs on. */
  ghost predicate Listed(slabs: Slabs, c: Cache, b: nat) {
    && (b in c.full <==> b in slabs && slabs[b].size == c.size && PlaceOf(slabs[b]) == Full)
    && (b in c.partial <==> b in slabs && slabs[b].size == c.size && PlaceOf(slabs[b]) == Partial)
    && (b in c.empty <==> b in slabs && slabs[b].size == c.size && PlaceOf(slabs[b]) == Empty)
  }

  ghost predicate ListsApart(c: Cache) { NoDup(c.full) && NoDup(c.partial) && NoDup(c.empty) }

  ghost predicate CacheOk(slabs: Slabs, c: Cache) {
    ListsApart(c) && forall b {:trigger Listed(slabs, c, b)} :: Listed(slabs, c, b)
  }

  ghost predicate SlabsOk(slabs: Slabs) { forall b :: b in slabs ==> b != 0 && b % PAGE == 0 && SlabOk(slabs[b]) }

  /** Object `i` of the slab is in use. */
  ghost predicate Used(s: Slab, i: nat) { i < s.total && i < 8 * |s.bits| && Bit(s.bits, i) }

  /** Object `i` of slab `b` is in use. */
  ghost predicate Live(slabs: Slabs, b: nat, i: nat) { b in slabs && Used(slabs[b], i) }

  /** slab_header_init on a fresh page. */
  function NewSlab(size: nat): Slab
    requires IsSize(size)
  {
    Slab(Total(size), Total(size), size, NoBits(BitmapBytes(size)))
  }

  lemma NewSlabOk(size: nat)
    requires IsSize(size)
    ensures SlabOk(NewSlab(size)) && NewSlab(size).free >= 1 && NewSlab(size).size == size
    ensures forall i: nat :: !Used(NewSlab(size), i)
  {
    Fits(size);
    OnesNone(NoBits(BitmapBytes(size)), Total(size));
    hide Bit;
  }

  /** Between the choice of a slab and its use: `b` heads the partial list, every other slab is where it belongs. */
  ghost predicate Chosen(slabs: Slabs, c: Cache, b: nat) {
    && ListsApart(c) && |c.partial| > 0 && c.partial[0] == b && b !in c.full && b !in c.empty
    && b in slabs && slabs[b].size == c.size && slabs[b].free >= 1
    && forall x {:trigger Listed(slabs, c, x)} :: x != b ==> Listed(slabs, c, x)
  }

  lemma ChoosePartial(slabs: Slabs, c: Cache)
    requires CacheOk(slabs, c) && c.partial != []
    ensures Chosen(slabs, c, c.partial[0])
  {
    assert Listed(slabs, c, c.partial[0]);
  }

  lemma ChooseEmpty(slabs: Slabs, c: Cache)
    requires CacheOk(slabs, c) && c.partial == [] && c.empty != []
    ensures Chosen(slabs, c.(empty := c.empty[1..], partial := [c.empty[0]]), c.empty[0])
  {
    var c' := c.(empty := c.empty[1..], partial := [c.empty[0]]);
    assert Listed(slabs, c, c.empty[0]);
    forall x | x != c.empty[0] ensures Listed(slabs, c', x) {
      assert Listed(slabs, c, x);
      assert x in c.empty <==> x in c.empty[1..];
    }
  }

  lemma ChooseNew(slabs: Slabs, c: Cache, page: nat, s: Slab)
    requires CacheOk(slabs, c) && c.partial == [] && c.empty == [] && page !in slabs && s.size == c.size && s.free >= 1
    ensures Chosen(slabs[page := s], c.(partial := [page]), page)
  {
    hide PlaceOf;
    var slabs', c' := slabs[page := s], c.(partial := [page]);
    assert Listed(slabs, c, page);
    forall x | x != page ensures Listed(slabs', c', x) {
      assert Listed(slabs, c, x);
    }
  }

  /** Taking the first clear bit of the chosen slab. */
  function Taken(s: Slab, i: nat): Slab
    requires i < 8 * |s.bits| && s.free >= 1
  {
    s.(bits := SetBit(s.bits, i), free := s.free - 1)
  }

  lemma TakenOk(s: Slab, i: nat)
    requires SlabOk(s) && s.free >= 1 && i < s.total && !Used(s, i)
    ensures SlabOk(Taken(s, i)) && Taken(s, i).free < Taken(s, i).total
    ensures forall j: nat :: Used(Taken(s, i), j) <==> j == i || Used(s, j)
    ensures Taken(s, i).size == s.size && Taken(s, i).total == s.total && Taken(s, i).free == s.free - 1
  {
    OnesSet(s.bits, i, s.total);
    forall j | 0 <= j < s.total ensures Bit(Taken(s, i).bits, j) <==> j == i || Bit(s.bits, j) {
      SetBitAt(s.bits, i, j);
    }
    hide Bit, SetBit, Total, BitmapBytes;
  }

  /** The cache after the chosen slab gave an object: a slab that is now full changes lists. */
  function AfterTake(c: Cache, free: nat): Cache
    requires c.partial != []
  {
    if free == 0 then c.(partial := c.partial[1..], full := [c.partial[0]] + c.full) else c
  }

  lemma TakeOk(slabs: Slabs, c: Cache, b: nat, s: Slab)
    requires Chosen(slabs, c, b) && s.size == c.size && s.free < s.total
    ensures CacheOk(slabs[b := s], AfterTake(c, s.free))
  {
    var slabs', c' := slabs[b := s], AfterTake(c, s.free);
    forall x ensures Listed(slabs', c', x) {
      if x != b {
        assert Listed(slabs, c, x);
        assert x in c.partial <==> x in c.partial[1..];
      }
    }
  }

  /** list_del: out of whatever list it is on. */
  function Removed(s: seq<nat>, b: nat): (r: seq<nat>)
    ensures forall x :: x in r ==> x in s
  {
    if s == [] then [] else if s[0] == b then s[1..] else [s[0]] + Removed(s[1..], b)
  }

  lemma {:induction false} RemovedIn(s: seq<nat>, b: nat)
    requires NoDup(s)
    ensures NoDup(Removed(s, b)) && forall x :: x in Removed(s, b) <==> x in s && x != b
  {
    if s != [] {
      assert NoDup(s[1..]) && forall x :: x in s <==> x == s[0] || x in s[1..];
      if s[0] != b {
        RemovedIn(s[1..], b);
        assert s[0] !in s[1..];
      }
    }
  }

  function Unlinked(c: Cache, b: nat): Cache {
    c.(full := Removed(c.full, b), partial := Removed(c.partial, b), empty := Removed(c.empty, b))
  }

  function Given(s: Slab, i: nat): Slab
    requires i < 8 * |s.bits|
  {
    s.(bits := ClearBit(s.bits, i), free := s.free + 1)
  }

  lemma GivenOk(s: Slab, i: nat)
    requires SlabOk(s) && Used(s, i)
    ensures SlabOk(Given(s, i)) && 1 <= Given(s, i).free <= Given(s, i).total
    ensures forall j: nat :: Used(Given(s, i), j) <==> j != i && Used(s, j)
    ensures Given(s, i).size == s.size && Given(s, i).total == s.total && Given(s, i).free == s.free + 1
  {
    OnesClear(s.bits, i, s.total);
    forall j | 0 <= j < s.total ensures Bit(Given(s, i).bits, j) <==> j != i && Bit(s.bits, j) {
      SetBitAt(s.bits, i, j);
    }
    hide Bit, ClearBit, Total, BitmapBytes;
  }

  /** The cache after a slab got an object back: a slab that was full, or that is now empty, changes lists. */
  function AfterGive(c: Cache, b: nat, s: Slab): Cache {
    var u := Unlinked(c, b);
    if s.free == 1 then u.(partial := [b] + u.partial)
    else if s.free == s.total then u.(empty := [b] + u.empty)
    else c
  }

  lemma GiveOk(slabs: Slabs, c: Cache, b: nat, s: Slab)
    requires CacheOk(slabs, c) && b in slabs && slabs[b].size == c.size == s.size
    requires s.total == slabs[b].total && s.free == slabs[b].free + 1 <= s.total
    ensures CacheOk(slabs[b := s], AfterGive(c, b, s))
  {
    hide Removed;
    RemovedIn(c.full, b);
    RemovedIn(c.partial, b);
    RemovedIn(c.empty, b);
    var slabs', c' := slabs[b := s], AfterGive(c, b, s);
    assert Listed(slabs, c, b);
    forall x ensures Listed(slabs', c', x) {
      assert Listed(slabs, c, x);
    }
  }

  /** An empty slab at the end of its list can be dropped. */
  lemma DropOk(slabs: Slabs, c: Cache)
    requires CacheOk(slabs, c) && c.empty != []
    ensures var b := c.empty[|c.empty| - 1]; b in slabs && CacheOk(slabs - {b}, c.(empty := c.empty[..|c.empty| - 1]))
  {
    hide PlaceOf;
    var n := |c.empty| - 1;
    var b := c.empty[n];
    var slabs', c' := slabs - {b}, c.(empty := c.empty[..n]);
    assert Listed(slabs, c, b);
    forall x ensures Listed(slabs', c', x) {
      assert Listed(slabs, c, x);
      assert x in c.empty <==> x in c.empty[..n] || x == b;
    }
  }
}
