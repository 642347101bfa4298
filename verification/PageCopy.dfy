/** What a copied address range looks like, per sharing mode, and how one more page extends it. */
module PageCopy {
  import opened Pte
  import opened PageTree
  import opened PageEffects
  import opened PageFree

  /** The entry stored for a shared page: mode 1 keeps the flags, mode 2 drops W. */
  function SharedEntry(share: int, e: Word): Word {
    Make(Target(e), if share == 2 then Flags(e) & !W else Flags(e))
  }

  /** Both shared modes keep the physical page; mode 1 keeps all flags of a valid entry,
      mode 2 clears W and keeps the rest. */
  lemma SharedEntryMeaning(share: int, e: Word)
    requires Valid(e)
    ensures Valid(SharedEntry(share, e)) && PageOf(SharedEntry(share, e)) == PageOf(e)
    ensures share != 2 ==> Flags(SharedEntry(share, e)) == Flags(e)
    ensures share == 2 ==> Flags(SharedEntry(share, e)) == Flags(e) & !W
  {
    var perm := if share == 2 then Flags(e) & !W else Flags(e);
    assert perm & !FLAGS_MASK == 0;
    Repack(e, perm);
    assert perm | V == perm;
  }

  /** The pages of a range, each through `SharedEntry`. */
  ghost function SharedRange(share: int, flat: map<nat, Word>, lo: nat, hi: nat): map<nat, Word> {
    map v | v in flat && lo <= v < hi :: SharedEntry(share, flat[v])
  }

  /** The source afterwards: mode 2 rewrites the writable entries of the range, the others nothing. */
  ghost function SourceAfter(share: int, flat: map<nat, Word>, lo: nat, hi: nat): map<nat, Word> {
    if share != 2 then flat
    else map v | v in flat :: if lo <= v < hi && Writable(flat[v]) then SharedEntry(2, flat[v]) else flat[v]
  }

  ghost function Within(flat: map<nat, Word>, lo: nat, hi: nat): map<nat, Word> {
    map v | v in flat && lo <= v < hi :: flat[v]
  }

  /** `e` maps a private copy of the page that `orig` maps: same flags, a page taken from the free pages,
      with the bytes the original had. */
  ghost predicate PrivateCopy(mem0: Memory, free0: seq<Page>, mem: Memory, owner: Owners, free: seq<Page>, orig: Word,
                              e: Word) {
    var t := PageOf(e);
    && Valid(e) && Flags(e) == Flags(orig)
    && t in free0 && t !in free && t !in owner && t in mem
    && (PageOf(orig) in mem0 && PageOf(orig) !in free0 ==> mem[t] == mem0[PageOf(orig)])
  }

  /** A mode 0 copy `d` of the pages of `flat` in [lo, hi): private copies, no two on one page. */
  ghost predicate Duplicate(mem0: Memory, free0: seq<Page>, mem: Memory, owner: Owners, free: seq<Page>,
                            flat: map<nat, Word>, d: map<nat, Word>, lo: nat, hi: nat) {
    && (forall v :: v in d <==> v in flat && lo <= v < hi)
    && (forall v :: v in d ==> PrivateCopy(mem0, free0, mem, owner, free, flat[v], d[v]))
    && (forall v, v' :: v in d && v' in d && v != v' ==> PageOf(d[v]) != PageOf(d[v']))
  }

  ghost predicate Copied(share: int, mem0: Memory, free0: seq<Page>, mem: Memory, owner: Owners, free: seq<Page>,
                         flat: map<nat, Word>, d: map<nat, Word>, lo: nat, hi: nat) {
    if share == 0 then Duplicate(mem0, free0, mem, owner, free, flat, d, lo, hi)
    else if share == 1 || share == 2 then d == SharedRange(share, flat, lo, hi)
    else d == map[]
  }

  lemma CopiedMode(share: int, mem0: Memory, free0: seq<Page>, mem: Memory, owner: Owners, free: seq<Page>,
                   flat: map<nat, Word>, d: map<nat, Word>, lo: nat, hi: nat)
    ensures share == 0 ==>
      Copied(share, mem0, free0, mem, owner, free, flat, d, lo, hi) ==
      Duplicate(mem0, free0, mem, owner, free, flat, d, lo, hi)
    ensures share == 1 || share == 2 ==>
      Copied(share, mem0, free0, mem, owner, free, flat, d, lo, hi) == (d == SharedRange(share, flat, lo, hi))
    ensures share < 0 || share > 2 ==> Copied(share, mem0, free0, mem, owner, free, flat, d, lo, hi) == (d == map[])
  {
  }

  lemma CopiedSkip(share: int, mem0: Memory, free0: seq<Page>, mem: Memory, owner: Owners, free: seq<Page>,
                   flat: map<nat, Word>, d: map<nat, Word>, lo: nat, v: nat)
    requires Copied(share, mem0, free0, mem, owner, free, flat, d, lo, v) && lo <= v && v !in flat
    ensures Copied(share, mem0, free0, mem, owner, free, flat, d, lo, v + 1)
  {
    SharedStep(share, flat, lo, v);
    if share == 0 {
      DuplicateSkip(mem0, free0, mem, owner, free, flat, d, lo, v);
    }
  }

  lemma FrameOk(share: int, mem0: Memory, owner0: Owners, free0: seq<Page>, mem: Memory, owner: Owners, free: seq<Page>,
                src: Page, dst: Page)
    requires CopyFrame(share, mem0, owner0, free0, mem, owner, free, src, dst)
    ensures Inv(mem, owner, free) && IsRoot(owner, src) && IsRoot(owner, dst) && mem.Keys == mem0.Keys
    ensures OtherFlats(owner0, src, mem0, mem)
  {
  }

  /** What a copy may touch besides the pages it takes from the free list: in mode 2 the source's own tables. */
  ghost predicate CopyFrame(share: int, mem0: Memory, owner0: Owners, free0: seq<Page>, mem: Memory, owner: Owners,
                            free: seq<Page>,
                            src: Page, dst: Page) {
    && Inv(mem, owner, free) && IsRoot(owner, dst) && IsRoot(owner, src) && src != dst && dst in free0
    && |free| <= |free0| && free == free0[|free0| - |free|..]
    && (forall p :: p in owner0 ==> p in owner && owner[p] == owner0[p])
    && (forall p :: p in owner && p !in owner0 ==> p in free0 && owner[p].root == dst)
    && mem.Keys == mem0.Keys
    && (forall p :: p in mem0 && p !in free0 ==>
      mem[p] == mem0[p] || (share == 2 && p in owner0 && owner0[p].root == src))
    && OtherFlats(owner0, src, mem0, mem)
  }

  /** One step that writes only the tree at `dst` keeps the frame. */
  lemma FrameExtends(share: int, mem0: Memory, owner0: Owners, free0: seq<Page>, mem: Memory, owner: Owners,
                     free: seq<Page>,
                     mem': Memory, owner': Owners, free': seq<Page>, src: Page, dst: Page)
    requires Inv(mem0, owner0, free0) && CopyFrame(share, mem0, owner0, free0, mem, owner, free, src, dst)
    requires Inv(mem', owner', free') && Extends(mem, owner, free, mem', owner', free', dst)
      && OtherFlats(owner, dst, mem, mem')
    ensures CopyFrame(share, mem0, owner0, free0, mem', owner', free', src, dst)
    ensures Flat(mem', src) == Flat(mem, src)
  {
    hide Inv, Flat;
    ExtendsRoots(mem, owner, free, mem', owner', free', dst);
    assert forall p :: p in owner0 ==> p !in free0 by { NotFree(mem0, owner0, free0); }
    assert forall p :: p in free ==> p in free0;
    assert forall p :: p in owner0 ==> owner0[p].root != dst by { RootsOwned(mem0, owner0, free0); }
    assert OtherFlats(owner0, src, mem0, mem');
    assert Flat(mem', src) == Flat(mem, src);
    hide OtherFlats;
    assert free' == free0[|free0| - |free'|..];
  }

  lemma NotFree(mem: Memory, owner: Owners, free: seq<Page>)
    requires Inv(mem, owner, free)
    ensures forall p :: p in owner ==> p !in free
  {
  }

  lemma RootsOwned(mem: Memory, owner: Owners, free: seq<Page>)
    requires Inv(mem, owner, free)
    ensures forall p :: p in owner ==> IsRoot(owner, owner[p].root)
    ensures forall r :: IsRoot(owner, r) ==> owner[r].root == r
  {
    forall p | p in owner ensures IsRoot(owner, owner[p].root) && (owner[p].level == 2 ==> owner[p].root == p) {
      assert TableOk(mem, owner, p);
      if owner[p].level < 2 {
        var q := owner[p].parent;
        assert TableOk(mem, owner, q);
        if owner[q].level < 2 {
          assert TableOk(mem, owner, owner[q].parent);
        }
      }
    }
  }

  /** Taking a free page and filling it keeps the frame, all trees and the copies made so far. */
  lemma FrameFresh(share: int, mem0: Memory, owner0: Owners, free0: seq<Page>, mem: Memory, owner: Owners,
                   free: seq<Page>,
                   src: Page, dst: Page, words: seq<Word>)
    requires CopyFrame(share, mem0, owner0, free0, mem, owner, free, src, dst) && free != [] && |words| == ENTRIES
    ensures var t := free[0];
            && CopyFrame(share, mem0, owner0, free0, mem[t := words], owner, free[1..], src, dst)
            && Flat(mem[t := words], src) == Flat(mem, src) && Flat(mem[t := words], dst) == Flat(mem, dst)
            && t in free0 && t !in owner && t !in free[1..]
  {
    var t := free[0];
    TakeFree(mem, owner, free);
    WriteUnowned(mem, owner, free[1..], t, words);
    hide Inv, Flat;
    assert forall r :: IsRoot(owner0, r) ==> IsRoot(owner, r);
  }

  /** Rewriting a source entry keeps the frame in mode 2. */
  lemma FrameSource(mem0: Memory, owner0: Owners, free0: seq<Page>, mem: Memory, owner: Owners, free: seq<Page>,
                    mem': Memory, src: Page, dst: Page)
    requires Inv(mem0, owner0, free0) && CopyFrame(2, mem0, owner0, free0, mem, owner, free, src, dst)
    requires Inv(mem', owner, free) && Extends(mem, owner, free, mem', owner, free, src)
      && OtherFlats(owner, src, mem, mem')
    ensures CopyFrame(2, mem0, owner0, free0, mem', owner, free, src, dst)
    ensures Flat(mem', dst) == Flat(mem, dst)
  {
    hide Inv, Flat;
    NotFree(mem0, owner0, free0);
  }

  lemma SharedStep(share: int, flat: map<nat, Word>, lo: nat, v: nat)
    requires lo <= v
    ensures SharedRange(share, flat, lo, v + 1) ==
              if v in flat then SharedRange(share, flat, lo, v)[v := SharedEntry(share, flat[v])]
                else SharedRange(share, flat, lo, v)
    ensures |Within(flat, lo, v + 1)| == |Within(flat, lo, v)| + if v in flat then 1 else 0
  {
    WithinStep(flat, lo, v);
    hide SharedEntry, Within;
  }

  lemma WithinStep(flat: map<nat, Word>, lo: nat, v: nat)
    requires lo <= v
    ensures |Within(flat, lo, v + 1)| == |Within(flat, lo, v)| + if v in flat then 1 else 0
  {
    assert Within(flat, lo, v + 1) == if v in flat then Within(flat, lo, v)[v := flat[v]] else Within(flat, lo, v);
  }

  lemma SourceStep(share: int, flat: map<nat, Word>, lo: nat, v: nat)
    requires lo <= v
    ensures v in SourceAfter(share, flat, lo, v) <==> v in flat
    ensures v in flat ==> SourceAfter(share, flat, lo, v)[v] == flat[v]
    ensures SourceAfter(share, flat, lo, v + 1) ==
              if share == 2 && v in flat && Writable(flat[v])
                then SourceAfter(share, flat, lo, v)[v := SharedEntry(2, flat[v])]
              else SourceAfter(share, flat, lo, v)
  {
    hide SharedEntry, Writable;
  }

  lemma PrivateCopyKept(mem0: Memory, free0: seq<Page>, mem: Memory, owner: Owners, free: seq<Page>,
                        mem': Memory, owner': Owners, free': seq<Page>, orig: Word, e: Word)
    requires PrivateCopy(mem0, free0, mem, owner, free, orig, e)
    requires forall p :: p in free' ==> p in free
    requires forall p :: p in owner' && p !in owner ==> p in free
    requires forall p :: p in mem && p !in free && p !in owner ==> p in mem' && mem'[p] == mem[p]
    ensures PrivateCopy(mem0, free0, mem', owner', free', orig, e) && PageOf(e) !in free
  {
    hide Valid, PageOf, Flags;
  }

  lemma DuplicateKept(mem0: Memory, free0: seq<Page>, mem: Memory, owner: Owners, free: seq<Page>,
                      mem': Memory, owner': Owners, free': seq<Page>, flat: map<nat, Word>, d: map<nat, Word>, lo: nat,
                      v: nat)
    requires Duplicate(mem0, free0, mem, owner, free, flat, d, lo, v)
    requires forall p :: p in free' ==> p in free
    requires forall p :: p in owner' && p !in owner ==> p in free
    requires forall p :: p in mem && p !in free && p !in owner ==> p in mem' && mem'[p] == mem[p]
    ensures Duplicate(mem0, free0, mem', owner', free', flat, d, lo, v)
  {
    hide PrivateCopy, PageOf;
    forall u | u in d ensures PrivateCopy(mem0, free0, mem', owner', free', flat[u], d[u]) {
      PrivateCopyKept(mem0, free0, mem, owner, free, mem', owner', free', flat[u], d[u]);
    }
  }

  lemma MadePage(t: Page, e: Word)
    requires PageAligned(t.base)
    ensures PageOf(Make(t.base, Flags(e))) == t
  {
    FlagsInMask(e);
    MakeInFlags(t.base, Flags(e));
  }

  /** Mode 0: one more page `t`, filled with the bytes of the original, mapped at `v`. */
  lemma DuplicateStep(mem0: Memory, free0: seq<Page>, mem: Memory, owner: Owners, free: seq<Page>,
                      mem': Memory, owner': Owners, free': seq<Page>, flat: map<nat, Word>, d: map<nat, Word>, lo: nat,
                      v: nat, t: Page)
    requires Duplicate(mem0, free0, mem, owner, free, flat, d, lo, v) && lo <= v && v in flat
    requires t in free && t in free0 && t !in free' && t !in owner' && t in mem' && PageAligned(t.base)
    requires PageOf(flat[v]) in mem0 && PageOf(flat[v]) !in free0 ==> mem'[t] == mem0[PageOf(flat[v])]
    requires forall p :: p in free' ==> p in free
    requires forall p :: p in owner' && p !in owner ==> p in free
    requires forall p :: p in mem && p !in free && p !in owner ==> p in mem' && mem'[p] == mem[p]
    requires Valid(flat[v])
    ensures Duplicate(mem0, free0, mem', owner', free', flat, d[v := Make(t.base, Flags(flat[v]))], lo, v + 1)
  {
    var e := Make(t.base, Flags(flat[v]));
    assert Valid(e) && PageOf(e) == t && Flags(e) == Flags(flat[v]) by {
      FlagsInMask(flat[v]);
      MakeInFlags(t.base, Flags(flat[v]));
    }
    hide Valid, PageOf, Flags, Make;
    var d' := d[v := e];
    assert PrivateCopy(mem0, free0, mem', owner', free', flat[v], e);
    hide PrivateCopy;
    forall u | u in d
      ensures PageOf(d[u]) != t && PrivateCopy(mem0, free0, mem', owner', free', flat[u], d[u])
    {
      PrivateCopyKept(mem0, free0, mem, owner, free, mem', owner', free', flat[u], d[u]);
    }
  }

  lemma FlagsInMask(e: Word)
    ensures Flags(e) & !FLAGS_MASK == 0
    ensures Valid(e) ==> Flags(e) | V == Flags(e)
  {
  }

  lemma DuplicateSkip(mem0: Memory, free0: seq<Page>, mem: Memory, owner: Owners, free: seq<Page>,
                      flat: map<nat, Word>, d: map<nat, Word>, lo: nat, v: nat)
    requires Duplicate(mem0, free0, mem, owner, free, flat, d, lo, v) && lo <= v && v !in flat
    ensures Duplicate(mem0, free0, mem, owner, free, flat, d, lo, v + 1)
  {
    hide Valid, PageOf, Flags;
  }

  /** A step that extends one tree leaves the leaf tables of another where they were. */
  lemma OtherTree(mem: Memory, owner: Owners, free: seq<Page>, mem': Memory, owner': Owners, free': seq<Page>,
                  root: Page, r: Page, vpn: nat)
    requires Inv(mem, owner, free) && Inv(mem', owner', free') && Extends(mem, owner, free, mem', owner', free', root)
    requires IsRoot(owner, r) && r != root && vpn < MAXVPN && TableAt(mem, r, 0, vpn).Some?
    ensures TableAt(mem', r, 0, vpn) == TableAt(mem, r, 0, vpn)
    ensures var p := TableAt(mem, r, 0, vpn).value; p in mem && p in mem' && mem'[p] == mem[p]
  {
    OwnedInMemory(mem, owner, free);
    TableAtKept(mem, owner, free, mem', r, 0, vpn);
    TableAtOwned(mem, owner, free, r, 0, vpn);
  }

  lemma TableAtKept(mem: Memory, owner: Owners, free: seq<Page>, mem': Memory, r: Page, level: nat, vpn: nat)
    requires Inv(mem, owner, free) && IsRoot(owner, r) && level <= 2 && vpn < MAXVPN
    requires forall q :: q in owner && owner[q].root == r ==> q in mem && q in mem' && mem'[q] == mem[q]
    ensures TableAt(mem', r, level, vpn) == TableAt(mem, r, level, vpn)
    decreases 2 - level
  {
    if level < 2 {
      TableAtKept(mem, owner, free, mem', r, level + 1, vpn);
      TableAtOwned(mem, owner, free, r, level + 1, vpn);
    }
  }

  /** The bytes written to the fresh page: the original's, read after the page was taken and zeroed. */
  ghost function CopyWords(mem: Memory, t: Page, p: Page): seq<Word>
    requires p in mem
  {
    mem[t := Zeros()][p]
  }

  lemma DuplicateMapped(mem0: Memory, owner0: Owners, free0: seq<Page>, mem: Memory, owner: Owners, free: seq<Page>,
                        mem': Memory, owner': Owners, free': seq<Page>, src: Page, dst: Page, flat: map<nat, Word>,
                        lo: nat, v: nat)
    requires CopyFrame(0, mem0, owner0, free0, mem, owner, free, src, dst) && free != []
    requires lo <= v && v in flat && Valid(flat[v]) && PageOf(flat[v]) in mem
    requires Duplicate(mem0, free0, mem, owner, free, flat, Flat(mem, dst), lo, v)
    requires Extends(mem[free[0] := CopyWords(mem, free[0], PageOf(flat[v]))], owner, free[1..], mem', owner', free',
      dst)
    ensures free[0] in free0 && free[0] !in owner'
    ensures Duplicate(mem0, free0, mem', owner', free', flat, Flat(mem, dst), lo, v)
    ensures Duplicate(mem0, free0, mem', owner', free', flat, Flat(mem, dst)[v := Make(free[0].base, Flags(flat[v]))],
      lo, v + 1)
  {
    hide Valid, PageOf, Flags, Make, Flat, Duplicate, OtherFlats;
    var t := free[0];
    TakeFree(mem, owner, free);
    assert forall p :: p in free' ==> p in free[1..];
    assert forall p :: p in free[1..] ==> p in free;
    assert t in mem';
    DuplicateKept(mem0, free0, mem, owner, free, mem', owner', free', flat, Flat(mem, dst), lo, v);
    DuplicateStep(mem0, free0, mem, owner, free, mem', owner', free', flat, Flat(mem, dst), lo, v, t);
  }

  lemma NothingCopied(share: int, flat: map<nat, Word>, lo: nat)
    ensures SourceAfter(share, flat, lo, lo) == flat && Within(flat, lo, lo) == map[]
      && SharedRange(share, flat, lo, lo) == map[]
  {
  }

  /** The loop of a copy starts from a new empty tree. */
  lemma CopyStart(share: int, mem0: Memory, owner0: Owners, free0: seq<Page>, mem: Memory, owner: Owners, src: Page,
                  flat: map<nat, Word>, lo: nat)
    requires Inv(mem0, owner0, free0) && free0 != [] && IsRoot(owner0, src) && flat == Flat(mem0, src)
    requires mem == mem0[free0[0] := Zeros()] && owner == owner0[free0[0] := Slot(free0[0], 2, 0, NULL)]
      && free0[0] !in owner0
    requires Inv(mem, owner, free0[1..]) && SameFlats(owner0, mem0, mem) && Flat(mem, free0[0]) == map[]
    ensures CopyFrame(share, mem0, owner0, free0, mem, owner, free0[1..], src, free0[0])
    ensures Flat(mem, src) == SourceAfter(share, flat, lo, lo)
    ensures Copied(share, mem0, free0, mem, owner, free0[1..], flat, Flat(mem, free0[0]), lo, lo)
  {
    hide Flat;
    TakeFree(mem0, owner0, free0);
    NothingCopied(share, flat, lo);
  }

  /** Giving up a copy leaves exactly the owners there were; all table pages it had came from the free list. */
  lemma CopyAbandoned(share: int, mem0: Memory, owner0: Owners, free0: seq<Page>, mem: Memory, owner: Owners,
                      free: seq<Page>, src: Page, dst: Page)
    requires Inv(mem0, owner0, free0) && CopyFrame(share, mem0, owner0, free0, mem, owner, free, src, dst)
    ensures DropTree(owner, dst) == owner0
    ensures forall p :: p in owner && owner[p].root == dst ==> p in free0
    ensures forall p :: p in owner && p in free0 ==> owner[p].root == dst
    ensures forall p :: p in owner0 ==> p in owner
  {
    hide Inv, Flat, OtherFlats;
    RootsOwned(mem0, owner0, free0);
    NotFree(mem0, owner0, free0);
    assert dst !in owner0;
    assert forall p :: p in DropTree(owner, dst) <==> p in owner0;
  }

  lemma WriteBit(e: Word)
    requires Writable(e)
    ensures Flags(e) & !W != Flags(e)
  {
  }
}
