/** The walk itself: from a starting entry and mount, component by component, to an entry and a mount. */
module PathResolve {
  import opened PathNames
  import opened Dentries
  import opened PathWalk
  import opened PathFate

  /** What a walk returns; `Dangling` is a step to a parent that the walk itself had already let go. */
  datatype Outcome = Found(at: Place) | Error(err: int) | Dangling

  /** A component that needs neither a new entry nor the file system. */
  ghost predicate Clear(w: World, fs: FileSystem, at: Place, name: string) {
    name == "." || name == ".." || Plain(w.live, w.cache, fs(Dir(at.entry, []), name), at.entry, name)
  }

  /** Where one component leads. */
  ghost function Step(w: World, auto: bool, at: Place, name: string): Place {
    if name == "." then at
    else if name == ".." then Above(w, at)
    else if (at.entry, name) !in w.cache then at
    else Crossed(w, auto, Place(w.cache[(at.entry, name)], at.mount))
  }

  /** All components can be followed in the cache alone. */
  ghost predicate AllClear(w: World, fs: FileSystem, auto: bool, at: Place, names: seq<string>)
    decreases |names|
  {
    names == [] || (Clear(w, fs, at, names[0]) && AllClear(w, fs, auto, Step(w, auto, at, names[0]), names[1..]))
  }

  ghost function Follow(w: World, auto: bool, at: Place, names: seq<string>): Place
    decreases |names|
  {
    if names == [] then at else Follow(w, auto, Step(w, auto, at, names[0]), names[1..])
  }

  /** An absolute path starts at the root of the mount, if there is one, and at the given entry otherwise. */
  ghost function StartAt(w: World, base: nat, mnt: nat, path: string): Place {
    if path != "" && path[0] == '/' && mnt in w.mounts then Place(w.mounts[mnt].root, mnt) else Place(base, mnt)
  }

  function Relative(path: string): string { if path != "" && path[0] == '/' then path[1..] else path }

  /** Since `s0` one reference to `e` was taken (none if `e` is 0); what existed then still does, with its name and
      place. */
  ghost predicate Holding(s0: Snapshot, s: Snapshot, e: nat) {
    && Good(s) && Kept(s0.live, s0.cache, s.live, s.cache)
    && forall x {:trigger Held(s.held, x)} :: Held(s.held, x) == Held(s0.held, x) + if x == e && e != 0 then 1 else 0
  }

  /** The same, and nothing else changed at all. */
  ghost predicate Extra(s0: Snapshot, s: Snapshot, e: nat) {
    e in s0.refs && e in s0.held && s == s0.(refs := s0.refs[e := s0.refs[e] + 1], held := s0.held[e := s0.held[e] + 1])
  }

  ghost function Plus(refs: Counts, m: nat): Counts { if m in refs then refs[m := refs[m] + 1] else refs }

  lemma HoldingLive(s0: Snapshot, s: Snapshot, e: nat)
    requires Good(s0) && Holding(s0, s, e)
    ensures Good(s) && s0.live.Keys <= s.live.Keys
    ensures forall k :: k in s0.cache ==> k in s.cache && s.cache[k] == s0.cache[k]
    ensures e != 0 ==> e in s.live && e in s.held && e in s.refs && e in s.depth && s.held[e] >= 1
    ensures e != 0 && e in s0.live ==> s.refs[e] >= 2
  {
    Survivors(s0, s);
    if e != 0 {
      assert Held(s0.held, e) >= 0 by {
        assert e in s0.live ==> EntryOk(s0.live, s0.refs, s0.held, s0.depth, e);
      }
      assert Held(s.held, e) >= 1;
      HeldPositive(s, e);
      if e in s0.live {
        assert EntryOk(s0.live, s0.refs, s0.held, s0.depth, e) && EntryOk(s.live, s.refs, s.held, s.depth, e);
        assert Kids(s0.live, e) <= Kids(s.live, e);
        NotFewer(Kids(s0.live, e), Kids(s.live, e));
      }
    }
  }

  lemma NotFewer(a: set<nat>, b: set<nat>)
    requires a <= b
    ensures |a| <= |b|
  {
    assert b == a + (b - a);
  }

  /** An entry the walk created is the one it stands on or an ancestor of it. */
  lemma {:induction false} FreshAbove(s0: Snapshot, s: Snapshot, e: nat, x: nat)
    requires Good(s0) && Holding(s0, s, e) && x in s.live && x !in s0.live && s.depth.Keys == s.live.Keys
    ensures e != 0 && e in s.live && (x == e || s.depth[x] < s.depth[e])
    decreases |Deeper(s.live, s.depth, x)|
  {
    HoldingLive(s0, s, e);
    assert EntryOk(s.live, s.refs, s.held, s.depth, x);
    assert x !in s0.held;
    assert Held(s.held, x) == if x == e && e != 0 then 1 else 0;
    if x != e {
      assert Kids(s.live, x) != {};
      var c :| c in Kids(s.live, x);
      FreshKid(s0, s, x, c);
      assert Deeper(s.live, s.depth, c) < Deeper(s.live, s.depth, x) by {
        assert c in Deeper(s.live, s.depth, x) && c !in Deeper(s.live, s.depth, c);
      }
      SubsetSize(Deeper(s.live, s.depth, c), Deeper(s.live, s.depth, x));
      FreshAbove(s0, s, e, c);
    }
  }

  lemma FreshKid(s0: Snapshot, s: Snapshot, x: nat, c: nat)
    requires Good(s0) && Good(s) && Kept(s0.live, s0.cache, s.live, s.cache)
    requires x in s.live && x !in s0.live && c in s.live && c != x && s.live[c].parent == x
    ensures c !in s0.live && s.depth[c] == s.depth[x] + 1
  {
    assert EntryOk(s.live, s.refs, s.held, s.depth, c);
    assert c in s0.live ==> EntryOk(s0.live, s0.refs, s0.held, s0.depth, c);
  }

  /** The counts that decide whether a step to the parent dangles. */
  lemma FreshCounts(s0: Snapshot, s: Snapshot, e: nat)
    requires Good(s0) && Holding(s0, s, e) && e in s.live && e !in s0.live
    ensures var p := s.live[e].parent;
      Kids(s.live, e) == {} && e in s.refs && p in s.refs && s.refs[e] == 1 && (p in s0.live ==> s.refs[p] > 1)
        && (p !in s0.live && p != e ==> s.refs[p] == 1)
  {
    var p := s.live[e].parent;
    HoldingLive(s0, s, e);
    assert EntryOk(s.live, s.refs, s.held, s.depth, e) && EntryOk(s.live, s.refs, s.held, s.depth, p);
    assert e != 0 && Held(s.held, e) == 1 && (p != e ==> Held(s.held, p) == Held(s0.held, p));
    assert Kids(s.live, e) == {} by {
      forall c | c in Kids(s.live, e) ensures false {
        FreshKid(s0, s, e, c);
        FreshAbove(s0, s, e, c);
      }
    }
    if p in s0.live {
      assert EntryOk(s0.live, s0.refs, s0.held, s0.depth, p);
      assert Kids(s0.live, p) + {e} <= Kids(s.live, p);
      NotFewer(Kids(s0.live, p) + {e}, Kids(s.live, p));
    } else if p != e {
      forall c | c in Kids(s.live, p) ensures c == e {
        FreshKid(s0, s, p, c);
        FreshAbove(s0, s, e, c);
      }
      assert Kids(s.live, p) == {e};
    }
  }

  lemma OldParent(s0: Snapshot, s: Snapshot, e: nat)
    requires Good(s0) && Holding(s0, s, e) && e in s0.live
    ensures e in s.live && s.live[e].parent in s0.live
  {
    Survivors(s0, s);
    assert EntryOk(s0.live, s0.refs, s0.held, s0.depth, e);
  }

  lemma HoldingMove(s0: Snapshot, s: Snapshot, s': Snapshot, d: nat, e: nat)
    requires Good(s0) && Holding(s0, s, d) && Exchanged(s, s', d, e) && d != 0
    ensures Holding(s0, s', e) && e != 0
  {
    HoldingLive(s0, s, d);
    assert CacheOk(s0.live, s0.cache) && 0 !in s'.live;
    hide Ok, EntryOk, CacheOk, Kept;
    KeptTrans(s0, s, s');
    forall x ensures Held(s'.held, x) == Held(s0.held, x) + if x == e && e != 0 then 1 else 0 {
      assert Held(s.held, x) == Held(s0.held, x) + if x == d && d != 0 then 1 else 0;
    }
  }

  lemma HoldingDrop(s0: Snapshot, s: Snapshot, s': Snapshot, d: nat)
    requires Good(s0) && Holding(s0, s, d) && Dropped(s, s', d) && d != 0
    ensures Holding(s0, s', 0)
  {
    HoldingLive(s0, s, d);
    assert CacheOk(s0.live, s0.cache);
    hide Ok, EntryOk, CacheOk, Kept;
    KeptTrans(s0, s, s');
    forall x ensures Held(s'.held, x) == Held(s0.held, x) {
      assert Held(s.held, x) == Held(s0.held, x) + if x == d && d != 0 then 1 else 0;
    }
  }

  /** With the same entries, one more reference to `e` is all there is, save what became of negative entries. */
  lemma HoldingExact(s0: Snapshot, s: Snapshot, e: nat)
    requires Good(s0) && Holding(s0, s, e) && SameTables(s0.(live := s.live), s) && e in s0.live
    requires s.live.Keys == s0.live.Keys
    ensures Extra(s0.(live := s.live), s, e)
  {
    assert 0 !in s0.live && e in s0.held && e in s0.refs;
    forall x ensures Kids(s.live, x) == Kids(s0.live, x) {
    }
    forall x | x in s0.live ensures s.held[x] == s0.held[x] + (if x == e then 1 else 0)
      && s.refs[x] == s0.refs[x] + if x == e then 1 else 0 {
      assert Held(s.held, x) == Held(s0.held, x) + if x == e && e != 0 then 1 else 0;
      assert EntryOk(s0.live, s0.refs, s0.held, s0.depth, x) && EntryOk(s.live, s.refs, s.held, s.depth, x);
    }
    assert s.held == s0.held[e := s0.held[e] + 1];
    assert s.refs == s0.refs[e := s0.refs[e] + 1];
  }

  /** What existed still exists under its name. */
  ghost predicate StillThere(s0: Snapshot, s: Snapshot) {
    s0.live.Keys <= s.live.Keys && forall k :: k in s0.cache ==> k in s.cache && s.cache[k] == s0.cache[k]
  }

  /** The walk ended at `to` and changed nothing but its references. */
  ghost predicate ClearResult(s0: Snapshot, s: Snapshot, to: Place, r: Outcome) {
    r == Found(to) && Extra(s0, s, to.entry)
  }

  /** Entries, cache and depths are the same. */
  ghost predicate SameTables(s: Snapshot, s': Snapshot) {
    s'.live == s.live && s'.cache == s.cache && s'.depth == s.depth
  }

  /** The tables without one entry. */
  ghost predicate WithoutEntry(s: Snapshot, s': Snapshot, d: nat) {
    s'.live == s.live - {d} && s'.cache == Forget(s.cache, d) && s'.depth == s.depth - {d}
  }

  /** What holds between two components of a walk that began at `s0` with mount counts `m0`. */
  ghost predicate Walking(c: Dcache, s0: Snapshot, m0: Counts, at: Place)
    reads c
  {
    && Good(s0) && MountsOk(s0.live, c.mounts, c.mountAt, m0)
    && Holding(s0, c.Now(), at.entry) && at.entry != 0
    && (at.mount != 0 ==> at.mount in c.mounts) && c.mountRefs == Plus(m0, at.mount)
  }

  /** What a step promises: a success carries exactly one reference to the new place, a failure none. */
  ghost predicate Stepped(c: Dcache, s0: Snapshot, m0: Counts, r: Outcome)
    reads c
  {
    match r
    case Found(at) => Walking(c, s0, m0, at)
    case Error(err) => err != 0 && Holding(s0, c.Now(), 0) && c.mountRefs == m0
    case Dangling => true
  }

  /** An out-of-memory answer means that memory ran out, here or in the file system. */
  ghost predicate MemoryOk(c: Dcache, fs: FileSystem, before: nat, r: Outcome)
    reads c
  {
    c.memory <= before && (r == Error(-ENOMEM) ==> c.memory == 0 || exists d, n :: fs(d, n) == Failed(-ENOMEM))
  }

  /** dentry_lookupMountpoint: climbs to the nearest mount point and takes a reference to its mount. */
  method LookupMountpoint(c: Dcache, d: nat) returns (m: nat)
    requires c.Valid() && d in c.live
      && (forall x :: x in c.mountAt ==> c.mountAt[x] in c.mountRefs && c.mountAt[x] != 0)
    modifies c`mountRefs
    ensures m == MountOf(WorldOf(c.Now(), c.mounts, c.mountAt), d)
    ensures m != 0 ==> m in old(c.mountRefs)
    ensures c.mountRefs == if m == 0 then old(c.mountRefs) else old(c.mountRefs)[m := old(c.mountRefs)[m] + 1]
  {
    hide Ok, EntryOk, CacheOk;
    var cur := d;
    NoHolder(c.live, c.refs, c.held, c.depth, c.cache, cur);
    while c.live[cur].parent != cur
      invariant cur in c.live && cur in c.depth && c.mountRefs == old(c.mountRefs)
      invariant MountOf(WorldOf(c.Now(), c.mounts, c.mountAt), cur) == MountOf(WorldOf(c.Now(), c.mounts, c.mountAt), d)
      decreases c.depth[cur]
    {
      NoHolder(c.live, c.refs, c.held, c.depth, c.cache, cur);
      if c.live[cur].mounted && cur in c.mountAt {
        m := c.mountAt[cur];
        c.mountRefs := c.mountRefs[m := c.mountRefs[m] + 1];
        return;
      }
      cur := c.live[cur].parent;
    }
    m := 0;
    if cur in c.mountAt {
      m := c.mountAt[cur];
      c.mountRefs := c.mountRefs[m := c.mountRefs[m] + 1];
    }
  }

  /** To the parent entry, within the same mount. */
  method ToParent(c: Dcache, ghost s0: Snapshot, ghost m0: Counts, at: Place) returns (r: Outcome)
    requires Walking(c, s0, m0, at)
    modifies c`live, c`refs, c`cache, c`held, c`depth
    ensures Stepped(c, s0, m0, r) && !r.Error?
    ensures at.entry in old(c.live) && (r.Dangling? <==> old(c.live)[at.entry].parent !in s0.live)
    ensures r.Found? ==> r.at == Place(old(c.live)[at.entry].parent, at.mount)
    ensures at.entry in s0.live ==> r.Found? && SameTables(old(c.Now()), c.Now())
    ensures at.entry !in s0.live && r.Found? ==> WithoutEntry(old(c.Now()), c.Now(), at.entry)
  {
    hide Ok, EntryOk, CacheOk, Kept, Held, Holding, Exchanged;
    ghost var was := c.Now();
    HoldingLive(s0, was, at.entry);
    NoHolder(c.live, c.refs, c.held, c.depth, c.cache, at.entry);
    var p := c.live[at.entry].parent;
    if at.entry in s0.live {
      OldParent(s0, was, at.entry);
    } else {
      FreshCounts(s0, was, at.entry);
    }
    var ok := c.Replace(at.entry, p);
    if !ok {
      return Dangling;
    }
    HoldingMove(s0, was, c.Now(), at.entry, p);
    return Found(Place(p, at.mount));
  }

  /** The ".." step: within a mount to the parent; from a mount's root to the parent of its mount point, in the mount
      above. */
  method StepUp(c: Dcache, ghost s0: Snapshot, ghost m0: Counts, at: Place) returns (r: Outcome)
    requires Walking(c, s0, m0, at)
    modifies c`live, c`refs, c`cache, c`held, c`depth, c`mountRefs
    ensures Stepped(c, s0, m0, r) && !r.Error?
    ensures at.entry in old(c.live) && (r.Dangling? <==> old(c.live)[at.entry].parent !in s0.live)
    ensures at.entry in s0.live ==>
      r.Found? && r.at == Above(WorldOf(old(c.Now()), c.mounts, c.mountAt), at) && SameTables(old(c.Now()), c.Now())
    ensures at.entry !in s0.live && r.Found? ==>
      r.at == Place(old(c.live)[at.entry].parent, at.mount) && WithoutEntry(old(c.Now()), c.Now(), at.entry)
  {
    hide Ok, EntryOk, CacheOk, Kept, Held, Holding, Exchanged, Exactly, WithoutEntry;
    ghost var was := c.Now();
    HoldingLive(s0, was, at.entry);
    if at.entry in s0.live {
      OldParent(s0, was, at.entry);
    }
    if at.mount != 0 && at.entry == c.mounts[at.mount].root {
      var up, point := c.mounts[at.mount].parent, c.mounts[at.mount].point;
      if up == 0 || up == at.mount {
        return Found(at);
      }
      LeaveMount(c, s0, m0, at);
      OldParent(s0, c.Now(), point);
      r := ToParent(c, s0, m0, Place(point, up));
    } else {
      r := ToParent(c, s0, m0, at);
    }
  }

  /** From the root of a mount to its mount point, in the mount above. */
  method LeaveMount(c: Dcache, ghost s0: Snapshot, ghost m0: Counts, at: Place)
    requires Walking(c, s0, m0, at) && at.mount != 0 && at.entry == c.mounts[at.mount].root
    requires c.mounts[at.mount].parent != 0 && c.mounts[at.mount].parent != at.mount
    modifies c`live, c`refs, c`cache, c`held, c`depth, c`mountRefs
    ensures Walking(c, s0, m0, Place(c.mounts[at.mount].point, c.mounts[at.mount].parent))
    ensures SameTables(old(c.Now()), c.Now()) && c.mounts[at.mount].point in s0.live
  {
    hide Ok, EntryOk, CacheOk, Kept, Held, Holding, Exchanged, Exactly;
    ghost var was := c.Now();
    HoldingLive(s0, was, at.entry);
    var up, point := c.mounts[at.mount].parent, c.mounts[at.mount].point;
    var _ := c.Replace(at.entry, point);
    ExactlyTables(was, c.Now(), at.entry, point);
    HoldingMove(s0, was, c.Now(), at.entry, point);
    c.mountRefs := c.mountRefs[at.mount := c.mountRefs[at.mount] - 1];
    c.mountRefs := c.mountRefs[up := c.mountRefs[up] + 1];
    assert c.mountRefs == Plus(m0, up);
  }

  lemma ExactlyTables(s: Snapshot, s': Snapshot, d: nat, e: nat)
    requires Exactly(s, s', d, e)
    ensures SameTables(s, s')
  {
  }

  /** Crossing into a mounted file system after a component, when asked to. */
  method Cross(c: Dcache, ghost s0: Snapshot, ghost m0: Counts, at: Place, auto: bool) returns (to: Place)
    requires Walking(c, s0, m0, at)
    modifies c`live, c`refs, c`cache, c`held, c`depth, c`mountRefs
    ensures Walking(c, s0, m0, to)
    ensures at.entry in s0.live || (at.entry in old(c.live) && !old(c.live)[at.entry].mounted) ==>
      to == Crossed(WorldOf(old(c.Now()), c.mounts, c.mountAt), auto, at) && SameTables(old(c.Now()), c.Now())
  {
    hide Ok, EntryOk, CacheOk, Kept, Held, Holding, Exchanged, Exactly, MountOf;
    ghost var was := c.Now();
    HoldingLive(s0, was, at.entry);
    if !auto || !c.live[at.entry].mounted {
      return at;
    }
    var m := LookupMountpoint(c, at.entry);
    if m == 0 {
      return at;
    }
    if at.mount != 0 {
      c.mountRefs := c.mountRefs[at.mount := c.mountRefs[at.mount] - 1];
    }
    assert c.mountRefs == Plus(m0, m);
    var root := c.mounts[m].root;
    c.SwitchTo(at.entry, root);
    if at.entry in s0.live {
      ExactlyTables(was, c.Now(), at.entry, root);
    }
    HoldingMove(s0, was, c.Now(), at.entry, root);
    return Place(root, m);
  }

  /** What happened is what the fate says. */
  ghost predicate Fulfilled(c: Dcache, live0: set<nat>, f: Fate, r: Outcome, ids: seq<nat>)
    reads c
  {
    match f
    case At(w, spot, memory) =>
      r.Found? && c.memory == memory && w.live.Keys == live0
        && Tracks(WorldOf(c.Now(), c.mounts, c.mountAt), w, spot, ids, r.at, c.hashable)
    case Fails(err) => r == Error(err)
    case Dangles => r == Dangling
  }

  /** A new entry has no cached children yet. */
  lemma NoCachedChild(s0: Snapshot, s: Snapshot, e: nat, name: string)
    requires Good(s0) && Holding(s0, s, e) && e in s.live && e !in s0.live
    ensures (e, name) !in s.cache
  {
    FreshCounts(s0, s, e);
    assert CacheOk(s.live, s.cache)
      && forall x :: x in s.live && s.live[x].parent == e ==> x == e || x in Kids(s.live, e);
    hide Ok, Kids, Holding;
  }

  /** After a name was entered: a known entry, or one more new one. */
  ghost predicate EnteredAs(f: Fate, now: World, w: World, auto: bool, spot: Spot, ids: seq<nat>, known: bool,
                            next: nat, name: string, answer: Answer,
                            hashable: bool, memory: nat) {
    if known then
      var to := Crossed(now, auto, Place(next, spot.mount));
      WorldOk(now) && next in w.live && now.live.Keys == w.live.Keys
        && f == At(now, Spot(to.entry, to.mount, []), memory)
    else
      var spot' := spot.(made := spot.made + [Made(name, answer)]);
      && f == At(w, spot', memory) && Tracks(now, w, spot', ids + [next], Place(next, spot.mount), hashable)
      && next in now.live && !now.live[next].mounted
  }

  /** The tables as they were found, and what a name that is entered there means. */
  lemma EnterMeaning(now: World, now': World, w: World, auto: bool, spot: Spot, ids: seq<nat>, at: Place,
                     hashable: bool, name: string, answer: Answer,
                     memory: nat, next: nat)
    requires at.entry in now.live && at.entry in now.depth && name != "" && now'.mounts == now.mounts
      && now'.mountAt == now.mountAt
    requires (at.entry, name) in now.cache ==>
      && next == now.cache[(at.entry, name)] && now'.live == Completed(now.live, next, answer)
        && now'.cache == now.cache && now'.depth == now.depth
    requires (at.entry, name) !in now.cache ==>
      && next !in w.live && now'.live == now.live[next := MadeEntry(at.entry, name, answer)]
        && now'.depth == now.depth[next := now.depth[at.entry] + 1]
      && now'.cache == if hashable then now.cache[(at.entry, name) := next] else now.cache
    requires EnterError(now.live, now.cache, memory, at.entry, name, answer) == 0
      && (spot.made != [] ==> (at.entry, name) !in now.cache)
    requires Tracks(now, w, spot, ids, at, hashable)
    ensures var known := (at.entry, name) in now.cache;
            && (known || memory > 0)
            && EnteredAs(Named(w, auto, spot, name, answer, memory), now', w, auto, spot, ids, known, next, name,
              answer, hashable,
                         if known then memory else memory - 1)
  {
    hide Named, EnterError, Completed, Crossed, WorldOk;
    assert at.mount == spot.mount;
    hide Tracks;
    if (at.entry, name) in now.cache {
      NamedKnown(now, w, auto, spot, ids, at, hashable, name, answer, memory, next, now');
    } else {
      NamedNew(now, w, auto, spot, ids, at, hashable, name, answer, memory, next, now');
    }
  }

  /** Entering a name, before mounts are considered. */
  method EnterSpot(c: Dcache, ghost s0: Snapshot, ghost m0: Counts, at: Place, name: string, answer: Answer,
                   ghost auto: bool,
                   ghost spot: Spot, ghost w: World, ghost ids: seq<nat>)
    returns (err: int, next: nat)
    requires Walking(c, s0, m0, at) && name != "" && w.live.Keys == s0.live.Keys
    requires Tracks(WorldOf(c.Now(), c.mounts, c.mountAt), w, spot, ids, at, c.hashable)
    modifies c`live, c`refs, c`cache, c`held, c`depth, c`memory
    ensures c.memory <= old(c.memory)
    ensures err != 0 ==>
      && Holding(s0, c.Now(), 0) && Named(w, auto, spot, name, answer, old(c.memory)) == Fails(err)
      && (err == -ENOMEM ==> c.memory == 0 || answer == Failed(-ENOMEM))
    ensures err == 0 ==>
      && Walking(c, s0, m0, Place(next, at.mount))
      && EnteredAs(Named(w, auto, spot, name, answer, old(c.memory)), WorldOf(c.Now(), c.mounts, c.mountAt), w, auto,
        spot, ids,
                   (at.entry, name) in old(c.cache), next, name, answer, c.hashable, c.memory)
  {
    hide Ok, EntryOk, CacheOk, Kept, Held, Holding, Exchanged, Exactly, Dropped, Tracks, Named, EnterError, EnteredAs,
      Completed, Plain;
    ghost var was, now := c.Now(), WorldOf(c.Now(), c.mounts, c.mountAt);
    HoldingLive(s0, was, at.entry);
    if spot.made != [] {
      TracksNew(now, w, spot, ids, at, c.hashable);
      NoCachedChild(s0, was, at.entry, name);
    }
    NamedError(now, w, auto, spot, ids, at, c.hashable, name, answer, c.memory);
    EnterNoMemory(was.live, was.cache, c.memory, at.entry, name, answer);
    err, next := c.Enter(at.entry, name, answer);
    if err != 0 {
      HoldingDrop(s0, was, c.Now(), at.entry);
      return;
    }
    HoldingMove(s0, was, c.Now(), at.entry, next);
    EnterMeaning(now, WorldOf(c.Now(), c.mounts, c.mountAt), w, auto, spot, ids, at, c.hashable, name, answer,
      old(c.memory), next);
  }

  /** A named component. `spot` is how the file system and the specification know the place `at`. */
  method StepNamed(c: Dcache, ghost s0: Snapshot, ghost m0: Counts, at: Place, name: string, auto: bool, fs: FileSystem,
                   spot: Spot, ghost w: World, ghost ids: seq<nat>)
    returns (r: Outcome, spot': Spot, ghost ids': seq<nat>)
    requires Walking(c, s0, m0, at) && name != "" && w.live.Keys == s0.live.Keys
    requires Tracks(WorldOf(c.Now(), c.mounts, c.mountAt), w, spot, ids, at, c.hashable)
    modifies c`live, c`refs, c`cache, c`held, c`depth, c`mountRefs, c`memory
    ensures Stepped(c, s0, m0, r) && MemoryOk(c, fs, old(c.memory), r)
    ensures var f := Named(w, auto, spot, name, fs(Dir(spot.base, Below(spot.made)), name), old(c.memory));
            Fulfilled(c, s0.live.Keys, f, r, ids') && (f.At? ==> spot' == f.spot)
  {
    hide Ok, EntryOk, CacheOk, Kept, Held, Holding, MountOf, Tracks, Named, Completed, Crossed, Plain, WorldOk;
    spot', ids' := spot, ids;
    var answer, known := fs(Dir(spot.base, Below(spot.made)), name), (at.entry, name) in c.cache;
    TracksMount(WorldOf(c.Now(), c.mounts, c.mountAt), w, spot, ids, at, c.hashable);
    var err, next := EnterSpot(c, s0, m0, at, name, answer, auto, spot, w, ids);
    if err != 0 {
      if at.mount != 0 {
        c.mountRefs := c.mountRefs[at.mount := c.mountRefs[at.mount] - 1];
      }
      assert c.mountRefs == m0;
      return Error(err), spot', ids';
    }
    ghost var now := WorldOf(c.Now(), c.mounts, c.mountAt);
    var to := Cross(c, s0, m0, Place(next, at.mount), auto);
    assert WorldOf(c.Now(), c.mounts, c.mountAt) == now;
    if known {
      CrossedIn(c, s0, m0, to);
      TracksHere(now, to, c.hashable);
      spot', ids' := Spot(to.entry, to.mount, []), [];
    } else {
      CrossedNot(now, auto, Place(next, at.mount));
      spot', ids' := spot.(made := spot.made + [Made(name, answer)]), ids + [next];
    }
    return Found(to), spot', ids';
  }

  lemma TracksMount(now: World, w: World, spot: Spot, ids: seq<nat>, at: Place, hashable: bool)
    requires Tracks(now, w, spot, ids, at, hashable)
    ensures at.mount == spot.mount
  {
  }

  lemma CrossedIn(c: Dcache, s0: Snapshot, m0: Counts, at: Place)
    requires Walking(c, s0, m0, at)
    ensures at.entry in c.live
  {
    HoldingLive(s0, c.Now(), at.entry);
  }

  lemma CrossedNot(w: World, auto: bool, at: Place)
    requires at.entry in w.live && !w.live[at.entry].mounted
    ensures Crossed(w, auto, at) == at
  {
  }

  lemma EnterNoMemory(live: Live, cache: Cache, memory: nat, d: nat, name: string, answer: Answer)
    requires d in live
    ensures EnterError(live, cache, memory, d, name, answer) == -ENOMEM ==> memory == 0 || answer == Failed(-ENOMEM)
  {
  }

  /** A "..", as the specification sees it. */
  method StepDotDot(c: Dcache, ghost s0: Snapshot, ghost m0: Counts, at: Place, spot: Spot, ghost w: World,
                    ghost ids: seq<nat>)
    returns (r: Outcome, spot': Spot)
    requires Walking(c, s0, m0, at) && w.live.Keys == s0.live.Keys
    requires Tracks(WorldOf(c.Now(), c.mounts, c.mountAt), w, spot, ids, at, c.hashable)
    modifies c`live, c`refs, c`cache, c`held, c`depth, c`mountRefs
    ensures Stepped(c, s0, m0, r) && !r.Error?
    ensures var f := Up(w, spot, c.memory); Fulfilled(c, s0.live.Keys, f, r, []) && (f.At? ==> spot' == f.spot)
  {
    hide Walking, Tracks, Up, Stepped;
    ghost var now := WorldOf(c.Now(), c.mounts, c.mountAt);
    TracksEntry(now, w, spot, ids, at, c.hashable);
    spot' := spot;
    r := StepUp(c, s0, m0, at);
    if r.Found? {
      FoundPlace(c, s0, m0, r);
      CrossedIn(c, s0, m0, r.at);
      UpTracks(now, w, spot, ids, at, c.hashable, c.Now(), c.mounts, c.mountAt, r.at, c.memory);
      spot' := Spot(r.at.entry, r.at.mount, []);
    } else {
      UpDangles(w, spot, c.memory);
    }
  }

  /** The parent is gone exactly when there are two new entries. */
  lemma TracksEntry(now: World, w: World, spot: Spot, ids: seq<nat>, at: Place, hashable: bool)
    requires Tracks(now, w, spot, ids, at, hashable)
    ensures at.entry in w.live <==> spot.made == []
    ensures spot.made == [] ==> now == w && at == Place(spot.base, spot.mount)
    ensures spot.made != [] ==> at.entry in now.live && (now.live[at.entry].parent in w.live <==> |spot.made| == 1)
    ensures |spot.made| == 1 ==> now.live[at.entry].parent == spot.base && at.mount == spot.mount
  {
    hide Tracks;
    if spot.made == [] {
      TracksOld(now, w, spot, ids, at, hashable);
    } else {
      TracksNew(now, w, spot, ids, at, hashable);
    }
  }

  lemma UpDangles(w: World, spot: Spot, memory: nat)
    requires |spot.made| >= 2
    ensures Up(w, spot, memory) == Dangles
  {
  }

  /** The walk stands at `at`, which the specification knows as `spot` of `w`. */
  ghost predicate Underway(c: Dcache, s0: Snapshot, m0: Counts, at: Place, w: World, spot: Spot, ids: seq<nat>)
    reads c
  {
    && Walking(c, s0, m0, at) && w.live.Keys == s0.live.Keys
    && Tracks(WorldOf(c.Now(), c.mounts, c.mountAt), w, spot, ids, at, c.hashable)
  }

  /** One component of the path. */
  method StepInto(c: Dcache, ghost s0: Snapshot, ghost m0: Counts, at: Place, name: string, auto: bool, fs: FileSystem,
                  spot: Spot, ghost w: World, ghost ids: seq<nat>)
    returns (r: Outcome, spot': Spot, ghost ids': seq<nat>)
    requires Underway(c, s0, m0, at, w, spot, ids) && name != ""
    modifies c`live, c`refs, c`cache, c`held, c`depth, c`mountRefs, c`memory
    ensures Stepped(c, s0, m0, r) && MemoryOk(c, fs, old(c.memory), r)
    ensures var f := OneStep(w, fs, auto, spot, name, old(c.memory));
            Fulfilled(c, s0.live.Keys, f, r, ids') && (f.At? ==> spot' == f.spot)
  {
    hide Walking, Tracks, Named, Up;
    if |name| == 1 && name[0] == '.' {
      return Found(at), spot, ids;
    }
    if |name| == 2 && name[0] == '.' && name[1] == '.' {
      r, spot' := StepDotDot(c, s0, m0, at, spot, w, ids);
      ids' := [];
      return;
    }
    r, spot', ids' := StepNamed(c, s0, m0, at, name, auto, fs, spot, w, ids);
  }

  /** From `at` the copy still holds the text `s` and its terminator. */
  ghost predicate Pending(buf: seq<char>, at: nat, s: string) {
    at < |buf| && buf[|buf| - 1] == '\0' && buf[at..|buf| - 1] == s && '\0' !in s
  }

  lemma PendingHead(buf: seq<char>, at: nat, s: string)
    requires Pending(buf, at, s)
    ensures at < |buf| && (buf[at] == '\0' <==> s == "") && |s| == |buf| - 1 - at
  {
    if s != "" {
      assert buf[at] == s[0];
    }
  }

  /** strchr and the cut: the component, and where the next one starts. */
  method Cut(buf: array<char>, at: nat, ghost s: string) returns (name: string, next: nat)
    requires Pending(buf[..], at, s) && s != ""
    modifies buf
    ensures name == s[..FirstSlash(s)] && next > at && Pending(buf[..], next, Rest(s))
  {
    hide FirstSlash;
    PendingHead(buf[..], at, s);
    var len := SlashFrom(buf, at, s);
    name := buf[at..at + len];
    assert name == s[..len];
    if at + len < buf.Length - 1 {
      buf[at + len] := '\0';
      next := at + len + 1;
      assert buf[next..buf.Length - 1] == s[len + 1..];
    } else {
      next := at + len;
    }
  }

  /** strchr: the distance to the next slash, or to the end. */
  method SlashFrom(buf: array<char>, at: nat, ghost s: string) returns (len: nat)
    requires Pending(buf[..], at, s)
    ensures len == FirstSlash(s)
  {
    hide FirstSlash;
    PendingHead(buf[..], at, s);
    len := 0;
    while at + len < buf.Length - 1 && buf[at + len] != '/'
      invariant len <= |s| && len <= FirstSlash(s)
    {
      assert buf[at + len] == s[len];
      len := len + 1;
    }
    assert len < |s| ==> buf[at + len] == s[len];
  }

  /** The loop over the components, in a copy of the path that is cut at every slash. */
  method WalkCopy(c: Dcache, ghost s0: Snapshot, ghost m0: Counts, start: Place, buf: array<char>, ghost path: string,
                  auto: bool, fs: FileSystem)
    returns (r: Outcome, ghost ids: seq<nat>)
    requires Walking(c, s0, m0, start) && Pending(buf[..], 0, path)
    requires Tracks(WorldOf(c.Now(), c.mounts, c.mountAt), WorldOf(s0, c.mounts, c.mountAt),
      Spot(start.entry, start.mount, []), [], start, c.hashable)
    modifies c`live, c`refs, c`cache, c`held, c`depth, c`mountRefs, c`memory, buf
    ensures Stepped(c, s0, m0, r) && MemoryOk(c, fs, old(c.memory), r)
    ensures var w := WorldOf(s0, c.mounts, c.mountAt);
      Fulfilled(c, s0.live.Keys,
        FateOf(w, fs, auto, Spot(start.entry, start.mount, []), Components(path), old(c.memory)), r, ids)
  {
    hide Walking, Components, Pending, Stepped, Tracks, OneStep, FateOf, Fulfilled, MemoryOk;
    ghost var w0, names, s := WorldOf(s0, c.mounts, c.mountAt), Components(path), path;
    var component, at, spot := 0, start, Spot(start.entry, start.mount, []);
    ghost var fate, w := FateOf(w0, fs, auto, spot, names, c.memory), w0;
    ids := [];
    assert Underway(c, s0, m0, at, w, spot, ids);
    hide Underway;
    PendingHead(buf[..], component, s);
    while buf[component] != '\0'
      invariant component < buf.Length && Pending(buf[..], component, s) && (buf[component] == '\0' <==> s == "")
      invariant Underway(c, s0, m0, at, w, spot, ids) && c.memory <= old(c.memory)
      invariant FateOf(w, fs, auto, spot, Components(s), c.memory) == fate
      decreases buf.Length - component
    {
      ComponentsStep(s);
      var name, next := Cut(buf, component, s);
      if name != "" {
        ghost var f := OneStep(w, fs, auto, spot, name, c.memory);
        FateStep(w, fs, auto, spot, name, Components(Rest(s)), c.memory);
        ghost var memory := c.memory;
        r, spot, ids := StepInto(c, s0, m0, at, name, auto, fs, spot, w, ids);
        MemoryBefore(c, fs, memory, old(c.memory), r);
        if !r.Found? {
          EndedEarly(c, s0.live.Keys, f, r, ids);
          return;
        }
        Onwards(c, s0, m0, f, r, ids);
        at, w := r.at, f.w;
      }
      component, s := next, Rest(s);
      PendingHead(buf[..], component, s);
    }
    FateEnd(w, fs, auto, spot, c.memory);
    r := Found(at);
    Onwards(c, s0, m0, At(w, spot, c.memory), r, ids);
    MemoryBefore(c, fs, c.memory, old(c.memory), r);
  }

  /** A step that arrived is one from which the walk goes on. */
  lemma Onwards(c: Dcache, s0: Snapshot, m0: Counts, f: Fate, r: Outcome, ids: seq<nat>)
    requires r.Found?
    ensures Stepped(c, s0, m0, r) && Fulfilled(c, s0.live.Keys, f, r, ids) <==>
      f.At? && c.memory == f.memory && Underway(c, s0, m0, r.at, f.w, f.spot, ids)
  {
    hide Tracks, Walking;
  }

  /** A step that ends the walk is not a place. */
  lemma EndedEarly(c: Dcache, live0: set<nat>, f: Fate, r: Outcome, ids: seq<nat>)
    requires Fulfilled(c, live0, f, r, ids) && !r.Found?
    ensures !f.At?
  {
  }

  lemma MemoryBefore(c: Dcache, fs: FileSystem, memory: nat, before: nat, r: Outcome)
    requires memory <= before
    ensures MemoryOk(c, fs, memory, r) ==> MemoryOk(c, fs, before, r) && c.memory <= before
    ensures c.memory == memory && r.Found? ==> MemoryOk(c, fs, before, r)
  {
  }

  /** After a "..": the entry left was the only new one, or none is new. */
  lemma UpTracks(now: World, w: World, spot: Spot, ids: seq<nat>, at: Place, hashable: bool, s: Snapshot,
                 mounts: map<nat, Mount>, mountAt: map<nat, nat>, to: Place, memory: nat)
    requires Tracks(now, w, spot, ids, at, hashable) && |spot.made| <= 1 && to.entry in s.live && mounts == now.mounts
      && mountAt == now.mountAt
    requires spot.made == [] ==>
      s.live == now.live && s.cache == now.cache && s.depth == now.depth && to == Above(now, at)
    requires spot.made != [] ==>
      s.live == now.live - {at.entry} && s.cache == Forget(now.cache, at.entry) && s.depth == now.depth - {at.entry}
    requires spot.made != [] ==> to == Place(spot.base, spot.mount)
    ensures WorldOf(s, mounts, mountAt) == w && Tracks(w, w, Spot(to.entry, to.mount, []), [], to, hashable)
    ensures Up(w, spot, memory) == At(w, Spot(to.entry, to.mount, []), memory)
  {
    hide Tracks, WorldOk, Forget, Above;
    if spot.made == [] {
      TracksOld(now, w, spot, ids, at, hashable);
    } else {
      LeaveNew(now, w, spot, ids, at, hashable);
    }
    TracksHere(w, to, hashable);
  }

  lemma FateStep(w: World, fs: FileSystem, auto: bool, spot: Spot, name: string, rest: seq<string>, memory: nat)
    ensures FateOf(w, fs, auto, spot, [name] + rest, memory) ==
              var f := OneStep(w, fs, auto, spot, name, memory);
              if f.At? then FateOf(f.w, fs, auto, f.spot, rest, f.memory) else f
  {
    hide OneStep;
    assert ([name] + rest)[1..] == rest && ([name] + rest)[0] == name;
  }

  lemma FateEnd(w: World, fs: FileSystem, auto: bool, spot: Spot, memory: nat)
    ensures FateOf(w, fs, auto, spot, Components(""), memory) == At(w, spot, memory)
  {
  }

  lemma FoundPlace(c: Dcache, s0: Snapshot, m0: Counts, r: Outcome)
    requires r.Found?
    ensures Stepped(c, s0, m0, r) <==> Walking(c, s0, m0, r.at)
  {
  }

  /** A path that needs neither a new entry nor the file system: its fate is where the cache leads. */
  lemma {:induction false} ClearFate(w: World, fs: FileSystem, auto: bool, at: Place, names: seq<string>, memory: nat)
    requires AllClear(w, fs, auto, at, names)
    ensures var to := Follow(w, auto, at, names);
      FateOf(w, fs, auto, Spot(at.entry, at.mount, []), names, memory) == At(w, Spot(to.entry, to.mount, []), memory)
    decreases |names|
  {
    if names != [] {
      ClearStep(w, fs, auto, at, names[0], memory);
      hide Clear, OneStep, Step;
      ClearFate(w, fs, auto, Step(w, auto, at, names[0]), names[1..], memory);
    }
  }

  lemma ClearStep(w: World, fs: FileSystem, auto: bool, at: Place, name: string, memory: nat)
    requires Clear(w, fs, at, name)
    ensures var to := Step(w, auto, at, name);
      OneStep(w, fs, auto, Spot(at.entry, at.mount, []), name, memory) == At(w, Spot(to.entry, to.mount, []), memory)
  {
    hide Crossed, Above;
    assert Below([]) == [];
  }

  lemma {:induction false} ComponentsStep(s: string)
    requires s != []
    ensures FirstSlash(s) == 0 ==> Components(s) == Components(Rest(s))
    ensures FirstSlash(s) != 0 ==>
      Components(s) == [s[..FirstSlash(s)]] + Components(Rest(s)) && s[..FirstSlash(s)] in Components(s)
    ensures forall n :: n in Components(Rest(s)) ==> n in Components(s)
  {
    hide FirstSlash, Rest;
    var k, rest := FirstSlash(s), Components(Rest(s));
    if k != 0 {
      assert ([s[..k]] + rest)[0] == s[..k];
    }
  }

  lemma Unmoved(s: Snapshot)
    requires Good(s)
    ensures Holding(s, s, 0)
  {
  }

  lemma TakenOne(s: Snapshot, s': Snapshot, e: nat)
    requires Good(s) && Good(s') && e in s.live && e in s.refs && e in s.held
    requires s' == s.(refs := s.refs[e := s.refs[e] + 1], held := s.held[e := s.held[e] + 1])
      && Shifted(s.held, s'.held, e, 1)
    ensures Holding(s, s', e) && Extra(s, s', e) && e != 0
  {
    assert e != 0;
    hide Ok, EntryOk, Held;
    forall x ensures Held(s'.held, x) == Held(s.held, x) + if x == e && e != 0 then 1 else 0 {
      assert Held(s'.held, x) == Held(s.held, x) + if x == e then 1 else 0;
    }
  }

  /** The starting point, with a reference to it and to the mount. */
  method Begin(c: Dcache, base: nat, mnt: nat, path: string) returns (start: Place)
    requires c.Valid() && MountsOk(c.live, c.mounts, c.mountAt, c.mountRefs) && base in c.live
      && (mnt != 0 ==> mnt in c.mounts)
    modifies c`live, c`refs, c`cache, c`held, c`depth, c`mountRefs
    ensures Walking(c, old(c.Now()), old(c.mountRefs), start) && Extra(old(c.Now()), c.Now(), start.entry)
    ensures start == StartAt(WorldOf(old(c.Now()), c.mounts, c.mountAt), base, mnt, path)
  {
    hide Ok, EntryOk, CacheOk, Kept, Held, Shifted, Exactly, Exchanged, Holding;
    ghost var s0 := c.Now();
    NoHolder(c.live, c.refs, c.held, c.depth, c.cache, base);
    c.Ref(base);
    if mnt != 0 {
      c.mountRefs := c.mountRefs[mnt := c.mountRefs[mnt] + 1];
    }
    ghost var s1 := c.Now();
    TakenOne(s0, s1, base);
    if path != "" && path[0] == '/' && mnt != 0 {
      var root := c.mounts[mnt].root;
      ToRoot(c, s0, base, root);
      return Place(root, mnt);
    }
    return Place(base, mnt);
  }

  /** The reference goes from the entry the walk was given to the root of its mount. */
  method ToRoot(c: Dcache, ghost s0: Snapshot, base: nat, root: nat)
    requires Good(s0) && c.Valid() && Holding(s0, c.Now(), base) && Extra(s0, c.Now(), base) && base != 0
    requires base in s0.live && root in s0.live
    modifies c`live, c`refs, c`cache, c`held, c`depth
    ensures Holding(s0, c.Now(), root) && Extra(s0, c.Now(), root) && root != 0
  {
    hide Ok, EntryOk, CacheOk, Kept, Held, Shifted, Exactly, Exchanged, Holding;
    ghost var s1 := c.Now();
    HoldingLive(s0, s1, base);
    var _ := c.Replace(base, root);
    HoldingMove(s0, s1, c.Now(), base, root);
    ExactlyTables(s1, c.Now(), base, root);
    assert s0.(live := c.live) == s0;
    HoldingExact(s0, c.Now(), root);
  }

  /** Out of memory: both references are dropped again. */
  method GiveUp(c: Dcache, ghost s0: Snapshot, ghost m0: Counts, at: Place) returns (r: Outcome)
    requires Walking(c, s0, m0, at)
    modifies c`live, c`refs, c`cache, c`held, c`depth, c`mountRefs
    ensures r == Error(-ENOMEM) && Stepped(c, s0, m0, r)
  {
    hide Ok, EntryOk, CacheOk, Kept, Held, Shifted, Holding;
    ghost var was := c.Now();
    HoldingLive(s0, was, at.entry);
    c.Unref(at.entry);
    HoldingDrop(s0, was, c.Now(), at.entry);
    if at.mount != 0 {
      c.mountRefs := c.mountRefs[at.mount := c.mountRefs[at.mount] - 1];
    }
    assert c.mountRefs == m0;
    return Error(-ENOMEM);
  }

  lemma ComponentsNil()
    ensures Components("") == []
  {
  }

  lemma HoldingFound(c: Dcache, s0: Snapshot, m0: Counts, r: Outcome)
    requires Good(s0) && Stepped(c, s0, m0, r) && !r.Dangling?
    ensures StillThere(s0, c.Now())
  {
    HoldingLive(s0, c.Now(), if r.Found? then r.at.entry else 0);
  }

  lemma CopyPending(buf: seq<char>, s: string)
    requires |buf| == |s| + 1 && (forall i :: 0 <= i < |buf| ==> buf[i] == if i < |s| then s[i] else '\0') && '\0' !in s
    ensures Pending(buf, 0, s)
  {
    assert buf[0..|buf| - 1] == s;
  }

  lemma FollowNone(w: World, auto: bool, at: Place)
    ensures Follow(w, auto, at, []) == at
  {
  }

  lemma BeginTracks(s0: Snapshot, s: Snapshot, mounts: map<nat, Mount>, mountAt: map<nat, nat>, start: Place,
                    hashable: bool)
    requires Good(s0) && Extra(s0, s, start.entry)
    ensures Tracks(WorldOf(s, mounts, mountAt), WorldOf(s0, mounts, mountAt), Spot(start.entry, start.mount, []), [],
      start, hashable)
  {
    var w := WorldOf(s0, mounts, mountAt);
    forall x | x in s0.live ensures s0.live[x].parent in s0.live {
      assert EntryOk(s0.live, s0.refs, s0.held, s0.depth, x);
    }
    TracksHere(w, start, hashable);
  }

  /** What becomes of a walk along `rel`: nothing to do, no memory for a copy, or the fate of its components. */
  ghost predicate Walked(c: Dcache, s0: Snapshot, w: World, fs: FileSystem, auto: bool, start: Place, rel: string,
                         memory: nat, r: Outcome, ids: seq<nat>)
    reads c
  {
    && (if rel == "" then r == Found(start)
        else if memory == 0 then r == Error(-ENOMEM)
        else Fulfilled(c, s0.live.Keys,
          FateOf(w, fs, auto, Spot(start.entry, start.mount, []), Components(rel), memory - 1), r, ids))
    && (AllClear(w, fs, auto, start, Components(rel)) && (rel == "" || memory > 0) ==>
          ClearResult(s0, c.Now(), Follow(w, auto, start, Components(rel)), r))
  }

  /** vfs_pathwalk. A success carries exactly one new reference to the entry and one to the mount, a failure none;
      whatever existed still exists under its name. Every walk ends as its fate says: at the place, with the error, or
      dangling. A path that the cache can answer leads where `Follow` says and changes nothing else. */
  method Walk(c: Dcache, base: nat, mnt: nat, path: string, auto: bool, fs: FileSystem)
    returns (r: Outcome, ghost ids: seq<nat>)
    requires c.Valid() && MountsOk(c.live, c.mounts, c.mountAt, c.mountRefs)
    requires (base != 0 ==> base in c.live) && (mnt != 0 ==> mnt in c.mounts) && '\0' !in path
    modifies c`live, c`refs, c`cache, c`held, c`depth, c`mountRefs, c`memory
    ensures Stepped(c, old(c.Now()), old(c.mountRefs), r) && MemoryOk(c, fs, old(c.memory), r)
    ensures !r.Dangling? ==> StillThere(old(c.Now()), c.Now())
    ensures base == 0 ==> r == Error(-EINVAL)
    ensures var w := WorldOf(old(c.Now()), c.mounts, c.mountAt);
      base != 0 ==>
        Walked(c, old(c.Now()), w, fs, auto, StartAt(w, base, mnt, path), Relative(path), old(c.memory), r, ids)
  {
    hide Ok, EntryOk, CacheOk, Kept, AllClear, Follow, Components, Holding, Extra, Tracks, FateOf, Fulfilled;
    ghost var s0, m0 := c.Now(), c.mountRefs;
    ids := [];
    Unmoved(s0);
    if base == 0 {
      r := Error(-EINVAL);
      HoldingFound(c, s0, m0, r);
      return;
    }
    var start := Begin(c, base, mnt, path);
    BeginTracks(s0, c.Now(), c.mounts, c.mountAt, start, c.hashable);
    var rel := Relative(path);
    hide Walking, MountsOk;
    if rel == "" {
      ComponentsNil();
      FollowNone(WorldOf(s0, c.mounts, c.mountAt), auto, start);
      r := Found(start);
      FoundPlace(c, s0, m0, r);
      HoldingFound(c, s0, m0, r);
      return;
    }
    if c.memory == 0 {
      r := GiveUp(c, s0, m0, start);
      HoldingFound(c, s0, m0, r);
      return;
    }
    c.memory := c.memory - 1;
    r, ids := WalkRelative(c, s0, m0, start, rel, auto, fs);
  }

  /** The walk once its copy of the path is allocated. */
  method WalkRelative(c: Dcache, ghost s0: Snapshot, ghost m0: Counts, start: Place, rel: string, auto: bool,
                      fs: FileSystem)
    returns (r: Outcome, ghost ids: seq<nat>)
    requires Walking(c, s0, m0, start) && Good(s0) && '\0' !in rel
    requires Tracks(WorldOf(c.Now(), c.mounts, c.mountAt), WorldOf(s0, c.mounts, c.mountAt),
      Spot(start.entry, start.mount, []), [], start, c.hashable)
    modifies c`live, c`refs, c`cache, c`held, c`depth, c`mountRefs, c`memory
    ensures Stepped(c, s0, m0, r) && MemoryOk(c, fs, old(c.memory), r)
    ensures !r.Dangling? ==> StillThere(s0, c.Now())
    ensures Fulfilled(c, s0.live.Keys,
      FateOf(WorldOf(s0, c.mounts, c.mountAt), fs, auto, Spot(start.entry, start.mount, []), Components(rel),
      old(c.memory)), r, ids)
    ensures AllClear(WorldOf(s0, c.mounts, c.mountAt), fs, auto, start, Components(rel)) ==>
      ClearResult(s0, c.Now(), Follow(WorldOf(s0, c.mounts, c.mountAt), auto, start, Components(rel)), r)
  {
    hide Ok, Walking, Stepped, MemoryOk, AllClear, Follow, Components, Pending, Extra, Tracks, FateOf, Fulfilled;
    var buf := new char[|rel| + 1](i => if 0 <= i < |rel| then rel[i] else '\0');
    CopyPending(buf[..], rel);
    ghost var w, names := WorldOf(s0, c.mounts, c.mountAt), Components(rel);
    r, ids := WalkCopy(c, s0, m0, start, buf, rel, auto, fs);
    if !r.Dangling? {
      HoldingFound(c, s0, m0, r);
    }
    if AllClear(w, fs, auto, start, names) {
      ClearFate(w, fs, auto, start, names, old(c.memory));
      ClearEnd(c, s0, m0, Follow(w, auto, start, names), old(c.memory), r, ids);
    }
  }

  /** A walk that ended in the cache as it was has only taken its references. */
  lemma ClearEnd(c: Dcache, s0: Snapshot, m0: Counts, to: Place, memory: nat, r: Outcome, ids: seq<nat>)
    requires Good(s0) && Stepped(c, s0, m0, r)
    requires Fulfilled(c, s0.live.Keys, At(WorldOf(s0, c.mounts, c.mountAt), Spot(to.entry, to.mount, []), memory), r,
      ids)
    ensures ClearResult(s0, c.Now(), to, r)
  {
    hide Ok, Tracks, WorldOk, Holding, MountsOk, Extra;
    TracksOld(WorldOf(c.Now(), c.mounts, c.mountAt), WorldOf(s0, c.mounts, c.mountAt), Spot(to.entry, to.mount, []),
      ids, r.at, c.hashable);
    assert s0.(live := c.live) == s0;
    HoldingExact(s0, c.Now(), r.at.entry);
  }

  lemma RootGood(name: string)
    ensures Ok(map[1 := Dentry(1, name, true, true, false)], map[1 := 1], map[1 := 1], map[1 := 0], map[])
  {
    assert Kids(map[1 := Dentry(1, name, true, true, false)], 1) == {};
  }

  /** A file system that finds a directory under every name. */
  function Everywhere(d: Dir, name: string): Answer { Present(true) }

  /** From a root alone, with such a file system, "a/b/.." creates two entries, and the ".." finds its parent gone. */
  method DanglingWalk(c: Dcache) returns (r: Outcome)
    requires c.live == map[1 := Dentry(1, "/", true, true, false)] && c.refs == map[1 := 1] && c.held == map[1 := 1]
      && c.depth == map[1 := 0]
    requires c.cache == map[] && c.mounts == map[] && c.mountAt == map[] && c.mountRefs == map[] && c.memory == 3
    modifies c`live, c`refs, c`cache, c`held, c`depth, c`mountRefs, c`memory
    ensures r == Dangling
  {
    RootGood("/");
    ghost var w := WorldOf(c.Now(), c.mounts, c.mountAt);
    ThreeComponents(w);
    TwoDown(w, Everywhere);
    hide Ok, Components, FateOf, Tracks, Stepped, MemoryOk, StartAt, Relative, Follow, AllClear;
    ghost var ids;
    r, ids := Walk(c, 1, 0, "a/b/..", false, Everywhere);
  }

  lemma ThreeComponents(w: World)
    requires w.mounts == map[]
    ensures var path := "a/b/..";
            StartAt(w, 1, 0, path) == Place(1, 0) && Relative(path) == path && path != "" && '\0' !in path
    ensures Components("a/b/..") == ["a", "b", ".."]
  {
    SlashAt("a", "/b/..");
    SlashAt("b", "/..");
    SlashAt("..", "");
    assert "a" + "/b/.." == "a/b/.." && "b" + "/.." == "b/.." && ".." + "" == "..";
    assert Rest("a/b/..") == "b/.." && Rest("b/..") == ".." && Rest("..") == "";
    assert "a/b/.."[..1] == "a" && "b/.."[..1] == "b" && ".."[..2] == "..";
    assert Components("") == [];
    assert Components("..") == [".."];
    assert Components("b/..") == ["b"] + [".."];
  }

  lemma TwoDown(w: World, fs: FileSystem)
    requires 1 in w.live && w.live[1].positive && w.live[1].dir && w.cache == map[]
      && forall d, n :: fs(d, n) == Present(true)
    ensures FateOf(w, fs, false, Spot(1, 0, []), ["a", "b", ".."], 2) == Dangles
  {
    var s1 := Spot(1, 0, [Made("a", Present(true))]);
    var s2 := Spot(1, 0, [Made("a", Present(true)), Made("b", Present(true))]);
    assert OneStep(w, fs, false, Spot(1, 0, []), "a", 2) == At(w, s1, 1);
    assert OneStep(w, fs, false, s1, "b", 1) == At(w, s2, 0);
    assert OneStep(w, fs, false, s2, "..", 0) == Dangles;
    hide OneStep;
    FateStep(w, fs, false, s2, "..", [], 0);
    FateStep(w, fs, false, s1, "b", [".."], 1);
    FateStep(w, fs, false, Spot(1, 0, []), "a", ["b", ".."], 2);
    assert [".."] == [".."] + [] && ["b", ".."] == ["b"] + [".."] && ["a", "b", ".."] == ["a"] + ["b", ".."];
  }
}
