/** Printing the path of a directory entry, and walking a path string. */
module PathWalk {
  import opened Common
  import opened PathNames
  import opened Dentries

  /** A mounted file system: its root, and the mount and entry it is mounted on (`parent` 0: none). */
  datatype Mount = Mount(root: nat, parent: nat, point: nat)

  /** What the file system says about a negative entry. */
  datatype Answer = NoLookup | Failed(err: Errno) | Absent | Present(dir: bool)

  type Errno = e: int | e < 0 witness -1

  /** A directory as the file system knows it: an entry there was before, and the names from it down. */
  datatype Dir = Dir(entry: nat, below: seq<string>)

  type FileSystem = (Dir, string) -> Answer

  ghost predicate MountsOk(live: Live, mounts: map<nat, Mount>, mountAt: map<nat, nat>, mountRefs: Counts) {
    && 0 !in mounts && mountRefs.Keys == mounts.Keys && (forall m :: m in mounts ==> mountRefs[m] >= 1)
    && (forall m :: m in mounts ==>
      mounts[m].root in live && (mounts[m].parent != 0 ==> mounts[m].parent in mounts && mounts[m].point in live))
    && (forall d :: d in mountAt ==> mountAt[d] in mounts)
  }

  datatype Snapshot = Snapshot(live: Live, refs: Counts, held: Counts, depth: Depths, cache: Cache)

  ghost predicate Good(s: Snapshot) { Ok(s.live, s.refs, s.held, s.depth, s.cache) }

  /** From one good state to another, one reference moved from `d` to `e`. */
  ghost predicate Exchanged(s: Snapshot, s': Snapshot, d: nat, e: nat) {
    && Good(s') && Kept(s.live, s.cache, s'.live, s'.cache) && e in s'.live && e in s'.held && s'.held[e] >= 1
    && forall x {:trigger Held(s'.held, x)} ::
         Held(s'.held, x) == Held(s.held, x) - (if x == d then 1 else 0) + (if x == e then 1 else 0)
  }

  /** From one good state to another, one reference to `d` was given up. */
  ghost predicate Dropped(s: Snapshot, s': Snapshot, d: nat) {
    Good(s') && Kept(s.live, s.cache, s'.live, s'.cache) && Shifted(s.held, s'.held, d, -1)
  }

  /** The same, and nothing else changed at all. */
  ghost predicate Exactly(s: Snapshot, s': Snapshot, d: nat, e: nat) {
    && s'.live == s.live && s'.cache == s.cache && s'.depth == s.depth
    && d in s.refs && e in s.refs && d in s.held && e in s.held
    && s'.refs == (if d == e then s.refs else s.refs[d := s.refs[d] - 1][e := s.refs[e] + 1])
    && s'.held == (if d == e then s.held else s.held[d := s.held[d] - 1][e := s.held[e] + 1])
  }

  /** A component that is answered from the cache alone. */
  ghost predicate Plain(live: Live, cache: Cache, answer: Answer, d: nat, name: string) {
    && name != "" && d in live && live[d].positive && live[d].dir && (d, name) in cache
    && cache[(d, name)] in live && (live[cache[(d, name)]].positive || answer in {NoLookup, Absent})
  }

  /** The errors dentry_acquire reports before it looks anything up. */
  function AcquireError(live: Live, parent: nat, name: string): int
    requires parent in live
  {
    if name == "" then -EINVAL else if !(live[parent].positive && live[parent].dir) then -ENOTDIR else 0
  }

  /** The child is not there or is negative, so that the file system is asked. */
  predicate Asks(live: Live, cache: Cache, d: nat, name: string) {
    (d, name) in cache && cache[(d, name)] in live ==> !live[cache[(d, name)]].positive
  }

  /** The error of one named component, 0 for none. */
  function EnterError(live: Live, cache: Cache, memory: nat, d: nat, name: string, answer: Answer): int
    requires d in live
  {
    if AcquireError(live, d, name) != 0 then AcquireError(live, d, name)
    else if (d, name) !in cache && memory == 0 then -ENOMEM
    else if Asks(live, cache, d, name) && answer.Failed? then answer.err
    else 0
  }

  /** A negative entry after the file system has answered. */
  function Completed(live: Live, next: nat, answer: Answer): Live {
    if next in live && !live[next].positive && answer.Present? then
      live[next := live[next].(positive := true, dir := answer.dir)]
    else live
  }

  /** The entry made for a name that was not cached, after the file system has answered. */
  function MadeEntry(d: nat, name: string, answer: Answer): Dentry {
    Dentry(d, name, answer.Present?, answer.Present? && answer.dir, false)
  }

  const ENOMEM := 12
  const ENOTDIR := 20
  const EINVAL := 22

  class Dcache {
    var live: Live
    var refs: Counts
    var cache: Cache
    var mounts: map<nat, Mount>
    var mountAt: map<nat, nat>
    var mountRefs: Counts
    var memory: nat      // allocations that can still succeed
    var hashable: bool   // whether new entries get into the hash table
    ghost var held: Counts
    ghost var depth: Depths

    ghost predicate Valid()
      reads this
    {
      Ok(live, refs, held, depth, cache)
    }

    /** dentry_ref */
    method Ref(d: nat)
      requires Valid() && d in live
      modifies this`refs, this`held
      ensures Valid() && refs == old(refs)[d := old(refs)[d] + 1] && held == old(held)[d := old(held)[d] + 1]
      ensures Shifted(old(held), held, d, 1)
    {
      NoHolder(live, refs, held, depth, cache, d);
      RefOk(live, refs, held, depth, cache, d, 1);
      refs := refs[d := refs[d] + 1];
      held := held[d := held[d] + 1];
    }

    /** dentry_unref by a holder of a reference. The last reference frees the entry and drops its hold on its parent,
        which may free that one too; nobody else's references change. */
    method Unref(d: nat)
      requires Valid() && d in live && d in held && held[d] >= 1 && d in refs && d in depth
      modifies this`live, this`refs, this`cache, this`held, this`depth
      ensures Valid() && Shifted(old(held), held, d, -1)
      ensures live.Keys <= old(live).Keys && Kept(old(live), old(cache), live, cache)
      ensures d in live <==> old(refs)[d] > 1
      ensures var p := old(live)[d].parent;
              p in old(refs) && (p != d ==> (p in live <==> old(refs)[d] > 1 || old(refs)[p] > 1))
      ensures forall x :: x in live ==> live[x] == old(live)[x]
      ensures old(refs)[d] > 1 ==>
        && live == old(live) && cache == old(cache) && depth == old(depth)
        && refs == old(refs)[d := old(refs)[d] - 1] && held == old(held)[d := old(held)[d] - 1]
      ensures var p := old(live)[d].parent;
              p != d && old(refs)[d] == 1 && p in old(refs) && old(refs)[p] > 1 ==>
                live == old(live) - {d} && cache == Forget(old(cache), d) && depth == old(depth) - {d}
      decreases depth[d], 1
    {
      hide Ok, Held, Shifted;
      NoHolder(live, refs, held, depth, cache, d);
      if refs[d] > 1 {
        RefOk(live, refs, held, depth, cache, d, -1);
        refs := refs[d := refs[d] - 1];
        held := held[d := held[d] - 1];
        return;
      }
      if live[d].parent != d {
        Free(d);
      } else {
        FreeRootOk(live, refs, held, depth, cache, d);
        live, refs := live - {d}, refs - {d};
        cache := Forget(cache, d);
        held, depth := held - {d}, depth - {d};
        ShiftedRoot(old(held), held, d);
      }
    }

    /** __dentry_free of an entry below another: out of the tables, then the reference it held on its parent is
        dropped. */
    method Free(d: nat)
      requires Valid() && d in live && d in held && d in refs && d in depth && refs[d] == 1 && held[d] == 1
        && live[d].parent != d
      modifies this`live, this`refs, this`cache, this`held, this`depth
      ensures Valid() && Shifted(old(held), held, d, -1)
      ensures live.Keys <= old(live).Keys && Kept(old(live), old(cache), live, cache) && d !in live
      ensures var p := old(live)[d].parent; p in old(refs) && (p in live <==> old(refs)[p] > 1)
      ensures forall x :: x in live ==> live[x] == old(live)[x]
      ensures old(refs)[old(live)[d].parent] > 1 ==>
        live == old(live) - {d} && cache == Forget(old(cache), d) && depth == old(depth) - {d}
      decreases depth[d], 0
    {
      hide Ok, Held, Shifted, Kept, Forget;
      NoHolder(live, refs, held, depth, cache, d);
      var p := live[d].parent;
      FreeOk(live, refs, held, depth, cache, d);
      ghost var held0 := held;
      live, refs := live - {d}, refs - {d};
      cache := Forget(cache, d);
      held, depth := held[p := held[p] + 1] - {d}, depth - {d};
      ghost var held1 := held;
      ghost var live1, cache1 := live, cache;
      Unref(p);
      ShiftedFree(held0, held1, held, d, p);
      KeptFree(old(live), old(cache), live1, cache1, live, cache, d);
    }

    /** Move a held reference from an entry to its parent, as both passes of the printer do. */
    method ToParent(d: nat) returns (p: nat)
      requires Valid() && d in live && d in held && d in refs && held[d] >= 1 && refs[d] >= 2 && live[d].parent != d
      modifies this`live, this`refs, this`cache, this`held, this`depth
      ensures Valid() && live == old(live) && cache == old(cache) && depth == old(depth)
      ensures p == live[d].parent && p in live && p in refs && p in held && p != d
      ensures refs == old(refs)[d := old(refs)[d] - 1][p := old(refs)[p] + 1]
      ensures held == old(held)[d := old(held)[d] - 1][p := old(held)[p] + 1]
    {
      hide Ok, Shifted, Kept;
      NoHolder(live, refs, held, depth, cache, d);
      p := live[d].parent;
      Ref(p);
      Unref(d);
    }

    /** The full path in a fresh buffer, zero-terminated, and every reference count as before.
        The buffer has one byte more than the text of a non-root entry needs, so the text is moved to its front. */
    method AllocFullPath(d: nat) returns (buf: array?<char>)
      requires Valid() && d in live
      modifies this`live, this`refs, this`cache, this`held, this`depth, this`memory
      ensures Valid() && live == old(live) && cache == old(cache) && depth == old(depth) && refs == old(refs)
        && held == old(held)
      ensures (buf == null <==> old(memory) == 0) && memory == if buf == null then 0 else old(memory) - 1
      ensures buf != null ==> fresh(buf) && HoldsString(buf[..], Absolute(NamesOf(live, depth, d)))
    {
      hide Ok, Shifted, Kept, NamesOf, Slashed;
      var pathLen := MeasurePath(d);
      if memory == 0 {
        return null;
      }
      memory := memory - 1;
      buf := new char[pathLen + 1];
      var end := pathLen;
      buf[end] := '\0';
      var start := FillBackwards(d, buf, end);
      if start > 0 {
        MoveToFront(buf, start);
      }
      assert buf[..] == buf[0..buf.Length];
    }

    /** The first pass: one character per slash and the length of every name, and one for the root. */
    method MeasurePath(d: nat) returns (pathLen: nat)
      requires Valid() && d in live
      modifies this`live, this`refs, this`cache, this`held, this`depth
      ensures Valid() && live == old(live) && cache == old(cache) && depth == old(depth) && refs == old(refs)
        && held == old(held)
      ensures pathLen == |Slashed(NamesOf(live, depth, d))| + 1
    {
      hide Ok, Shifted, Kept, NamesOf, Slashed;
      ghost var text := Slashed(NamesOf(live, depth, d));
      ghost var refs0, held0 := refs, held;
      NoHolder(live, refs, held, depth, cache, d);
      var cur := d;
      pathLen := 0;
      Ref(d);
      while live[cur].parent != cur
        invariant Valid() && Ok(live, refs0, held0, depth, cache) && live == old(live) && cache == old(cache)
          && depth == old(depth)
        invariant cur in live && cur in refs0 && cur in held0 && cur in depth
        invariant refs == refs0[cur := refs0[cur] + 1] && held == held0[cur := held0[cur] + 1]
        invariant pathLen + |Slashed(NamesOf(live, depth, cur))| == |text|
        decreases depth[cur]
      {
        NoHolder(live, refs0, held0, depth, cache, cur);
        NamesStep(live, refs, held, depth, cache, cur);
        SlashedSnoc(NamesOf(live, depth, live[cur].parent), live[cur].name);
        pathLen := pathLen + |live[cur].name| + 1;
        cur := ToParent(cur);
      }
      NamesStep(live, refs, held, depth, cache, cur);
      SlashedNil();
      pathLen := pathLen + 1;
      NoHolder(live, refs0, held0, depth, cache, cur);
      Unref(cur);
      assert refs == refs0 && held == held0;
    }

    /** The second pass: writes the names and slashes from the end towards the front, then the root's slash. */
    method FillBackwards(d: nat, buf: array<char>, end: nat) returns (start: nat)
      requires Valid() && d in live
      requires buf.Length == end + 1 && end == |Slashed(NamesOf(live, depth, d))| + 1 && buf[end] == '\0'
      modifies this`live, this`refs, this`cache, this`held, this`depth, buf
      ensures Valid() && live == old(live) && cache == old(cache) && depth == old(depth) && refs == old(refs)
        && held == old(held)
      ensures start <= 1
      ensures buf[start..end] == Absolute(NamesOf(live, depth, d)) && buf[end] == '\0'
    {
      hide Ok, Shifted, Kept, NamesOf, Slashed;
      SlashedHead(NamesOf(live, depth, d));
      NoHolder(live, refs, held, depth, cache, d);
      ghost var refs0, held0 := refs, held;
      var cur;
      start, cur := FillNames(d, buf, end);
      if start == end {
        start := start - 1;
      }
      buf[start] := '/';
      assert start == 1 ==> buf[start..end] == Slashed(NamesOf(live, depth, d));
      NoHolder(live, refs0, held0, depth, cache, cur);
      Unref(cur);
      assert refs == refs0 && held == held0;
    }

    /** Climbs to the root, writing each name with its slash; the reference taken ends up on the root. */
    method FillNames(d: nat, buf: array<char>, end: nat) returns (start: nat, cur: nat)
      requires Valid() && d in live
      requires buf.Length == end + 1 && end == |Slashed(NamesOf(live, depth, d))| + 1
      modifies this`live, this`refs, this`cache, this`held, this`depth, buf
      ensures Valid() && live == old(live) && cache == old(cache) && depth == old(depth)
      ensures cur in live && cur in old(refs) && cur in old(held)
      ensures refs == old(refs)[cur := old(refs)[cur] + 1] && held == old(held)[cur := old(held)[cur] + 1]
      ensures start == 1 && buf[start..end] == Slashed(NamesOf(live, depth, d)) && buf[end] == old(buf[end])
    {
      hide Ok, Shifted, Kept, NamesOf, Slashed;
      ghost var text := Slashed(NamesOf(live, depth, d));
      ghost var refs0, held0 := refs, held;
      NoHolder(live, refs, held, depth, cache, d);
      start, cur := end, d;
      Ref(d);
      while live[cur].parent != cur
        invariant Valid() && Ok(live, refs0, held0, depth, cache) && live == old(live) && cache == old(cache)
          && depth == old(depth)
        invariant cur in live && cur in refs0 && cur in held0 && cur in depth
        invariant refs == refs0[cur := refs0[cur] + 1] && held == held0[cur := held0[cur] + 1]
        invariant start == 1 + |Slashed(NamesOf(live, depth, cur))| <= end && buf[end] == old(buf[end])
        invariant Slashed(NamesOf(live, depth, cur)) + buf[start..end] == text
        decreases depth[cur]
      {
        NoHolder(live, refs0, held0, depth, cache, cur);
        NamesStep(live, refs, held, depth, cache, cur);
        SlashedSnoc(NamesOf(live, depth, live[cur].parent), live[cur].name);
        start := Prepend(buf, start, end, live[cur].name);
        cur := ToParent(cur);
      }
      NamesStep(live, refs, held, depth, cache, cur);
      SlashedNil();
    }

    /** dentry_acquireRaw for any type, with creation: the cached child, or a new negative one. 0 means out of
        memory. */
    method Acquire(parent: nat, name: string) returns (err: int, next: nat)
      requires Valid() && parent in live
      modifies this`live, this`refs, this`cache, this`held, this`depth, this`memory
      ensures Valid() && old(live).Keys <= live.Keys && Kept(old(live), old(cache), live, cache)
      ensures forall x :: x in old(live) ==> live[x] == old(live)[x]
      ensures err == AcquireError(old(live), parent, name)
      ensures err != 0 ==> next == 0
      ensures next == 0 ==>
        live == old(live) && refs == old(refs) && cache == old(cache) && held == old(held) && depth == old(depth)
        && memory == old(memory)
      ensures next != 0 ==>
        && next in live && next != parent && next in held && held[next] >= 1 && live[next].parent == parent
          && live[next].name == name
        && Shifted(old(held), held, next, 1)
      ensures err == 0 && (parent, name) in old(cache) ==>
        && next == old(cache)[(parent, name)] && next != 0 && live == old(live) && cache == old(cache)
          && depth == old(depth) && memory == old(memory)
        && next in old(refs) && refs == old(refs)[next := old(refs)[next] + 1]
        && next in old(held) && held == old(held)[next := old(held)[next] + 1]
      ensures err == 0 && (parent, name) !in old(cache) ==> (next == 0 <==> old(memory) == 0)
      ensures err == 0 && (parent, name) !in old(cache) && next != 0 ==>
        && next !in old(live) && live == old(live)[next := Dentry(parent, name, false, false, false)]
          && memory == old(memory) - 1
        && parent in old(depth) && depth == old(depth)[next := old(depth)[parent] + 1]
        && cache == if hashable then old(cache)[(parent, name) := next] else old(cache)
    {
      hide Ok, EntryOk, Held, Shifted;
      if name == "" {
        return -EINVAL, 0;
      }
      if !(live[parent].positive && live[parent].dir) {
        return -ENOTDIR, 0;
      }
      if (parent, name) in cache {
        next := cache[(parent, name)];
        CachedLive(live, refs, held, depth, cache, parent, name);
        NoHolder(live, refs, held, depth, cache, next);
        Ref(next);
        return 0, next;
      }
      if memory == 0 {
        return 0, 0;
      }
      memory := memory - 1;
      next := AddChild(parent, name);
      return 0, next;
    }

    /** __dentry_alloc and __dentry_hash: a new negative child. */
    method AddChild(parent: nat, name: string) returns (id: nat)
      requires Valid() && parent in live && (parent, name) !in cache
      modifies this`live, this`refs, this`cache, this`held, this`depth
      ensures Valid() && id != 0 && id !in old(live)
        && live == old(live)[id := Dentry(parent, name, false, false, false)]
      ensures Kept(old(live), old(cache), live, cache) && id in held && held[id] == 1 && Shifted(old(held), held, id, 1)
      ensures cache == if hashable then old(cache)[(parent, name) := id] else old(cache)
      ensures parent in old(depth) && depth == old(depth)[id := old(depth)[parent] + 1]
    {
      hide Ok, EntryOk, Held, Shifted, Kept;
      id := FreshAddress(live.Keys);
      var e := Dentry(parent, name, false, false, false);
      NoHolder(live, refs, held, depth, cache, parent);
      NewOk(live, refs, held, depth, cache, id, e);
      live, refs := live[id := e], refs[parent := refs[parent] + 1][id := 1];
      held, depth := held[id := 1], depth[id := depth[parent] + 1];
      if hashable {
        CacheNew(live, refs, held, depth, cache, parent, name, id);
        cache := cache[(parent, name) := id];
      }
      KeptAdd(old(live), old(cache), live, cache, id);
    }

    ghost function Now(): Snapshot
      reads this
    {
      Snapshot(live, refs, held, depth, cache)
    }

    /** Drop one entry, then take another, as the walk does for "..". Between the two nothing of the walk keeps the
        second entry alive; when it is the parent it is gone exactly when neither had a reference beyond the walk's and
        the child's. */
    method Replace(d: nat, e: nat) returns (ok: bool)
      requires Valid() && d in live && d in held && d in refs && d in depth && held[d] >= 1 && e in live
      modifies this`live, this`refs, this`cache, this`held, this`depth
      ensures e in old(refs)
        && (e == old(live)[d].parent ==> (ok <==> old(refs)[d] > 1 || (e != d && old(refs)[e] > 1)))
      ensures ok ==> Exchanged(old(Now()), Now(), d, e)
      ensures old(refs)[d] > 1 ==> ok && Exactly(old(Now()), Now(), d, e)
      ensures e == old(live)[d].parent && e != d && old(refs)[d] == 1 && old(refs)[e] > 1 ==>
        live == old(live) - {d} && cache == Forget(old(cache), d) && depth == old(depth) - {d}
    {
      hide Ok, EntryOk, Shifted, Kept, Held, Exactly, Exchanged;
      NoHolder(live, refs, held, depth, cache, d);
      ghost var s0 := Now();
      Unref(d);
      if e !in live {
        return false;
      }
      Take(e, s0, d);
      return true;
    }

    /** The second half: the entry is still there. */
    method Take(e: nat, ghost s0: Snapshot, ghost d: nat)
      requires Valid() && e in live && Good(s0) && d in s0.live && d in s0.refs && d in s0.held && e in s0.refs
        && e in s0.held
      requires Kept(s0.live, s0.cache, live, cache) && Shifted(s0.held, held, d, -1)
      requires s0.refs[d] > 1 ==>
        && live == s0.live && cache == s0.cache && depth == s0.depth
        && refs == s0.refs[d := s0.refs[d] - 1] && held == s0.held[d := s0.held[d] - 1]
      modifies this`refs, this`held
      ensures Exchanged(s0, Now(), d, e) && (s0.refs[d] > 1 ==> Exactly(s0, Now(), d, e))
    {
      hide Ok, EntryOk, Shifted, Kept, Held, Exactly, Exchanged;
      ghost var s1 := Now();
      NoHolder(live, refs, held, depth, cache, e);
      Ref(e);
      if s0.refs[d] > 1 {
        ReplacedExactly(s0, s1, Now(), d, e);
      }
      ExchangedBy(s0, s1, Now(), d, e);
    }

    /** Take one entry, then drop another. */
    method SwitchTo(d: nat, e: nat)
      requires Valid() && d in live && d in held && d in refs && d in depth && held[d] >= 1 && e in live
      modifies this`live, this`refs, this`cache, this`held, this`depth
      ensures Exchanged(old(Now()), Now(), d, e)
      ensures old(refs)[d] > 1 ==> Exactly(old(Now()), Now(), d, e)
    {
      hide Ok, EntryOk, Shifted, Kept, Held, Exactly, Exchanged;
      NoHolder(live, refs, held, depth, cache, e);
      ghost var s0 := Now();
      Ref(e);
      ghost var s1 := Now();
      Unref(d);
      SwitchedBy(s0, s1, Now(), d, e);
      if s0.refs[d] > 1 {
        SwitchedExactly(s0, s1, Now(), d, e);
      }
    }

    /** One named component: the child entry, completed by the file system's answer when it is negative; on success the
        reference moves from the directory to the child, on failure the directory's is dropped and nothing else
        remains. */
    method Enter(d: nat, name: string, answer: Answer) returns (err: int, next: nat)
      requires Valid() && d in live && d in held && d in refs && d in depth && held[d] >= 1
      modifies this`live, this`refs, this`cache, this`held, this`depth, this`memory
      ensures memory <= old(memory)
      ensures err == EnterError(old(live), old(cache), old(memory), d, name, answer)
      ensures err == 0 ==> next != 0 && Exchanged(old(Now()), Now(), d, next)
      ensures err == 0 && (d, name) in old(cache) ==>
        && next == old(cache)[(d, name)] && live == Completed(old(live), next, answer)
        && cache == old(cache) && depth == old(depth) && memory == old(memory)
      ensures err == 0 && (d, name) !in old(cache) ==>
        && next !in old(live) && live == old(live)[next := MadeEntry(d, name, answer)]
        && cache == (if hashable then old(cache)[(d, name) := next] else old(cache))
        && depth == old(depth)[next := old(depth)[d] + 1] && memory == old(memory) - 1
      ensures err != 0 ==> Dropped(old(Now()), Now(), d)
      ensures Plain(old(live), old(cache), answer, d, name) ==>
        err == 0 && next == old(cache)[(d, name)] && next in old(refs) && memory == old(memory)
          && Exactly(old(Now()), Now(), d, next)
    {
      hide Ok, EntryOk, CacheOk, Shifted, Kept, Held, Exactly, Exchanged;
      ghost var s0 := Now();
      err, next := Acquire(d, name);
      ghost var s1 := Now();
      if err != 0 || next == 0 {
        NoHolder(live, refs, held, depth, cache, d);
        Unref(d);
        return (if err != 0 then err else -ENOMEM), 0;
      }
      err := PassTo(d, next, answer, s0);
      if err != 0 {
        return err, 0;
      }
      if Plain(s0.live, s0.cache, answer, d, name) {
        SwitchedExactly(s0, s1, Now(), d, next);
      }
      return 0, next;
    }

    /** The second half: the child has been acquired. */
    method PassTo(d: nat, next: nat, answer: Answer, ghost s0: Snapshot) returns (err: int)
      requires Valid() && Good(s0) && d in s0.held && s0.held[d] >= 1 && s0.live.Keys <= live.Keys && d in live
        && live[d].positive
      requires Kept(s0.live, s0.cache, live, cache) && Shifted(s0.held, held, next, 1)
      requires next in live && live[next].parent == d && next in held && next != d && held[next] >= 1
      modifies this`live, this`refs, this`cache, this`held, this`depth
      ensures err == if !old(live)[next].positive && answer.Failed? then answer.err else 0
      ensures err != 0 ==> Dropped(s0, Now(), d)
      ensures err == 0 ==>
        && Exchanged(s0, Now(), d, next) && live == Completed(old(live), next, answer) && cache == old(cache)
          && depth == old(depth)
        && d in old(refs) && refs == old(refs)[d := old(refs)[d] - 1] && d in old(held)
          && held == old(held)[d := old(held)[d] - 1]
    {
      hide Ok, EntryOk, CacheOk, Shifted, Kept, Held, Exchanged;
      ghost var s1 := Now();
      NextOk(s0, s1, d, next);
      err := Complete(d, next, answer);
      if err != 0 {
        DropBoth(d, next, s0, s1);
        return;
      }
      ghost var s2 := Now();
      KidCounts(live, refs, held, depth, cache, d, next);
      Unref(d);
      EnterDone(s0, s1, s2, Now(), d, next);
    }

    /** A negative entry is completed by the file system, if its directory has a lookup operation. */
    method Complete(d: nat, next: nat, answer: Answer) returns (err: int)
      requires Valid() && d in live && next in live && live[d].positive
      modifies this`live
      ensures Valid() && Kept(old(live), cache, live, cache)
      ensures err == (if !old(live)[next].positive && answer.Failed? then answer.err else 0)
      ensures live == Completed(old(live), next, answer)
    {
      hide Ok, EntryOk, CacheOk;
      err := 0;
      if !live[next].positive && live[d].positive {
        match answer
        case NoLookup =>
        case Failed(e) =>
          return e;
        case Absent =>
        case Present(dir) =>
          InstantiateOk(live, refs, held, depth, cache, next, dir);
          live := live[next := live[next].(positive := true, dir := dir)];
      }
    }

    /** A failed component: the child, then the directory. */
    method DropBoth(d: nat, next: nat, ghost s0: Snapshot, ghost s1: Snapshot)
      requires Valid() && s1 == Now() && Good(s0) && d in s0.held && s0.held[d] >= 1 && s0.live.Keys <= s1.live.Keys
      requires Kept(s0.live, s0.cache, s1.live, s1.cache) && Shifted(s0.held, s1.held, next, 1)
      requires next in live && next in held && held[next] >= 1 && next in refs && next in depth
      modifies this`live, this`refs, this`cache, this`held, this`depth
      ensures Dropped(s0, Now(), d)
    {
      hide Ok, EntryOk, CacheOk, Shifted, Kept, Held, Dropped;
      Unref(next);
      ghost var s2 := Now();
      BothDropped(s0, s1, s2, d, next);
      Unref(d);
      DroppedBy(s0, s2, Now(), d);
    }
  }

  lemma ShiftedFree(held: Counts, held1: Counts, held2: Counts, d: nat, p: nat)
    requires d in held && held[d] == 1 && p in held && p != d
    requires held1 == held[p := held[p] + 1] - {d} && Shifted(held1, held2, p, -1)
    ensures Shifted(held, held2, d, -1)
  {
    forall x ensures Held(held2, x) == Held(held, x) + if x == d then -1 else 0 {
      assert Held(held2, x) == Held(held1, x) + if x == p then -1 else 0;
    }
  }

  lemma KeptFree(live: Live, cache: Cache, live1: Live, cache1: Cache, live2: Live, cache2: Cache, d: nat)
    requires live1 == live - {d} && cache1 == Forget(cache, d) && Kept(live1, cache1, live2, cache2)
      && live2.Keys <= live1.Keys
    ensures Kept(live, cache, live2, cache2)
  {
    forall k | k in cache && cache[k] in live2 ensures k in cache2 && cache2[k] == cache[k] {
      assert k in cache1 && cache1[k] == cache[k];
    }
  }

  lemma KeptAdd(live: Live, cache: Cache, live': Live, cache': Cache, id: nat)
    requires id !in live && id in live' && live' == live[id := live'[id]]
      && forall k :: k in cache ==> k in cache' && cache'[k] == cache[k]
    ensures Kept(live, cache, live', cache')
  {
  }

  lemma ShiftedRoot(held: Counts, held': Counts, d: nat)
    requires d in held && held[d] == 1 && held' == held - {d}
    ensures Shifted(held, held', d, -1)
  {
  }

  /** A C string: the text, then a zero byte. */
  ghost predicate HoldsString(buf: seq<char>, text: string) {
    |text| < |buf| && buf[..|text|] == text && buf[|text|] == '\0'
  }

  lemma SlashedNil()
    ensures Slashed([]) == ""
  {
  }

  /** memcpy of a name into the buffer. */
  method CopyIn(buf: array<char>, at: nat, name: string)
    requires at + |name| <= buf.Length
    modifies buf
    ensures forall i :: 0 <= i < |name| ==> buf[at + i] == name[i]
    ensures forall i :: 0 <= i < buf.Length && !(at <= i < at + |name|) ==> buf[i] == old(buf[i])
  {
    for i := 0 to |name|
      invariant forall k :: 0 <= k < i ==> buf[at + k] == name[k]
      invariant forall k :: 0 <= k < buf.Length && !(at <= k < at + i) ==> buf[k] == old(buf[k])
    {
      buf[at + i] := name[i];
    }
  }

  /** memmove of the text and its terminator to the front. */
  method MoveToFront(buf: array<char>, from: nat)
    requires 0 < from < buf.Length
    modifies buf
    ensures buf[..buf.Length - from] == old(buf[from..])
  {
    ghost var s := buf[..];
    for i := 0 to buf.Length - from
      invariant forall k :: 0 <= k < i ==> buf[k] == s[from + k]
      invariant forall k :: i <= k < buf.Length ==> buf[k] == s[k]
    {
      buf[i] := buf[from + i];
    }
    assert buf[..buf.Length - from] == s[from..];
  }

  /** One component of the path, in front of what is already there. */
  method Prepend(buf: array<char>, at: nat, end: nat, name: string) returns (start: nat)
    requires |name| < at <= end < buf.Length
    modifies buf
    ensures start == at - |name| - 1
    ensures buf[start..end] == "/" + name + old(buf[at..end]) && buf[end] == old(buf[end])
  {
    start := at - |name|;
    CopyIn(buf, start, name);
    start := start - 1;
    buf[start] := '/';
    ghost var s, t := buf[start..end], "/" + name + old(buf[at..end]);
    assert |s| == |t|;
    forall i | 0 <= i < |s| ensures s[i] == t[i] {
      if 1 <= i <= |name| {
        assert s[i] == buf[(start + 1) + (i - 1)];
      }
    }
  }

  lemma SlashedHead(names: seq<string>)
    ensures names == [] ==> Slashed(names) == ""
    ensures names != [] ==> Slashed(names) != "" && Slashed(names)[0] == '/'
  {
  }

  lemma CachedLive(live: Live, refs: Counts, held: Counts, depth: Depths, cache: Cache, parent: nat, name: string)
    requires Ok(live, refs, held, depth, cache) && (parent, name) in cache
    ensures var d := cache[(parent, name)];
            d in live && d != 0 && d != parent && live[d].parent == parent && live[d].name == name
  {
  }

  lemma CacheNew(live: Live, refs: Counts, held: Counts, depth: Depths, cache: Cache, parent: nat, name: string,
                 id: nat)
    requires Ok(live, refs, held, depth, cache) && id in live && id != parent && live[id].parent == parent
      && live[id].name == name
    ensures Ok(live, refs, held, depth, cache[(parent, name) := id])
  {
    hide EntryOk;
  }

  lemma HeldPositive(s: Snapshot, d: nat)
    requires Good(s) && Held(s.held, d) >= 1
    ensures d in s.live && d in s.held && d in s.refs && d in s.depth && s.held[d] >= 1 && s.refs[d] >= s.held[d]
  {
    NoHolder(s.live, s.refs, s.held, s.depth, s.cache, d);
  }

  lemma ExchangedBy(s0: Snapshot, s1: Snapshot, s2: Snapshot, d: nat, e: nat)
    requires Good(s0) && Good(s2)
    requires Kept(s0.live, s0.cache, s1.live, s1.cache) && Shifted(s0.held, s1.held, d, -1)
    requires s2.live == s1.live && s2.cache == s1.cache && Shifted(s1.held, s2.held, e, 1) && e in s2.live
    requires e in s1.held && s1.held[e] >= 0 && s2.held == s1.held[e := s1.held[e] + 1]
    ensures Exchanged(s0, s2, d, e)
  {
    hide Ok, EntryOk;
    forall x ensures Held(s2.held, x) == Held(s0.held, x) - (if x == d then 1 else 0) + (if x == e then 1 else 0) {
      assert Held(s1.held, x) == Held(s0.held, x) + if x == d then -1 else 0;
    }
  }

  /** After the child has been acquired both it and the directory are held, and they differ. */
  lemma NextOk(s0: Snapshot, s1: Snapshot, d: nat, next: nat)
    requires Good(s0) && Good(s1) && d in s0.held && s0.held[d] >= 1 && Shifted(s0.held, s1.held, next, 1)
    requires next in s1.live && s1.live[next].parent == d && next in s1.held
    ensures d in s1.live && d in s1.held && d in s1.refs && d in s1.depth && s1.held[d] >= 1
    ensures next in s1.refs && next in s1.depth
  {
    assert Held(s1.held, d) >= 1;
    HeldPositive(s1, d);
    NoHolder(s1.live, s1.refs, s1.held, s1.depth, s1.cache, next);
  }

  lemma InstantiateOk(live: Live, refs: Counts, held: Counts, depth: Depths, cache: Cache, d: nat, dir: bool)
    requires Ok(live, refs, held, depth, cache) && d in live
    ensures var live' := live[d := live[d].(positive := true, dir := dir)];
            Ok(live', refs, held, depth, cache) && Kept(live, cache, live', cache)
  {
    var live' := live[d := live[d].(positive := true, dir := dir)];
    forall x | x in live' ensures EntryOk(live', refs, held, depth, x) {
      assert EntryOk(live, refs, held, depth, x);
      assert Kids(live', x) == Kids(live, x);
    }
  }

  lemma KidCounts(live: Live, refs: Counts, held: Counts, depth: Depths, cache: Cache, d: nat, c: nat)
    requires Ok(live, refs, held, depth, cache) && d in live && c in live && c != d && live[c].parent == d
    ensures d in refs && d in held && d in depth && refs[d] >= held[d] + 1
  {
    assert EntryOk(live, refs, held, depth, d);
    assert c in Kids(live, d);
  }

  lemma KeptTrans(s0: Snapshot, s1: Snapshot, s2: Snapshot)
    requires Kept(s0.live, s0.cache, s1.live, s1.cache) && Kept(s1.live, s1.cache, s2.live, s2.cache)
      && s0.live.Keys <= s1.live.Keys
    requires CacheOk(s0.live, s0.cache)
    ensures Kept(s0.live, s0.cache, s2.live, s2.cache)
  {
    forall k | k in s0.cache && s0.cache[k] in s2.live ensures k in s2.cache && s2.cache[k] == s0.cache[k] {
      assert s0.cache[k] in s0.live;
    }
  }

  /** Nothing that existed is gone while every reference held then is still held. */
  lemma Survivors(s0: Snapshot, s: Snapshot)
    requires Good(s0) && Good(s) && Kept(s0.live, s0.cache, s.live, s.cache)
    requires forall x {:trigger Held(s.held, x)} :: Held(s.held, x) >= Held(s0.held, x)
    ensures s0.live.Keys <= s.live.Keys
  {
    hide Ok, EntryOk, Kept;
    forall y | y in s0.live ensures Held(s.held, y) >= Held(s0.held, y) {
    }
    AllSurvive(s0.live, s0.refs, s0.held, s0.depth, s0.cache, s.live, s.refs, s.held, s.depth, s.cache);
  }

  lemma SwitchedBy(s0: Snapshot, s1: Snapshot, s2: Snapshot, d: nat, e: nat)
    requires Good(s0) && Good(s2) && d in s0.held && s0.held[d] >= 1
    requires s1.live == s0.live && s1.cache == s0.cache && Shifted(s0.held, s1.held, e, 1) && e in s0.held
      && s0.held[e] >= 0
    requires Kept(s1.live, s1.cache, s2.live, s2.cache) && Shifted(s1.held, s2.held, d, -1)
    ensures Exchanged(s0, s2, d, e)
  {
    hide Ok, EntryOk;
    forall x ensures Held(s2.held, x) == Held(s0.held, x) - (if x == d then 1 else 0) + (if x == e then 1 else 0) {
      assert Held(s1.held, x) == Held(s0.held, x) + if x == e then 1 else 0;
    }
    assert Held(s2.held, e) >= 1;
    HeldPositive(s2, e);
  }

  lemma ReplacedExactly(s0: Snapshot, s1: Snapshot, s2: Snapshot, d: nat, e: nat)
    requires d in s0.refs && d in s0.held && e in s0.refs && e in s0.held
    requires s1.live == s0.live && s1.cache == s0.cache && s1.depth == s0.depth
    requires s1.refs == s0.refs[d := s0.refs[d] - 1] && s1.held == s0.held[d := s0.held[d] - 1]
    requires s2.live == s1.live && s2.cache == s1.cache && s2.depth == s1.depth
    requires s2.refs == s1.refs[e := s1.refs[e] + 1] && s2.held == s1.held[e := s1.held[e] + 1]
    ensures Exactly(s0, s2, d, e)
  {
    assert d == e ==> s2.refs == s0.refs && s2.held == s0.held;
  }

  lemma SwitchedExactly(s0: Snapshot, s1: Snapshot, s2: Snapshot, d: nat, e: nat)
    requires d in s0.refs && d in s0.held && e in s0.refs && e in s0.held
    requires s1.live == s0.live && s1.cache == s0.cache && s1.depth == s0.depth
    requires s1.refs == s0.refs[e := s0.refs[e] + 1] && s1.held == s0.held[e := s0.held[e] + 1]
    requires s2.live == s1.live && s2.cache == s1.cache && s2.depth == s1.depth
    requires s2.refs == s1.refs[d := s1.refs[d] - 1] && s2.held == s1.held[d := s1.held[d] - 1]
    ensures Exactly(s0, s2, d, e)
  {
    assert d == e ==> s2.refs == s0.refs && s2.held == s0.held;
    assert d != e ==>
      s2.refs == s0.refs[d := s0.refs[d] - 1][e := s0.refs[e] + 1]
      && s2.held == s0.held[d := s0.held[d] - 1][e := s0.held[e] + 1];
  }

  lemma BothDropped(s0: Snapshot, s1: Snapshot, s2: Snapshot, d: nat, next: nat)
    requires Good(s0) && Good(s2) && d in s0.held && s0.held[d] >= 1 && s0.live.Keys <= s1.live.Keys
    requires Kept(s0.live, s0.cache, s1.live, s1.cache) && Shifted(s0.held, s1.held, next, 1)
    requires Kept(s1.live, s1.cache, s2.live, s2.cache) && Shifted(s1.held, s2.held, next, -1)
    ensures Kept(s0.live, s0.cache, s2.live, s2.cache) && Shifted(s0.held, s2.held, d, 0)
      && s0.live.Keys <= s2.live.Keys
    ensures d in s2.live && d in s2.held && s2.held[d] >= 1 && d in s2.refs && d in s2.depth
  {
    assert CacheOk(s0.live, s0.cache);
    hide Ok, EntryOk, Kept;
    KeptTrans(s0, s1, s2);
    forall x ensures Held(s2.held, x) == Held(s0.held, x) {
      assert Held(s1.held, x) == Held(s0.held, x) + if x == next then 1 else 0;
    }
    Survivors(s0, s2);
    assert Held(s2.held, d) >= 1;
    HeldPositive(s2, d);
  }

  lemma DroppedBy(s0: Snapshot, s2: Snapshot, s3: Snapshot, d: nat)
    requires Good(s0) && Good(s3) && s0.live.Keys <= s2.live.Keys
    requires Kept(s0.live, s0.cache, s2.live, s2.cache) && Shifted(s0.held, s2.held, d, 0)
    requires Kept(s2.live, s2.cache, s3.live, s3.cache) && Shifted(s2.held, s3.held, d, -1)
    ensures Dropped(s0, s3, d)
  {
    assert CacheOk(s0.live, s0.cache);
    hide Ok, EntryOk, Kept, Held;
    KeptTrans(s0, s2, s3);
    forall x ensures Held(s3.held, x) == Held(s0.held, x) + if x == d then -1 else 0 {
      assert Held(s2.held, x) == Held(s0.held, x);
      assert Held(s3.held, x) == Held(s2.held, x) + if x == d then -1 else 0;
    }
  }

  lemma EnterDone(s0: Snapshot, s1: Snapshot, s2: Snapshot, s3: Snapshot, d: nat, next: nat)
    requires Good(s0) && Good(s3) && s0.live.Keys <= s1.live.Keys == s2.live.Keys
    requires Kept(s0.live, s0.cache, s1.live, s1.cache) && Shifted(s0.held, s1.held, next, 1)
    requires Kept(s1.live, s1.cache, s2.live, s2.cache) && s2.held == s1.held && next in s1.held && s1.held[next] >= 1
      && next != d
    requires Kept(s2.live, s2.cache, s3.live, s3.cache) && Shifted(s2.held, s3.held, d, -1)
    ensures Exchanged(s0, s3, d, next)
  {
    assert CacheOk(s0.live, s0.cache);
    hide Ok, EntryOk, Kept;
    KeptTrans(s0, s1, s2);
    KeptTrans(s0, s2, s3);
    forall x ensures Held(s3.held, x) == Held(s0.held, x) - (if x == d then 1 else 0) + (if x == next then 1 else 0) {
      assert Held(s1.held, x) == Held(s0.held, x) + if x == next then 1 else 0;
    }
    assert Held(s3.held, next) >= 1;
    HeldPositive(s3, next);
  }
}
