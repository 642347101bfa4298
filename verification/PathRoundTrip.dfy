/** Printing the path of an entry and walking it again leads back to the entry. */
module PathRoundTrip {
  import opened PathNames
  import opened Dentries
  import opened PathWalk
  import opened PathFate
  import opened PathResolve

  /** Every entry from the root down to `d` is cached under a plain name in a directory, and no mount is crossed on the
      way. */
  ghost predicate Printable(w: World, auto: bool, d: nat)
    decreases if d in w.depth then w.depth[d] else 0
  {
    d in w.live && d in w.depth &&
    var p, n := w.live[d].parent, w.live[d].name;
    p == d || (
      && p in w.depth && w.depth[p] < w.depth[d] && PlainName(n)
      && p in w.live && w.live[p].positive && w.live[p].dir && (p, n) in w.cache && w.cache[(p, n)] == d
      && !(auto && w.live[d].mounted) && Printable(w, auto, p))
  }

  /** What the file system says of an entry, if it is asked. */
  ghost function Said(w: World, fs: FileSystem, d: nat): Answer {
    if d !in w.live || w.live[d].parent == d || w.live[d].positive then NoLookup
    else fs(Dir(w.live[d].parent, []), w.live[d].name)
  }

  ghost function RootOf(w: World, d: nat): nat
    decreases if d in w.depth then w.depth[d] else 0
  {
    if d !in w.live || d !in w.depth then d else
    var p := w.live[d].parent;
    if p == d || p !in w.depth || w.depth[p] >= w.depth[d] then d else RootOf(w, p)
  }

  lemma {:induction false} FollowSnoc(w: World, fs: FileSystem, auto: bool, at: Place, names: seq<string>, n: string)
    ensures Follow(w, auto, at, names + [n]) == Step(w, auto, Follow(w, auto, at, names), n)
    ensures AllClear(w, fs, auto, at, names) && Clear(w, fs, Follow(w, auto, at, names), n) ==>
      AllClear(w, fs, auto, at, names + [n])
    decreases |names|
  {
    hide Step, Clear;
    if names == [] {
      assert (names + [n])[1..] == [] && (names + [n])[0] == n;
    } else {
      assert (names + [n])[1..] == names[1..] + [n] && (names + [n])[0] == names[0];
      FollowSnoc(w, fs, auto, Step(w, auto, at, names[0]), names[1..], n);
    }
  }

  /** The names of an entry, followed from its root, lead to the entry; the file system has a say only about a negative
      entry. */
  lemma {:induction false} NamesLeadBack(w: World, fs: FileSystem, auto: bool, d: nat, m: nat)
    requires Printable(w, auto, d)
    ensures Follow(w, auto, Place(RootOf(w, d), m), NamesOf(w.live, w.depth, d)) == Place(d, m)
    ensures Said(w, fs, d) in {NoLookup, Absent} ==>
      AllClear(w, fs, auto, Place(RootOf(w, d), m), NamesOf(w.live, w.depth, d))
    ensures forall n :: n in NamesOf(w.live, w.depth, d) ==> PlainName(n)
    decreases w.depth[d]
  {
    var p, n := w.live[d].parent, w.live[d].name;
    if p != d {
      NamesLeadBack(w, fs, auto, p, m);
      hide Follow, AllClear;
      FollowSnoc(w, fs, auto, Place(RootOf(w, d), m), NamesOf(w.live, w.depth, p), n);
    }
  }

  lemma {:induction false} FateSnoc(w: World, fs: FileSystem, auto: bool, spot: Spot, names: seq<string>, n: string,
                                    memory: nat)
    requires FateOf(w, fs, auto, spot, names, memory).At?
    ensures var f := FateOf(w, fs, auto, spot, names, memory);
      FateOf(w, fs, auto, spot, names + [n], memory) == OneStep(f.w, fs, auto, f.spot, n, f.memory)
    decreases |names|
  {
    hide OneStep;
    if names == [] {
      assert (names + [n])[1..] == [] && (names + [n])[0] == n;
    } else {
      assert (names + [n])[1..] == names[1..] + [n] && (names + [n])[0] == names[0];
      var f := OneStep(w, fs, auto, spot, names[0], memory);
      FateSnoc(f.w, fs, auto, f.spot, names[1..], n, f.memory);
    }
  }

  /** The fate of the walk: the entry, completed if the file system knows it by now, or the file system's error. */
  lemma PrintedFate(w: World, fs: FileSystem, auto: bool, d: nat, m: nat, memory: nat)
    requires Printable(w, auto, d)
    ensures FateOf(w, fs, auto, Spot(RootOf(w, d), m, []), NamesOf(w.live, w.depth, d), memory)
      == var answer := Said(w, fs, d);
         if answer.Failed? then Fails(answer.err)
         else At(w.(live := Completed(w.live, d, answer)), Spot(d, m, []), memory)
  {
    NamesLeadBack(w, fs, auto, d, m);
    var p, n := w.live[d].parent, w.live[d].name;
    var at, names := Place(RootOf(w, d), m), NamesOf(w.live, w.depth, d);
    if p == d {
      ClearFate(w, fs, auto, at, names, memory);
    } else {
      NamesLeadBack(w, fs, auto, p, m);
      hide Follow, AllClear, FateOf;
      ClearFate(w, fs, auto, at, NamesOf(w.live, w.depth, p), memory);
      FateSnoc(w, fs, auto, Spot(at.entry, m, []), NamesOf(w.live, w.depth, p), n, memory);
      assert names == NamesOf(w.live, w.depth, p) + [n] && Below([]) == [];
    }
  }

  /** Cutting the printed text gives the names back. */
  lemma PrintedComponents(names: seq<string>)
    requires forall n :: n in names ==> PlainName(n)
    ensures Components(Relative(Absolute(names))) == names && '\0' !in Absolute(names)
  {
    if names != [] {
      ComponentsOfSlashed(names);
    }
    NoZero(names);
  }

  lemma {:induction false} NoZero(names: seq<string>)
    requires forall n :: n in names ==> PlainName(n)
    ensures '\0' !in Slashed(names)
  {
    if names != [] {
      assert PlainName(names[0]);
      NoZero(names[1..]);
    }
  }

  /** The text of a C string. */
  method ReadString(buf: array<char>, ghost text: string) returns (s: string)
    requires HoldsString(buf[..], text) && '\0' !in text
    ensures s == text
  {
    var n := 0;
    StringEnd(buf[..], text, n);
    while buf[n] != '\0'
      invariant n <= |text| < buf.Length && (buf[n] == '\0' <==> n == |text|)
      decreases buf.Length - n
    {
      n := n + 1;
      StringEnd(buf[..], text, n);
    }
    s := buf[..n];
    assert s == buf[..][..n];
  }

  lemma StringEnd(buf: seq<char>, text: string, n: nat)
    requires HoldsString(buf, text) && '\0' !in text && n <= |text|
    ensures buf[n] == '\0' <==> n == |text|
  {
    if n < |text| {
      assert buf[n] == text[n];
    }
  }

  /** dentry_allocFullPath, then vfs_pathwalk on its result from the same root. Unless one of the two allocations fails,
      it is the same entry, with one more reference and everything else as before, but completed if it was negative and
      the file system knows it by now; the only other end is the file system's error for a negative entry. */
  method PrintThenWalk(c: Dcache, d: nat, base: nat, mnt: nat, auto: bool, fs: FileSystem) returns (r: Outcome)
    requires c.Valid() && MountsOk(c.live, c.mounts, c.mountAt, c.mountRefs)
    requires base in c.live && (mnt != 0 ==> mnt in c.mounts)
    requires var w := WorldOf(c.Now(), c.mounts, c.mountAt);
      Printable(w, auto, d) && RootOf(w, d) == if mnt != 0 then c.mounts[mnt].root else base
    modifies c`live, c`refs, c`cache, c`held, c`depth, c`mountRefs, c`memory
    ensures Returned(c, old(c.Now()), old(c.mountRefs), Said(WorldOf(old(c.Now()), c.mounts, c.mountAt), fs, d), d, mnt,
      old(c.memory) >= 2, r)
  {
    assert 0 !in c.mounts;
    hide Ok, EntryOk, CacheOk, Kept, Printable, NamesOf, Absolute, Holding, Extra, MountsOk, Said, RootOf, StartAt,
      Components, Relative;
    ghost var s0, w := c.Now(), WorldOf(c.Now(), c.mounts, c.mountAt);
    ghost var names := NamesOf(w.live, w.depth, d);
    PrintableLive(w, auto, d);
    PrintedPath(w, fs, auto, d, base, mnt, Absolute(names));
    var buf := c.AllocFullPath(d);
    assert c.Now() == s0;
    if buf == null {
      Unmoved(s0);
      return Error(-ENOMEM);
    }
    var path := ReadString(buf, Absolute(names));
    r := WalkPrinted(c, d, base, mnt, path, auto, fs);
  }

  /** The outcome for entry `d` after the file system's answer, with or without enough memory. */
  ghost predicate Returned(c: Dcache, s0: Snapshot, m0: Counts, answer: Answer, d: nat, m: nat, memory: bool,
                           r: Outcome)
    reads c
  {
    var done := if answer.Failed? then Error(answer.err) else Found(Place(d, m));
    && (r == done || r == Error(-ENOMEM)) && (memory ==> r == done)
    && (r.Found? ==>
          Extra(s0.(live := Completed(s0.live, d, answer)), c.Now(), d) && c.mountRefs == Plus(m0, m))
    && (r.Error? ==> Holding(s0, c.Now(), 0) && c.mountRefs == m0)
  }

  /** The walk of a printed path. */
  method WalkPrinted(c: Dcache, d: nat, base: nat, mnt: nat, path: string, auto: bool, fs: FileSystem)
    returns (r: Outcome)
    requires c.Valid() && MountsOk(c.live, c.mounts, c.mountAt, c.mountRefs)
    requires base in c.live && (mnt != 0 ==> mnt in c.mounts)
    requires var w := WorldOf(c.Now(), c.mounts, c.mountAt);
      && Printable(w, auto, d) && RootOf(w, d) == (if mnt != 0 then c.mounts[mnt].root else base)
      && path == Absolute(NamesOf(w.live, w.depth, d))
    modifies c`live, c`refs, c`cache, c`held, c`depth, c`mountRefs, c`memory
    ensures Returned(c, old(c.Now()), old(c.mountRefs), Said(WorldOf(old(c.Now()), c.mounts, c.mountAt), fs, d), d, mnt,
      old(c.memory) >= 1, r)
  {
    assert base != 0 && 0 !in c.mounts;
    hide Ok, EntryOk, CacheOk, Kept, Printable, AllClear, Follow, Components, NamesOf, Absolute, Holding, Extra,
      MountsOk, Said, FateOf, Fulfilled, Completed, Returned, Stepped, RootOf, Relative, StartAt, ClearResult, MemoryOk,
      StillThere, Kids, Plus, Walked;
    ghost var s0, w := c.Now(), WorldOf(c.Now(), c.mounts, c.mountAt);
    PrintedPath(w, fs, auto, d, base, mnt, path);
    ghost var m0, before, ids := c.mountRefs, c.memory, [];
    r, ids := Walk(c, base, mnt, path, auto, fs);
    PrintedOutcome(c, s0, m0, w, fs, auto, d, mnt, path, before, r, ids);
  }

  /** What a walk promises, for a printed path. */
  lemma PrintedOutcome(c: Dcache, s0: Snapshot, m0: Counts, w: World, fs: FileSystem, auto: bool, d: nat, m: nat,
                       path: string, before: nat, r: Outcome, ids: seq<nat>)
    requires w == WorldOf(s0, c.mounts, c.mountAt) && Good(s0) && Stepped(c, s0, m0, r) && Printable(w, auto, d)
    requires path == Absolute(NamesOf(w.live, w.depth, d))
    requires Components(Relative(path)) == NamesOf(w.live, w.depth, d)
    requires Walked(c, s0, w, fs, auto, Place(RootOf(w, d), m), Relative(path), before, r, ids)
    ensures Returned(c, s0, m0, Said(w, fs, d), d, m, before >= 1, r)
  {
    hide Ok, EntryOk, CacheOk, Kept, Printable, AllClear, Follow, Components, NamesOf, Absolute, Holding, Extra,
      MountsOk, Said, FateOf, Fulfilled, Completed, Returned, Stepped, RootOf, Relative, ClearResult, Plus;
    PrintableLive(w, auto, d);
    if Relative(path) == "" {
      NamesLeadBack(w, fs, auto, d, m);
      RootSaid(w, fs, auto, d, path);
      RootEnd(c, s0, m0, w, fs, d, m, before >= 1, r);
    } else if before == 0 {
      NoMemoryEnd(c, s0, m0, Said(w, fs, d), d, m, r);
    } else {
      PrintedFate(w, fs, auto, d, m, before - 1);
      PrintedEnd(c, s0, m0, w, fs, d, m, before - 1, r, ids);
    }
  }

  lemma RootEnd(c: Dcache, s0: Snapshot, m0: Counts, w: World, fs: FileSystem, d: nat, m: nat, memory: bool, r: Outcome)
    requires Said(w, fs, d) == NoLookup && Stepped(c, s0, m0, r) && ClearResult(s0, c.Now(), Place(d, m), r)
    ensures Returned(c, s0, m0, Said(w, fs, d), d, m, memory, r)
  {
    hide Ok, Holding, MountsOk, Said, Plus;
    assert s0.(live := s0.live) == s0;
  }

  lemma NoMemoryEnd(c: Dcache, s0: Snapshot, m0: Counts, answer: Answer, d: nat, m: nat, r: Outcome)
    requires r == Error(-ENOMEM) && Stepped(c, s0, m0, r)
    ensures Returned(c, s0, m0, answer, d, m, false, r)
  {
  }

  lemma PrintableLive(w: World, auto: bool, d: nat)
    requires Printable(w, auto, d)
    ensures d in w.live
  {
  }

  /** Only the root is printed as a lone slash. */
  lemma RootSaid(w: World, fs: FileSystem, auto: bool, d: nat, path: string)
    requires Printable(w, auto, d) && path == Absolute(NamesOf(w.live, w.depth, d)) && Relative(path) == ""
    ensures Said(w, fs, d) == NoLookup
  {
    NamesLeadBack(w, fs, auto, d, 0);
    PrintedComponents(NamesOf(w.live, w.depth, d));
  }

  lemma PrintedEnd(c: Dcache, s0: Snapshot, m0: Counts, w: World, fs: FileSystem, d: nat, m: nat, memory: nat,
                   r: Outcome, ids: seq<nat>)
    requires w == WorldOf(s0, c.mounts, c.mountAt) && Good(s0) && Stepped(c, s0, m0, r) && d in s0.live
    requires var answer := Said(w, fs, d);
      Fulfilled(c, s0.live.Keys,
        if answer.Failed? then Fails(answer.err)
        else At(w.(live := Completed(w.live, d, answer)), Spot(d, m, []), memory), r, ids)
    ensures Returned(c, s0, m0, Said(w, fs, d), d, m, true, r)
  {
    hide Ok, Tracks, WorldOk, Holding, MountsOk, Extra, Said, Completed;
    var answer := Said(w, fs, d);
    if !answer.Failed? {
      TracksOld(WorldOf(c.Now(), c.mounts, c.mountAt), w.(live := Completed(w.live, d, answer)), Spot(d, m, []), ids,
        r.at, c.hashable);
      HoldingExact(s0, c.Now(), d);
    }
  }

  /** Where the walk of a printed path starts, and along which names. */
  lemma PrintedPath(w: World, fs: FileSystem, auto: bool, d: nat, base: nat, m: nat, path: string)
    requires Printable(w, auto, d) && path == Absolute(NamesOf(w.live, w.depth, d))
    requires (m != 0 <==> m in w.mounts) && RootOf(w, d) == if m != 0 then w.mounts[m].root else base
    ensures StartAt(w, base, m, path) == Place(RootOf(w, d), m)
    ensures Components(Relative(path)) == NamesOf(w.live, w.depth, d) && '\0' !in path
  {
    NamesLeadBack(w, fs, auto, d, m);
    hide Components, Relative, RootOf, NamesOf, Printable;
    PrintedComponents(NamesOf(w.live, w.depth, d));
    SlashedHead(NamesOf(w.live, w.depth, d));
  }
}
