/** Where a path leads, told without identities, reference counts or hash tables: by the entries that were there
    before the walk and the names of the entries it creates below them. */
module PathFate {
  import opened PathNames
  import opened Dentries
  import opened PathWalk

  /** Where a walk is: an entry, and the mount it belongs to (0: none). */
  datatype Place = Place(entry: nat, mount: nat)

  /** The parts of the cache that decide where a path leads. */
  datatype World = World(live: Live, cache: Cache, depth: Depths, mounts: map<nat, Mount>, mountAt: map<nat, nat>)

  ghost function WorldOf(s: Snapshot, mounts: map<nat, Mount>, mountAt: map<nat, nat>): World {
    World(s.live, s.cache, s.depth, mounts, mountAt)
  }

  /** The mount of the nearest mount point at or above an entry, the root counting as one without being marked. */
  ghost function MountOf(w: World, d: nat): nat
    decreases if d in w.depth then w.depth[d] else 0
  {
    if d !in w.live then 0 else
    var p := w.live[d].parent;
    if p == d || d !in w.depth || p !in w.depth || w.depth[p] >= w.depth[d]
      then (if d in w.mountAt then w.mountAt[d] else 0)
    else if w.live[d].mounted && d in w.mountAt then w.mountAt[d]
    else MountOf(w, p)
  }

  /** Into the file system mounted on an entry, when asked to. */
  ghost function Crossed(w: World, auto: bool, at: Place): Place {
    var m := if auto && at.entry in w.live && w.live[at.entry].mounted then MountOf(w, at.entry) else 0;
    if m == 0 || m !in w.mounts then at else Place(w.mounts[m].root, m)
  }

  /** Within a mount to the parent; from a mount's root to the parent of its mount point, in the mount above. */
  ghost function Above(w: World, at: Place): Place {
    if at.entry !in w.live then at
    else if at.mount != 0 && at.mount in w.mounts && at.entry == w.mounts[at.mount].root then
      var up := w.mounts[at.mount].parent;
      if up == 0 || up == at.mount || w.mounts[at.mount].point !in w.live then at
      else Place(w.live[w.mounts[at.mount].point].parent, up)
    else Place(w.live[at.entry].parent, at.mount)
  }

  /** An entry the walk has created. */
  datatype Fresh = Fresh(name: string, positive: bool, dir: bool)

  /** Where a walk is: an entry that was there before, and the entries created on the way down from it. */
  datatype Spot = Spot(base: nat, mount: nat, made: seq<Fresh>)

  /** What becomes of a walk; `w` is what was there before, with the entries completed on the way. */
  datatype Fate = At(w: World, spot: Spot, memory: nat) | Fails(err: int) | Dangles

  function Below(made: seq<Fresh>): seq<string> {
    seq(|made|, i requires 0 <= i < |made| => made[i].name)
  }

  /** A new entry as the file system's answer leaves it. */
  function Made(name: string, answer: Answer): Fresh { Fresh(name, answer.Present?, answer.Present? && answer.dir) }

  /** The walk stands on a directory. */
  ghost predicate OnDirectory(w: World, spot: Spot) {
    if spot.made == [] then spot.base in w.live && w.live[spot.base].positive && w.live[spot.base].dir
    else spot.made[|spot.made| - 1].positive && spot.made[|spot.made| - 1].dir
  }

  /** A component that is a name. */
  ghost function Named(w: World, auto: bool, spot: Spot, name: string, answer: Answer, memory: nat): Fate {
    var known := spot.made == [] && (spot.base, name) in w.cache;
    if !OnDirectory(w, spot) then Fails(-ENOTDIR)
    else if !known && memory == 0 then Fails(-ENOMEM)
    else if answer.Failed? && (!known || Asks(w.live, w.cache, spot.base, name)) then Fails(answer.err)
    else if known then
      var next := w.cache[(spot.base, name)];
      var w' := w.(live := Completed(w.live, next, answer));
      var to := Crossed(w', auto, Place(next, spot.mount));
      At(w', Spot(to.entry, to.mount, []), memory)
    else At(w, spot.(made := spot.made + [Made(name, answer)]), memory - 1)
  }

  /** A "..". From the second or a deeper new entry it reaches for a parent that is gone: the walk's only reference was
      on the entry it leaves, and freeing that one frees the parent. */
  ghost function Up(w: World, spot: Spot, memory: nat): Fate {
    if |spot.made| >= 2 then Dangles
    else if |spot.made| == 1 then At(w, Spot(spot.base, spot.mount, []), memory)
    else var to := Above(w, Place(spot.base, spot.mount)); At(w, Spot(to.entry, to.mount, []), memory)
  }

  /** One component. */
  ghost function OneStep(w: World, fs: FileSystem, auto: bool, spot: Spot, name: string, memory: nat): Fate {
    if name == "." then At(w, spot, memory)
    else if name == ".." then Up(w, spot, memory)
    else Named(w, auto, spot, name, fs(Dir(spot.base, Below(spot.made)), name), memory)
  }

  ghost function FateOf(w: World, fs: FileSystem, auto: bool, spot: Spot, names: seq<string>, memory: nat): Fate
    decreases |names|
  {
    if names == [] then At(w, spot, memory) else
    match OneStep(w, fs, auto, spot, names[0], memory)
    case At(w', spot', memory') => FateOf(w', fs, auto, spot', names[1..], memory')
    case Fails(err) => Fails(err)
    case Dangles => Dangles
  }

  /** A walk dangles if and only if it takes a ".." while the two innermost entries are both new. */
  lemma {:induction false} DanglesWhen(w: World, fs: FileSystem, auto: bool, spot: Spot, names: seq<string>,
                                       memory: nat)
    ensures FateOf(w, fs, auto, spot, names, memory).Dangles? <==>
              exists k :: 0 <= k < |names| && names[k] == ".." && TwoNew(FateOf(w, fs, auto, spot, names[..k], memory))
    decreases |names|
  {
    if names != [] {
      hide OneStep, TwoNew;
      var first := OneStep(w, fs, auto, spot, names[0], memory);
      StepDangles(w, fs, auto, spot, names[0], memory);
      assert FateOf(w, fs, auto, spot, names[..0], memory) == At(w, spot, memory);
      if first.At? {
        DanglesWhen(first.w, fs, auto, first.spot, names[1..], first.memory);
        if FateOf(w, fs, auto, spot, names, memory).Dangles? {
          var j :| 0 <= j < |names[1..]| && names[1..][j] == ".."
            && TwoNew(FateOf(first.w, fs, auto, first.spot, names[1..][..j], first.memory));
          LaterFate(w, fs, auto, spot, names, memory, j + 1);
          assert names[j + 1] == "..";
        }
      }
      if k :| 0 <= k < |names| && names[k] == ".." && TwoNew(FateOf(w, fs, auto, spot, names[..k], memory)) {
        if k > 0 {
          LaterFate(w, fs, auto, spot, names, memory, k);
          NotTwoNew(first);
          assert names[1..][k - 1] == "..";
        }
      }
    }
  }

  lemma LaterFate(w: World, fs: FileSystem, auto: bool, spot: Spot, names: seq<string>, memory: nat, k: nat)
    requires 0 < k <= |names|
    ensures var first := OneStep(w, fs, auto, spot, names[0], memory);
            FateOf(w, fs, auto, spot, names[..k], memory) ==
              if first.At? then FateOf(first.w, fs, auto, first.spot, names[1..][..k - 1], first.memory) else first
  {
    assert names[..k][1..] == names[1..][..k - 1] && names[..k][0] == names[0];
  }

  lemma NotTwoNew(f: Fate)
    ensures TwoNew(f) ==> f.At?
  {
  }

  ghost predicate TwoNew(f: Fate) { f.At? && |f.spot.made| >= 2 }

  lemma StepDangles(w: World, fs: FileSystem, auto: bool, spot: Spot, name: string, memory: nat)
    ensures OneStep(w, fs, auto, spot, name, memory).Dangles? <==> name == ".." && TwoNew(At(w, spot, memory))
  {
  }

  /** Without a file system that finds directories no walk dangles. */
  lemma {:induction false} NeverWithoutLookup(w: World, fs: FileSystem, auto: bool, spot: Spot, names: seq<string>,
                                              memory: nat)
    requires forall d, n :: fs(d, n).Present? ==> !fs(d, n).dir
    requires |spot.made| <= 1 && (spot.made != [] ==> !OnDirectory(w, spot))
    ensures !FateOf(w, fs, auto, spot, names, memory).Dangles?
    decreases |names|
  {
    hide Above, Crossed, Completed;
    if names != [] {
      var first := OneStep(w, fs, auto, spot, names[0], memory);
      if first.At? {
        NeverWithoutLookup(first.w, fs, auto, first.spot, names[1..], first.memory);
      }
    }
  }

  /** One new entry below `d`. */
  ghost function Hung(w: World, d: nat, id: nat, f: Fresh, hashable: bool): World {
    World(w.live[id := Dentry(d, f.name, f.positive, f.dir, false)],
          if hashable then w.cache[(d, f.name) := id] else w.cache,
          w.depth[id := (if d in w.depth then w.depth[d] else 0) + 1], w.mounts, w.mountAt)
  }

  /** The entry at the end of the chain of new entries. */
  ghost function Tip(base: nat, ids: seq<nat>): nat { if ids == [] then base else ids[|ids| - 1] }

  /** What was there before, and the new entries one below the other. */
  ghost function Chain(w: World, base: nat, made: seq<Fresh>, ids: seq<nat>, hashable: bool): World
    requires |ids| == |made|
  {
    if made == [] then w else
    var n := |made| - 1;
    Hung(Chain(w, base, made[..n], ids[..n], hashable), Tip(base, ids[..n]), ids[n], made[n], hashable)
  }

  ghost predicate WorldOk(w: World) {
    && CacheOk(w.live, w.cache) && w.depth.Keys == w.live.Keys && 0 !in w.live
    && forall x :: x in w.live ==> w.live[x].parent in w.live
  }

  /** The cache `now` is what `w` and the spot say, with `ids` for the new entries, and the walk stands at `at`. */
  ghost predicate Tracks(now: World, w: World, spot: Spot, ids: seq<nat>, at: Place, hashable: bool) {
    && WorldOk(w) && spot.base in w.live && |ids| == |spot.made|
    && now == Chain(w, spot.base, spot.made, ids, hashable)
    && (forall i :: 0 <= i < |ids| ==> ids[i] !in w.live)
    && (spot.made != [] ==> (spot.base, spot.made[0].name) !in w.cache)
    && at == Place(Tip(spot.base, ids), spot.mount)
  }

  lemma TracksOld(now: World, w: World, spot: Spot, ids: seq<nat>, at: Place, hashable: bool)
    requires Tracks(now, w, spot, ids, at, hashable) && spot.made == []
    ensures now == w && ids == [] && at == Place(spot.base, spot.mount) && at.entry in w.live && WorldOk(w)
  {
  }

  lemma TracksNew(now: World, w: World, spot: Spot, ids: seq<nat>, at: Place, hashable: bool)
    requires Tracks(now, w, spot, ids, at, hashable) && spot.made != []
    ensures var n, f := |spot.made| - 1, spot.made[|spot.made| - 1];
            && |ids| == n + 1 && at == Place(ids[n], spot.mount) && at.entry !in w.live && spot.base in w.live
            && at.entry in now.live
              && now.live[at.entry] == Dentry(Tip(spot.base, ids[..n]), f.name, f.positive, f.dir, false)
            && (n > 0 ==> now.live[at.entry].parent !in w.live) && (n == 0 ==> now.live[at.entry].parent == spot.base)
  {
    hide WorldOk;
  }

  lemma ChainSnoc(w: World, base: nat, made: seq<Fresh>, ids: seq<nat>, hashable: bool, f: Fresh, id: nat)
    requires |ids| == |made|
    ensures Chain(w, base, made + [f], ids + [id], hashable) ==
      Hung(Chain(w, base, made, ids, hashable), Tip(base, ids), id, f, hashable)
  {
    assert (made + [f])[..|made|] == made && (ids + [id])[..|ids|] == ids;
  }

  /** The errors the cache reports for a name are those of the spot. */
  lemma NamedError(now: World, w: World, auto: bool, spot: Spot, ids: seq<nat>, at: Place, hashable: bool, name: string,
                   answer: Answer, memory: nat)
    requires Tracks(now, w, spot, ids, at, hashable) && name != "" && at.entry in now.live
    requires spot.made != [] ==> (at.entry, name) !in now.cache
    ensures var err := EnterError(now.live, now.cache, memory, at.entry, name, answer);
            var f := Named(w, auto, spot, name, answer, memory);
            if err != 0 then f == Fails(err) else f.At?
  {
    hide Tracks, Crossed, Completed, WorldOk;
    if spot.made == [] {
      TracksOld(now, w, spot, ids, at, hashable);
    } else {
      TracksNew(now, w, spot, ids, at, hashable);
    }
  }

  /** A cached name: the walk goes on from an entry that was there. */
  lemma NamedKnown(now: World, w: World, auto: bool, spot: Spot, ids: seq<nat>, at: Place, hashable: bool, name: string,
                   answer: Answer, memory: nat,
                   next: nat, now': World)
    requires Tracks(now, w, spot, ids, at, hashable) && at.entry in now.live && (at.entry, name) in now.cache
      && spot.made == []
    requires EnterError(now.live, now.cache, memory, at.entry, name, answer) == 0 && name != ""
    requires next == now.cache[(at.entry, name)] && now'.live == Completed(now.live, next, answer)
    requires now'.cache == now.cache && now'.depth == now.depth && now'.mounts == now.mounts
      && now'.mountAt == now.mountAt
    ensures WorldOk(now') && next in now'.live && now'.live.Keys == w.live.Keys
    ensures var to := Crossed(now', auto, Place(next, at.mount));
            Named(w, auto, spot, name, answer, memory) == At(now', Spot(to.entry, to.mount, []), memory)
  {
    hide Tracks, Crossed, WorldOk, Completed, Named;
    NamedError(now, w, auto, spot, ids, at, hashable, name, answer, memory);
    TracksOld(now, w, spot, ids, at, hashable);
    NamedShape(w, auto, spot, name, answer, memory);
    CompletedOk(w, next, answer);
    CachedIn(w, at.entry, name);
  }

  lemma NamedShape(w: World, auto: bool, spot: Spot, name: string, answer: Answer, memory: nat)
    requires Named(w, auto, spot, name, answer, memory).At?
    ensures if spot.made == [] && (spot.base, name) in w.cache then
              var next := w.cache[(spot.base, name)];
              var w' := w.(live := Completed(w.live, next, answer));
              var to := Crossed(w', auto, Place(next, spot.mount));
              Named(w, auto, spot, name, answer, memory) == At(w', Spot(to.entry, to.mount, []), memory)
            else
              var spot' := spot.(made := spot.made + [Made(name, answer)]);
              memory > 0 && Named(w, auto, spot, name, answer, memory) == At(w, spot', memory - 1)
  {
    hide Crossed, Completed;
  }

  lemma CachedIn(w: World, d: nat, name: string)
    requires WorldOk(w) && (d, name) in w.cache
    ensures w.cache[(d, name)] in w.live
  {
  }

  lemma CompletedOk(w: World, next: nat, answer: Answer)
    requires WorldOk(w)
    ensures WorldOk(w.(live := Completed(w.live, next, answer))) && Completed(w.live, next, answer).Keys == w.live.Keys
  {
    hide WorldOk, Completed;
    CompletedSame(w.live, next, answer);
    SameShape(w, Completed(w.live, next, answer));
  }

  lemma CompletedSame(live: Live, next: nat, answer: Answer)
    ensures var live' := Completed(live, next, answer);
            live'.Keys == live.Keys
              && forall x :: x in live' ==> live'[x].parent == live[x].parent && live'[x].name == live[x].name
  {
  }

  lemma SameShape(w: World, live: Live)
    requires WorldOk(w) && live.Keys == w.live.Keys
    requires forall x :: x in live ==> live[x].parent == w.live[x].parent && live[x].name == w.live[x].name
    ensures WorldOk(World(live, w.cache, w.depth, w.mounts, w.mountAt))
  {
  }

  lemma TracksHere(w: World, at: Place, hashable: bool)
    requires WorldOk(w) && at.entry in w.live
    ensures Tracks(w, w, Spot(at.entry, at.mount, []), [], at, hashable)
  {
  }

  /** A name that is not cached: one more new entry. */
  lemma NamedNew(now: World, w: World, auto: bool, spot: Spot, ids: seq<nat>, at: Place, hashable: bool, name: string,
                 answer: Answer, memory: nat,
                 next: nat, now': World)
    requires Tracks(now, w, spot, ids, at, hashable) && (at.entry, name) !in now.cache && at.entry in now.live
      && at.entry in now.depth
    requires next !in w.live && name != "" && EnterError(now.live, now.cache, memory, at.entry, name, answer) == 0
    requires now'.live == now.live[next := MadeEntry(at.entry, name, answer)]
      && now'.depth == now.depth[next := now.depth[at.entry] + 1]
    requires now'.cache == if hashable then now.cache[(at.entry, name) := next] else now.cache
    requires now'.mounts == now.mounts && now'.mountAt == now.mountAt
    ensures memory > 0
    ensures var spot' := spot.(made := spot.made + [Made(name, answer)]);
            && Named(w, auto, spot, name, answer, memory) == At(w, spot', memory - 1)
            && Tracks(now', w, spot', ids + [next], Place(next, at.mount), hashable)
  {
    hide Tracks, Named, EnterError, WorldOk, Completed, Crossed;
    NamedError(now, w, auto, spot, ids, at, hashable, name, answer, memory);
    if spot.made == [] {
      TracksOld(now, w, spot, ids, at, hashable);
    }
    NamedShape(w, auto, spot, name, answer, memory);
    HungMade(now, at.entry, next, name, answer, hashable, now');
    hide Hung, Made, MadeEntry;
    TracksSnoc(now, w, spot, ids, at, hashable, Made(name, answer), next);
  }

  lemma HungMade(now: World, d: nat, id: nat, name: string, answer: Answer, hashable: bool, now': World)
    requires d in now.depth && now'.live == now.live[id := MadeEntry(d, name, answer)]
      && now'.depth == now.depth[id := now.depth[d] + 1]
    requires now'.cache == if hashable then now.cache[(d, name) := id] else now.cache
    requires now'.mounts == now.mounts && now'.mountAt == now.mountAt
    ensures now' == Hung(now, d, id, Made(name, answer), hashable) && Made(name, answer).name == name
  {
  }

  lemma TracksSnoc(now: World, w: World, spot: Spot, ids: seq<nat>, at: Place, hashable: bool, f: Fresh, id: nat)
    requires Tracks(now, w, spot, ids, at, hashable) && id !in w.live && (at.entry, f.name) !in now.cache
    ensures Tracks(Hung(now, at.entry, id, f, hashable), w, spot.(made := spot.made + [f]), ids + [id],
      Place(id, at.mount), hashable)
  {
    hide WorldOk, Hung, Chain;
    ChainSnoc(w, spot.base, spot.made, ids, hashable, f, id);
    if spot.made == [] {
      TracksOld(now, w, spot, ids, at, hashable);
    } else {
      assert (spot.made + [f])[0] == spot.made[0];
    }
  }

  /** Leaving the only new entry, which is freed. */
  lemma LeaveNew(now: World, w: World, spot: Spot, ids: seq<nat>, at: Place, hashable: bool)
    requires Tracks(now, w, spot, ids, at, hashable) && |spot.made| == 1
    ensures now.(live := now.live - {at.entry}, cache := Forget(now.cache, at.entry),
      depth := now.depth - {at.entry}) == w
    ensures WorldOk(w) && spot.base in w.live
  {
    hide WorldOk, Hung, Forget;
    assert spot.made == [] + [spot.made[0]] && ids == [] + [ids[0]];
    ChainSnoc(w, spot.base, [], [], hashable, spot.made[0], ids[0]);
    HungGone(w, spot.base, ids[0], spot.made[0], hashable);
  }

  lemma HungGone(w: World, d: nat, id: nat, f: Fresh, hashable: bool)
    requires WorldOk(w) && id !in w.live && (d, f.name) !in w.cache
    ensures var now := Hung(w, d, id, f, hashable);
            now.(live := now.live - {id}, cache := Forget(now.cache, id), depth := now.depth - {id}) == w
  {
    hide WorldOk, Forget;
    CachedLiving(w);
    TakenOff(w.live, id, Dentry(d, f.name, f.positive, f.dir, false));
    TakenOff(w.depth, id, (if d in w.depth then w.depth[d] else 0) + 1);
    ForgetNew(w.cache, (d, f.name), id);
  }

  lemma CachedLiving(w: World)
    requires WorldOk(w)
    ensures (forall k :: k in w.cache ==> w.cache[k] in w.live) && w.depth.Keys == w.live.Keys
  {
  }

  lemma TakenOff<T>(m: map<nat, T>, k: nat, v: T)
    requires k !in m
    ensures m[k := v] - {k} == m
  {
  }

  lemma ForgetNew(cache: Cache, k: (nat, string), id: nat)
    requires k !in cache && forall x :: x in cache ==> cache[x] != id
    ensures Forget(cache[k := id], id) == cache && Forget(cache, id) == cache
  {
  }
}
