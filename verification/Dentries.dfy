/** Directory entries and their reference counts: a count is the references held from outside
    plus one for every child that names the entry as its parent. */
module Dentries {
  /** `positive` says that an inode is attached, `dir` that it is a directory. A root is its own parent. */
  datatype Dentry = Dentry(parent: nat, name: string, positive: bool, dir: bool, mounted: bool)

  type Live = map<nat, Dentry>
  type Counts = map<nat, int>
  type Depths = map<nat, nat>
  type Cache = map<(nat, string), nat>

  ghost function Kids(live: Live, d: nat): set<nat> { set c | c in live && live[c].parent == d && c != d }

  ghost predicate EntryOk(live: Live, refs: Counts, held: Counts, depth: Depths, d: nat)
    requires d in live && refs.Keys == held.Keys == depth.Keys == live.Keys
  {
    var p := live[d].parent;
    && held[d] >= 0 && refs[d] >= 1 && refs[d] == held[d] + |Kids(live, d)|
    && p in live && (p != d ==> depth[d] == depth[p] + 1)
  }

  ghost predicate CacheOk(live: Live, cache: Cache) {
    forall k {:trigger cache[k]} :: k in cache ==>
      var d := cache[k]; d in live && d != k.0 && live[d].parent == k.0 && live[d].name == k.1
  }

  ghost predicate Ok(live: Live, refs: Counts, held: Counts, depth: Depths, cache: Cache) {
    && 0 !in live && refs.Keys == held.Keys == depth.Keys == live.Keys
    && (forall d {:trigger EntryOk(live, refs, held, depth, d)} :: d in live ==> EntryOk(live, refs, held, depth, d))
    && CacheOk(live, cache)
  }

  /** References held from outside; none on an entry that is gone. */
  ghost function Held(held: Counts, x: nat): int { if x in held then held[x] else 0 }

  /** From `held` to `held'` exactly one reference to `d` came (+1) or went (-1). */
  ghost predicate Shifted(held: Counts, held': Counts, d: nat, n: int) {
    forall x {:trigger Held(held', x)} :: Held(held', x) == Held(held, x) + if x == d then n else 0
  }

  /** What survives keeps its parent, its name and its place in the cache. */
  ghost predicate Kept(live: Live, cache: Cache, live': Live, cache': Cache) {
    && (forall x :: x in live && x in live' ==> live'[x].parent == live[x].parent && live'[x].name == live[x].name)
    && (forall k :: k in cache && cache[k] in live' ==> k in cache' && cache'[k] == cache[k])
  }

  lemma RefOk(live: Live, refs: Counts, held: Counts, depth: Depths, cache: Cache, d: nat, n: int)
    requires Ok(live, refs, held, depth, cache) && d in live && held[d] + n >= 0 && refs[d] + n >= 1
    ensures Ok(live, refs[d := refs[d] + n], held[d := held[d] + n], depth, cache)
    ensures Shifted(held, held[d := held[d] + n], d, n)
  {
    hide CacheOk, Kids;
    var refs', held' := refs[d := refs[d] + n], held[d := held[d] + n];
    assert EntryOk(live, refs, held, depth, d);
    forall x | x in live ensures EntryOk(live, refs', held', depth, x) {
      assert EntryOk(live, refs, held, depth, x);
    }
  }

  lemma NoKids(live: Live, refs: Counts, held: Counts, depth: Depths, d: nat)
    requires d in live && refs.Keys == held.Keys == depth.Keys == live.Keys && EntryOk(live, refs, held, depth, d)
    requires refs[d] == held[d]
    ensures Kids(live, d) == {}
    ensures forall c :: c in live && c != d ==> live[c].parent != d
  {
    assert Kids(live, d) == {};
    assert forall c :: c in live && c != d && live[c].parent == d ==> c in Kids(live, d);
  }

  lemma FreeEntry(live: Live, refs: Counts, held: Counts, depth: Depths, d: nat, x: nat)
    requires d in live && refs.Keys == held.Keys == depth.Keys == live.Keys && x in live && x != d
    requires EntryOk(live, refs, held, depth, x) && live[x].parent != d && live[d].parent in live && live[d].parent != d
    ensures var p := live[d].parent;
            EntryOk(live - {d}, refs - {d}, held[p := held[p] + 1] - {d}, depth - {d}, x)
  {
    var p := live[d].parent;
    assert Kids(live - {d}, x) == if x == p then Kids(live, x) - {d} else Kids(live, x);
    assert x == p ==> d in Kids(live, x);
    hide Kids;
  }

  /** An entry with one reference left has no children. Dropping it hands the reference it held on its parent to the
      caller. */
  lemma FreeOk(live: Live, refs: Counts, held: Counts, depth: Depths, cache: Cache, d: nat)
    requires Ok(live, refs, held, depth, cache) && d in live && refs[d] == 1 && held[d] == 1
    requires live[d].parent != d && live[d].parent in held
    ensures var p := live[d].parent;
            Ok(live - {d}, refs - {d}, held[p := held[p] + 1] - {d}, depth - {d}, Forget(cache, d))
  {
    var p := live[d].parent;
    assert EntryOk(live, refs, held, depth, d);
    NoKids(live, refs, held, depth, d);
    var live', refs', held', depth' := live - {d}, refs - {d}, held[p := held[p] + 1] - {d}, depth - {d};
    assert CacheOk(live', Forget(cache, d));
    hide EntryOk, CacheOk;
    forall x | x in live' ensures EntryOk(live', refs', held', depth', x) {
      assert EntryOk(live, refs, held, depth, x);
      FreeEntry(live, refs, held, depth, d, x);
    }
  }

  /** The cache without its entry for `d`. */
  function Forget(cache: Cache, d: nat): Cache { map k | k in cache && cache[k] != d :: cache[k] }

  lemma FreeRootOk(live: Live, refs: Counts, held: Counts, depth: Depths, cache: Cache, d: nat)
    requires Ok(live, refs, held, depth, cache) && d in live && refs[d] == 1 && held[d] == 1 && live[d].parent == d
    ensures Ok(live - {d}, refs - {d}, held - {d}, depth - {d}, Forget(cache, d))
  {
    assert EntryOk(live, refs, held, depth, d);
    NoKids(live, refs, held, depth, d);
    var live', refs', held', depth' := live - {d}, refs - {d}, held - {d}, depth - {d};
    assert CacheOk(live', Forget(cache, d));
    hide CacheOk;
    forall x | x in live' ensures EntryOk(live', refs', held', depth', x) {
      assert EntryOk(live, refs, held, depth, x);
      assert Kids(live', x) == Kids(live, x);
    }
  }

  /** A new entry holds a reference on its parent and is held once. */
  lemma NewOk(live: Live, refs: Counts, held: Counts, depth: Depths, cache: Cache, id: nat, e: Dentry)
    requires Ok(live, refs, held, depth, cache) && id != 0 && id !in live && e.parent in live
    ensures var p := e.parent;
            Ok(live[id := e], refs[p := refs[p] + 1][id := 1], held[id := 1], depth[id := depth[p] + 1], cache)
    ensures Shifted(held, held[id := 1], id, 1)
  {
    var p := e.parent;
    var live', refs', held', depth' := live[id := e], refs[p := refs[p] + 1][id := 1], held[id := 1],
      depth[id := depth[p] + 1];
    assert CacheOk(live', cache);
    hide CacheOk;
    forall c | c in live ensures live[c].parent != id {
      assert EntryOk(live, refs, held, depth, c);
    }
    assert Kids(live', id) == {};
    forall x | x in live' ensures EntryOk(live', refs', held', depth', x) {
      if x != id {
        assert EntryOk(live, refs, held, depth, x);
        NewEntry(live, refs, held, depth, id, e, x);
      }
    }
  }

  lemma NewEntry(live: Live, refs: Counts, held: Counts, depth: Depths, id: nat, e: Dentry, x: nat)
    requires refs.Keys == held.Keys == depth.Keys == live.Keys && id !in live && e.parent in live && x in live
    requires EntryOk(live, refs, held, depth, x)
    ensures var p := e.parent;
            EntryOk(live[id := e], refs[p := refs[p] + 1][id := 1], held[id := 1], depth[id := depth[p] + 1], x)
  {
    assert Kids(live[id := e], x) == if x == e.parent then Kids(live, x) + {id} else Kids(live, x);
    assert id !in Kids(live, x);
    hide Kids;
  }

  lemma NoHolder(live: Live, refs: Counts, held: Counts, depth: Depths, cache: Cache, d: nat)
    requires Ok(live, refs, held, depth, cache) && d in live
    ensures refs.Keys == held.Keys == depth.Keys == live.Keys
    ensures live[d].parent in live && held[live[d].parent] >= 0 && held[d] >= 0 && refs[d] >= 1 && refs[d] >= held[d]
    ensures live[d].parent != d ==> depth[d] > depth[live[d].parent]
  {
    assert EntryOk(live, refs, held, depth, d);
    assert EntryOk(live, refs, held, depth, live[d].parent);
  }

  /** Names from the root down to an entry. */
  ghost function NamesOf(live: Live, depth: Depths, d: nat): seq<string>
    decreases if d in depth then depth[d] else 0
  {
    if d !in live || live[d].parent == d || d !in depth || live[d].parent !in depth || depth[live[d].parent] >= depth[d]
      then []
    else NamesOf(live, depth, live[d].parent) + [live[d].name]
  }

  lemma NamesStep(live: Live, refs: Counts, held: Counts, depth: Depths, cache: Cache, d: nat)
    requires Ok(live, refs, held, depth, cache) && d in live
    ensures live[d].parent == d ==> NamesOf(live, depth, d) == []
    ensures live[d].parent != d ==> NamesOf(live, depth, d) == NamesOf(live, depth, live[d].parent) + [live[d].name]
  {
    assert EntryOk(live, refs, held, depth, d);
  }

  ghost function Deeper(live: Live, depth: Depths, x: nat): set<nat>
    requires depth.Keys == live.Keys && x in live
  {
    set y | y in live && depth[y] > depth[x]
  }

  lemma {:induction false} Survive(live0: Live, refs0: Counts, held0: Counts, depth0: Depths, cache0: Cache,
                                   live: Live, refs: Counts, held: Counts, depth: Depths, cache: Cache, x: nat)
    requires Ok(live0, refs0, held0, depth0, cache0) && Ok(live, refs, held, depth, cache)
    requires Kept(live0, cache0, live, cache) && x in live0
    requires forall y :: y in live0 ==> Held(held, y) >= Held(held0, y)
    ensures x in live
    decreases |Deeper(live0, depth0, x)|
  {
    if x !in live {
      assert EntryOk(live0, refs0, held0, depth0, x);
      assert Held(held, x) == 0;
      assert Kids(live0, x) != {};
      var c :| c in Kids(live0, x);
      assert EntryOk(live0, refs0, held0, depth0, c);
      assert Deeper(live0, depth0, c) < Deeper(live0, depth0, x) by {
        assert c in Deeper(live0, depth0, x) && c !in Deeper(live0, depth0, c);
      }
      SubsetSize(Deeper(live0, depth0, c), Deeper(live0, depth0, x));
      Survive(live0, refs0, held0, depth0, cache0, live, refs, held, depth, cache, c);
      NoHolder(live, refs, held, depth, cache, c);
    }
  }

  lemma SubsetSize(a: set<nat>, b: set<nat>)
    requires a < b
    ensures |a| < |b|
  {
    assert |b| == |a| + |b - a| by { assert b == a + (b - a); }
    assert b - a != {};
  }

  /** No entry that existed before is freed as long as every reference held then is still held. */
  lemma AllSurvive(live0: Live, refs0: Counts, held0: Counts, depth0: Depths, cache0: Cache,
                   live: Live, refs: Counts, held: Counts, depth: Depths, cache: Cache)
    requires Ok(live0, refs0, held0, depth0, cache0) && Ok(live, refs, held, depth, cache)
      && Kept(live0, cache0, live, cache)
    requires forall y :: y in live0 ==> Held(held, y) >= Held(held0, y)
    ensures live0.Keys <= live.Keys
    ensures forall k :: k in cache0 ==> k in cache && cache[k] == cache0[k]
  {
    forall x | x in live0 ensures x in live {
      Survive(live0, refs0, held0, depth0, cache0, live, refs, held, depth, cache, x);
    }
  }
}
