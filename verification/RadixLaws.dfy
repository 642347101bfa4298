/** When inserting is a map update as seen through lookup, and when it is not. */
module RadixLaws {
  import opened RadixNodes
  import opened RadixTree

  /** What `Radix.Map` can be at a height. */
  ghost predicate ItemsOk(items: map<nat, nat>, height: nat) {
    height <= MAX_HEIGHT && (forall i :: i in items ==> i < Pow(height) && items[i] != 0)
      && (height == 0 ==> items == map[])
  }

  lemma ItemsAreOk(nodes: Nodes, owner: Owners, root: nat, height: nat)
    requires Inv(nodes, owner, root, height)
    ensures ItemsOk(Items(nodes, root, height), height)
  {
  }

  /** Every lookup after the insert is the lookup before, updated at the one index. */
  ghost predicate UpdatesOnly(items: map<nat, nat>, h: nat, items': map<nat, nat>, h': nat, index: nat, item: nat) {
    forall j: nat :: Lookup(items', h', j) == if j == index then item else Lookup(items, h, j)
  }

  /** The caller-visible condition: the index is not 64^height of the tree it goes into; index 0 is not given to a tree
      that keeps its height; and a tree that grows has no item at 0. */
  predicate Clear(items: map<nat, nat>, h: nat, index: nat)
    requires h <= MAX_HEIGHT
  {
    var h' := NeededHeight(h, index);
    index != Pow(h') && (h' == h ==> index != 0) && (0 < h < h' ==> 0 !in items)
  }

  lemma PowMono(a: nat, b: nat)
    requires a < b <= MAX_HEIGHT
    ensures Pow(a) < Pow(b)
  {
    PowValues();
  }

  /** A successful insert acts as a map update on all 64-bit indices exactly when `Clear` holds. */
  lemma InsertRefinesMap(items: map<nat, nat>, h: nat, index: nat, item: nat)
    requires ItemsOk(items, h) && item != 0
    requires 0 < NeededHeight(h, index) <= MAX_HEIGHT && Effective(NeededHeight(h, index), index) !in items
    ensures var h' := NeededHeight(h, index);
            var items' := items[Effective(h', index) := item];
            && Lookup(items', h', index) == item
            && (UpdatesOnly(items, h, items', h', index, item) <==> Clear(items, h, index))
  {
    var h' := NeededHeight(h, index);
    if h < h' {
      PowMono(h, h');
      NeededIsLeast(h, index, h);
    }
    hide Pow, NeededHeight, UpdatesOnly;
    if Clear(items, h, index) {
      ClearUpdates(items, h, index, item, h');
    } else {
      BoundaryClashes(items, h, index, item, h');
    }
  }

  lemma ClearUpdates(items: map<nat, nat>, h: nat, index: nat, item: nat, h': nat)
    requires ItemsOk(items, h) && h <= h' == NeededHeight(h, index) && 0 < h' <= MAX_HEIGHT && Clear(items, h, index)
    requires h < h' ==> Pow(h) < Pow(h') && index > Pow(h)
    ensures UpdatesOnly(items, h, items[Effective(h', index) := item], h', index, item)
  {
    hide Pow, NeededHeight;
  }

  /** Otherwise one of the aliased indices 0 and 64^height reads differently. */
  lemma BoundaryClashes(items: map<nat, nat>, h: nat, index: nat, item: nat, h': nat)
    requires ItemsOk(items, h) && h <= h' == NeededHeight(h, index) && 0 < h' <= MAX_HEIGHT && !Clear(items, h, index)
    requires item != 0 && Effective(h', index) !in items && (h < h' ==> Pow(h) < Pow(h'))
    ensures !UpdatesOnly(items, h, items[Effective(h', index) := item], h', index, item)
  {
    var items' := items[Effective(h', index) := item];
    hide Pow, NeededHeight;
    if index == Pow(h') {
      assert Lookup(items', h', 0) == item && Lookup(items, h, 0) == 0;
    } else if h' == h {
      assert Lookup(items', h', Pow(h')) == item && Lookup(items, h, Pow(h')) == 0;
    } else {
      assert Lookup(items', h', Pow(h')) == items[0] && Lookup(items, h, Pow(h')) == 0;
    }
  }

  /** Adding roots alone, as a failed insert may, preserves every lookup exactly when nothing is stored at index 0. */
  lemma GrowthPreserves(items: map<nat, nat>, h: nat, h': nat)
    requires ItemsOk(items, h) && h < h' <= MAX_HEIGHT
    ensures (forall j: nat :: Lookup(items, h', j) == Lookup(items, h, j)) <==> 0 !in items
    ensures forall j: nat :: j != Pow(h) && j != Pow(h') ==> Lookup(items, h', j) == Lookup(items, h, j)
  {
    PowMono(h, h');
    hide Pow;
    if 0 in items {
      assert Lookup(items, h', Pow(h')) == items[0];
    }
  }

  /** An item put at 64 in a tree of height 1 shows up at 0, and is no longer found at 64 once the tree has grown. */
  lemma BoundaryLost(x: nat, y: nat)
    requires x != 0 && y != 0
    ensures NeededHeight(1, 64) == 1 && NeededHeight(1, 65) == 2
    ensures var items := map[5 := x][Effective(1, 64) := y];
            && Lookup(items, 1, 64) == y && Lookup(items, 1, 0) == y && Lookup(map[5 := x], 1, 0) == 0
            && Lookup(items, 2, 64) == 0
  {
    PowValues();
  }

  /** A successful insert with a clear index: every lookup afterwards is the lookup before, updated at that index. */
  method InsertClear(t: Radix, index: nat, item: nat) returns (ret: int)
    requires t.Ok() && item != 0 && t.height <= MAX_HEIGHT && Clear(t.Map(), t.height, index)
    modifies t
    ensures t.Ok() && old(t.height) <= t.height
    ensures ret == 0 ==> UpdatesOnly(old(t.Map()), old(t.height), t.Map(), t.height, index, item)
    ensures ret != 0 ==> t.Map() == old(t.Map())
  {
    hide Inv, Items, Pow, NeededHeight, UpdatesOnly, Clear;
    ItemsAreOk(t.nodes, t.owner, t.root, t.height);
    ghost var items, h := t.Map(), t.height;
    ret := t.Insert(index, item);
    if ret == 0 {
      InsertRefinesMap(items, h, index, item);
    }
  }
}
