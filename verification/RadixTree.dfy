/** The radix tree operations, proved against the finite map. */
module RadixTree {
  import opened Common
  import opened RadixNodes

  const EINVAL := 22
  const ENOMEM := 12
  const EEXIST := 17

  /** Height the tree grows to for an index: the first that the source's test accepts, or none. */
  function NeededHeight(height: nat, index: nat): (h: nat)
    requires height <= MAX_HEIGHT
    ensures height <= h <= MAX_HEIGHT + 1
    ensures h <= MAX_HEIGHT ==> index <= Pow(h)
    ensures h > MAX_HEIGHT ==> index > Pow(MAX_HEIGHT)
    decreases MAX_HEIGHT - height
  {
    if index <= Pow(height) then height
    else if height == MAX_HEIGHT then MAX_HEIGHT + 1
    else NeededHeight(height + 1, index)
  }

  lemma {:induction false} NeededIsLeast(height: nat, index: nat, h: nat)
    requires height <= MAX_HEIGHT && height <= h < NeededHeight(height, index)
    ensures index > Pow(h)
    decreases MAX_HEIGHT - height
  {
    if h > height {
      NeededIsLeast(height + 1, index, h);
    }
  }

  /** The slot an index really uses in a tree of a height that accepts it: 64^height falls on slot 0. */
  function Effective(height: nat, index: nat): nat { if index == Pow(height) then 0 else index }

  /** How many nodes below node `n` of `level` are missing on the path of an index to its leaf. */
  function Missing(nodes: Nodes, n: nat, level: nat, index: nat): nat
    decreases level
  {
    if level <= 1 then 0 else
    var c := Slot(nodes, n, Digit(level, index));
    (if c == 0 then 1 else 0) + Missing(nodes, c, level - 1, index)
  }

  /** How many nodes an index needs: the roots to add, and the missing ones of its path. Below new roots the old tree is
      in slot 0, where of the indices that need them only 64^height leads. */
  function Need(nodes: Nodes, root: nat, height: nat, index: nat): nat
    requires height <= MAX_HEIGHT
  {
    var h := NeededHeight(height, index);
    h - height + PathNeed(nodes, root, height, h, index)
  }

  function PathNeed(nodes: Nodes, root: nat, height: nat, h: nat, index: nat): nat {
    if h == height then Missing(nodes, root, height, Effective(height, index))
    else if index < Pow(h) && h > 0 then h - 1
    else Missing(nodes, root, height, 0)
  }

  class Radix {
    var height: nat
    var root: nat
    var nodes: Nodes
    var available: nat    // nodes the allocator can still provide
    ghost var owner: Owners

    ghost predicate Ok()
      reads this
    {
      Inv(nodes, owner, root, height)
    }

    ghost function Map(): map<nat, nat>
      reads this
    {
      Items(nodes, root, height)
    }

    constructor (available: nat)
      ensures Ok() && height == 0 && Map() == map[] && this.available == available
    {
      height, root, nodes, this.available := 0, 0, map[], available;
      owner := map[];
    }

    /** kzalloc: a zeroed node at an address not in use, or 0. */
    method NodeAlloc() returns (n: nat)
      requires Ok()
      modifies this`nodes, this`available
      ensures n == 0 <==> old(available) == 0
      ensures n == 0 ==> nodes == old(nodes) && available == 0
      ensures n != 0 ==>
        n !in old(nodes) && n !in owner && nodes == old(nodes)[n := Zeros()] && available == old(available) - 1
      ensures Ok() && Map() == old(Map())
    {
      if available == 0 {
        n := 0;
      } else {
        available := available - 1;
        n := FreshAddress(nodes.Keys);
        FreshNode(nodes, owner, root, height, n);
        nodes := nodes[n := Zeros()];
      }
    }

    /** One more level: the first node of an empty tree, or a root above the old one. */
    method AddRoot(ghost index: nat) returns (ok: bool)
      requires Ok() && height < MAX_HEIGHT
      modifies this
      ensures Ok() && Map() == old(Map()) && height == old(height) + if ok then 1 else 0
      ensures (ok <==> old(available) > 0) && available == old(available) - if ok then 1 else 0
      ensures !ok ==> nodes == old(nodes) && root == old(root)
      ensures ok ==> Missing(nodes, root, height, 0) == Missing(old(nodes), old(root), old(height), 0)
      ensures ok && Digit(height, index) != 0 ==> Missing(nodes, root, height, index) == height - 1
    {
      hide Inv, Items, Digit, Missing;
      HeightOk(nodes, owner, root, height);
      var n := NodeAlloc();
      if n == 0 {
        return false;
      }
      HeightOk(nodes, owner, root, height);
      RootMissing(old(nodes), nodes, owner, root, height, n, index);
      if height == 0 {
        FirstRoot(nodes, owner, n);
        root, height := n, 1;
        owner := owner[n := Place(1, 0)];
      } else {
        GrowRoot(nodes, owner, root, height, n);
        nodes := Store(nodes, n, 0, root);
        owner := owner[n := Place(height + 1, 0)];
        root, height := n, height + 1;
      }
      return true;
    }

    /** Adds roots until the index is accepted. A failed allocation may leave some roots added, which no lookup
        in the map notices. */
    method Extend(index: nat) returns (ret: int)
      requires Ok()
      modifies this
      ensures Ok() && Map() == old(Map())
      ensures old(height) <= height
      ensures ret == 0 ==> height == NeededHeight(old(height), index)
      ensures ret == -EINVAL <==> index > Pow(MAX_HEIGHT)
      ensures ret == -EINVAL ==> height == old(height)
      ensures ret == -ENOMEM ==> height < NeededHeight(old(height), index) <= MAX_HEIGHT && available == 0
      ensures available == old(available) - (height - old(height))
      ensures ret == 0 || ret == -EINVAL || ret == -ENOMEM
      ensures ret == 0 ==>
        Missing(nodes, root, height, Effective(height, index))
        == PathNeed(old(nodes), old(root), old(height), height, index)
    {
      hide Inv, Items, Pow, Missing, Digit;
      HeightOk(nodes, owner, root, height);
      var h := height;
      while index > Pow(h)
        invariant height <= h <= MAX_HEIGHT && NeededHeight(height, index) == NeededHeight(h, index)
        decreases MAX_HEIGHT - h
      {
        if h >= MAX_HEIGHT {
          return -EINVAL;
        }
        h := h + 1;
      }
      PowAtMost(h);
      NewTop(height, h, index);
      while height < h
        invariant Ok() && Map() == old(Map()) && old(height) <= height <= h
          && available == old(available) - (height - old(height))
        invariant height == old(height) ==> nodes == old(nodes) && root == old(root)
        invariant Missing(nodes, root, height, 0) == Missing(old(nodes), old(root), old(height), 0)
        invariant old(height) < height == h && Digit(h, index) != 0 ==> Missing(nodes, root, height, index) == h - 1
        decreases h - height
      {
        var ok := AddRoot(index);
        if !ok {
          return -ENOMEM;
        }
      }
      return 0;
    }

    /** One step down the path of an index, creating the node when it is missing. */
    method ChildOf(n: nat, level: nat, index: nat) returns (child: nat)
      requires Ok() && 1 < level <= height && index <= Pow(height) && Effective(height, index) < Pow(height)
      requires n != 0 && n == PathNode(nodes, root, height, level, Effective(height, index))
      modifies this`nodes, this`owner, this`available
      ensures Ok() && Map() == old(Map()) && available <= old(available)
      ensures child == 0 ==> available == 0 && PathNode(nodes, root, height, level - 1, Effective(height, index)) == 0
      ensures child != 0 ==> child == PathNode(nodes, root, height, level - 1, Effective(height, index))
      ensures child == 0 ==> old(available) == 0 < Missing(old(nodes), n, level, Effective(height, index))
      ensures child != 0 ==>
        Missing(old(nodes), n, level, Effective(height, index)) - old(available)
        == Missing(nodes, child, level - 1, Effective(height, index)) - available
    {
      hide Inv, Items, Digit, Find, Pow, Missing;
      ghost var eff := Effective(height, index);
      HeightOk(nodes, owner, root, height);
      PathOwned(nodes, owner, root, height, level, eff);
      NodeShape(nodes, owner, root, height, n);
      SameDigit(height, level, index);
      var d := Digit(level, index);
      child := nodes[n][d];
      MissingBelow(nodes, n, level, eff);
      if child == 0 {
        ghost var before := nodes;
        child := NodeAlloc();
        if child != 0 {
          LinkChild(before, nodes, owner, root, height, level, eff, n, child);
          nodes := Store(nodes, n, d, child);
          owner := owner[child := Place(level - 1, eff / Pow(level - 1))];
          MissingEmpty(nodes, child, level - 1, eff);
        }
      }
    }

    /** The leaf slot of an index, as (node, slot), creating the nodes on the way. An index of an empty tree
        that needs no extension (0 and 1) is refused. */
    method CreatePath(index: nat) returns (ret: int, n: nat, k: nat)
      requires Ok()
      modifies this
      ensures Ok() && Map() == old(Map()) && old(height) <= height && available <= old(available)
      ensures ret == 0 || ret == -EINVAL || ret == -ENOMEM
      ensures ret == -ENOMEM ==>
        available == 0 && Unreached(nodes, root, height, NeededHeight(old(height), index), index)
      ensures ret == 0 ==>
        && 0 < height == NeededHeight(old(height), index) <= MAX_HEIGHT
        && Effective(height, index) < Pow(height)
        && n != 0 && n in nodes && |nodes[n]| == SLOTS && k == Digit(1, Effective(height, index)) && k < SLOTS
        && n == PathNode(nodes, root, height, 1, Effective(height, index))
      ensures ret == -EINVAL <==> index > Pow(MAX_HEIGHT) || (old(height) == 0 && index <= 1)
      ensures ret == -EINVAL ==> height == old(height)
      ensures ret == -ENOMEM <==> ret != -EINVAL && old(available) < Need(old(nodes), old(root), old(height), index)
      ensures ret == 0 ==> available == old(available) - Need(old(nodes), old(root), old(height), index)
    {
      hide Inv, Items, Digit, Find, NeededHeight, Missing, PathNeed;
      PowValues();
      hide Pow;
      if index <= 1 {
        NeededZero(index);
      }
      ret := Extend(index);
      n, k := 0, 0;
      if ret < 0 {
        return;
      }
      if height == 0 {
        ret := -EINVAL;
        return;
      }
      ghost var eff := Effective(height, index);
      n := root;
      RootShape(nodes, owner, root, height);
      ghost var missing, left := Missing(nodes, root, height, eff), available;
      var level := height;
      while level > 1
        invariant Ok() && Map() == old(Map()) && height == NeededHeight(old(height), index) <= MAX_HEIGHT
          && available <= old(available)
        invariant 1 <= level <= height && n != 0 && n == PathNode(nodes, root, height, level, eff)
        invariant Missing(nodes, n, level, eff) + left == missing + available
      {
        var child := ChildOf(n, level, index);
        if child == 0 {
          HeightOk(nodes, owner, root, height);
          MissingPath(nodes, root, height, level - 1, eff);
          ret := -ENOMEM;
          return;
        }
        n := child;
        level := level - 1;
      }
      MissingNone(nodes, n, eff);
      PathOwned(nodes, owner, root, height, 1, eff);
      NodeShape(nodes, owner, root, height, n);
      SameDigit(height, 1, index);
      k := Digit(1, index);
    }

    /** Stores an item unless its slot is taken. The slot is that of the index, except that 64^height uses slot 0. */
    method Insert(index: nat, item: nat) returns (ret: int)
      requires Ok()
      modifies this
      ensures Ok() && old(height) <= height && available <= old(available)
      ensures ret == 0 || ret == -EINVAL || ret == -ENOMEM || ret == -EEXIST
      ensures ret == -ENOMEM ==>
        available == 0 && Unreached(nodes, root, height, NeededHeight(old(height), index), index)
      ensures ret == 0 ==>
        && item != 0 && 0 < height == NeededHeight(old(height), index) <= MAX_HEIGHT
        && Effective(height, index) !in old(Map())
        && Map() == old(Map())[Effective(height, index) := item]
      ensures ret != 0 ==> Map() == old(Map())
      ensures ret == -EEXIST ==> height == NeededHeight(old(height), index) && Effective(height, index) in Map()
      ensures item != 0 && 0 < old(height) == NeededHeight(old(height), index) ==>
        (Effective(old(height), index) in old(Map()) ==> ret == -EEXIST)
      ensures ret == -EINVAL <==> item == 0 || index > Pow(MAX_HEIGHT) || (old(height) == 0 && index <= 1)
      ensures ret == -EINVAL ==> height == old(height)
      ensures ret == -ENOMEM <==> ret != -EINVAL && old(available) < Need(old(nodes), old(root), old(height), index)
      ensures ret == 0 || ret == -EEXIST ==>
        available == old(available) - Need(old(nodes), old(root), old(height), index)
    {
      hide Inv, Items, Digit, Find, NeededHeight, PathNode, Pow, Need;
      HeightOk(nodes, owner, root, height);
      PowAtMost(height);
      if item == 0 {
        return -EINVAL;
      }
      var n, k;
      ret, n, k := CreatePath(index);
      HeightOk(nodes, owner, root, height);
      if ret < 0 {
        UnreachedIsAbsent(nodes, root, height, index);
        return;
      }
      ghost var eff := Effective(height, index);
      SlotIsItem(nodes, root, height, eff);
      if nodes[n][k] != 0 {
        return -EEXIST;
      }
      PathOwned(nodes, owner, root, height, 1, eff);
      StoreInv(nodes, owner, root, height, n, k, item);
      StoreItem(nodes, owner, root, height, eff, n, item);
      nodes := Store(nodes, n, k, item);
      return 0;
    }

    /** radix_tree_lookup reads the map, one index too far. */
    method LookupItem(index: nat) returns (item: nat)
      requires Ok()
      ensures item == Lookup(Map(), height, index)
    {
      if height == 0 {
        return 0;
      }
      if index > Pow(height) {
        return 0;
      }
      var node, level := root, height;
      while level > 0
        invariant 0 <= level <= height
        invariant Find(nodes, node, level, index) == Find(nodes, root, height, index)
      {
        if node == 0 {
          ItemsAt(nodes, root, height, index);
          return 0;
        }
        node := Slot(nodes, node, Digit(level, index));
        level := level - 1;
      }
      ItemsAt(nodes, root, height, index);
      return node;
    }
  }

  /** The tree is too low for the index, or the node that would hold its slot is missing. */
  ghost predicate Unreached(nodes: Nodes, root: nat, height: nat, needed: nat, index: nat) {
    height < needed || (0 < height == needed && PathNode(nodes, root, height, 1, Effective(height, index)) == 0)
  }

  lemma MissingNone(nodes: Nodes, n: nat, index: nat)
    ensures Missing(nodes, n, 1, index) == 0
  {
  }

  lemma {:induction false} MissingAll(nodes: Nodes, level: nat, index: nat)
    requires 0 !in nodes && level > 0
    ensures Missing(nodes, 0, level, index) == level - 1
  {
    if level > 1 {
      MissingAll(nodes, level - 1, index);
    }
  }

  lemma MissingEmpty(nodes: Nodes, n: nat, level: nat, index: nat)
    requires 0 !in nodes && level > 0 && n in nodes && nodes[n] == Zeros()
    ensures Missing(nodes, n, level, index) == level - 1
  {
    if level > 1 {
      MissingAll(nodes, level - 1, index);
    }
  }

  lemma MissingBelow(nodes: Nodes, n: nat, level: nat, index: nat)
    requires 0 !in nodes && level > 1 && n in nodes && Digit(level, index) < |nodes[n]|
    ensures var c := nodes[n][Digit(level, index)];
      Missing(nodes, n, level, index) == if c == 0 then level - 1 else Missing(nodes, c, level - 1, index)
  {
    MissingAll(nodes, level - 1, index);
  }

  /** A path does not see writes to nodes of higher levels, or to nodes outside the tree. */
  lemma {:induction false} MissingFrame(nodes: Nodes, nodes': Nodes, owner: Owners, root: nat, height: nat, level: nat,
                                        index: nat, q: nat)
    requires Inv(nodes, owner, root, height) && 0 !in nodes'
    requires level > 0 ==> q in owner && owner[q].level == level
    requires forall n :: n in owner && owner[n].level <= level ==> n in nodes && n in nodes' && nodes'[n] == nodes[n]
    ensures Missing(nodes', q, level, index) == Missing(nodes, q, level, index)
    decreases level
  {
    if level > 1 {
      assert NodeOk(nodes, owner, q);
      var c := Slot(nodes, q, Digit(level, index));
      if c != 0 {
        assert ChildOk(nodes, owner, q, Digit(level, index));
        MissingFrame(nodes, nodes', owner, root, height, level - 1, index, c);
      } else {
        MissingAll(nodes, level - 1, index);
        MissingAll(nodes', level - 1, index);
      }
    }
  }

  /** A new root: the path of 0 goes on into the old tree, every other path through the new root ends there. */
  lemma RootMissing(before: Nodes, nodes: Nodes, owner: Owners, root: nat, height: nat, n: nat, index: nat)
    requires Inv(before, owner, root, height) && height < MAX_HEIGHT && n != 0 && n !in before && n !in owner
    requires nodes == before[n := Zeros()]
    ensures height == 0 ==> Missing(nodes, n, 1, 0) == Missing(before, root, 0, 0) && Missing(nodes, n, 1, index) == 0
    ensures height > 0 ==>
      var nodes' := Store(nodes, n, 0, root);
      && Missing(nodes', n, height + 1, 0) == Missing(before, root, height, 0)
      && (Digit(height + 1, index) != 0 ==> Missing(nodes', n, height + 1, index) == height)
  {
    if height > 0 {
      var nodes' := Store(nodes, n, 0, root);
      RootShape(before, owner, root, height);
      forall q | q in owner ensures q in before {
        NodeShape(before, owner, root, height, q);
      }
      BoundaryDigits(height + 1, height + 1);
      MissingFrame(before, nodes', owner, root, height, height, 0, root);
      hide Digit;
      MissingAll(nodes', height, index);
    }
  }

  /** An index that needs a new height is beyond the first slot of its root, or is 64^height. */
  lemma NewTop(height: nat, h: nat, index: nat)
    requires height <= h <= MAX_HEIGHT && h == NeededHeight(height, index)
    ensures height < h && index < Pow(h) ==> Digit(h, index) != 0
  {
    if height < h {
      NeededIsLeast(height, index, h - 1);
      if index < Pow(h) {
        TopDigit(h - 1, index);
      }
    }
  }

  lemma MissingPath(nodes: Nodes, root: nat, height: nat, level: nat, index: nat)
    requires 0 !in nodes && 1 <= level <= height && PathNode(nodes, root, height, level, index) == 0
    ensures PathNode(nodes, root, height, 1, index) == 0
    decreases level
  {
    if level > 1 {
      MissingPath(nodes, root, height, level - 1, index);
    }
  }

  lemma UnreachedIsAbsent(nodes: Nodes, root: nat, height: nat, index: nat)
    requires 0 !in nodes
    ensures 0 < height && PathNode(nodes, root, height, 1, Effective(height, index)) == 0 ==>
              Effective(height, index) !in Items(nodes, root, height)
  {
    if 0 < height {
      PathFind(nodes, root, height, 1, Effective(height, index));
    }
  }

  lemma PowAtMost(h: nat)
    requires h <= MAX_HEIGHT
    ensures Pow(h) <= Pow(MAX_HEIGHT)
  {
    PowValues();
  }

  lemma NeededZero(index: nat)
    requires index <= 1
    ensures NeededHeight(0, index) == 0 && index <= Pow(MAX_HEIGHT)
  {
    PowValues();
  }

  /** Nodes outside the tree do not matter. */
  lemma FreshNode(nodes: Nodes, owner: Owners, root: nat, height: nat, n: nat)
    requires Inv(nodes, owner, root, height) && n != 0 && n !in nodes
    ensures n !in owner && Inv(nodes[n := Zeros()], owner, root, height)
    ensures Items(nodes[n := Zeros()], root, height) == Items(nodes, root, height)
  {
    var nodes' := nodes[n := Zeros()];
    assert n !in owner by {
      if n in owner { NodeShape(nodes, owner, root, height, n); }
    }
    forall q | q in owner ensures NodeOk(nodes', owner, q) {
      assert NodeOk(nodes, owner, q);
      if owner[q].level > 1 {
        forall i: nat | i < SLOTS ensures ChildOk(nodes', owner, q, i) {
          assert ChildOk(nodes, owner, q, i);
        }
      }
    }
    if height > 0 {
      forall j: nat | j < Pow(height) ensures Find(nodes', root, height, j) == Find(nodes, root, height, j) {
        forall q | q in owner ensures q in nodes {
          NodeShape(nodes, owner, root, height, q);
        }
        BelowFrame(nodes, nodes', owner, root, height, height, j, root);
      }
    }
  }

  lemma ItemsAt(nodes: Nodes, root: nat, height: nat, index: nat)
    requires 0 < height <= MAX_HEIGHT && index <= Pow(height)
    ensures Find(nodes, root, height, index) == Lookup(Items(nodes, root, height), height, index)
  {
    if index == Pow(height) {
      FindBoundary(nodes, root, height, height);
    }
  }

  lemma HeightOk(nodes: Nodes, owner: Owners, root: nat, height: nat)
    requires Inv(nodes, owner, root, height)
    ensures height <= MAX_HEIGHT && (height == 0 ==> root == 0) && 0 !in nodes
  {
  }

  lemma RootShape(nodes: Nodes, owner: Owners, root: nat, height: nat)
    requires Inv(nodes, owner, root, height) && height > 0
    ensures root != 0 && height <= MAX_HEIGHT && 0 !in nodes
  {
    NodeShape(nodes, owner, root, height, root);
  }

  lemma FirstRoot(nodes: Nodes, owner: Owners, n: nat)
    requires Inv(nodes, owner, 0, 0) && n != 0 && n !in owner && n in nodes && nodes[n] == Zeros()
    ensures Inv(nodes, owner[n := Place(1, 0)], n, 1) && Items(nodes, n, 1) == Items(nodes, 0, 0)
  {
    var owner' := owner[n := Place(1, 0)];
    forall q | q in owner' ensures NodeOk(nodes, owner', q) {
      if q in owner {
        assert NodeOk(nodes, owner, q);
        if owner[q].level > 1 {
          forall i: nat | i < SLOTS ensures ChildOk(nodes, owner', q, i) {
            assert ChildOk(nodes, owner, q, i);
          }
        }
      }
    }
    forall j: nat ensures Find(nodes, n, 1, j) == 0 {
      FindEmptyNode(nodes, n, 1, j);
    }
  }

  lemma GrowRoot(nodes: Nodes, owner: Owners, root: nat, height: nat, c: nat)
    requires Inv(nodes, owner, root, height) && 0 < height < MAX_HEIGHT
    requires c != 0 && c !in owner && c in nodes && nodes[c] == Zeros()
    ensures Inv(Store(nodes, c, 0, root), owner[c := Place(height + 1, 0)], c, height + 1)
    ensures Items(Store(nodes, c, 0, root), c, height + 1) == Items(nodes, root, height)
  {
    GrowInv(nodes, owner, root, height, c);
    PowStep(height);
    var nodes', h := Store(nodes, c, 0, root), height + 1;
    hide Pow, Find, Store;
    var grown, items := Items(nodes', c, h), Items(nodes, root, height);
    forall j: nat ensures (j in grown <==> j in items) && (j in items ==> grown[j] == items[j]) {
      if j < Pow(h) {
        GrowFind(nodes, owner, root, height, c, j);
      }
    }
  }

  lemma LinkChild(before: Nodes, nodes: Nodes, owner: Owners, root: nat, height: nat, level: nat, index: nat, n: nat,
                  c: nat)
    requires Inv(before, owner, root, height) && Inv(nodes, owner, root, height) && 1 < level <= height
      && index < Pow(height)
    requires c != 0 && c !in owner && c !in before && nodes == before[c := Zeros()]
    requires n == PathNode(before, root, height, level, index) && n in owner && n in nodes && |nodes[n]| == SLOTS
    requires owner[n] == Place(level, index / Pow(level)) && Digit(level, index) < SLOTS
      && nodes[n][Digit(level, index)] == 0
    ensures var nodes' := Store(nodes, n, Digit(level, index), c);
            && Inv(nodes', owner[c := Place(level - 1, index / Pow(level - 1))], root, height)
            && Items(nodes', root, height) == Items(nodes, root, height)
            && PathNode(nodes', root, height, level - 1, index) == c
  {
    forall q | q in owner ensures q in before && q in nodes && q != c {
      NodeShape(before, owner, root, height, q);
    }
    PathFrame(before, nodes, owner, root, height, level, index, c);
    LinkInv(nodes, owner, root, height, level, index, n, c);
    LinkFind(nodes, owner, root, height, level, index, n, c, index);
    forall j: nat | j < Pow(height)
      ensures Find(Store(nodes, n, Digit(level, index), c), root, height, j) == Find(nodes, root, height, j)
    {
      LinkFind(nodes, owner, root, height, level, index, n, c, j);
    }
    hide Pow, Find;
  }

  lemma SameDigit(height: nat, level: nat, index: nat)
    requires 0 < level <= height <= MAX_HEIGHT && index <= Pow(height)
    ensures Digit(level, index) == Digit(level, Effective(height, index)) < SLOTS
  {
    BoundaryDigits(height, level);
  }

  lemma SlotIsItem(nodes: Nodes, root: nat, height: nat, index: nat)
    requires 0 !in nodes && 0 < height && index < Pow(height)
    requires var n := PathNode(nodes, root, height, 1, index);
      n != 0 && n in nodes && |nodes[n]| == SLOTS && Digit(1, index) < SLOTS
    ensures var x := nodes[PathNode(nodes, root, height, 1, index)][Digit(1, index)];
            && (index in Items(nodes, root, height) <==> x != 0)
            && (x != 0 ==> Items(nodes, root, height)[index] == x)
  {
    PathFind(nodes, root, height, 1, index);
    var n := PathNode(nodes, root, height, 1, index);
    assert Find(nodes, n, 1, index) == Find(nodes, nodes[n][Digit(1, index)], 0, index);
  }

  lemma StoreItem(nodes: Nodes, owner: Owners, root: nat, height: nat, index: nat, n: nat, item: nat)
    requires Inv(nodes, owner, root, height) && height > 0 && index < Pow(height) && item != 0
    requires n == PathNode(nodes, root, height, 1, index) && n != 0 && n in nodes && |nodes[n]| == SLOTS
      && Digit(1, index) < SLOTS
    ensures Items(Store(nodes, n, Digit(1, index), item), root, height) == Items(nodes, root, height)[index := item]
  {
    forall j: nat | j < Pow(height)
      ensures Find(Store(nodes, n, Digit(1, index), item), root, height, j)
        == if j == index then item else Find(nodes, root, height, j)
    {
      StoreFind(nodes, owner, root, height, index, n, item, j);
    }
    hide Pow, Find, PathNode;
  }
}
