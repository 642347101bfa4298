/** The radix tree as a value: nodes of 64 slots, the place of each node, lookup, and how one store changes lookups. */
module RadixNodes {
  const SLOTS := 64
  const MAX_HEIGHT := 4

  /** Slot contents by node address; 0 is NULL. Slots of level-1 nodes hold items, all others hold nodes. */
  type Nodes = map<nat, seq<nat>>

  datatype Place = Place(level: nat, prefix: nat)

  type Owners = map<nat, Place>

  function Pow(k: nat): (p: nat)
    ensures p >= 1
  {
    if k == 0 then 1 else SLOTS * Pow(k - 1)
  }

  /** The slot of `index` in a node of `level` (level 1 is the leaf level). */
  function Digit(level: nat, index: nat): nat
    requires level > 0
  {
    index / Pow(level - 1) % SLOTS
  }

  ghost predicate NodeOk(nodes: Nodes, owner: Owners, n: nat)
    requires n in owner
  {
    && n != 0 && n in nodes && |nodes[n]| == SLOTS && owner[n].level > 0
    && (owner[n].level > 1 ==> forall k: nat :: k < SLOTS ==> ChildOk(nodes, owner, n, k))
  }

  ghost predicate ChildOk(nodes: Nodes, owner: Owners, n: nat, k: nat)
    requires n in owner && n in nodes && k < |nodes[n]|
  {
    var c := nodes[n][k];
    c != 0 ==>
      c in owner && owner[c] == Place(if owner[n].level > 0 then owner[n].level - 1 else 0, owner[n].prefix * SLOTS + k)
  }

  ghost predicate Inv(nodes: Nodes, owner: Owners, root: nat, height: nat) {
    && height <= MAX_HEIGHT && 0 !in nodes
    && (height == 0 ==> root == 0)
    && (height > 0 ==> root in owner && owner[root] == Place(height, 0))
    && (forall n {:trigger NodeOk(nodes, owner, n)} :: n in owner ==> NodeOk(nodes, owner, n))
  }

  function Slot(nodes: Nodes, n: nat, k: nat): nat {
    if n in nodes && k < |nodes[n]| then nodes[n][k] else 0
  }

  /** Follows the digits of `index` from a node of `level` down to the item. */
  function Find(nodes: Nodes, n: nat, level: nat, index: nat): nat
    decreases level
  {
    if n == 0 || level == 0 then n else Find(nodes, Slot(nodes, n, Digit(level, index)), level - 1, index)
  }

  /** The tree as a finite map. */
  ghost function Items(nodes: Nodes, root: nat, height: nat): map<nat, nat> {
    map i: nat | i < Pow(height) && height > 0 && Find(nodes, root, height, i) != 0 :: Find(nodes, root, height, i)
  }

  /** radix_tree_lookup in terms of the map: the range test lets 64^height through, and that index reads index 0. */
  function Lookup(items: map<nat, nat>, height: nat, index: nat): nat {
    if height == 0 || index > Pow(height) then 0 else
    var i := if index == Pow(height) then 0 else index;
    if i in items then items[i] else 0
  }

  lemma PowStep(k: nat)
    ensures Pow(k + 1) == SLOTS * Pow(k) && Pow(k) < Pow(k + 1)
  {
  }

  lemma PowValues()
    ensures Pow(0) == 1 && Pow(1) == 64 && Pow(2) == 4096 && Pow(3) == 262144 && Pow(4) == 16777216
  {
    assert Pow(2) == 64 * Pow(1) && Pow(3) == 64 * Pow(2) && Pow(4) == 64 * Pow(3);
  }

  /** Place of the node of `level` on the path of an index below 64^height. */
  lemma PrefixDigit(level: nat, index: nat)
    requires 0 < level <= MAX_HEIGHT
    ensures index / Pow(level) * SLOTS + Digit(level, index) == index / Pow(level - 1)
  {
    PowValues();
  }

  lemma BoundaryDigits(height: nat, level: nat)
    requires 0 < level <= height <= MAX_HEIGHT
    ensures Digit(level, Pow(height)) == 0 && Digit(level, 0) == 0
  {
    PowValues();
  }

  /** 64^height has the same digits as 0 in a tree of that height. */
  lemma {:induction false} FindBoundary(nodes: Nodes, n: nat, height: nat, level: nat)
    requires level <= height <= MAX_HEIGHT
    ensures Find(nodes, n, level, Pow(height)) == Find(nodes, n, level, 0)
    decreases level
  {
    if n != 0 && level > 0 {
      BoundaryDigits(height, level);
      FindBoundary(nodes, Slot(nodes, n, 0), height, level - 1);
    }
  }

  /** The node of `level` on the path of `index` from the root, 0 when the path ends above it. */
  function PathNode(nodes: Nodes, root: nat, height: nat, level: nat, index: nat): nat
    requires level <= height
    decreases height - level
  {
    if level == height then root
    else Slot(nodes, PathNode(nodes, root, height, level + 1, index), Digit(level + 1, index))
  }

  lemma {:induction false} PathFind(nodes: Nodes, root: nat, height: nat, level: nat, index: nat)
    requires 0 !in nodes && level <= height
    ensures Find(nodes, root, height, index) == Find(nodes, PathNode(nodes, root, height, level, index), level, index)
    decreases height - level
  {
    if level < height {
      PathFind(nodes, root, height, level + 1, index);
    }
  }

  /** The path of an index passes only nodes whose place is a prefix of the index. */
  lemma {:induction false} PathOwned(nodes: Nodes, owner: Owners, root: nat, height: nat, level: nat, index: nat)
    requires Inv(nodes, owner, root, height) && 0 < level <= height && index < Pow(height)
    ensures var n := PathNode(nodes, root, height, level, index);
            n != 0 ==> n in owner && owner[n] == Place(level, index / Pow(level))
    decreases height - level
  {
    if level < height {
      PathOwned(nodes, owner, root, height, level + 1, index);
      var n := PathNode(nodes, root, height, level + 1, index);
      if n != 0 {
        PrefixDigit(level + 1, index);
        assert NodeOk(nodes, owner, n);
        assert ChildOk(nodes, owner, n, Digit(level + 1, index));
      }
    }
  }

  lemma NodeShape(nodes: Nodes, owner: Owners, root: nat, height: nat, n: nat)
    requires Inv(nodes, owner, root, height) && n in owner
    ensures n != 0 && n in nodes && |nodes[n]| == SLOTS && owner[n].level > 0
  {
    assert NodeOk(nodes, owner, n);
  }

  /** A write to one node leaves every path above that node's level alone. */
  lemma {:induction false} PathFrame(nodes: Nodes, nodes': Nodes, owner: Owners, root: nat, height: nat, level: nat,
                                     index: nat, w: nat)
    requires Inv(nodes, owner, root, height) && 0 !in nodes' && 0 < level <= height && index < Pow(height)
    requires forall n :: n in owner && n != w ==> n in nodes' && n in nodes && nodes'[n] == nodes[n]
    requires w in owner ==> owner[w].level <= level
    ensures PathNode(nodes', root, height, level, index) == PathNode(nodes, root, height, level, index)
    decreases height - level
  {
    if level < height {
      PathFrame(nodes, nodes', owner, root, height, level + 1, index, w);
      PathOwned(nodes, owner, root, height, level + 1, index);
    }
  }

  function Store(nodes: Nodes, n: nat, k: nat, x: nat): Nodes
    requires n in nodes && k < |nodes[n]|
  {
    var slots: seq<nat> := nodes[n][k := x];
    nodes[n := slots]
  }

  lemma LeafDigits(i: nat, j: nat)
    ensures Digit(1, i) < SLOTS && Digit(1, j) < SLOTS
    ensures Digit(1, i) == Digit(1, j) && i / Pow(1) == j / Pow(1) <==> i == j
  {
    PowValues();
  }

  /** Storing an item in a leaf slot changes the lookup of exactly one index. */
  lemma StoreFind(nodes: Nodes, owner: Owners, root: nat, height: nat, index: nat, n: nat, item: nat, j: nat)
    requires Inv(nodes, owner, root, height) && height > 0 && index < Pow(height) && j < Pow(height)
    requires n == PathNode(nodes, root, height, 1, index) && n != 0 && n in nodes && |nodes[n]| == SLOTS
    ensures Find(Store(nodes, n, Digit(1, index), item), root, height, j)
            == if j == index then item else Find(nodes, root, height, j)
  {
    var nodes' := Store(nodes, n, Digit(1, index), item);
    PathOwned(nodes, owner, root, height, 1, index);
    PathOwned(nodes, owner, root, height, 1, j);
    forall q | q in owner ensures q in nodes {
      NodeShape(nodes, owner, root, height, q);
    }
    PathFrame(nodes, nodes', owner, root, height, 1, j, n);
    PathFind(nodes, root, height, 1, j);
    PathFind(nodes', root, height, 1, j);
    LeafDigits(index, j);
    hide Digit, Pow;
    var p := PathNode(nodes, root, height, 1, j);
    assert Find(nodes, p, 1, j) == if p == 0 then 0 else Find(nodes, Slot(nodes, p, Digit(1, j)), 0, j);
    assert Find(nodes', p, 1, j) == if p == 0 then 0 else Find(nodes', Slot(nodes', p, Digit(1, j)), 0, j);
  }

  lemma StoreInv(nodes: Nodes, owner: Owners, root: nat, height: nat, n: nat, k: nat, x: nat)
    requires Inv(nodes, owner, root, height) && n in owner && owner[n].level == 1 && n in nodes && k < |nodes[n]|
    ensures Inv(Store(nodes, n, k, x), owner, root, height)
  {
    var nodes' := Store(nodes, n, k, x);
    assert 0 !in nodes' by { NodeShape(nodes, owner, root, height, n); }
    forall q | q in owner ensures NodeOk(nodes', owner, q) {
      assert NodeOk(nodes, owner, q);
      if owner[q].level > 1 {
        forall i: nat | i < SLOTS ensures ChildOk(nodes', owner, q, i) {
          assert ChildOk(nodes, owner, q, i);
        }
      }
    }
  }

  function Zeros(): (z: seq<nat>)
    ensures |z| == SLOTS && forall k :: 0 <= k < SLOTS ==> z[k] == 0
  {
    seq(SLOTS, _ => 0)
  }

  lemma {:induction false} FindZero(nodes: Nodes, level: nat, index: nat)
    ensures Find(nodes, 0, level, index) == 0
  {
  }

  lemma FindEmptyNode(nodes: Nodes, n: nat, level: nat, index: nat)
    requires level > 0 && n in nodes && nodes[n] == Zeros()
    ensures Find(nodes, n, level, index) == 0
  {
    FindZero(nodes, level - 1, index);
  }

  /** A fresh empty node hung into an empty slot keeps the shape. */
  lemma LinkInv(nodes: Nodes, owner: Owners, root: nat, height: nat, level: nat, index: nat, n: nat, c: nat)
    requires Inv(nodes, owner, root, height) && 1 < level <= height && index < Pow(height)
    requires n in owner && owner[n] == Place(level, index / Pow(level)) && n in nodes && |nodes[n]| == SLOTS
    requires c != 0 && c !in owner && c in nodes && nodes[c] == Zeros()
    ensures Inv(Store(nodes, n, Digit(level, index), c), owner[c := Place(level - 1, index / Pow(level - 1))], root,
      height)
  {
    var nodes' := Store(nodes, n, Digit(level, index), c);
    var owner' := owner[c := Place(level - 1, index / Pow(level - 1))];
    PrefixDigit(level, index);
    hide Digit, Pow;
    forall q | q in owner' ensures NodeOk(nodes', owner', q) {
      if q in owner {
        assert NodeOk(nodes, owner, q);
      }
      if owner'[q].level > 1 {
        forall i: nat | i < SLOTS ensures ChildOk(nodes', owner', q, i) {
          if q in owner {
            assert ChildOk(nodes, owner, q, i);
          }
        }
      }
    }
  }

  /** Hanging it in changes no lookup, and the path now reaches it. */
  lemma LinkFind(nodes: Nodes, owner: Owners, root: nat, height: nat, level: nat, index: nat, n: nat, c: nat, j: nat)
    requires Inv(nodes, owner, root, height) && 1 < level <= height && index < Pow(height) && j < Pow(height)
    requires n == PathNode(nodes, root, height, level, index) && n in owner && n in nodes && |nodes[n]| == SLOTS
    requires nodes[n][Digit(level, index)] == 0
    requires c != 0 && c !in owner && c in nodes && nodes[c] == Zeros()
    ensures var nodes' := Store(nodes, n, Digit(level, index), c);
            && Find(nodes', root, height, j) == Find(nodes, root, height, j)
            && (j == index ==> PathNode(nodes', root, height, level - 1, j) == c)
  {
    var nodes' := Store(nodes, n, Digit(level, index), c);
    PathOwned(nodes, owner, root, height, level, index);
    PathOwned(nodes, owner, root, height, level, j);
    forall q | q in owner ensures q in nodes && q != 0 {
      NodeShape(nodes, owner, root, height, q);
    }
    PathFrame(nodes, nodes', owner, root, height, level, j, n);
    PathFind(nodes, root, height, level, j);
    PathFind(nodes', root, height, level, j);
    hide Digit, Pow;
    var p := PathNode(nodes, root, height, level, j);
    if p == n && Digit(level, j) == Digit(level, index) {
      FindZero(nodes, level - 1, j);
      FindEmptyNode(nodes', c, level - 1, j);
    } else if p != 0 {
      var q := Slot(nodes, p, Digit(level, j));
      assert Slot(nodes', p, Digit(level, j)) == q;
      if q != 0 {
        assert NodeOk(nodes, owner, p);
        assert ChildOk(nodes, owner, p, Digit(level, j));
        BelowFrame(nodes, nodes', owner, root, height, level - 1, j, q);
      }
    }
  }

  /** Lookups below nodes of a level do not see writes to nodes of higher levels. */
  lemma {:induction false} BelowFrame(nodes: Nodes, nodes': Nodes, owner: Owners, root: nat, height: nat, level: nat,
                                      index: nat, q: nat)
    requires Inv(nodes, owner, root, height) && 0 !in nodes'
    requires level > 0 ==> q in owner && owner[q].level == level
    requires forall n :: n in owner && owner[n].level <= level ==> n in nodes && n in nodes' && nodes'[n] == nodes[n]
    ensures Find(nodes', q, level, index) == Find(nodes, q, level, index)
    decreases level
  {
    if level > 0 {
      assert NodeOk(nodes, owner, q);
      var c := Slot(nodes, q, Digit(level, index));
      if level > 1 && c != 0 {
        assert ChildOk(nodes, owner, q, Digit(level, index));
        BelowFrame(nodes, nodes', owner, root, height, level - 1, index, c);
      }
    }
  }

  /** A new root with the old one in slot 0 keeps the shape and every lookup below the old height;
      the indices it opens up are empty. */
  lemma GrowInv(nodes: Nodes, owner: Owners, root: nat, height: nat, c: nat)
    requires Inv(nodes, owner, root, height) && 0 < height < MAX_HEIGHT
    requires c != 0 && c !in owner && c in nodes && nodes[c] == Zeros()
    ensures Inv(Store(nodes, c, 0, root), owner[c := Place(height + 1, 0)], c, height + 1)
  {
    var nodes' := Store(nodes, c, 0, root);
    var owner' := owner[c := Place(height + 1, 0)];
    forall q | q in owner' ensures NodeOk(nodes', owner', q) {
      if q in owner {
        assert NodeOk(nodes, owner, q);
      }
      if owner'[q].level > 1 {
        forall i: nat | i < SLOTS ensures ChildOk(nodes', owner', q, i) {
          if q in owner {
            assert ChildOk(nodes, owner, q, i);
          }
        }
      }
    }
  }

  lemma TopDigit(height: nat, j: nat)
    requires height < MAX_HEIGHT && j < Pow(height + 1)
    ensures Digit(height + 1, j) == 0 <==> j < Pow(height)
  {
    PowValues();
  }

  lemma GrowFind(nodes: Nodes, owner: Owners, root: nat, height: nat, c: nat, j: nat)
    requires Inv(nodes, owner, root, height) && 0 < height < MAX_HEIGHT && j < Pow(height + 1)
    requires c != 0 && c !in owner && c in nodes && nodes[c] == Zeros()
    ensures Find(Store(nodes, c, 0, root), c, height + 1, j)
      == if j < Pow(height) then Find(nodes, root, height, j) else 0
  {
    var nodes' := Store(nodes, c, 0, root);
    TopDigit(height, j);
    forall q | q in owner ensures q in nodes {
      NodeShape(nodes, owner, root, height, q);
    }
    if j < Pow(height) {
      BelowFrame(nodes, nodes', owner, root, height, height, j, root);
    } else {
      FindZero(nodes', height, j);
    }
  }
}
