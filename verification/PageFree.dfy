/** The order in which a tree's table pages are released, and that it is each page exactly once. */
module PageFree {
  import opened Common
  import opened Pte
  import opened PageTree

  /** Tables released below `p` for its first `n` entries: depth first, a child after its own children. */
  ghost function Below(mem: Memory, p: Page, level: nat, n: nat): seq<Page>
    decreases level, n
  {
    if level == 0 || n == 0 then [] else
    Below(mem, p, level, n - 1) + Subtree(mem, Follow(mem, p, n - 1), level - 1)
  }

  ghost function Subtree(mem: Memory, child: Option<Page>, level: nat): seq<Page>
    decreases level, ENTRIES + 1
  {
    match child
    case None => []
    case Some(c) => Below(mem, c, level, ENTRIES) + [c]
  }

  lemma BelowEmpty(mem: Memory, p: Page, level: nat)
    ensures Below(mem, p, level, 0) == [] && Below(mem, p, 0, ENTRIES) == []
  {
  }

  lemma BelowStep(s: seq<Page>, mem: Memory, p: Page, level: nat, n: nat)
    requires level > 0
    ensures Follow(mem, p, n) == None ==> Below(mem, p, level, n + 1) == Below(mem, p, level, n)
    ensures Follow(mem, p, n).Some? ==>
              var c := Follow(mem, p, n).value;
              s + Below(mem, p, level, n) + Below(mem, c, level - 1, ENTRIES) + [c] == s + Below(mem, p, level, n + 1)
  {
  }

  /** The prefix of a table `k` levels further up. */
  function Lift(prefix: nat, k: nat): nat {
    if k == 0 then prefix else Lift(prefix, k - 1) / ENTRIES
  }

  /** Slots that lie under entries [from, to) of a table at `level`. */
  ghost predicate Under(owner: Owners, q: Page, root: Page, level: nat, from: nat, to: nat) {
    && q in owner && owner[q].root == root && owner[q].level < level
    && from <= Lift(owner[q].prefix, level - 1 - owner[q].level) < to
  }

  lemma NoDupConcat(a: seq<Page>, b: seq<Page>)
    requires NoDup(a) && NoDup(b) && forall q :: q in a ==> q !in b
    ensures NoDup(a + b)
  {
    var s := a + b;
    forall i, j | 0 <= i < j < |s| ensures s[i] != s[j] {
      if i < |a| <= j {
        assert s[i] in a && s[j] in b;
      }
    }
  }

  lemma {:induction false} BelowSound(mem: Memory, owner: Owners, free: seq<Page>, p: Page, level: nat, n: nat)
    requires Inv(mem, owner, free) && p in owner && owner[p].level == level && n <= ENTRIES
    ensures NoDup(Below(mem, p, level, n))
    ensures forall q :: q in Below(mem, p, level, n) ==>
              Under(owner, q, owner[p].root, level, owner[p].prefix * ENTRIES, owner[p].prefix * ENTRIES + n)
    decreases level, n
  {
    if level > 0 && n > 0 {
      BelowSound(mem, owner, free, p, level, n - 1);
      assert TableOk(mem, owner, p) && EntryOk(mem, owner, p, n - 1);
      var child := Follow(mem, p, n - 1);
      if child.Some? {
        var c, base := child.value, owner[p].prefix * ENTRIES + n - 1;
        BelowSound(mem, owner, free, c, level - 1, ENTRIES);
        var earlier, inner := Below(mem, p, level, n - 1), Below(mem, c, level - 1, ENTRIES);
        assert Below(mem, p, level, n) == earlier + (inner + [c]);
        NoDupConcat(inner, [c]);
        forall q | q in inner + [c]
          ensures Under(owner, q, owner[p].root, level, base, base + 1)
        {
          if q != c {
            assert Under(owner, q, owner[p].root, level - 1, base * ENTRIES, base * ENTRIES + ENTRIES);
          }
        }
        NoDupConcat(earlier, inner + [c]);
      }
    }
  }

  /** Every table but a root is released with its parent's table. */
  lemma {:induction false} InParent(mem: Memory, owner: Owners, free: seq<Page>, q: Page, n: nat)
    requires Inv(mem, owner, free) && q in owner && owner[q].level < 2
    requires owner[q].prefix % ENTRIES < n <= ENTRIES
    ensures q in Below(mem, owner[q].parent, owner[q].level + 1, n)
  {
    assert TableOk(mem, owner, q);
    if n - 1 != owner[q].prefix % ENTRIES {
      InParent(mem, owner, free, q, n - 1);
    }
  }

  lemma {:induction false} BelowTrans(mem: Memory, owner: Owners, free: seq<Page>, r: Page, n: nat, p: Page, q: Page)
    requires Inv(mem, owner, free) && r in owner && owner[r].level == 2 && n <= ENTRIES
    requires p in Below(mem, r, 2, n) && p in owner && owner[p].level == 1 && q in Below(mem, p, 1, ENTRIES)
    ensures q in Below(mem, r, 2, n)
    decreases n
  {
    if p in Below(mem, r, 2, n - 1) {
      BelowTrans(mem, owner, free, r, n - 1, p, q);
    } else {
      var c := Follow(mem, r, n - 1).value;
      assert Below(mem, r, 2, n) == Below(mem, r, 2, n - 1) + (Below(mem, c, 1, ENTRIES) + [c]);
      hide Below, Valid, Make, PageOf, Target;
      assert TableOk(mem, owner, r) && EntryOk(mem, owner, r, n - 1);
      BelowSound(mem, owner, free, c, 1, ENTRIES);
      assert p !in Below(mem, c, 1, ENTRIES);
      assert p == c;
    }
  }

  /** free_pagetable releases exactly the table pages of the tree, none twice. */
  lemma FreesExactly(mem: Memory, owner: Owners, free: seq<Page>, root: Page)
    requires Inv(mem, owner, free) && IsRoot(owner, root)
    ensures var s := Below(mem, root, 2, ENTRIES) + [root];
            NoDup(s) && forall q :: q in s <==> q in owner && owner[q].root == root
  {
    hide Below, EntryOk;
    var s := Below(mem, root, 2, ENTRIES) + [root];
    BelowSound(mem, owner, free, root, 2, ENTRIES);
    assert TableOk(mem, owner, root);
    assert NoDup(s) by { NoDupConcat(Below(mem, root, 2, ENTRIES), [root]); }
    forall q | q in owner && owner[q].root == root ensures q in s {
      assert TableOk(mem, owner, q);
      if owner[q].level < 2 {
        InParent(mem, owner, free, q, ENTRIES);
        var p := owner[q].parent;
        assert TableOk(mem, owner, p);
        if owner[q].level == 0 {
          InParent(mem, owner, free, p, ENTRIES);
          assert TableOk(mem, owner, owner[p].parent);
          BelowTrans(mem, owner, free, root, ENTRIES, p, q);
        }
      }
    }
  }

  ghost function DropTree(owner: Owners, root: Page): Owners {
    map p | p in owner && owner[p].root != root :: owner[p]
  }

  /** Forgetting one tree leaves the others well formed. */
  lemma DropTreeInv(mem: Memory, owner: Owners, free: seq<Page>, root: Page)
    requires Inv(mem, owner, free)
    ensures Inv(mem, DropTree(owner, root), free)
    ensures forall r :: IsRoot(DropTree(owner, root), r) <==> IsRoot(owner, r) && r != root
  {
    var owner' := DropTree(owner, root);
    forall q | q in owner ensures owner[q].level == 2 ==> owner[q].root == q {
      assert TableOk(mem, owner, q);
    }
    forall q | q in owner' ensures TableOk(mem, owner', q) {
      assert TableOk(mem, owner, q);
      if owner[q].level > 0 {
        forall k: nat | k < ENTRIES ensures EntryOk(mem, owner', q, k) {
          assert EntryOk(mem, owner, q, k);
        }
      }
    }
  }
}
