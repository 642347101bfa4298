/** Counting and visiting all items in index order, stopping early. */
module RadixWalk {
  import opened RadixNodes

  type Entry = (nat, nat)

  /** All (index, item) pairs below a node, lowest slot first; `base` is the index of its first slot. */
  ghost function Entries(nodes: Nodes, n: nat, level: nat, base: nat): seq<Entry>
    decreases level, SLOTS + 1
  {
    if n == 0 then [] else if level == 0 then [(base, n)] else EntriesUpTo(nodes, n, level, base, SLOTS)
  }

  /** First index below slot `k` of a node whose first index is `base`. */
  function At(level: nat, base: nat, k: nat): nat
    requires level > 0
  {
    base + k * Pow(level - 1)
  }

  /** The pairs of the first `k` slots. */
  ghost function EntriesUpTo(nodes: Nodes, n: nat, level: nat, base: nat, k: nat): seq<Entry>
    requires level > 0
    decreases level, k
  {
    if k == 0 then [] else
    EntriesUpTo(nodes, n, level, base, k - 1) + Entries(nodes, Slot(nodes, n, k - 1), level - 1, At(level, base, k - 1))
  }

  ghost predicate Increasing(s: seq<Entry>) {
    forall i, j :: 0 <= i < j < |s| ==> s[i].0 < s[j].0
  }

  /** `s` lists exactly the nonempty lookups of the indices in [lo, hi), in order. */
  ghost predicate Lists(nodes: Nodes, n: nat, level: nat, s: seq<Entry>, lo: nat, hi: nat) {
    && Increasing(s)
    && (forall e :: e in s ==> lo <= e.0 < hi && e.1 != 0 && Find(nodes, n, level, e.0) == e.1)
    && (forall i: nat :: lo <= i < hi && Find(nodes, n, level, i) != 0 ==> (i, Find(nodes, n, level, i)) in s)
  }

  lemma DigitInRange(level: nat, base: nat, k: nat, i: nat)
    requires 0 < level <= MAX_HEIGHT && base % Pow(level) == 0 && k < SLOTS
    requires At(level, base, k) <= i < At(level, base, k + 1)
    ensures Digit(level, i) == k
  {
    PowValues();
    if level == 1 {
      assert (i / 1) % 64 == k;
    } else if level == 2 {
      SlotOf64(base, k, i);
    } else if level == 3 {
      SlotOf4096(base, k, i);
    } else {
      SlotOf262144(base, k, i);
    }
  }

  lemma SlotOf64(base: nat, k: nat, i: nat)
    requires base % 4096 == 0 && k < SLOTS && base + k * 64 <= i < base + (k + 1) * 64
    ensures i / 64 % 64 == k
  {
    assert i / 64 == base / 4096 * 64 + k;
  }

  lemma SlotOf4096(base: nat, k: nat, i: nat)
    requires base % 262144 == 0 && k < SLOTS && base + k * 4096 <= i < base + (k + 1) * 4096
    ensures i / 4096 % 64 == k
  {
    assert i / 4096 == base / 262144 * 64 + k;
  }

  lemma SlotOf262144(base: nat, k: nat, i: nat)
    requires base % 16777216 == 0 && k < SLOTS && base + k * 262144 <= i < base + (k + 1) * 262144
    ensures i / 262144 % 64 == k
  {
    assert i / 262144 == base / 16777216 * 64 + k;
  }

  lemma IncreasingConcat(a: seq<Entry>, b: seq<Entry>, mid: nat)
    requires Increasing(a) && Increasing(b)
    requires (forall e :: e in a ==> e.0 < mid) && (forall e :: e in b ==> mid <= e.0)
    ensures Increasing(a + b)
  {
    var s := a + b;
    forall i, j | 0 <= i < j < |s| ensures s[i].0 < s[j].0 {
      if i < |a| <= j {
        assert s[i] in a && s[j] in b;
      }
    }
  }

  lemma SlotBase(level: nat, base: nat, k: nat)
    requires 0 < level <= MAX_HEIGHT && base % Pow(level) == 0
    ensures At(level, base, k) % Pow(level - 1) == 0
    ensures At(level, base, k + 1) == At(level, base, k) + Pow(level - 1)
    ensures At(level, base, 0) == base <= At(level, base, k)
    ensures At(level, base, SLOTS) == base + Pow(level)
  {
    PowValues();
    hide Pow;
    if level == 2 {
      Aligned64(base, k);
    } else if level == 3 {
      Aligned4096(base, k);
    } else if level == 4 {
      Aligned262144(base, k);
    }
  }

  lemma Aligned64(base: nat, k: nat)
    requires base % 4096 == 0
    ensures (base + k * 64) % 64 == 0
  {
    var m := base / 4096;
    assert base == 4096 * m;
    assert base + k * 64 == 64 * (64 * m + k);
  }

  lemma Aligned4096(base: nat, k: nat)
    requires base % 262144 == 0
    ensures (base + k * 4096) % 4096 == 0
  {
    var m := base / 262144;
    assert base == 262144 * m;
    assert base + k * 4096 == 4096 * (64 * m + k);
  }

  lemma Aligned262144(base: nat, k: nat)
    requires base % 16777216 == 0
    ensures (base + k * 262144) % 262144 == 0
  {
    var m := base / 16777216;
    assert base == 16777216 * m;
    assert base + k * 262144 == 262144 * (64 * m + k);
  }

  /** One more slot. */
  lemma ListsSlot(nodes: Nodes, n: nat, level: nat, base: nat, k: nat, a: seq<Entry>, b: seq<Entry>)
    requires 0 < level <= MAX_HEIGHT && base % Pow(level) == 0 && k < SLOTS && n != 0
    requires Lists(nodes, n, level, a, base, At(level, base, k))
    requires Lists(nodes, Slot(nodes, n, k), level - 1, b, At(level, base, k), At(level, base, k + 1))
    ensures Lists(nodes, n, level, a + b, base, At(level, base, k + 1))
  {
    var lo, hi := At(level, base, k), At(level, base, k + 1);
    forall i: nat | lo <= i < hi ensures Find(nodes, n, level, i) == Find(nodes, Slot(nodes, n, k), level - 1, i) {
      DigitInRange(level, base, k, i);
    }
    SlotBase(level, base, k);
    hide Pow, Find, At;
    IncreasingConcat(a, b, lo);
  }

  /** Visiting order is index order, and the visit is complete. */
  lemma {:induction false} EntriesList(nodes: Nodes, n: nat, level: nat, base: nat)
    requires level <= MAX_HEIGHT && base % Pow(level) == 0
    ensures Lists(nodes, n, level, Entries(nodes, n, level, base), base, base + Pow(level))
    decreases level, SLOTS + 1
  {
    if n == 0 {
      FindsNothing(nodes, level);
      hide Pow, Find;
    } else if level == 0 {
      assert Pow(0) == 1;
      hide Pow;
    } else {
      hide Pow, At, Find, Lists;
      EntriesUpToList(nodes, n, level, base, SLOTS);
      SlotBase(level, base, 0);
    }
  }

  lemma FindsNothing(nodes: Nodes, level: nat)
    ensures forall i: nat :: Find(nodes, 0, level, i) == 0
  {
  }

  lemma {:induction false} EntriesUpToList(nodes: Nodes, n: nat, level: nat, base: nat, k: nat)
    requires 0 < level <= MAX_HEIGHT && base % Pow(level) == 0 && k <= SLOTS && n != 0
    ensures Lists(nodes, n, level, EntriesUpTo(nodes, n, level, base, k), base, At(level, base, k))
    decreases level, k
  {
    hide Pow, At, Find, Lists, Entries, EntriesUpTo;
    if k == 0 {
      SlotBase(level, base, 0);
      NoneListed(nodes, n, level, base);
    } else {
      EntriesUpToList(nodes, n, level, base, k - 1);
      SlotBase(level, base, k - 1);
      var at := At(level, base, k - 1);
      EntriesList(nodes, Slot(nodes, n, k - 1), level - 1, at);
      ListsSlot(nodes, n, level, base, k - 1, EntriesUpTo(nodes, n, level, base, k - 1),
        Entries(nodes, Slot(nodes, n, k - 1), level - 1, at));
      OneMoreSlot(nodes, n, level, base, k - 1);
    }
  }

  lemma NoneListed(nodes: Nodes, n: nat, level: nat, base: nat)
    requires level > 0
    ensures Lists(nodes, n, level, EntriesUpTo(nodes, n, level, base, 0), base, base)
  {
    hide Find;
  }

  lemma OneMoreSlot(nodes: Nodes, n: nat, level: nat, base: nat, k: nat)
    requires level > 0
    ensures EntriesUpTo(nodes, n, level, base, k + 1) == EntriesUpTo(nodes, n, level, base, k)
      + Entries(nodes, Slot(nodes, n, k), level - 1, At(level, base, k))
  {
    hide Entries, At;
  }

  /** A visit that starts after the calls `before`: everything accepted up to the first refusal, which is the last
      call. */
  ghost predicate Visited(fn: seq<Entry> -> int, before: seq<Entry>, all: seq<Entry>, count: nat, after: seq<Entry>) {
    && count <= |all|
    && after == before + (if count < |all| then all[..count + 1] else all)
    && (forall k :: 1 <= k <= count ==> Accepts(fn, before, all, k))
    && (count < |all| ==> !Accepts(fn, before, all, count + 1))
  }

  /** The callback answers 0 to the `k`-th call. */
  ghost predicate Accepts(fn: seq<Entry> -> int, before: seq<Entry>, all: seq<Entry>, k: nat)
    requires k <= |all|
  {
    fn(before + all[..k]) == 0
  }

  lemma VisitedStop(fn: seq<Entry> -> int, before: seq<Entry>, a: seq<Entry>, b: seq<Entry>, count: nat,
                    after: seq<Entry>)
    requires Visited(fn, before, a, count, after) && count < |a|
    ensures Visited(fn, before, a + b, count, after)
  {
    forall k | 1 <= k <= |a| ensures Accepts(fn, before, a + b, k) <==> Accepts(fn, before, a, k) {
      assert (a + b)[..k] == a[..k];
    }
    assert (a + b)[..count + 1] == a[..count + 1];
  }

  lemma VisitedMore(fn: seq<Entry> -> int, before: seq<Entry>, a: seq<Entry>, mid: seq<Entry>, b: seq<Entry>,
                    count: nat, after: seq<Entry>)
    requires Visited(fn, before, a, |a|, mid) && Visited(fn, mid, b, count, after)
    ensures Visited(fn, before, a + b, |a| + count, after)
  {
    forall k | 1 <= k <= |a| ensures Accepts(fn, before, a + b, k) <==> Accepts(fn, before, a, k) {
      assert (a + b)[..k] == a[..k];
    }
    forall k | |a| < k <= |a| + |b| ensures Accepts(fn, before, a + b, k) <==> Accepts(fn, mid, b, k - |a|) {
      assert before + (a + b)[..k] == mid + b[..k - |a|];
    }
    if count < |b| {
      assert before + (a + b)[..|a| + count + 1] == mid + b[..count + 1];
    } else {
      assert before + (a + b) == mid + b;
    }
  }

  /** _count_items: leaf nodes count their slots, the others sum their children. */
  method CountItems(nodes: Nodes, n: nat, height: nat, ghost base: nat) returns (count: nat)
    requires height > 0
    ensures count == |Entries(nodes, n, height, base)|
    decreases height
  {
    hide At;
    count := 0;
    if n == 0 {
      return;
    }
    if height == 1 {
      for i := 0 to SLOTS
        invariant count == |EntriesUpTo(nodes, n, height, base, i)|
      {
        if Slot(nodes, n, i) != 0 {
          count := count + 1;
        }
      }
    } else {
      for i := 0 to SLOTS
        invariant count == |EntriesUpTo(nodes, n, height, base, i)|
      {
        if Slot(nodes, n, i) != 0 {
          var c := CountItems(nodes, Slot(nodes, n, i), height - 1, At(height, base, i));
          count := count + c;
        }
      }
    }
  }

  /** _for_each: visits in index order, stops at the first refusal even when it happened inside a subtree, and returns
      how many were accepted. The or-ed index bits of the source are disjoint, so the or is the sum used here. */
  method ForEach(nodes: Nodes, n: nat, height: nat, base: nat, fn: seq<Entry> -> int, calls: seq<Entry>)
    returns (count: nat, calls': seq<Entry>)
    requires height > 0
    ensures Visited(fn, calls, Entries(nodes, n, height, base), count, calls')
    decreases height
  {
    EntriesCases(nodes, n, height, base);
    hide At, Visited, Entries, EntriesUpTo, After;
    count, calls' := 0, calls;
    VisitedNone(fn, calls);
    if n == 0 {
      return;
    }
    for i := 0 to SLOTS
      invariant count == |EntriesUpTo(nodes, n, height, base, i)|
      invariant Visited(fn, calls, EntriesUpTo(nodes, n, height, base, i), count, calls')
    {
      var slot, at := Slot(nodes, n, i), At(height, base, i);
      ghost var done, here := EntriesUpTo(nodes, n, height, base, i), Entries(nodes, slot, height - 1, at);
      ghost var later := After(nodes, n, height, base, i + 1);
      AfterStep(nodes, n, height, base, i);
      OneMoreSlot(nodes, n, height, base, i);
      EntriesCases(nodes, slot, height - 1, at);
      assert slot == 0 ==> done + here == done;
      if slot != 0 {
        if height == 1 {
          VisitedOne(fn, calls', (at, slot));
          ghost var mid := calls';
          calls' := calls' + [(at, slot)];
          if fn(calls') == 0 {
            VisitedMore(fn, calls, done, mid, here, 1, calls');
            count := count + 1;
          } else {
            VisitedMore(fn, calls, done, mid, here, 0, calls');
            VisitedStop(fn, calls, done + here, later, count, calls');
            return;
          }
        } else {
          ghost var mid := calls';
          var ret;
          ret, calls' := ForEach(nodes, slot, height - 1, at, fn, calls');
          VisitedMore(fn, calls, done, mid, here, ret, calls');
          count := count + ret;
          var all := CountItems(nodes, slot, height - 1, at);
          if ret != all {
            VisitedBound(fn, mid, here, ret, calls');
            VisitedStop(fn, calls, done + here, later, count, calls');
            return;
          }
        }
      }
    }
  }

  lemma EntriesCases(nodes: Nodes, n: nat, level: nat, base: nat)
    ensures n == 0 ==> Entries(nodes, n, level, base) == []
    ensures n != 0 && level == 0 ==> Entries(nodes, n, level, base) == [(base, n)]
    ensures n != 0 && level > 0 ==> Entries(nodes, n, level, base) == EntriesUpTo(nodes, n, level, base, SLOTS)
    ensures level > 0 ==> EntriesUpTo(nodes, n, level, base, 0) == []
  {
  }

  /** The pairs of the slots from `k` on. */
  ghost function After(nodes: Nodes, n: nat, level: nat, base: nat, k: nat): seq<Entry>
    requires level > 0 && k <= SLOTS
    decreases SLOTS - k
  {
    if k == SLOTS then []
      else Entries(nodes, Slot(nodes, n, k), level - 1, At(level, base, k)) + After(nodes, n, level, base, k + 1)
  }

  lemma {:induction false} AfterAll(nodes: Nodes, n: nat, level: nat, base: nat, k: nat)
    requires level > 0 && k <= SLOTS
    ensures EntriesUpTo(nodes, n, level, base, k)
      + After(nodes, n, level, base, k) == EntriesUpTo(nodes, n, level, base, SLOTS)
    decreases SLOTS - k
  {
    hide At;
    if k < SLOTS {
      AfterAll(nodes, n, level, base, k + 1);
    }
  }

  lemma AfterStep(nodes: Nodes, n: nat, level: nat, base: nat, i: nat)
    requires level > 0 && i < SLOTS && n != 0
    ensures EntriesUpTo(nodes, n, level, base, i) + Entries(nodes, Slot(nodes, n, i), level - 1, At(level, base, i))
              + After(nodes, n, level, base, i + 1) == Entries(nodes, n, level, base)
  {
    AfterAll(nodes, n, level, base, i + 1);
  }

  lemma VisitedNone(fn: seq<Entry> -> int, calls: seq<Entry>)
    ensures Visited(fn, calls, [], 0, calls)
  {
  }

  lemma VisitedOne(fn: seq<Entry> -> int, calls: seq<Entry>, e: Entry)
    ensures Visited(fn, calls, [e], if fn(calls + [e]) == 0 then 1 else 0, calls + [e])
  {
    assert [e][..1] == [e];
  }

  lemma VisitedBound(fn: seq<Entry> -> int, calls: seq<Entry>, all: seq<Entry>, count: nat, calls': seq<Entry>)
    requires Visited(fn, calls, all, count, calls')
    ensures count <= |all|
  {
  }

  /** The whole tree: what is counted and visited is exactly the map. */
  lemma VisitIsMap(nodes: Nodes, root: nat, height: nat)
    requires 0 < height <= MAX_HEIGHT
    ensures var all, items := Entries(nodes, root, height, 0), Items(nodes, root, height);
            && Increasing(all) && |all| == |items|
            && (forall e: Entry :: e in all <==> e.0 in items && items[e.0] == e.1)
  {
    var all, items := Entries(nodes, root, height, 0), Items(nodes, root, height);
    assert 0 % Pow(height) == 0;
    EntriesList(nodes, root, height, 0);
    hide Pow, Find, Entries;
    assert forall e: Entry :: e in all <==> e.0 in items && items[e.0] == e.1;
    IncreasingCount(all);
    assert forall i :: i in items ==> (i, items[i]) in all;
    assert Indices(all) == items.Keys;
  }

  ghost function Indices(s: seq<Entry>): set<nat> { set e | e in s :: e.0 }

  lemma {:induction false} IncreasingCount(s: seq<Entry>)
    requires Increasing(s)
    ensures |Indices(s)| == |s|
    decreases |s|
  {
    if s != [] {
      var last, front := s[|s| - 1], s[..|s| - 1];
      IncreasingCount(front);
      assert s == front + [last];
      assert Indices(s) == Indices(front) + {last.0};
      assert last.0 !in Indices(front);
    }
  }
}
