/** The hash table that doubles in batches, moving every node by one bit of its hash. */
module HashTable {
  import opened HashNodes

  const ENOENT := 2
  const ENOMEM := 12
  const EEXIST := 17
  const MAX_SIZE := 0x8000_0000
  const BATCH := 16

  /** size * max_load / 100 in uint32 */
  function Threshold(size: nat, maxLoad: nat): nat { size * maxLoad % 0x1_0000_0000 / 100 }

  /** Below the threshold, and for a table at rest of at most sixteen buckets at any load, nothing moves for long. */
  ghost predicate Quiet(items: nat, size: nat, maxLoad: nat, inProgress: bool) {
    items < Threshold(size, maxLoad) || (!inProgress && size <= BATCH)
  }

  function Min(a: nat, b: nat): nat { if a < b then a else b }

  /** The nodes whose bucket is one of `lo` up to `hi`. */
  ghost function Between(ks: Keys, s: set<Node>, size: nat, lo: nat, hi: nat): set<Node>
    requires size > 0
  {
    set n | n in s && lo <= Slot(ks, n, size) < hi
  }

  /** The nodes as a map from their keys. */
  ghost function MapOf(ks: Keys, s: set<Node>): map<Key, Node>
    requires Apart(ks, s)
  {
    map n | n in s :: ks.of(n) := n
  }

  /** The new array holds `moved`, nodes of buckets before `at`; no node is in both arrays and no key twice in the new
      one. */
  ghost predicate Moving(ks: Keys, newBuckets: Buckets, size: nat, left: set<Node>, moved: set<Node>, at: nat) {
    && size > 0 && at <= size && Holds(ks, newBuckets, 2 * size, moved) && left !! moved && Apart(ks, moved)
    && forall n :: n in moved ==> Slot(ks, n, size) < at
  }

  /** One batch of a running expansion: the buckets from `from` on, at most sixteen, are moved. The last batch makes the
      new array the table, and exactly the nodes inserted behind the cursor stay in the old one and are lost. */
  ghost predicate Advanced(ks: Keys, size: nat, from: nat, left: set<Node>, moved: set<Node>, lost: nat,
                           size': nat, inProgress: bool, at: nat, left': set<Node>, moved': set<Node>, lost': nat) {
    size > 0 &&
    var to := Min(from + BATCH, size);
    var batch := Between(ks, left, size, from, to);
    if to < size then
      inProgress && at == to && size' == size && left' == left - batch && moved' == moved + batch && lost' == lost
    else
      !inProgress && size' == 2 * size && left' == moved + batch && moved' == {} && lost' == lost + |left - batch|
  }

  /** The nodes of buckets before `at` are moved, the others are not. */
  ghost predicate Divided(ks: Keys, all: set<Node>, size: nat, at: nat, left: set<Node>, moved: set<Node>) {
    size > 0 && moved == Between(ks, all, size, 0, at) && left == all - moved
  }

  class Table {
    const ks: Keys
    const maxLoad: nat
    var buckets: Buckets
    var items: nat
    var newBuckets: Buckets   // the next three are function statics in the source
    var transfer: nat
    var inProgress: bool
    ghost var left: set<Node>    // nodes in `buckets`
    ghost var moved: set<Node>   // nodes in `newBuckets`
    ghost var lost: nat          // nodes still counted in `items` that are in neither

    ghost predicate Valid()
      reads this
    {
      && IsPow2(|buckets|) && 0 < |buckets| <= MAX_SIZE && Holds(ks, buckets, |buckets|, left) && Apart(ks, left)
      && items == |left| + |moved| + lost
      && if inProgress then 2 * |buckets| <= MAX_SIZE
        && Moving(ks, newBuckets, |buckets|, left, moved, transfer) else moved == {}
    }

    /** What a lookup can see. */
    ghost function Contents(): map<Key, Node>
      requires Valid()
      reads this
    {
      MapOf(ks, left)
    }

    constructor (ks: Keys, size: nat, maxLoad: nat)
      requires IsPow2(size) && 16 <= size <= MAX_SIZE && 50 <= maxLoad <= 90
      ensures Valid() && left == {} && moved == {} && lost == 0 && items == 0 && !inProgress && |buckets| == size
        && this.ks == ks && this.maxLoad == maxLoad
    {
      this.ks, this.maxLoad := ks, maxLoad;
      buckets, items := seq(size, _ => []), 0;
      newBuckets, transfer, inProgress := [], 0, false;
      left, moved, lost := {}, {}, 0;
      EmptyHolds(ks, size);
    }

    /** One node: from the front of its bucket to the front of the bucket its full hash gives in the new array. */
    method MoveNode(i: nat) returns (n: Node)
      requires i < |buckets| && buckets[i] != [] && IsPow2(|buckets|) && left !! moved
      requires Holds(ks, buckets, |buckets|, left) && Holds(ks, newBuckets, 2 * |buckets|, moved)
      modifies this`buckets, this`newBuckets, this`left, this`moved
      ensures |buckets| == |old(buckets)| && Holds(ks, buckets, |buckets|, left)
        && Holds(ks, newBuckets, 2 * |buckets|, moved)
      ensures n in old(left) && Slot(ks, n, |buckets|) == i && left == old(left) - {n} && moved == old(moved) + {n}
    {
      hide Slot, And, Holds;
      var size := |buckets|;
      n := buckets[i][0];
      var hash := ks.hash(ks.of(n));
      TakeOut(ks, buckets, size, left, i, 0);
      NewSlot(ks, n, size);
      var at := if And(hash, size) != 0 then i + size else i;
      PutIn(ks, newBuckets, 2 * size, moved, n, at);
      NewLength(ks, newBuckets, 2 * size, moved);
      assert buckets[i][1..] == buckets[i][..0] + buckets[i][1..];
      buckets := buckets[i := buckets[i][1..]];
      newBuckets := newBuckets[at := [n] + newBuckets[at]];
      left, moved := left - {n}, moved + {n};
    }

    /** One bucket of a batch. */
    method MoveBucket(i: nat)
      requires i < |buckets| && IsPow2(|buckets|) && Holds(ks, buckets, |buckets|, left) && Apart(ks, left)
      requires Moving(ks, newBuckets, |buckets|, left, moved, i)
      modifies this`buckets, this`newBuckets, this`left, this`moved
      ensures |buckets| == |old(buckets)| && Holds(ks, buckets, |buckets|, left) && Apart(ks, left)
        && Moving(ks, newBuckets, |buckets|, left, moved, i + 1)
      ensures Swept(ks, old(left), old(moved), left, moved, |buckets|, i, i + 1)
    {
      MovingParts(ks, newBuckets, |buckets|, left, moved, i);
      hide Slot, Holds, IsPow2, Apart, Between, Moving, Carried;
      ghost var size, left0, moved0, new0 := |buckets|, left, moved, newBuckets;
      ghost var gone: set<Node> := {};
      CarriedNone(ks, left, moved, size, i);
      while buckets[i] != []
        invariant |buckets| == size && Holds(ks, buckets, size, left) && Holds(ks, newBuckets, 2 * size, moved)
        invariant left !! moved && Carried(ks, left0, moved0, left, moved, gone, size, i)
        decreases |left|
      {
        ghost var left1, moved1 := left, moved;
        var n := MoveNode(i);
        CarriedOne(ks, left0, moved0, left1, moved1, gone, size, i, n);
        gone := gone + {n};
      }
      EmptyBucket(ks, buckets, size, left, i);
      CarriedAll(ks, left0, moved0, left, moved, gone, size, i);
      MovingNext(ks, new0, newBuckets, size, left0, moved0, i);
      SubsetApart(ks, left0, left);
    }

    /** The loop over a batch of buckets. */
    method MoveBatch(from: nat, to: nat)
      requires from <= to <= |buckets| && IsPow2(|buckets|) && Holds(ks, buckets, |buckets|, left) && Apart(ks, left)
      requires Moving(ks, newBuckets, |buckets|, left, moved, from)
      modifies this`buckets, this`newBuckets, this`left, this`moved
      ensures |buckets| == |old(buckets)| && Holds(ks, buckets, |buckets|, left) && Apart(ks, left)
        && Moving(ks, newBuckets, |buckets|, left, moved, to)
      ensures Swept(ks, old(left), old(moved), left, moved, |buckets|, from, to)
    {
      hide Slot, Holds, IsPow2, Apart, Between, Moving, Swept;
      MovingParts(ks, newBuckets, |buckets|, left, moved, from);
      ghost var size, left0, moved0 := |buckets|, left, moved;
      SweptNone(ks, left0, moved0, size, from);
      for i := from to to
        invariant |buckets| == size && Holds(ks, buckets, size, left) && Apart(ks, left)
        invariant Moving(ks, newBuckets, size, left, moved, i) && Swept(ks, left0, moved0, left, moved, size, from, i)
      {
        ghost var left1, moved1 := left, moved;
        MoveBucket(i);
        SweptTrans(ks, left0, moved0, left1, moved1, left, moved, size, from, i);
      }
    }

    /** hashtable_try_expand. Below the threshold, or without memory for the new array, nothing changes. Otherwise one
        batch of buckets is moved; the last batch makes the new array the table, and exactly the nodes that were
        inserted behind the cursor are left in the old array and lost. */
    method TryExpand(memory: bool) returns (ret: int)
      requires Valid()
      modifies this`buckets, this`newBuckets, this`transfer, this`inProgress, this`left, this`moved, this`lost
      ensures Valid() && items == old(items)
      ensures ret == 0 || ret == -ENOMEM
      ensures ret == -ENOMEM <==>
        items >= Threshold(|old(buckets)|, maxLoad) && !old(inProgress) && !(memory && 2 * |old(buckets)| <= MAX_SIZE)
      ensures items < Threshold(|old(buckets)|, maxLoad) || ret != 0 ==>
        && buckets == old(buckets) && newBuckets == old(newBuckets) && transfer == old(transfer)
          && inProgress == old(inProgress)
        && left == old(left) && moved == old(moved) && lost == old(lost)
      ensures ret != 0 ==> !inProgress
      ensures items >= Threshold(|old(buckets)|, maxLoad) && ret == 0 ==>
        Advanced(ks, |old(buckets)|, if old(inProgress) then old(transfer) else 0, old(left), old(moved), old(lost),
                 |buckets|, inProgress, transfer, left, moved, lost)
    {
      hide Threshold, Valid, Advanced;
      if items < Threshold(|buckets|, maxLoad) {
        return 0;
      }
      if !inProgress {
        var ok := BeginExpansion(memory);
        if !ok {
          return -ENOMEM;
        }
      }
      RunBatch();
      return 0;
    }

    /** A new array of twice the size, if there is memory for it. */
    method BeginExpansion(memory: bool) returns (ok: bool)
      requires Valid() && !inProgress
      modifies this`newBuckets, this`transfer, this`inProgress
      ensures Valid()
      ensures ok <==> memory && 2 * |buckets| <= MAX_SIZE
      ensures ok ==> inProgress && transfer == 0 && moved == {}
      ensures !ok ==> !inProgress && newBuckets == old(newBuckets) && transfer == old(transfer)
    {
      hide Holds, IsPow2, Apart;
      if 2 * |buckets| > MAX_SIZE || !memory {
        return false;   // an array of 2^32 buckets never fits
      }
      EmptyHolds(ks, 2 * |buckets|);
      NoneApart(ks);
      newBuckets := seq(2 * |buckets|, _ => []);
      transfer := 0;
      inProgress := true;
      return true;
    }

    /** One batch of a running expansion, and the exchange of the arrays after the last. */
    method RunBatch()
      requires Valid() && inProgress
      modifies this`buckets, this`newBuckets, this`transfer, this`inProgress, this`left, this`moved, this`lost
      ensures Valid()
      ensures Advanced(ks, |old(buckets)|, old(transfer), old(left), old(moved), old(lost), |buckets|, inProgress,
        transfer, left, moved, lost)
    {
      SizePositive();
      hide Valid, Between, Swept;
      SweepBatch();
      SweptMeans(ks, old(left), old(moved), left, moved, |buckets|, old(transfer), transfer);
      if transfer >= |buckets| {
        Exchange();
      }
    }

    /** The buckets of one batch are moved and the cursor with them. */
    method SweepBatch()
      requires Valid() && inProgress
      modifies this`buckets, this`newBuckets, this`transfer, this`left, this`moved
      ensures Valid() && |buckets| == |old(buckets)| && transfer == Min(old(transfer) + BATCH, |buckets|)
      ensures Swept(ks, old(left), old(moved), left, moved, |buckets|, old(transfer), transfer)
    {
      hide Valid, Slot, Holds, IsPow2, Apart, Between, Moving, Swept;
      Parts();
      var to := Min(transfer + BATCH, |buckets|);
      MoveBatch(transfer, to);
      transfer := to;
      SweptValid(old(left), old(moved), old(transfer));
    }

    lemma Parts()
      requires Valid() && inProgress
      ensures IsPow2(|buckets|) && |buckets| > 0 && Holds(ks, buckets, |buckets|, left) && Apart(ks, left)
      ensures 2 * |buckets| <= MAX_SIZE && transfer <= |buckets|
        && Moving(ks, newBuckets, |buckets|, left, moved, transfer)
      ensures items == |left| + |moved| + lost && left !! moved
    {
      hide Slot, Holds, IsPow2, Apart;
    }

    lemma SweptValid(left0: set<Node>, moved0: set<Node>, from: nat)
      requires IsPow2(|buckets|) && |buckets| > 0 && Holds(ks, buckets, |buckets|, left) && Apart(ks, left)
      requires inProgress && 2 * |buckets| <= MAX_SIZE && Moving(ks, newBuckets, |buckets|, left, moved, transfer)
      requires items == |left0| + |moved0| + lost && left0 !! moved0
      requires Swept(ks, left0, moved0, left, moved, |buckets|, from, transfer)
      ensures Valid()
    {
      hide Slot, Holds, IsPow2, Apart, Between, Moving, Swept;
      SweptSum(ks, left0, moved0, left, moved, |buckets|, from, transfer);
    }

    /** The new array becomes the table. */
    method Exchange()
      requires Valid() && inProgress
      modifies this`buckets, this`newBuckets, this`transfer, this`inProgress, this`left, this`moved, this`lost
      ensures Valid() && !inProgress && |buckets| == 2 * |old(buckets)|
      ensures left == old(moved) && moved == {} && lost == old(lost) + |old(left)|
    {
      MovingParts(ks, newBuckets, |buckets|, left, moved, transfer);
      hide Slot, Holds, IsPow2, Apart, Between, Moving;
      NewLength(ks, newBuckets, 2 * |buckets|, moved);
      TwicePow2(|buckets|);
      buckets := newBuckets;
      newBuckets, transfer, inProgress := [], 0, false;
      lost := lost + |left|;
      left, moved := moved, {};
    }

    /** A migration run to its end with no insert in between: the array is doubled and every node is where it was found
        before. */
    method Migrate(memory: bool) returns (ret: int)
      requires Valid() && !inProgress && items >= Threshold(|buckets|, maxLoad)
      modifies this`buckets, this`newBuckets, this`transfer, this`inProgress, this`left, this`moved, this`lost
      ensures Valid() && items == old(items) && !inProgress && left == old(left) && lost == old(lost)
      ensures ret == 0 <==> memory && 2 * |old(buckets)| <= MAX_SIZE
      ensures ret == 0 ==> |buckets| == 2 * |old(buckets)|
      ensures ret != 0 ==> ret == -ENOMEM && buckets == old(buckets)
      ensures Contents() == old(Contents())
    {
      var size := |buckets|;
      SizePositive();
      NodesApart();
      NothingMoved();
      hide Threshold, Valid, MapOf, Reached;
      ret := Batches(size, memory);
      if ret == 0 {
        AllReached(ks, size, old(left), |buckets|, inProgress, transfer, left, moved, lost, old(lost));
      }
      NodesApart();
    }

    /** The first `steps` batches of an expansion with no insert in between, at most to its end. */
    method Batches(steps: nat, memory: bool) returns (ret: int)
      requires Valid() && !inProgress && items >= Threshold(|buckets|, maxLoad) && steps > 0
      modifies this`buckets, this`newBuckets, this`transfer, this`inProgress, this`left, this`moved, this`lost
      ensures Valid() && items == old(items)
      ensures ret == 0 <==> memory && 2 * |old(buckets)| <= MAX_SIZE
      ensures ret == 0 ==>
        Reached(ks, |old(buckets)|, old(left), steps, |buckets|, inProgress, transfer, left, moved, lost, old(lost))
      ensures ret != 0 ==>
        ret == -ENOMEM && buckets == old(buckets) && left == old(left) && !inProgress && lost == old(lost)
    {
      ghost var size := |buckets|;
      SizePositive();
      NothingMoved();
      hide Threshold, Valid, Advanced, Reached;
      ret := TryExpand(memory);
      if ret != 0 {
        return;
      }
      FirstReached(ks, size, old(left), |buckets|, inProgress, transfer, left, moved, lost, old(lost));
      var i := 1;
      while inProgress && i < steps
        invariant Valid() && items == old(items) && items >= Threshold(size, maxLoad) && 1 <= i <= steps
        invariant inProgress ==> |buckets| == size
        invariant Reached(ks, size, old(left), i, |buckets|, inProgress, transfer, left, moved, lost, old(lost))
      {
        ghost var at, left1, moved1, lost1 := transfer, left, moved, lost;
        var _ := TryExpand(memory);
        NextReached(ks, size, old(left), i, at, left1, moved1, lost1, |buckets|, inProgress, transfer, left, moved,
          lost, old(lost));
        i := i + 1;
      }
      LaterReached(ks, size, old(left), i, steps, |buckets|, inProgress, transfer, left, moved, lost, old(lost));
    }

    /** hashtable_lookup */
    method Lookup(key: Key) returns (found: bool, n: Node)
      requires Valid()
      ensures found <==> key in Contents()
      ensures found ==> n == Contents()[key]
    {
      hide And, IsPow2;
      var idx := Index(key);
      var k := Scan(idx, key);
      return k < |buckets[idx]|, if k < |buckets[idx]| then buckets[idx][k] else 0;
    }

    /** A lookup after the first `steps` batches of an expansion, at most to its end: a key that was there is found if
        and only if the expansion has ended or has not come to the key's bucket yet. */
    method LookupDuring(key: Key, steps: nat, memory: bool) returns (ret: int, found: bool)
      requires Valid() && !inProgress && items >= Threshold(|buckets|, maxLoad) && steps > 0
      modifies this`buckets, this`newBuckets, this`transfer, this`inProgress, this`left, this`moved, this`lost
      ensures Valid() && items == old(items) && |old(buckets)| > 0
      ensures ret == 0 <==> memory && 2 * |old(buckets)| <= MAX_SIZE
      ensures ret == 0 ==> (found <==> key in old(Contents()) && InReach(ks, key, |old(buckets)|, BATCH * steps))
      ensures ret != 0 ==> ret == -ENOMEM && (found <==> key in old(Contents()))
    {
      ghost var size := |buckets|;
      SizePositive();
      NodesApart();
      hide Threshold, Valid, MapOf, Reached, InReach, Apart;
      ret := Batches(steps, memory);
      NodesApart();
      if ret == 0 {
        StillFound(ks, old(left), size, steps, |buckets|, inProgress, transfer, left, moved, lost, old(lost), key);
      }
      var n;
      found, n := Lookup(key);
    }

    /** hash & (size - 1) */
    method Index(key: Key) returns (idx: nat)
      requires IsPow2(|buckets|)
      ensures idx < |buckets| && idx == ks.hash(key) % |buckets|
    {
      MaskIsRemainder(ks.hash(key), |buckets|);
      idx := And(ks.hash(key), |buckets| - 1);
    }

    /** The walk along one bucket, up to the node with the key or to the end. */
    method Scan(idx: nat, key: Key) returns (k: nat)
      requires Valid() && idx < |buckets| && idx == ks.hash(key) % |buckets|
      ensures k <= |buckets[idx]|
      ensures k < |buckets[idx]| <==> key in Contents()
      ensures k < |buckets[idx]| ==>
        buckets[idx][k] == Contents()[key] && ks.of(buckets[idx][k]) == key && buckets[idx][k] in left
    {
      hide IsPow2, Slot;
      k := 0;
      while k < |buckets[idx]| && ks.of(buckets[idx][k]) != key
        invariant k <= |buckets[idx]| && forall j :: 0 <= j < k ==> ks.of(buckets[idx][j]) != key
      {
        k := k + 1;
      }
      ScanMeans(ks, buckets, |buckets|, left, key, k);
    }

    /** hashtable_remove_by_key */
    method RemoveByKey(key: Key) returns (ret: int)
      requires Valid()
      modifies this`buckets, this`items, this`left
      ensures Valid()
      ensures ret == 0 <==> key in old(Contents())
      ensures ret == 0 ==> Contents() == old(Contents()) - {key} && items == old(items) - 1
      ensures ret != 0 ==> ret == -ENOENT && buckets == old(buckets) && items == old(items) && left == old(left)
    {
      hide And, IsPow2, Holds, Slot, Moving, Apart, MapOf;
      var idx := Index(key);
      var k := Scan(idx, key);
      if k == |buckets[idx]| {
        return -ENOENT;
      }
      ghost var n := buckets[idx][k];
      TakeOut(ks, buckets, |buckets|, left, idx, k);
      MapLess(ks, left, n);
      if inProgress {
        MovingOther(ks, newBuckets, |buckets|, left, moved, transfer, left - {n});
      }
      buckets := buckets[idx := buckets[idx][..k] + buckets[idx][k + 1..]];
      items := items - 1;
      left := left - {n};
      return 0;
    }

    /** The part of hashtable_insert after the expansion step. */
    method Link(n: Node) returns (ret: int)
      requires Valid() && n !in moved
      modifies this`buckets, this`items, this`left
      ensures Valid()
      ensures ret == -EEXIST <==> ks.of(n) in old(Contents())
      ensures ret != 0 ==> ret == -EEXIST && buckets == old(buckets) && items == old(items) && left == old(left)
      ensures ret == 0 ==>
        left == old(left) + {n} && items == old(items) + 1 && Contents() == old(Contents())[ks.of(n) := n]
        && |buckets| == |old(buckets)|
    {
      hide And, IsPow2, Holds, Slot, Moving, Apart, MapOf;
      var key := ks.of(n);
      var idx := Index(key);
      var k := Scan(idx, key);
      if k < |buckets[idx]| {
        return -EEXIST;
      }
      MapMore(ks, left, n);
      assert idx == Slot(ks, n, |buckets|) by { SlotIs(ks, n, |buckets|); }
      PutIn(ks, buckets, |buckets|, left, n, idx);
      if inProgress {
        MovingOther(ks, newBuckets, |buckets|, left, moved, transfer, left + {n});
      }
      buckets := buckets[idx := [n] + buckets[idx]];
      items := items + 1;
      left := left + {n};
      return 0;
    }

    /** hashtable_insert of a node that is not linked yet: one expansion step if the table is loaded, then the link into
        the table's array. Below the threshold it is an insertion into a finite map. */
    method Insert(n: Node, memory: bool) returns (ret: int)
      requires Valid() && n !in left && n !in moved
      modifies this
      ensures Valid() && ret in {0, -EEXIST, -ENOMEM}
      ensures ret == -ENOMEM <==>
        old(items) >= Threshold(|old(buckets)|, maxLoad) && !old(inProgress)
          && !(memory && 2 * |old(buckets)| <= MAX_SIZE)
      ensures ret == -ENOMEM ==>
        left == old(left) && moved == old(moved) && items == old(items) && buckets == old(buckets)
      ensures ret != -ENOMEM ==>
        var before := if ret == 0 then left - {n} else left;
        && (ret == -EEXIST <==> exists x :: x in before && ks.of(x) == ks.of(n))
        && (ret == 0 ==> n in left) && items == old(items) + (if ret == 0 then 1 else 0)
        && if old(items) >= Threshold(|old(buckets)|, maxLoad) then
             Advanced(ks, |old(buckets)|, if old(inProgress) then old(transfer) else 0, old(left), old(moved),
                      old(lost), |buckets|, inProgress, transfer, before, moved, lost)
           else
             && before == old(left) && moved == old(moved) && lost == old(lost)
             && inProgress == old(inProgress) && transfer == old(transfer) && |buckets| == |old(buckets)|
      ensures Quiet(old(items), |old(buckets)|, maxLoad, old(inProgress)) ==>
        && moved == old(moved) && lost == old(lost) && inProgress == old(inProgress)
        && (ret == 0 ==> ks.of(n) !in old(Contents()) && Contents() == old(Contents())[ks.of(n) := n])
        && (ret == -EEXIST ==> ks.of(n) in old(Contents()) && Contents() == old(Contents()))
      ensures !old(inProgress) && old(items) >= Threshold(|old(buckets)|, maxLoad) && ret != -ENOMEM ==>
        && |old(buckets)| > 0
        && (ret == -EEXIST <==> ks.of(n) in old(Contents()) && InReach(ks, ks.of(n), |old(buckets)|, BATCH))
    {
      hide Threshold, Valid, MapOf, Advanced, InReach;
      SizePositive();
      ret := MakeRoom(memory, ks.of(n));
      if ret < 0 {
        return;
      }
      ghost var before := left;
      KeyThere(ks.of(n));
      ret := Link(n);
      assert before + {n} - {n} == before;
    }

    /** The expansion step before an insert of `key`. */
    method MakeRoom(memory: bool, ghost key: Key) returns (ret: int)
      requires Valid() && |buckets| > 0
      modifies this`buckets, this`newBuckets, this`transfer, this`inProgress, this`left, this`moved, this`lost
      ensures Valid() && items == old(items) && (ret == 0 || ret == -ENOMEM)
      ensures ret == -ENOMEM <==>
        items >= Threshold(|old(buckets)|, maxLoad) && !old(inProgress) && !(memory && 2 * |old(buckets)| <= MAX_SIZE)
      ensures items < Threshold(|old(buckets)|, maxLoad) || ret != 0 ==>
        && left == old(left) && moved == old(moved) && lost == old(lost) && buckets == old(buckets)
        && inProgress == old(inProgress) && transfer == old(transfer)
      ensures ret == 0 && items >= Threshold(|old(buckets)|, maxLoad) ==>
        Advanced(ks, |old(buckets)|, if old(inProgress) then old(transfer) else 0, old(left), old(moved), old(lost),
                 |buckets|, inProgress, transfer, left, moved, lost)
      ensures left <= old(left) + old(moved) && moved <= old(left) + old(moved)
      ensures Quiet(items, |old(buckets)|, maxLoad, old(inProgress)) ==>
        left == old(left) && moved == old(moved) && lost == old(lost) && inProgress == old(inProgress)
      ensures ret == 0 && items >= Threshold(|old(buckets)|, maxLoad) && !old(inProgress) ==>
        (key in Contents() <==> key in old(Contents()) && InReach(ks, key, |old(buckets)|, BATCH))
    {
      NodesApart();
      NothingMoved();
      hide Threshold, Valid, MapOf, Advanced, Apart, InReach;
      if items < Threshold(|buckets|, maxLoad) {
        return 0;
      }
      ghost var at := if inProgress then transfer else 0;
      ret := TryExpand(memory);
      if ret == 0 {
        AdvancedNodes(ks, |old(buckets)|, at, old(left), old(moved), old(lost),
          |buckets|, inProgress, transfer, left, moved, lost);
        if !old(inProgress) {
          FirstBatch(ks, |old(buckets)|, old(left), old(lost), |buckets|, inProgress, transfer, left, moved, lost, key);
        }
      }
    }

    lemma KeyThere(key: Key)
      requires Valid()
      ensures key in Contents() <==> exists x :: x in left && ks.of(x) == key
    {
      hide IsPow2, Holds, Moving;
    }

    /** Batches to the end of a running expansion, with no insert in between: the nodes from the cursor on join those
        moved before, and exactly the nodes in buckets the cursor had passed are lost. */
    method Finish(memory: bool)
      requires Valid() && inProgress && items >= Threshold(|buckets|, maxLoad)
      modifies this`buckets, this`newBuckets, this`transfer, this`inProgress, this`left, this`moved, this`lost
      ensures Valid() && !inProgress && items == old(items) && |buckets| == 2 * |old(buckets)| && |old(buckets)| > 0
      ensures left == old(moved) + Between(ks, old(left), |old(buckets)|, old(transfer), |old(buckets)|)
      ensures lost == old(lost) + |Between(ks, old(left), |old(buckets)|, 0, old(transfer))|
    {
      ghost var size := |buckets|;
      SizePositive();
      hide Threshold, Valid, Advanced, Between, Swept;
      SweptNone(ks, left, moved, size, transfer);
      while inProgress
        invariant Valid() && items == old(items)
        invariant inProgress ==>
          && old(transfer) <= transfer <= size && |buckets| == size && lost == old(lost)
          && Swept(ks, old(left), old(moved), left, moved, size, old(transfer), transfer)
        invariant !inProgress ==>
          |buckets| == 2 * size && left == old(moved) + Between(ks, old(left), size, old(transfer), size)
        invariant !inProgress ==> lost == old(lost) + |Between(ks, old(left), size, 0, old(transfer))|
        decreases if inProgress then size - transfer + 1 else 0
      {
        ghost var at, left1, moved1 := transfer, left, moved;
        var _ := TryExpand(memory);
        FinishStep(ks, old(left), old(moved), size, old(transfer), at, left1, moved1, old(lost), |buckets|, inProgress,
          transfer, left, moved, lost);
      }
    }

    lemma SizePositive()
      requires Valid()
      ensures |buckets| > 0 && (inProgress ==> transfer <= |buckets|)
    {
    }

    /** An insert into a loaded table and the batches to the end: the node is in the table that results if and only if
        the step of the expansion before the link finished it, or stopped short of the node's bucket. */
    method InsertThenFinish(n: Node, memory: bool) returns (ret: int)
      requires Valid() && n !in left && n !in moved && items >= Threshold(|buckets|, maxLoad)
      modifies this
      ensures Valid() && ret in {0, -EEXIST, -ENOMEM} && |old(buckets)| > 0
      ensures ret == -ENOMEM <==> !old(inProgress) && !(memory && 2 * |old(buckets)| <= MAX_SIZE)
      ensures ret == -EEXIST ==> exists x :: x in old(left) + old(moved) && ks.of(x) == ks.of(n)
      ensures ret != -ENOMEM ==> !inProgress && |buckets| == 2 * |old(buckets)|
      ensures ret == 0 ==>
        var to := Min((if old(inProgress) then old(transfer) else 0) + BATCH, |old(buckets)|);
        n in left <==> to == |old(buckets)| || Slot(ks, n, |old(buckets)|) >= to
    {
      SizePositive();
      hide Threshold, Valid, Slot, Between;
      ghost var at0, size0 := if inProgress then transfer else 0, |buckets|;
      ret := Insert(n, memory);
      if ret == -EEXIST {
        AdvancedNodes(ks, size0, at0, old(left), old(moved), old(lost), |buckets|, inProgress, transfer, left, moved,
          lost);
      }
      if ret != -ENOMEM && inProgress {
        ghost var size, linked, at := |buckets|, left, transfer;
        SizePositive();
        Finish(memory);
        InBetween(ks, linked, size, at, n);
      }
    }

    lemma NodesApart()
      requires Valid()
      ensures Apart(ks, left) && Contents() == MapOf(ks, left)
    {
    }

    lemma NothingMoved()
      requires Valid()
      ensures !inProgress ==> moved == {}
    {
    }
  }

  /** `gone`, nodes of bucket `i`, went from one array to the other. */
  ghost predicate Carried(ks: Keys, left0: set<Node>, moved0: set<Node>, left: set<Node>, moved: set<Node>,
                          gone: set<Node>, size: nat, i: nat) {
    && size > 0 && gone <= left0 && left == left0 - gone && moved == moved0 + gone
    && forall n :: n in gone ==> Slot(ks, n, size) == i
  }

  lemma CarriedNone(ks: Keys, left: set<Node>, moved: set<Node>, size: nat, i: nat)
    requires size > 0
    ensures Carried(ks, left, moved, left, moved, {}, size, i)
  {
  }

  lemma CarriedOne(ks: Keys, left0: set<Node>, moved0: set<Node>, left: set<Node>, moved: set<Node>, gone: set<Node>,
                   size: nat, i: nat, n: Node)
    requires Carried(ks, left0, moved0, left, moved, gone, size, i) && n in left && Slot(ks, n, size) == i
    ensures Carried(ks, left0, moved0, left - {n}, moved + {n}, gone + {n}, size, i)
  {
    hide Slot;
  }

  lemma CarriedAll(ks: Keys, left0: set<Node>, moved0: set<Node>, left: set<Node>, moved: set<Node>, gone: set<Node>,
                   size: nat, i: nat)
    requires Carried(ks, left0, moved0, left, moved, gone, size, i) && forall n :: n in left ==> Slot(ks, n, size) != i
    ensures gone == Between(ks, left0, size, i, i + 1) && left == left0 - gone && moved == moved0 + gone
      && left <= left0
  {
    hide Slot;
  }

  lemma SubsetApart(ks: Keys, s: set<Node>, t: set<Node>)
    requires Apart(ks, s) && t <= s
    ensures Apart(ks, t)
  {
  }

  lemma NewLength(ks: Keys, bs: Buckets, size: nat, s: set<Node>)
    requires Holds(ks, bs, size, s)
    ensures |bs| == size
  {
  }

  /** The index in the doubled array, from the size bit of the hash. */
  lemma NewSlot(ks: Keys, n: Node, size: nat)
    requires IsPow2(size)
    ensures var i := Slot(ks, n, size);
      Slot(ks, n, 2 * size) == if And(ks.hash(ks.of(n)), size) != 0 then i + size else i
  {
    var h := ks.hash(ks.of(n));
    MaskIsRemainder(h, size);
    DoubledSlot(h, size);
  }

  lemma EmptyBucket(ks: Keys, bs: Buckets, size: nat, s: set<Node>, i: nat)
    requires Holds(ks, bs, size, s) && i < size && bs[i] == []
    ensures forall n :: n in s ==> Slot(ks, n, size) != i
  {
    assert BucketOk(ks, bs[i], size, i, s);
  }

  lemma MovingParts(ks: Keys, newBuckets: Buckets, size: nat, left: set<Node>, moved: set<Node>, at: nat)
    requires Moving(ks, newBuckets, size, left, moved, at)
    ensures Holds(ks, newBuckets, 2 * size, moved) && left !! moved && size > 0 && at <= size && Apart(ks, moved)
  {
  }

  lemma MovingOther(ks: Keys, newBuckets: Buckets, size: nat, left: set<Node>, moved: set<Node>, at: nat,
                    left': set<Node>)
    requires Moving(ks, newBuckets, size, left, moved, at) && (left' - left) !! moved
    ensures Moving(ks, newBuckets, size, left', moved, at)
  {
  }

  /** Nodes of different buckets have different keys, so a whole bucket can be added. */
  lemma MovingNext(ks: Keys, bs: Buckets, bs': Buckets, size: nat, left: set<Node>, moved: set<Node>, i: nat)
    requires Moving(ks, bs, size, left, moved, i) && i < size && Apart(ks, left)
    requires Holds(ks, bs', 2 * size, moved + Between(ks, left, size, i, i + 1))
    ensures var b := Between(ks, left, size, i, i + 1); Moving(ks, bs', size, left - b, moved + b, i + 1)
  {
    hide Holds;
  }

  /** The buckets from `from` up to `i` were moved. */
  ghost predicate Swept(ks: Keys, left0: set<Node>, moved0: set<Node>, left: set<Node>, moved: set<Node>, size: nat,
                        from: nat, i: nat) {
    size > 0 && left == left0 - Between(ks, left0, size, from, i) && moved == moved0 + Between(ks, left0, size, from, i)
  }

  lemma SweptNone(ks: Keys, left: set<Node>, moved: set<Node>, size: nat, from: nat)
    requires size > 0
    ensures Swept(ks, left, moved, left, moved, size, from, from)
  {
  }

  lemma SweptTrans(ks: Keys, left0: set<Node>, moved0: set<Node>, left: set<Node>, moved: set<Node>, left': set<Node>,
                   moved': set<Node>, size: nat, from: nat, i: nat)
    requires Swept(ks, left0, moved0, left, moved, size, from, i)
      && Swept(ks, left, moved, left', moved', size, i, i + 1) && from <= i
    ensures Swept(ks, left0, moved0, left', moved', size, from, i + 1)
  {
    hide Slot;
  }

  lemma SweptSum(ks: Keys, left0: set<Node>, moved0: set<Node>, left: set<Node>, moved: set<Node>, size: nat, from: nat,
                 to: nat)
    requires Swept(ks, left0, moved0, left, moved, size, from, to) && left0 !! moved0
    ensures |left| + |moved| == |left0| + |moved0|
  {
    hide Slot;
    var batch := Between(ks, left0, size, from, to);
    assert |left0| == |left| + |batch| by { assert left0 == left + batch; }
    assert |moved| == |moved0| + |batch| by { assert moved0 !! batch; }
  }

  lemma SweptMeans(ks: Keys, left0: set<Node>, moved0: set<Node>, left: set<Node>, moved: set<Node>, size: nat,
                   from: nat, to: nat)
    requires Swept(ks, left0, moved0, left, moved, size, from, to)
    ensures size > 0
    ensures left == left0 - Between(ks, left0, size, from, to) && moved == moved0 + Between(ks, left0, size, from, to)
  {
  }

  lemma NoneApart(ks: Keys)
    ensures Apart(ks, {})
  {
  }

  lemma TwicePow2(n: nat)
    requires IsPow2(n)
    ensures IsPow2(2 * n)
  {
  }

  lemma DividedNone(ks: Keys, all: set<Node>, size: nat)
    requires size > 0
    ensures Divided(ks, all, size, 0, all, {})
  {
  }

  /** A batch of a migration that nothing interrupted moves exactly the next nodes; the last one leaves none behind. */
  lemma DividedStep(ks: Keys, all: set<Node>, size: nat, from: nat, left: set<Node>, moved: set<Node>, lost: nat,
                    size': nat, inProgress: bool, at: nat, left': set<Node>, moved': set<Node>, lost': nat)
    requires Divided(ks, all, size, from, left, moved) && from <= size
    requires Advanced(ks, size, from, left, moved, lost, size', inProgress, at, left', moved', lost')
    ensures lost' == lost
    ensures inProgress ==> at == from + BATCH < size && size' == size && Divided(ks, all, size, at, left', moved')
    ensures !inProgress ==> from + BATCH >= size && size' == 2 * size && left' == all
  {
    hide Slot;
    forall n | n in all ensures Slot(ks, n, size) < size {
      SlotRange(ks, n, size);
    }
    var to := Min(from + BATCH, size);
    var batch := Between(ks, left, size, from, to);
    assert moved + batch == Between(ks, all, size, 0, to);
    if to == size {
      assert Between(ks, all, size, 0, size) == all;
      assert left - batch == {};
    }
  }

  /** The buckets before `to` have been moved: either that is all of them, or the key belongs to a later one. */
  predicate InReach(ks: Keys, key: Key, size: nat, to: nat)
    requires size > 0
  {
    to >= size || ks.hash(key) % size >= to
  }

  /** `steps` batches after the start: the nodes of the buckets passed are moved, or the expansion has ended. */
  ghost predicate Reached(ks: Keys, size: nat, all: set<Node>, steps: nat, size': nat, inProgress: bool, at: nat,
                          left: set<Node>, moved: set<Node>, lost: nat, lost0: nat) {
    && size > 0 && lost == lost0
    && if inProgress then size' == size && at == BATCH * steps < size && Divided(ks, all, size, at, left, moved)
       else size' == 2 * size && left == all && BATCH * steps >= size
  }

  lemma FirstReached(ks: Keys, size: nat, all: set<Node>, size': nat, inProgress: bool, at: nat, left: set<Node>,
                     moved: set<Node>, lost: nat, lost0: nat)
    requires Advanced(ks, size, 0, all, {}, lost0, size', inProgress, at, left, moved, lost)
    ensures Reached(ks, size, all, 1, size', inProgress, at, left, moved, lost, lost0)
    ensures inProgress ==> size' == size
  {
    DividedNone(ks, all, size);
    DividedStep(ks, all, size, 0, all, {}, lost0, size', inProgress, at, left, moved, lost);
  }

  lemma NextReached(ks: Keys, size: nat, all: set<Node>, steps: nat, at: nat, left: set<Node>, moved: set<Node>,
                    lost: nat, size': nat, inProgress: bool, at': nat, left': set<Node>, moved': set<Node>,
                    lost': nat, lost0: nat)
    requires Reached(ks, size, all, steps, size, true, at, left, moved, lost, lost0)
    requires Advanced(ks, size, at, left, moved, lost, size', inProgress, at', left', moved', lost')
    ensures Reached(ks, size, all, steps + 1, size', inProgress, at', left', moved', lost', lost0)
    ensures inProgress ==> size' == size
  {
    hide Divided, Advanced;
    DividedStep(ks, all, size, at, left, moved, lost, size', inProgress, at', left', moved', lost');
  }

  lemma LaterReached(ks: Keys, size: nat, all: set<Node>, i: nat, steps: nat, size': nat, inProgress: bool, at: nat,
                     left: set<Node>, moved: set<Node>, lost: nat, lost0: nat)
    requires Reached(ks, size, all, i, size', inProgress, at, left, moved, lost, lost0)
    requires i <= steps && (inProgress ==> i == steps)
    ensures Reached(ks, size, all, steps, size', inProgress, at, left, moved, lost, lost0)
  {
  }

  lemma AllReached(ks: Keys, size: nat, all: set<Node>, size': nat, inProgress: bool, at: nat, left: set<Node>,
                   moved: set<Node>, lost: nat, lost0: nat)
    requires Reached(ks, size, all, size, size', inProgress, at, left, moved, lost, lost0)
    ensures !inProgress && size' == 2 * size && left == all && lost == lost0
  {
  }

  /** While an expansion runs, the keys of the buckets it has passed are out of sight, and no others. */
  lemma StillFound(ks: Keys, all: set<Node>, size: nat, steps: nat, size': nat, inProgress: bool, at: nat,
                   left: set<Node>, moved: set<Node>, lost: nat, lost0: nat, key: Key)
    requires Apart(ks, all) && Reached(ks, size, all, steps, size', inProgress, at, left, moved, lost, lost0)
    ensures Apart(ks, left) && size > 0
    ensures key in MapOf(ks, left) <==> key in MapOf(ks, all) && InReach(ks, key, size, BATCH * steps)
  {
  }

  lemma FirstBatch(ks: Keys, size: nat, all: set<Node>, lost: nat, size': nat, inProgress: bool, at: nat,
                   left: set<Node>, moved: set<Node>, lost': nat, key: Key)
    requires Advanced(ks, size, 0, all, {}, lost, size', inProgress, at, left, moved, lost') && Apart(ks, all)
    ensures Apart(ks, left) && size > 0
    ensures key in MapOf(ks, left) <==> key in MapOf(ks, all) && InReach(ks, key, size, BATCH)
  {
    FirstReached(ks, size, all, size', inProgress, at, left, moved, lost', lost);
    StillFound(ks, all, size, 1, size', inProgress, at, left, moved, lost', lost, key);
  }

  lemma ScanMeans(ks: Keys, bs: Buckets, size: nat, s: set<Node>, key: Key, k: nat)
    requires Holds(ks, bs, size, s) && Apart(ks, s)
    requires var b := bs[ks.hash(key) % size];
      k <= |b| && (k < |b| ==> ks.of(b[k]) == key) && forall j :: 0 <= j < k ==> ks.of(b[j]) != key
    ensures var b := bs[ks.hash(key) % size];
      && (k < |b| <==> key in MapOf(ks, s))
      && (k < |b| ==> b[k] == MapOf(ks, s)[key] && b[k] in s)
  {
    var b := bs[ks.hash(key) % size];
    if k < |b| {
      InBucket(ks, bs, size, s, key, b[k]);
    } else if key in MapOf(ks, s) {
      InBucket(ks, bs, size, s, key, MapOf(ks, s)[key]);
    }
  }

  lemma MapLess(ks: Keys, s: set<Node>, n: Node)
    requires Apart(ks, s) && n in s
    ensures Apart(ks, s - {n}) && MapOf(ks, s - {n}) == MapOf(ks, s) - {ks.of(n)}
  {
  }

  lemma MapMore(ks: Keys, s: set<Node>, n: Node)
    requires Apart(ks, s) && ks.of(n) !in MapOf(ks, s)
    ensures n !in s && Apart(ks, s + {n}) && MapOf(ks, s + {n}) == MapOf(ks, s)[ks.of(n) := n]
  {
    assert forall x :: x in s ==> ks.of(x) in MapOf(ks, s);
  }

  lemma SlotIs(ks: Keys, n: Node, size: nat)
    requires size > 0
    ensures Slot(ks, n, size) == ks.hash(ks.of(n)) % size
  {
  }

  /** A step of the expansion brings no node in; from a table at rest of at most sixteen buckets it loses none
      either. */
  lemma AdvancedNodes(ks: Keys, size: nat, from: nat, left: set<Node>, moved: set<Node>, lost: nat,
                      size': nat, inProgress: bool, at: nat, left': set<Node>, moved': set<Node>, lost': nat)
    requires Advanced(ks, size, from, left, moved, lost, size', inProgress, at, left', moved', lost')
    ensures left' <= left + moved && moved' <= left + moved
    ensures from == 0 && moved == {} && size <= BATCH ==> left' == left && moved' == {} && lost' == lost && !inProgress
  {
    if from == 0 && moved == {} && size <= BATCH {
      DividedNone(ks, left, size);
      DividedStep(ks, left, size, 0, left, {}, lost, size', inProgress, at, left', moved', lost');
    }
  }

  lemma InBetween(ks: Keys, s: set<Node>, size: nat, at: nat, n: Node)
    requires size > 0
    ensures n in Between(ks, s, size, at, size) <==> n in s && at <= Slot(ks, n, size)
  {
    SlotRange(ks, n, size);
  }

  /** One batch more of an expansion that nothing interrupts. */
  lemma FinishStep(ks: Keys, left0: set<Node>, moved0: set<Node>, size: nat, from: nat, at: nat, left: set<Node>,
                   moved: set<Node>, lost: nat,
                   size': nat, inProgress: bool, at': nat, left': set<Node>, moved': set<Node>, lost': nat)
    requires Swept(ks, left0, moved0, left, moved, size, from, at) && from <= at <= size
    requires Advanced(ks, size, at, left, moved, lost, size', inProgress, at', left', moved', lost')
    ensures inProgress ==>
      at < at' <= size && size' == size && lost' == lost && Swept(ks, left0, moved0, left', moved', size, from, at')
    ensures !inProgress ==>
      && size' == 2 * size && left' == moved0 + Between(ks, left0, size, from, size)
      && lost' == lost + |Between(ks, left0, size, 0, from)|
  {
    hide Slot;
    forall n | n in left0 ensures Slot(ks, n, size) < size {
      SlotRange(ks, n, size);
    }
    var to := Min(at + BATCH, size);
    var batch := Between(ks, left, size, at, to);
    assert moved + batch == moved0 + Between(ks, left0, size, from, to);
    if to == size {
      assert left - batch == Between(ks, left0, size, 0, from);
    } else {
      assert left - batch == left0 - Between(ks, left0, size, from, to);
    }
  }

  /** A table of 32 buckets that holds the keys 0 to 15 is loaded. The next insert moves the first sixteen buckets and
      then links key 35 into old bucket 3, behind the cursor; the next batch drops it although the insert reported
      success. */
  method LostInsert() returns (t: Table, ret: int, found: bool)
    ensures ret == 0 && !found
  {
    var ks := Keys((n: Node) => n, (k: Key) => k);
    assert IsPow2(32) && Threshold(32, 50) == 16 && Slot(ks, 35, 32) == 3;
    t := FirstSixteen(ks);
    hide Slot, Threshold, IsPow2, Table.Valid, Table.Contents;
    ret := t.InsertThenFinish(35, true);
    var n;
    t.KeyThere(35);
    found, n := t.Lookup(35);
  }

  /** In the same table key 0 is found, and yet a second node with key 0 is let in, because the first one moved. */
  method SameKeyTwice() returns (t: Table, found: bool, ret: int)
    ensures found && ret == 0 && t.ks.of(64) == t.ks.of(0) && 64 in t.left && 0 in t.moved
  {
    var ks := Keys((n: Node) => n % 64, (k: Key) => k);
    assert IsPow2(32) && Threshold(32, 50) == 16 && Slot(ks, 0, 32) == 0;
    t := FirstSixteen(ks);
    hide IsPow2, Table.Valid, Table.Contents, Threshold, Slot, Advanced, Quiet;
    var n;
    t.KeyThere(0);
    found, n := t.Lookup(0);
    assert 0 in t.left && ks.of(0) == 0;
    ghost var left, lost := t.left, t.lost;
    ret := t.Insert(64, true);
    MovedFirst(ks, 32, left, lost, |t.buckets|, t.inProgress, t.transfer, t.left - {64}, t.moved, t.lost, 0);
  }

  lemma MovedFirst(ks: Keys, size: nat, left: set<Node>, lost: nat, size': nat, inProgress: bool, at: nat,
                   left': set<Node>, moved: set<Node>, lost': nat, n: Node)
    requires Advanced(ks, size, 0, left, {}, lost, size', inProgress, at, left', moved, lost')
    requires n in left && size > BATCH && Slot(ks, n, size) < BATCH
    ensures n in moved
  {
  }

  /** A table of 32 buckets with the nodes 0 to `n` - 1, each its own key and hash. */
  ghost predicate Filled(t: Table, n: nat)
    reads t
  {
    && t.Valid() && t.maxLoad == 50 && |t.buckets| == 32 && !t.inProgress && t.moved == {} && t.items == n
    && (forall k :: k < 16 ==> t.ks.of(k) == k) && forall k: Node :: k in t.left <==> k < n
  }

  method AddNext(t: Table, n: nat)
    requires Filled(t, n) && n < 16
    modifies t
    ensures Filled(t, n + 1)
  {
    hide IsPow2, Table.Valid, Table.Contents, Advanced, Quiet;
    assert Threshold(32, 50) == 16;
    var ret := t.Insert(n, true);
    assert ret == 0;
    assert t.left == old(t.left) + {n};
  }

  method FirstSixteen(ks: Keys) returns (t: Table)
    requires forall n :: n < 16 ==> ks.of(n) == n
    ensures fresh(t) && Filled(t, 16) && t.ks == ks
  {
    assert IsPow2(32);
    t := new Table(ks, 32, 50);
    assert Filled(t, 0);
    hide Filled;
    for i := 0 to 16
      invariant fresh(t) && Filled(t, i) && t.ks == ks
    {
      AddNext(t, i);
    }
  }
}
