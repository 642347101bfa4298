/** Bucket arrays of a hash table as values: what they hold, and what moving one node does. */
module HashNodes {
  import opened Common

  type Node = nat
  type Key = nat
  type Buckets = seq<seq<Node>>

  /** get_key and hash_func of a table. */
  datatype Keys = Keys(of: Node -> Key, hash: Key -> nat)

  predicate IsPow2(n: nat) { n == 1 || (n > 0 && n % 2 == 0 && IsPow2(n / 2)) }

  /** Bitwise and of unsigned numbers. */
  function And(a: nat, b: nat): nat {
    if a == 0 || b == 0 then 0
    else 2 * And(a / 2, b / 2) + (if a % 2 == 1 && b % 2 == 1 then 1 else 0)
  }

  /** next_power_of_2: the bits below the highest one are filled, then one is added. */
  method NextPowerOf2(n: bv32) returns (x: bv32)
    ensures 0 < n <= 0x8000_0000 ==> x & (x - 1) == 0 && n <= x && (x >> 1) < n
    ensures n == 0 || n > 0x8000_0000 ==> x == 0
  {
    x := n - 1;
    x := x | (x >> 1);
    x := x | (x >> 2);
    x := x | (x >> 4);
    x := x | (x >> 8);
    x := x | (x >> 16);
    x := x + 1;
  }

  function Slot(ks: Keys, n: Node, size: nat): nat
    requires size > 0
  {
    ks.hash(ks.of(n)) % size
  }

  /** One bucket holds exactly the nodes of `s` that belong there, each once. */
  ghost predicate BucketOk(ks: Keys, bucket: seq<Node>, size: nat, i: nat, s: set<Node>)
    requires size > 0
  {
    NoDup(bucket) && forall n :: n in bucket <==> n in s && Slot(ks, n, size) == i
  }

  ghost predicate Holds(ks: Keys, bs: Buckets, size: nat, s: set<Node>) {
    size > 0 && |bs| == size && forall i {:trigger bs[i]} :: 0 <= i < size ==> BucketOk(ks, bs[i], size, i, s)
  }

  /** No two nodes have the same key. */
  ghost predicate Apart(ks: Keys, s: set<Node>) { forall a, b :: a in s && b in s && ks.of(a) == ks.of(b) ==> a == b }

  lemma DivMod(h: nat, size: nat)
    requires size > 0
    ensures h == h / size * size + h % size && 0 <= h % size < size
  {
  }

  lemma ModUnique(h: nat, m: nat, q: nat, r: nat)
    requires m > 0 && h == q * m + r && r < m
    ensures h % m == r && h / m == q
  {
    DivMod(h, m);
    Multiple(h / m - q, m, r - h % m);
  }

  lemma Multiple(d: int, m: int, e: int)
    requires m > 0 && d * m == e && -m < e < m
    ensures d == 0 && e == 0
  {
    assert d >= 1 ==> d * m >= m;
    assert d <= -1 ==> d * m <= -1 * m;
  }

  lemma Halves(h: nat, t: nat)
    requires t > 0
    ensures h % (2 * t) == 2 * (h / 2 % t) + h % 2 && h / (2 * t) == h / 2 / t
  {
    DivMod(h / 2, t);
    var q, r := h / 2 / t, h / 2 % t;
    assert h == q * (2 * t) + (2 * r + h % 2) by {
      assert h / 2 * 2 == (q * t + r) * 2 == q * (2 * t) + 2 * r;
    }
    ModUnique(h, 2 * t, q, 2 * r + h % 2);
  }

  /** For a power of two the mask `size - 1` takes the remainder, and the bit `size` is the parity of the quotient. */
  lemma {:induction false} MaskIsRemainder(h: nat, size: nat)
    requires IsPow2(size)
    ensures And(h, size - 1) == h % size
    ensures And(h, size) != 0 <==> h / size % 2 == 1
    decreases size
  {
    if size > 1 {
      var t := size / 2;
      MaskIsRemainder(h / 2, t);
      Halves(h, t);
      assert (size - 1) / 2 == t - 1 && (size - 1) % 2 == 1;
      assert size > 2 || t == 1;
    }
  }

  /** Doubling the table: one more bit of the hash decides between the old index and the one `size` above it. */
  lemma DoubledSlot(h: nat, size: nat)
    requires size > 0
    ensures h % (2 * size) == if h / size % 2 == 1 then h % size + size else h % size
    ensures h % (2 * size) % size == h % size
  {
    DivMod(h, size);
    var q, r := h / size, h % size;
    if q % 2 == 1 {
      Regroup(q / 2, size, r + size);
      ModUnique(h, 2 * size, q / 2, r + size);
      ModUnique(r + size, size, 1, r);
    } else {
      Regroup(q / 2, size, r);
      ModUnique(h, 2 * size, q / 2, r);
      ModUnique(r, size, 0, r);
    }
  }

  lemma Regroup(p: nat, size: nat, r: nat)
    ensures p * (2 * size) + r == (2 * p) * size + r
    ensures (2 * p + 1) * size == (2 * p) * size + size
  {
  }

  /** Taking a node out of its bucket. */
  lemma TakeOut(ks: Keys, bs: Buckets, size: nat, s: set<Node>, i: nat, k: nat)
    requires Holds(ks, bs, size, s) && i < size && k < |bs[i]|
    ensures var n := bs[i][k];
            n in s && Slot(ks, n, size) == i && Holds(ks, bs[i := bs[i][..k] + bs[i][k + 1..]], size, s - {n})
  {
    hide Slot;
    var b, n := bs[i], bs[i][k];
    assert BucketOk(ks, b, size, i, s);
    var rest := b[..k] + b[k + 1..];
    assert forall x :: x in rest <==> x in b && x != n by {
      assert b == b[..k] + [n] + b[k + 1..];
    }
    var bs', s' := bs[i := rest], s - {n};
    forall j | 0 <= j < size ensures BucketOk(ks, bs'[j], size, j, s') {
      assert BucketOk(ks, bs[j], size, j, s);
    }
  }

  /** Putting a new node at the front of its bucket. */
  lemma PutIn(ks: Keys, bs: Buckets, size: nat, s: set<Node>, n: Node, i: nat)
    requires Holds(ks, bs, size, s) && n !in s && i == Slot(ks, n, size)
    ensures i < size && Holds(ks, bs[i := [n] + bs[i]], size, s + {n})
  {
    hide Slot;
    assert i < size by { SlotRange(ks, n, size); }
    assert BucketOk(ks, bs[i], size, i, s);
    var b := [n] + bs[i];
    var bs', s' := bs[i := b], s + {n};
    forall j | 0 <= j < size ensures BucketOk(ks, bs'[j], size, j, s') {
      assert BucketOk(ks, bs[j], size, j, s);
    }
  }

  lemma SlotRange(ks: Keys, n: Node, size: nat)
    requires size > 0
    ensures Slot(ks, n, size) < size
  {
  }

  lemma EmptyHolds(ks: Keys, size: nat)
    requires size > 0
    ensures Holds(ks, seq(size, _ => []), size, {})
  {
  }

  /** The bucket of a key holds the node with that key, if there is one. */
  lemma InBucket(ks: Keys, bs: Buckets, size: nat, s: set<Node>, key: Key, n: Node)
    requires Holds(ks, bs, size, s) && ks.of(n) == key
    ensures ks.hash(key) % size < size && (n in bs[ks.hash(key) % size] <==> n in s)
  {
    var i := ks.hash(key) % size;
    assert BucketOk(ks, bs[i], size, i, s);
  }
}
