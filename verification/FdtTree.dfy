/** Flattened device trees (section 5.4 of the Devicetree Specification): the structure block as a tree
    with its NOP tokens, its encoding in words, and what scanning a tree reports. */
module FdtTree {
  type Cell = bv32

  const FDT_BEGIN_NODE: Cell := 1
  const FDT_END_NODE: Cell := 2
  const FDT_PROP: Cell := 3
  const FDT_NOP: Cell := 4
  const FDT_END: Cell := 9
  const FDT_MAGIC: Cell := 0xd00d_feed
  const FDT_VERSION: Cell := 17

  /** Byte order reversal, as the two shift-and-mask rounds of the source. */
  function Bswap(x: Cell): Cell {
    var y := ((x & 0x00FF_00FF) << 8) | ((x & 0xFF00_FF00) >> 8);
    ((y & 0x0000_FFFF) << 16) | ((y & 0xFFFF_0000) >> 16)
  }

  /** Byte `k` of a word in memory order. */
  function ByteAt(w: Cell, k: nat): bv8
    requires k < 4
  {
    (if k == 0 then w & 0xFF else if k == 1 then (w >> 8) & 0xFF else if k == 2 then (w >> 16) & 0xFF
      else w >> 24) as bv8
  }

  lemma BswapInverse(x: Cell)
    ensures Bswap(Bswap(x)) == x
  {
  }

  lemma BswapReverses(x: Cell, k: nat)
    requires k < 4
    ensures ByteAt(Bswap(x), k) == ByteAt(x, 3 - k)
  {
  }

  /** The items of a node in order. NOP tokens may stand between any two items. */
  datatype Body =
    | End
    | NopThen(rest: Body)
    | PropThen(nameOff: Cell, len: Cell, words: seq<Cell>, rest: Body)
    | ChildThen(name: seq<bv8>, inner: Body, rest: Body)

  function Pack(b0: bv8, b1: bv8, b2: bv8, b3: bv8): Cell {
    (b0 as bv32) | ((b1 as bv32) << 8) | ((b2 as bv32) << 16) | ((b3 as bv32) << 24)
  }

  lemma PackBytes(b0: bv8, b1: bv8, b2: bv8, b3: bv8)
    ensures var w := Pack(b0, b1, b2, b3);
            ByteAt(w, 0) == b0 && ByteAt(w, 1) == b1 && ByteAt(w, 2) == b2 && ByteAt(w, 3) == b3
  {
  }

  /** A name as words: four bytes each, zero-terminated and zero-padded. */
  function NameWords(name: seq<bv8>): (w: seq<Cell>)
    ensures |w| == |name| / 4 + 1
  {
    if |name| >= 4 then [Pack(name[0], name[1], name[2], name[3])] + NameWords(name[4..])
    else if |name| == 3 then [Pack(name[0], name[1], name[2], 0)]
    else if |name| == 2 then [Pack(name[0], name[1], 0, 0)]
    else if |name| == 1 then [Pack(name[0], 0, 0, 0)]
    else [Pack(0, 0, 0, 0)]
  }

  lemma ShortNameBytes(name: seq<bv8>, i: nat)
    requires i <= |name| < 4
    ensures ByteAt(NameWords(name)[0], i) == if i < |name| then name[i] else 0
  {
    PackBytes(if |name| > 0 then name[0] else 0, if |name| > 1 then name[1] else 0,
      if |name| > 2 then name[2] else 0, 0);
    hide Pack, ByteAt;
  }

  lemma FirstNameBytes(name: seq<bv8>, i: nat)
    requires i < 4 <= |name|
    ensures ByteAt(NameWords(name)[0], i) == name[i]
  {
    PackBytes(name[0], name[1], name[2], name[3]);
    hide Pack, ByteAt;
  }

  lemma {:induction false} NameBytes(name: seq<bv8>, i: nat)
    requires i <= |name|
    ensures ByteAt(NameWords(name)[i / 4], i % 4) == if i < |name| then name[i] else 0
  {
    if |name| < 4 {
      ShortNameBytes(name, i);
    } else if i < 4 {
      FirstNameBytes(name, i);
    } else {
      NameBytes(name[4..], i - 4);
      hide Pack, ByteAt;
      assert i / 4 - 1 == (i - 4) / 4 && i % 4 == (i - 4) % 4;
    }
  }

  function ChildHead(name: seq<bv8>): seq<Cell> { [Bswap(FDT_BEGIN_NODE)] + NameWords(name) }

  function PropHead(nameOff: Cell, len: Cell): seq<Cell> { [Bswap(FDT_PROP), Bswap(len), Bswap(nameOff)] }

  function EncodeChild(name: seq<bv8>, inner: Body): seq<Cell>
    decreases inner, 1
  {
    ChildHead(name) + Encode(inner) + [Bswap(FDT_END_NODE)]
  }

  function Encode(b: Body): seq<Cell>
    decreases b, 0
  {
    match b
    case End => []
    case NopThen(rest) => [Bswap(FDT_NOP)] + Encode(rest)
    case PropThen(nameOff, len, words, rest) => PropHead(nameOff, len) + words + Encode(rest)
    case ChildThen(name, inner, rest) => EncodeChild(name, inner) + Encode(rest)
  }

  /** A node as callbacks see it; a chain lists the nodes from the outermost to the current one. */
  datatype View = View(name: seq<bv8>, addressCells: Cell, sizeCells: Cell)

  datatype Event =
    | Open(chain: seq<View>)
    | Prop(chain: seq<View>, name: seq<bv8>, len: Cell, words: seq<Cell>)
    | Done(chain: seq<View>)
    | Close(chain: seq<View>)

  /** Which optional callbacks are set, and the answer of `close` as a function of all calls so far. */
  datatype Callbacks = Callbacks(open: bool, done: bool, close: bool, decide: seq<Event> -> int)

  /** "#address-cells" */
  const ADDRESS_CELLS: seq<bv8> := [35, 97, 100, 100, 114, 101, 115, 115, 45, 99, 101, 108, 108, 115]
  const SIZE_CELLS: seq<bv8> := [35, 115, 105, 122, 101, 45, 99, 101, 108, 108, 115]                    // "#size-cells"

  /** The zero-terminated string at an offset of the strings block. */
  function CString(strings: seq<bv8>, off: nat): seq<bv8>
    decreases |strings| - off
  {
    if off >= |strings| || strings[off] == 0 then [] else [strings[off]] + CString(strings, off + 1)
  }

  function PropName(strings: seq<bv8>, nameOff: Cell): seq<bv8> { CString(strings, nameOff as nat) }

  predicate IsCells(name: seq<bv8>) { name == ADDRESS_CELLS || name == SIZE_CELLS }

  /** Words a property value of `len` bytes takes. */
  function WordCount(len: Cell): nat { (len as nat + 3) / 4 }

  /** The length fits the scanner's 32-bit signed arithmetic. */
  predicate LengthOk(len: Cell) { len as nat < 0x7FFF_FFFD }

  /** Properties precede the subnodes, lengths match, names hold no zero byte. */
  ghost predicate WellFormed(strings: seq<bv8>, b: Body, last: bool) {
    match b
    case End => true
    case NopThen(rest) => WellFormed(strings, rest, last)
    case PropThen(nameOff, len, words, rest) =>
      && !last
      && LengthOk(len) && |words| == WordCount(len)
      && (IsCells(PropName(strings, nameOff)) ==> words != [])
      && WellFormed(strings, rest, false)
    case ChildThen(name, inner, rest) =>
      && 0 !in name
      && WellFormed(strings, inner, false) && WellFormed(strings, rest, true)
  }

  function SetCells(v: View, name: seq<bv8>, words: seq<Cell>): View {
    if words == [] then v
    else if name == ADDRESS_CELLS then v.(addressCells := Bswap(words[0]))
    else if name == SIZE_CELLS then v.(sizeCells := Bswap(words[0]))
    else v
  }

  /** A cell-count property changes the innermost node of the chain. */
  function SetLast(chain: seq<View>, name: seq<bv8>, words: seq<Cell>): (c: seq<View>)
    ensures |c| == |chain|
  {
    if chain == [] then [] else chain[|chain| - 1 := SetCells(chain[|chain| - 1], name, words)]
  }

  function Emit(trace: seq<Event>, set_: bool, e: Event): seq<Event> { if set_ then trace + [e] else trace }

  function DoneOnce(cb: Callbacks, trace: seq<Event>, last: bool, chain: seq<View>): seq<Event> {
    Emit(trace, !last && chain != [] && cb.done, Done(chain))
  }

  /** What a scan leaves: the calls made, the node as last seen, the items with deleted subnodes turned
      into NOPs, the same without NOPs and deleted subnodes, and which words were overwritten. */
  datatype Outcome = Outcome(trace: seq<Event>, chain: seq<View>, body: Body, pruned: Body, mask: seq<bool>)

  function Nops(n: nat, rest: Body): Body { if n == 0 then rest else NopThen(Nops(n - 1, rest)) }

  function Fill(n: nat, x: bool): (s: seq<bool>)
    ensures |s| == n && forall i :: 0 <= i < n ==> s[i] == x
  {
    seq(n, _ => x)
  }

  function ChildView(chain: seq<View>, name: seq<bv8>, kid: View): seq<View> { chain + [kid.(name := name)] }

  /** The cell counts a child starts with are those its elder sibling ended with. */
  const DEFAULT_CELLS := View([], 2, 1)

  /** Scanning the items `b` of the node at the end of `chain`. `last` says that a subnode has been seen,
      `kid` holds the cell counts the next subnode starts with. */
  function Scan(cb: Callbacks, strings: seq<bv8>, b: Body, chain: seq<View>, last: bool, kid: View,
                trace: seq<Event>): (o: Outcome)
    ensures |o.chain| == |chain|
    decreases b
  {
    match b
    case End => Outcome(DoneOnce(cb, trace, last, chain), chain, End, End, [])
    case NopThen(rest) =>
      var o := Scan(cb, strings, rest, chain, last, kid, trace);
      o.(body := NopThen(o.body), mask := [false] + o.mask)
    case PropThen(nameOff, len, words, rest) =>
      var name := PropName(strings, nameOff);
      var chain' := SetLast(chain, name, words);
      var o := Scan(cb, strings, rest, chain', last, kid, trace + [Prop(chain', name, len, words)]);
      o.(body := PropThen(nameOff, len, words, o.body), pruned := PropThen(nameOff, len, words, o.pruned),
        mask := Fill(3 + |words|, false) + o.mask)
    case ChildThen(name, inner, rest) =>
      var child := ChildView(chain, name, kid);
      var entered := Emit(DoneOnce(cb, trace, last, chain), cb.open, Open(child));
      var i := Scan(cb, strings, inner, child, false, DEFAULT_CELLS, entered);
      var closed := Emit(i.trace, cb.close, Close(i.chain));
      var o := Scan(cb, strings, rest, chain, true, i.chain[|chain|], closed);
      if cb.close && cb.decide(closed) == -1 then
        o.(body := Nops(|EncodeChild(name, inner)|, o.body), mask := Fill(|EncodeChild(name, inner)|, true) + o.mask)
      else
        o.(body := ChildThen(name, i.body, o.body),
           pruned := ChildThen(name, i.pruned, o.pruned),
           mask := Fill(|ChildHead(name)|, false) + i.mask + [false] + o.mask)
  }
}
