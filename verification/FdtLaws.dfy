/** Laws of scanning: NOPs are invisible, deletion prunes, and the reported calls give the tree back. */
module FdtLaws {
  import opened FdtTree

  /** A tree without its NOP tokens. */
  function Strip(b: Body): Body {
    match b
    case End => End
    case NopThen(rest) => Strip(rest)
    case PropThen(nameOff, len, words, rest) => PropThen(nameOff, len, words, Strip(rest))
    case ChildThen(name, inner, rest) => ChildThen(name, Strip(inner), Strip(rest))
  }

  lemma {:induction false} StripNops(n: nat, b: Body)
    ensures Strip(Nops(n, b)) == Strip(b)
  {
    if n > 0 {
      StripNops(n - 1, b);
    }
  }

  function NopWords(n: nat): seq<Cell> { seq(n, _ => Bswap(FDT_NOP)) }

  lemma {:induction false} EncodeNops(n: nat, b: Body)
    ensures Encode(Nops(n, b)) == NopWords(n) + Encode(b)
  {
    hide Bswap;
    if n > 0 {
      EncodeNops(n - 1, b);
      assert NopWords(n) == [Bswap(FDT_NOP)] + NopWords(n - 1);
    }
  }

  /** Deletion overwrites exactly the masked words, each with NOP, and moves nothing. */
  ghost predicate Overwritten(before: seq<Cell>, after: seq<Cell>, mask: seq<bool>) {
    && |after| == |before| == |mask|
    && forall k :: 0 <= k < |before| ==> after[k] == if mask[k] then Bswap(FDT_NOP) else before[k]
  }

  lemma OverwrittenConcat(b1: seq<Cell>, a1: seq<Cell>, m1: seq<bool>, b2: seq<Cell>, a2: seq<Cell>, m2: seq<bool>)
    requires Overwritten(b1, a1, m1) && Overwritten(b2, a2, m2)
    ensures Overwritten(b1 + b2, a1 + a2, m1 + m2)
  {
    hide Bswap;
  }

  lemma {:induction false} ScanOverwrites(cb: Callbacks, strings: seq<bv8>, b: Body, chain: seq<View>, last: bool,
                                          kid: View, trace: seq<Event>)
    ensures var o := Scan(cb, strings, b, chain, last, kid, trace);
            Overwritten(Encode(b), Encode(o.body), o.mask) && Strip(o.body) == o.pruned
    decreases b
  {
    hide Bswap, DoneOnce, Emit, SetLast, ChildView, PropHead, ChildHead, EncodeChild, Fill, Nops;
    match b
    case End =>
    case NopThen(rest) =>
      ScanOverwrites(cb, strings, rest, chain, last, kid, trace);
    case PropThen(nameOff, len, words, rest) =>
      var name := PropName(strings, nameOff);
      var chain' := SetLast(chain, name, words);
      var trace' := trace + [Prop(chain', name, len, words)];
      ScanOverwrites(cb, strings, rest, chain', last, kid, trace');
      KeptProp(nameOff, len, words, rest, Scan(cb, strings, rest, chain', last, kid, trace'));
    case ChildThen(name, inner, rest) =>
      var child := ChildView(chain, name, kid);
      var entered := Emit(DoneOnce(cb, trace, last, chain), cb.open, Open(child));
      ScanOverwrites(cb, strings, inner, child, false, DEFAULT_CELLS, entered);
      var i := Scan(cb, strings, inner, child, false, DEFAULT_CELLS, entered);
      var closed := Emit(i.trace, cb.close, Close(i.chain));
      assert |child| == |chain| + 1 by { ChildViewLength(chain, name, kid); }
      ScanOverwrites(cb, strings, rest, chain, true, i.chain[|chain|], closed);
      var o := Scan(cb, strings, rest, chain, true, i.chain[|chain|], closed);
      if cb.close && cb.decide(closed) == -1 {
        DeletedChild(name, inner, rest, o);
      } else {
        KeptChild(name, inner, rest, i, o);
      }
  }

  lemma KeptProp(nameOff: Cell, len: Cell, words: seq<Cell>, rest: Body, o: Outcome)
    requires Overwritten(Encode(rest), Encode(o.body), o.mask)
    ensures Overwritten(Encode(PropThen(nameOff, len, words, rest)), Encode(PropThen(nameOff, len, words, o.body)),
                        Fill(3 + |words|, false) + o.mask)
  {
    hide Bswap, PropHead;
    var head := PropHead(nameOff, len) + words;
    assert |PropHead(nameOff, len)| == 3 by { PropHeadLength(nameOff, len); }
    OverwrittenConcat(head, head, Fill(3 + |words|, false), Encode(rest), Encode(o.body), o.mask);
  }

  lemma DeletedChild(name: seq<bv8>, inner: Body, rest: Body, o: Outcome)
    requires Overwritten(Encode(rest), Encode(o.body), o.mask)
    ensures var n := |EncodeChild(name, inner)|;
            && Overwritten(Encode(ChildThen(name, inner, rest)), Encode(Nops(n, o.body)), Fill(n, true) + o.mask)
            && Strip(Nops(n, o.body)) == Strip(o.body)
  {
    hide Bswap, EncodeChild;
    var whole := EncodeChild(name, inner);
    EncodeNops(|whole|, o.body);
    StripNops(|whole|, o.body);
    OverwrittenConcat(whole, NopWords(|whole|), Fill(|whole|, true), Encode(rest), Encode(o.body), o.mask);
  }

  lemma KeptChild(name: seq<bv8>, inner: Body, rest: Body, i: Outcome, o: Outcome)
    requires Overwritten(Encode(inner), Encode(i.body), i.mask) && Overwritten(Encode(rest), Encode(o.body), o.mask)
    ensures Overwritten(Encode(ChildThen(name, inner, rest)), Encode(ChildThen(name, i.body, o.body)),
                        Fill(|ChildHead(name)|, false) + i.mask + [false] + o.mask)
  {
    hide Bswap, ChildHead;
    var head, tail := ChildHead(name), [Bswap(FDT_END_NODE)];
    OverwrittenConcat(head, head, Fill(|head|, false), Encode(inner), Encode(i.body), i.mask);
    OverwrittenConcat(head + Encode(inner), head + Encode(i.body), Fill(|head|, false) + i.mask, tail, tail, [false]);
    OverwrittenConcat(EncodeChild(name, inner), EncodeChild(name, i.body), Fill(|head|, false) + i.mask + [false],
      Encode(rest), Encode(o.body), o.mask);
  }

  lemma PropHeadLength(nameOff: Cell, len: Cell)
    ensures |PropHead(nameOff, len)| == 3
  {
  }

  lemma ChildViewLength(chain: seq<View>, name: seq<bv8>, kid: View)
    ensures |ChildView(chain, name, kid)| == |chain| + 1
  {
  }

  /** NOP tokens are invisible: any callbacks see the same calls on a tree and on the tree without them. */
  lemma {:induction false} NopsInvisible(cb: Callbacks, strings: seq<bv8>, b: Body, chain: seq<View>, last: bool,
                                         kid: View, trace: seq<Event>)
    ensures var o, p := Scan(cb, strings, b, chain, last, kid, trace),
      Scan(cb, strings, Strip(b), chain, last, kid, trace);
            o.trace == p.trace && o.chain == p.chain && o.pruned == p.pruned
    decreases b
  {
    hide Bswap, DoneOnce, Emit, SetLast, ChildView, Encode, EncodeChild, Nops, Fill;
    match b
    case End =>
    case NopThen(rest) =>
      NopsInvisible(cb, strings, rest, chain, last, kid, trace);
    case PropThen(nameOff, len, words, rest) =>
      var name := PropName(strings, nameOff);
      var chain' := SetLast(chain, name, words);
      NopsInvisible(cb, strings, rest, chain', last, kid, trace + [Prop(chain', name, len, words)]);
    case ChildThen(name, inner, rest) =>
      var child := ChildView(chain, name, kid);
      var entered := Emit(DoneOnce(cb, trace, last, chain), cb.open, Open(child));
      NopsInvisible(cb, strings, inner, child, false, DEFAULT_CELLS, entered);
      var i := Scan(cb, strings, inner, child, false, DEFAULT_CELLS, entered);
      assert |child| == |chain| + 1 by { ChildViewLength(chain, name, kid); }
      NopsInvisible(cb, strings, rest, chain, true, i.chain[|chain|], Emit(i.trace, cb.close, Close(i.chain)));
  }

  /** Whatever nodes the first scan deletes, a second scan with any callbacks sees exactly the tree
      without those subtrees. */
  lemma SecondScan(cb: Callbacks, cb2: Callbacks, strings: seq<bv8>, b: Body, chain: seq<View>, last: bool, kid: View,
                   trace: seq<Event>)
    ensures var o := Scan(cb, strings, b, chain, last, kid, trace);
            Scan(cb2, strings, o.body, chain, last, kid, trace).trace ==
              Scan(cb2, strings, o.pruned, chain, last, kid, trace).trace
  {
    var o := Scan(cb, strings, b, chain, last, kid, trace);
    ScanOverwrites(cb, strings, b, chain, last, kid, trace);
    NopsInvisible(cb2, strings, o.body, chain, last, kid, trace);
  }

  lemma {:induction false} LastRelaxed(strings: seq<bv8>, b: Body)
    requires WellFormed(strings, b, true)
    ensures WellFormed(strings, b, false)
  {
    match b
    case End =>
    case NopThen(rest) => LastRelaxed(strings, rest);
    case PropThen(_, _, _, rest) =>
    case ChildThen(_, _, rest) =>
  }

  lemma {:induction false} NopsWellFormed(strings: seq<bv8>, n: nat, b: Body, last: bool)
    requires WellFormed(strings, b, last)
    ensures WellFormed(strings, Nops(n, b), last)
  {
    if n > 0 {
      NopsWellFormed(strings, n - 1, b, last);
    }
  }

  /** What deletion leaves is well formed again. */
  lemma {:induction false} ScanWellFormed(cb: Callbacks, strings: seq<bv8>, b: Body, chain: seq<View>, last: bool,
                                          kid: View, trace: seq<Event>)
    requires WellFormed(strings, b, last)
    ensures WellFormed(strings, Scan(cb, strings, b, chain, last, kid, trace).body, last)
    decreases b
  {
    hide Bswap, DoneOnce, Emit, SetLast, ChildView, Encode, EncodeChild, Fill, IsCells, PropName;
    match b
    case End =>
    case NopThen(rest) =>
      ScanWellFormed(cb, strings, rest, chain, last, kid, trace);
    case PropThen(nameOff, len, words, rest) =>
      var name := PropName(strings, nameOff);
      var chain' := SetLast(chain, name, words);
      ScanWellFormed(cb, strings, rest, chain', last, kid, trace + [Prop(chain', name, len, words)]);
    case ChildThen(name, inner, rest) =>
      var child := ChildView(chain, name, kid);
      var entered := Emit(DoneOnce(cb, trace, last, chain), cb.open, Open(child));
      ScanWellFormed(cb, strings, inner, child, false, DEFAULT_CELLS, entered);
      var i := Scan(cb, strings, inner, child, false, DEFAULT_CELLS, entered);
      assert |child| == |chain| + 1 by { ChildViewLength(chain, name, kid); }
      var closed := Emit(i.trace, cb.close, Close(i.chain));
      ScanWellFormed(cb, strings, rest, chain, true, i.chain[|chain|], closed);
      var o := Scan(cb, strings, rest, chain, true, i.chain[|chain|], closed);
      if !last {
        LastRelaxed(strings, o.body);
      }
      NopsWellFormed(strings, |EncodeChild(name, inner)|, o.body, last);
  }

  /** What a tree means: names instead of string offsets, no NOPs. */
  datatype Tree =
    | Nil
    | Property(name: seq<bv8>, len: Cell, words: seq<Cell>, rest: Tree)
    | Node(name: seq<bv8>, inner: Tree, rest: Tree)

  function Meaning(strings: seq<bv8>, b: Body): Tree {
    match b
    case End => Nil
    case NopThen(rest) => Meaning(strings, rest)
    case PropThen(nameOff, len, words, rest) => Property(PropName(strings, nameOff), len, words, Meaning(strings, rest))
    case ChildThen(name, inner, rest) => Node(name, Meaning(strings, inner), Meaning(strings, rest))
  }

  /** Reads a tree back from the calls, up to the close of the enclosing node. */
  function Rebuild(calls: seq<Event>): (r: (Tree, seq<Event>))
    ensures |r.1| <= |calls|
    decreases |calls|
  {
    if calls == [] then (Nil, []) else
    match calls[0]
    case Close(_) => (Nil, calls)
    case Done(_) => Rebuild(calls[1..])
    case Prop(_, name, len, words) =>
      var (t, left) := Rebuild(calls[1..]);
      (Property(name, len, words, t), left)
    case Open(chain) =>
      var (inner, left) := Rebuild(calls[1..]);
      var (t, left') := Rebuild(if left == [] then [] else left[1..]);
      (Node(if chain == [] then [] else chain[|chain| - 1].name, inner, t), left')
  }

  lemma ScanGrows(cb: Callbacks, strings: seq<bv8>, b: Body, chain: seq<View>, last: bool, kid: View, trace: seq<Event>)
    ensures trace <= Scan(cb, strings, b, chain, last, kid, trace).trace
    decreases b
  {
    hide Bswap, SetLast, ChildView, Encode, EncodeChild, Fill, Nops;
    match b
    case End =>
    case NopThen(rest) => ScanGrows(cb, strings, rest, chain, last, kid, trace);
    case PropThen(nameOff, len, words, rest) =>
      var name := PropName(strings, nameOff);
      var chain' := SetLast(chain, name, words);
      ScanGrows(cb, strings, rest, chain', last, kid, trace + [Prop(chain', name, len, words)]);
    case ChildThen(name, inner, rest) =>
      var child := ChildView(chain, name, kid);
      var entered := Emit(DoneOnce(cb, trace, last, chain), cb.open, Open(child));
      ScanGrows(cb, strings, inner, child, false, DEFAULT_CELLS, entered);
      var i := Scan(cb, strings, inner, child, false, DEFAULT_CELLS, entered);
      assert |child| == |chain| + 1 by { ChildViewLength(chain, name, kid); }
      ScanGrows(cb, strings, rest, chain, true, i.chain[|chain|], Emit(i.trace, cb.close, Close(i.chain)));
  }

  /** The calls a scan adds. */
  function Calls(cb: Callbacks, strings: seq<bv8>, b: Body, chain: seq<View>, last: bool, kid: View,
                 trace: seq<Event>): seq<Event> {
    ScanGrows(cb, strings, b, chain, last, kid, trace);
    Scan(cb, strings, b, chain, last, kid, trace).trace[|trace|..]
  }

  lemma CallsChild(cb: Callbacks, strings: seq<bv8>, name: seq<bv8>, inner: Body, rest: Body, chain: seq<View>,
                   last: bool, kid: View, trace: seq<Event>)
    returns (i: Outcome, entered: seq<Event>, closed: seq<Event>)
    requires cb.open && cb.close
    ensures var child := ChildView(chain, name, kid);
            && entered == DoneOnce(cb, trace, last, chain) + [Open(child)]
            && i == Scan(cb, strings, inner, child, false, DEFAULT_CELLS, entered)
            && |i.chain| == |child| == |chain| + 1 && closed == i.trace + [Close(i.chain)]
            && Calls(cb, strings, ChildThen(name, inner, rest), chain, last, kid, trace)
               == DoneOnce(cb, trace, last, chain)[|trace|..] + [Open(child)]
                  + (Calls(cb, strings, inner, child, false, DEFAULT_CELLS, entered)
                     + ([Close(i.chain)] + Calls(cb, strings, rest, chain, true, i.chain[|chain|], closed)))
  {
    hide SetLast, Nops, Fill, Encode, EncodeChild, DoneOnce, ChildView;
    RebuildDone(trace, cb, last, chain, []);
    var child := ChildView(chain, name, kid);
    ChildViewLength(chain, name, kid);
    entered := Emit(DoneOnce(cb, trace, last, chain), cb.open, Open(child));
    ScanGrows(cb, strings, inner, child, false, DEFAULT_CELLS, entered);
    i := Scan(cb, strings, inner, child, false, DEFAULT_CELLS, entered);
    closed := Emit(i.trace, cb.close, Close(i.chain));
    ScanGrows(cb, strings, rest, chain, true, i.chain[|chain|], closed);
    assert Scan(cb, strings, ChildThen(name, inner, rest), chain, last, kid, trace).trace
           == Scan(cb, strings, rest, chain, true, i.chain[|chain|], closed).trace;
  }

  lemma RebuildDone(trace: seq<Event>, cb: Callbacks, last: bool, chain: seq<View>, more: seq<Event>)
    ensures trace <= DoneOnce(cb, trace, last, chain)
    ensures Rebuild(DoneOnce(cb, trace, last, chain)[|trace|..] + more) == Rebuild(more)
  {
    var d := DoneOnce(cb, trace, last, chain)[|trace|..];
    if d == [] {
      assert d + more == more;
    } else {
      assert d == [Done(chain)];
      assert (d + more)[1..] == more;
    }
  }

  lemma RebuildProp(e: Event, calls: seq<Event>)
    requires e.Prop?
    ensures Rebuild([e] + calls) == (Property(e.name, e.len, e.words, Rebuild(calls).0), Rebuild(calls).1)
  {
    assert ([e] + calls)[1..] == calls;
  }

  lemma RebuildOpen(chain: seq<View>, calls: seq<Event>, inner: Tree, close: Event, more: seq<Event>)
    requires chain != [] && Rebuild(calls) == (inner, [close] + more)
    ensures Rebuild([Open(chain)] + calls) == (Node(chain[|chain| - 1].name, inner, Rebuild(more).0), Rebuild(more).1)
  {
    assert ([Open(chain)] + calls)[1..] == calls;
    assert ([close] + more)[1..] == more;
  }

  /** The calls give the tree back: nothing is lost, invented or reordered, whatever `close` answers. */
  lemma {:induction false} ScanRebuilds(cb: Callbacks, strings: seq<bv8>, b: Body, chain: seq<View>, last: bool,
                                        kid: View, trace: seq<Event>, after: seq<Event>)
    requires cb.open && cb.close && (after == [] || after[0].Close?)
    ensures Rebuild(Calls(cb, strings, b, chain, last, kid, trace) + after) == (Meaning(strings, b), after)
    decreases b
  {
    hide Rebuild, SetLast, Nops, Fill, Encode, EncodeChild, DoneOnce;
    match b
    case End =>
      RebuildDone(trace, cb, last, chain, after);
      RebuildStop(after);
    case NopThen(rest) =>
      ScanRebuilds(cb, strings, rest, chain, last, kid, trace, after);
    case PropThen(nameOff, len, words, rest) =>
      var name := PropName(strings, nameOff);
      var chain' := SetLast(chain, name, words);
      var trace' := trace + [Prop(chain', name, len, words)];
      ScanRebuilds(cb, strings, rest, chain', last, kid, trace', after);
      ScanGrows(cb, strings, rest, chain', last, kid, trace');
      var calls := Calls(cb, strings, b, chain, last, kid, trace);
      assert calls == [Prop(chain', name, len, words)] + Calls(cb, strings, rest, chain', last, kid, trace');
      assert calls + after == [Prop(chain', name, len, words)]
        + (Calls(cb, strings, rest, chain', last, kid, trace') + after);
      RebuildProp(Prop(chain', name, len, words), Calls(cb, strings, rest, chain', last, kid, trace') + after);
    case ChildThen(name, inner, rest) =>
      RebuildChild(cb, strings, name, inner, rest, chain, last, kid, trace, after);
  }

  lemma {:induction false} RebuildChild(cb: Callbacks, strings: seq<bv8>, name: seq<bv8>, inner: Body, rest: Body,
                                       chain: seq<View>, last: bool, kid: View, trace: seq<Event>, after: seq<Event>)
    requires cb.open && cb.close && (after == [] || after[0].Close?)
    ensures Rebuild(Calls(cb, strings, ChildThen(name, inner, rest), chain, last, kid, trace) + after)
            == (Meaning(strings, ChildThen(name, inner, rest)), after)
    decreases ChildThen(name, inner, rest), 0
  {
    hide Calls, Scan, Rebuild, DoneOnce;
    RebuildDone(trace, cb, last, chain, []);
    var child := ChildView(chain, name, kid);
    var i, entered, closed := CallsChild(cb, strings, name, inner, rest, chain, last, kid, trace);
    var done := DoneOnce(cb, trace, last, chain)[|trace|..];
    var ci := Calls(cb, strings, inner, child, false, DEFAULT_CELLS, entered);
    var cr := Calls(cb, strings, rest, chain, true, i.chain[|chain|], closed);
    var tail := [Close(i.chain)] + cr + after;
    ScanRebuilds(cb, strings, inner, child, false, DEFAULT_CELLS, entered, tail);
    ScanRebuilds(cb, strings, rest, chain, true, i.chain[|chain|], closed, after);
    var calls := Calls(cb, strings, ChildThen(name, inner, rest), chain, last, kid, trace);
    assert tail == [Close(i.chain)] + (cr + after);
    var from := [Open(child)] + (ci + tail);
    assert calls + after == done + from;
    RebuildDone(trace, cb, last, chain, from);
    RebuildOpen(child, ci + tail, Meaning(strings, inner), Close(i.chain), cr + after);
  }

  lemma RebuildStop(after: seq<Event>)
    requires after == [] || after[0].Close?
    ensures Rebuild(after) == (Nil, after)
  {
  }
}
