/** The order of the calls a scan makes: for every node open, its properties, done once, its subnodes, close. */
module FdtOrder {
  import opened FdtTree
  import opened FdtLaws
  import opened FdtCells

  /** The properties of a node, in order, each reported with the cell counts as they are after it. */
  function PropCalls(strings: seq<bv8>, b: Body, chain: seq<View>): seq<Event> {
    match b
    case End => []
    case NopThen(rest) => PropCalls(strings, rest, chain)
    case PropThen(nameOff, len, words, rest) =>
      var name := PropName(strings, nameOff);
      var chain' := SetLast(chain, name, words);
      [Prop(chain', name, len, words)] + PropCalls(strings, rest, chain')
    case ChildThen(_, _, _) => []
  }

  /** The node after its properties. */
  function AfterProps(strings: seq<bv8>, b: Body, chain: seq<View>): (r: seq<View>)
    ensures |r| == |chain|
  {
    match b
    case End => chain
    case NopThen(rest) => AfterProps(strings, rest, chain)
    case PropThen(nameOff, _, words, rest) => AfterProps(strings, rest,
      SetLast(chain, PropName(strings, nameOff), words))
    case ChildThen(_, _, _) => chain
  }

  /** The calls for the inside of a node: properties, then `done` for a node that is not the outermost level, then
      subnodes. */
  function NodeCalls(strings: seq<bv8>, b: Body, chain: seq<View>, kid: View): seq<Event>
    decreases b, 1
  {
    var node := AfterProps(strings, b, chain);
    PropCalls(strings, b, chain) + (if chain == [] then [] else [Done(node)]) + KidCalls(strings, b, node, kid)
  }

  /** The calls for the subnodes: each between its open and its close. */
  function KidCalls(strings: seq<bv8>, b: Body, chain: seq<View>, kid: View): seq<Event>
    decreases b, 0
  {
    match b
    case End => []
    case NopThen(rest) => KidCalls(strings, rest, chain, kid)
    case PropThen(_, _, _, rest) => KidCalls(strings, rest, chain, kid)
    case ChildThen(name, inner, rest) =>
      var child := ChildView(chain, name, kid);
      var node := AfterProps(strings, inner, child);
      [Open(child)] + NodeCalls(strings, inner, child, DEFAULT_CELLS) + [Close(node)]
        + KidCalls(strings, rest, chain, node[|chain|])
  }

  /** Subnodes leave the node's own cell counts alone. */
  lemma {:induction false} ScanChain(cb: Callbacks, strings: seq<bv8>, b: Body, chain: seq<View>, last: bool, kid: View,
                                     trace: seq<Event>)
    requires WellFormed(strings, b, last)
    ensures Scan(cb, strings, b, chain, last, kid, trace).chain == AfterProps(strings, b, chain)
    decreases b
  {
    hide Bswap, DoneOnce, Emit, SetLast, ChildView, Encode, EncodeChild, Nops, Fill, IsCells, PropName, LengthOk,
      WordCount;
    match b
    case End =>
    case NopThen(rest) => ScanChain(cb, strings, rest, chain, last, kid, trace);
    case PropThen(nameOff, len, words, rest) =>
      var name := PropName(strings, nameOff);
      var chain' := SetLast(chain, name, words);
      ScanChain(cb, strings, rest, chain', last, kid, trace + [Prop(chain', name, len, words)]);
    case ChildThen(name, inner, rest) =>
      var child := ChildView(chain, name, kid);
      var entered := Emit(DoneOnce(cb, trace, last, chain), cb.open, Open(child));
      var i := Scan(cb, strings, inner, child, false, DEFAULT_CELLS, entered);
      ChildViewLength(chain, name, kid);
      ScanChain(cb, strings, rest, chain, true, i.chain[|chain|], Emit(i.trace, cb.close, Close(i.chain)));
      NoMoreProps(strings, rest, chain);
  }

  lemma {:induction false} NoMoreProps(strings: seq<bv8>, b: Body, chain: seq<View>)
    requires WellFormed(strings, b, true)
    ensures AfterProps(strings, b, chain) == chain && PropCalls(strings, b, chain) == []
  {
    match b
    case End =>
    case NopThen(rest) => NoMoreProps(strings, rest, chain);
    case PropThen(_, _, _, _) =>
    case ChildThen(_, _, _) =>
  }

  lemma NodeCallsProp(strings: seq<bv8>, b: Body, chain: seq<View>, kid: View)
    requires b.PropThen?
    ensures var name := PropName(strings, b.nameOff);
      var chain' := SetLast(chain, name, b.words);
      NodeCalls(strings, b, chain, kid) == [Prop(chain', name, b.len, b.words)]
        + NodeCalls(strings, b.rest, chain', kid)
  {
    var name := PropName(strings, b.nameOff);
    var chain' := SetLast(chain, name, b.words);
    assert chain == [] <==> chain' == [];
    hide PropName, SetLast;
  }

  lemma NodeCallsChild(strings: seq<bv8>, b: Body, chain: seq<View>, kid: View)
    requires b.ChildThen?
    ensures NodeCalls(strings, b, chain, kid) == (if chain == [] then [] else [Done(chain)])
      + KidCalls(strings, b, chain, kid)
  {
    hide KidCalls;
  }

  lemma DoneCalls(cb: Callbacks, trace: seq<Event>, last: bool, chain: seq<View>)
    requires cb.done
    ensures trace <= DoneOnce(cb, trace, last, chain)
    ensures DoneOnce(cb, trace, last, chain)[|trace|..] == if last || chain == [] then [] else [Done(chain)]
  {
  }

  lemma NodeCallsEnds(strings: seq<bv8>, rest: Body, chain: seq<View>, kid: View)
    ensures NodeCalls(strings, End, chain, kid) == (if chain == [] then [] else [Done(chain)])
      && KidCalls(strings, End, chain, kid) == []
    ensures NodeCalls(strings, NopThen(rest), chain, kid) == NodeCalls(strings, rest, chain, kid)
    ensures KidCalls(strings, NopThen(rest), chain, kid) == KidCalls(strings, rest, chain, kid)
  {
    hide PropName, SetLast;
  }

  /** With all callbacks set, the calls of a scan are exactly those, in that order. */
  lemma {:induction false} CallsInOrder(cb: Callbacks, strings: seq<bv8>, b: Body, chain: seq<View>, last: bool,
                                        kid: View, trace: seq<Event>)
    requires cb.open && cb.close && cb.done && WellFormed(strings, b, last)
    ensures Calls(cb, strings, b, chain, last, kid, trace) ==
      if last then KidCalls(strings, b, chain, kid) else NodeCalls(strings, b, chain, kid)
    decreases b
  {
    hide Calls, Scan, SetLast, PropName, IsCells, LengthOk, WordCount, DoneOnce, NodeCalls, KidCalls;
    match b
    case End =>
      CallsEnd(cb, strings, chain, last, kid, trace);
      DoneCalls(cb, trace, last, chain);
      NodeCallsEnds(strings, End, chain, kid);
    case NopThen(rest) =>
      CallsNop(cb, strings, rest, chain, last, kid, trace);
      CallsInOrder(cb, strings, rest, chain, last, kid, trace);
      NodeCallsEnds(strings, rest, chain, kid);
    case PropThen(nameOff, len, words, rest) =>
      var chain' := SetLast(chain, PropName(strings, nameOff), words);
      var call := Prop(chain', PropName(strings, nameOff), len, words);
      CallsProp(cb, strings, b, chain, last, kid, trace);
      CallsInOrder(cb, strings, rest, chain', last, kid, trace + [call]);
      NodeCallsProp(strings, b, chain, kid);
    case ChildThen(name, inner, rest) =>
      CallsOfChild(cb, strings, b, chain, last, kid, trace);
      NodeCallsChild(strings, b, chain, kid);
      DoneCalls(cb, trace, last, chain);
  }

  lemma {:induction false} CallsOfChild(cb: Callbacks, strings: seq<bv8>, b: Body, chain: seq<View>, last: bool,
                                        kid: View, trace: seq<Event>)
    requires cb.open && cb.close && cb.done && WellFormed(strings, b, last) && b.ChildThen?
    ensures trace <= DoneOnce(cb, trace, last, chain)
    ensures Calls(cb, strings, b, chain, last, kid, trace) == DoneOnce(cb, trace, last, chain)[|trace|..]
      + KidCalls(strings, b, chain, kid)
    decreases b, 0
  {
    hide Calls, Scan, DoneOnce, NodeCalls, KidCalls, ChildView, AfterProps;
    DoneCalls(cb, trace, last, chain);
    var child := ChildView(chain, b.name, kid);
    var i, entered, closed := CallsChild(cb, strings, b.name, b.inner, b.rest, chain, last, kid, trace);
    CallsInOrder(cb, strings, b.inner, child, false, DEFAULT_CELLS, entered);
    ScanChain(cb, strings, b.inner, child, false, DEFAULT_CELLS, entered);
    CallsInOrder(cb, strings, b.rest, chain, true, i.chain[|chain|], closed);
    KidCallsChild(strings, b, chain, kid);
    Regrouped(DoneOnce(cb, trace, last, chain)[|trace|..], Open(child),
              NodeCalls(strings, b.inner, child, DEFAULT_CELLS), Close(i.chain),
              KidCalls(strings, b.rest, chain, i.chain[|chain|]));
  }

  lemma KidCallsChild(strings: seq<bv8>, b: Body, chain: seq<View>, kid: View)
    requires b.ChildThen? && |AfterProps(strings, b.inner, ChildView(chain, b.name, kid))| == |chain| + 1
    ensures var child := ChildView(chain, b.name, kid);
            var node := AfterProps(strings, b.inner, child);
            KidCalls(strings, b, chain, kid) ==
              [Open(child)] + NodeCalls(strings, b.inner, child, DEFAULT_CELLS) + [Close(node)]
                + KidCalls(strings, b.rest, chain, node[|chain|])
  {
    hide NodeCalls, ChildView, AfterProps;
  }

  lemma Regrouped(d: seq<Event>, open: Event, inner: seq<Event>, close: Event, rest: seq<Event>)
    ensures d + [open] + (inner + ([close] + rest)) == d + ([open] + inner + [close] + rest)
  {
  }
}
