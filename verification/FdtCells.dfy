/** Which cell counts a scan reports for the subnodes of a node, and when they are the specified ones. */
module FdtCells {
  import opened FdtTree
  import opened FdtLaws

  /** The two cell counts of a node. */
  datatype Count = Address | Size

  function Key(c: Count): seq<bv8> { if c == Address then ADDRESS_CELLS else SIZE_CELLS }

  function CellsOf(v: View, c: Count): Cell { if c == Address then v.addressCells else v.sizeCells }

  /** The defaults of the Devicetree Specification: two address cells and one size cell. */
  function DefaultOf(c: Count): Cell { if c == Address then 2 else 1 }

  /** The value of the last property `key` among the items of a node, `start` without one. */
  function DeclaredOr(strings: seq<bv8>, b: Body, key: seq<bv8>, start: Cell): Cell {
    match b
    case End => start
    case NopThen(rest) => DeclaredOr(strings, rest, key, start)
    case PropThen(nameOff, _, words, rest) =>
      var here := PropName(strings, nameOff) == key && words != [];
      DeclaredOr(strings, rest, key, if here then Bswap(words[0]) else start)
    case ChildThen(_, _, rest) => DeclaredOr(strings, rest, key, start)
  }

  predicate Declares(strings: seq<bv8>, b: Body, key: seq<bv8>) {
    match b
    case End => false
    case NopThen(rest) => Declares(strings, rest, key)
    case PropThen(nameOff, _, words, rest) =>
      (PropName(strings, nameOff) == key && words != []) || Declares(strings, rest, key)
    case ChildThen(_, _, rest) => Declares(strings, rest, key)
  }

  lemma {:induction false} DeclaredValue(strings: seq<bv8>, b: Body, key: seq<bv8>, x: Cell, y: Cell)
    ensures DeclaredOr(strings, b, key, x) == DeclaredOr(strings, b, key, y) <==> Declares(strings, b, key) || x == y
    ensures !Declares(strings, b, key) ==> DeclaredOr(strings, b, key, x) == x
  {
    hide Bswap, PropName;
    match b
    case End =>
    case NopThen(rest) => DeclaredValue(strings, rest, key, x, y);
    case PropThen(nameOff, _, words, rest) =>
      DeclaredValue(strings, rest, key, x, y);
      if PropName(strings, nameOff) == key && words != [] {
        DeclaredValue(strings, rest, key, Bswap(words[0]), Bswap(words[0]));
      }
    case ChildThen(_, _, rest) => DeclaredValue(strings, rest, key, x, y);
  }

  /** A scan ends with the node showing what its own properties declare, over what it started with. */
  lemma {:induction false} ScanCells(cb: Callbacks, strings: seq<bv8>, b: Body, chain: seq<View>, last: bool, kid: View,
                                     trace: seq<Event>)
    requires chain != []
    ensures var v, v' := chain[|chain| - 1], Scan(cb, strings, b, chain, last, kid, trace).chain[|chain| - 1];
            && v'.addressCells == DeclaredOr(strings, b, ADDRESS_CELLS, v.addressCells)
            && v'.sizeCells == DeclaredOr(strings, b, SIZE_CELLS, v.sizeCells) && v'.name == v.name
    decreases b
  {
    hide Bswap, DoneOnce, Emit, Nops, Fill, Encode, EncodeChild, PropName, ADDRESS_CELLS, SIZE_CELLS;
    match b
    case End =>
    case NopThen(rest) => ScanCells(cb, strings, rest, chain, last, kid, trace);
    case PropThen(nameOff, len, words, rest) =>
      var name := PropName(strings, nameOff);
      var chain' := SetLast(chain, name, words);
      CellsDiffer();
      ScanCells(cb, strings, rest, chain', last, kid, trace + [Prop(chain', name, len, words)]);
    case ChildThen(name, inner, rest) =>
      var child := ChildView(chain, name, kid);
      var i := Scan(cb, strings, inner, child, false, DEFAULT_CELLS,
        Emit(DoneOnce(cb, trace, last, chain), cb.open, Open(child)));
      ScanCells(cb, strings, rest, chain, true, i.chain[|chain|], Emit(i.trace, cb.close, Close(i.chain)));
  }

  lemma CellsDiffer()
    ensures ADDRESS_CELLS != SIZE_CELLS
  {
    assert |ADDRESS_CELLS| != |SIZE_CELLS|;
  }

  /** The cell counts shown when nodes of one depth are closed, in call order. */
  function ClosedAt(calls: seq<Event>, depth: nat, c: Count): seq<Cell> {
    if calls == [] then [] else ClosedBy(calls[0], depth, c) + ClosedAt(calls[1..], depth, c)
  }

  function ClosedBy(call: Event, depth: nat, c: Count): seq<Cell> {
    if call.Close? && |call.chain| == depth && depth > 0 then [CellsOf(call.chain[depth - 1], c)] else []
  }

  lemma {:induction false} ClosedAtConcat(a: seq<Event>, b: seq<Event>, depth: nat, c: Count)
    ensures ClosedAt(a + b, depth, c) == ClosedAt(a, depth, c) + ClosedAt(b, depth, c)
  {
    hide ClosedBy;
    if a == [] {
      assert a + b == b;
    } else {
      ClosedAtConcat(a[1..], b, depth, c);
      assert (a + b)[1..] == a[1..] + b && (a + b)[0] == a[0];
    }
  }

  /** What the subnodes of `b` are reported with when the first starts from `start`: each starts from its elder
      sibling's value. */
  function Reported(strings: seq<bv8>, b: Body, key: seq<bv8>, start: Cell): seq<Cell> {
    match b
    case End => []
    case NopThen(rest) => Reported(strings, rest, key, start)
    case PropThen(_, _, _, rest) => Reported(strings, rest, key, start)
    case ChildThen(_, inner, rest) =>
      var c := DeclaredOr(strings, inner, key, start);
      [c] + Reported(strings, rest, key, c)
  }

  /** What the Devicetree Specification asks for: the node's own value, or the default. */
  function Specified(strings: seq<bv8>, b: Body, key: seq<bv8>, default: Cell): seq<Cell> {
    match b
    case End => []
    case NopThen(rest) => Specified(strings, rest, key, default)
    case PropThen(_, _, _, rest) => Specified(strings, rest, key, default)
    case ChildThen(_, inner, rest) =>
      [DeclaredOr(strings, inner, key, default)] + Specified(strings, rest, key, default)
  }

  /** No subnode without the property has as nearest declaring elder sibling one that declares another value
      than the default; `nearest` is that sibling's value so far. */
  predicate NoneInherits(strings: seq<bv8>, b: Body, key: seq<bv8>, default: Cell, nearest: Cell) {
    match b
    case End => true
    case NopThen(rest) => NoneInherits(strings, rest, key, default, nearest)
    case PropThen(_, _, _, rest) => NoneInherits(strings, rest, key, default, nearest)
    case ChildThen(_, inner, rest) =>
      && (Declares(strings, inner, key) || nearest == default)
      && NoneInherits(strings, rest, key, default, DeclaredOr(strings, inner, key, nearest))
  }

  lemma {:induction false} ReportedIsSpecified(strings: seq<bv8>, b: Body, key: seq<bv8>, default: Cell, start: Cell)
    ensures Reported(strings, b, key, start) == Specified(strings, b, key, default) <==>
      NoneInherits(strings, b, key, default, start)
  {
    match b
    case End =>
    case NopThen(rest) => ReportedIsSpecified(strings, rest, key, default, start);
    case PropThen(_, _, _, rest) => ReportedIsSpecified(strings, rest, key, default, start);
    case ChildThen(_, inner, rest) =>
      var c := DeclaredOr(strings, inner, key, start);
      ReportedIsSpecified(strings, rest, key, default, c);
      DeclaredValue(strings, inner, key, start, default);
      var r, s := Reported(strings, b, key, start), Specified(strings, b, key, default);
      assert r[1..] == Reported(strings, rest, key, c) && s[1..] == Specified(strings, rest, key, default);
      assert r == [c] + r[1..] && s == [DeclaredOr(strings, inner, key, default)] + s[1..];
  }

  /** Nodes below close at greater depth only. */
  lemma {:induction false} CallsDeep(cb: Callbacks, strings: seq<bv8>, b: Body, chain: seq<View>, last: bool, kid: View,
                                     trace: seq<Event>, depth: nat, c: Count)
    requires cb.open && cb.close && depth <= |chain|
    ensures ClosedAt(Calls(cb, strings, b, chain, last, kid, trace), depth, c) == []
    decreases b
  {
    match b
    case End =>
      DoneNotClosed(cb, trace, last, chain, depth, c);
    case NopThen(rest) => CallsDeep(cb, strings, rest, chain, last, kid, trace, depth, c);
    case PropThen(nameOff, len, words, rest) =>
      var chain' := SetLast(chain, PropName(strings, nameOff), words);
      var call := Prop(chain', PropName(strings, nameOff), len, words);
      CallsDeep(cb, strings, rest, chain', last, kid, trace + [call], depth, c);
      CallsProp(cb, strings, b, chain, last, kid, trace);
      ClosedAtConcat([call], Calls(cb, strings, rest, chain', last, kid, trace + [call]), depth, c);
    case ChildThen(name, inner, rest) =>
      var i, entered, closed := CallsChild(cb, strings, name, inner, rest, chain, last, kid, trace);
      CallsDeep(cb, strings, inner, ChildView(chain, name, kid), false, DEFAULT_CELLS, entered, depth, c);
      CallsDeep(cb, strings, rest, chain, true, i.chain[|chain|], closed, depth, c);
      ClosedChild(cb, strings, name, inner, rest, chain, last, kid, trace, depth, c, i, entered, closed);
  }

  lemma DoneNotClosed(cb: Callbacks, trace: seq<Event>, last: bool, chain: seq<View>, depth: nat, c: Count)
    ensures trace <= DoneOnce(cb, trace, last, chain)
      && ClosedAt(DoneOnce(cb, trace, last, chain)[|trace|..], depth, c) == []
  {
    var d := DoneOnce(cb, trace, last, chain)[|trace|..];
    assert d == [] || d == [Done(chain)];
  }

  lemma CallsEnd(cb: Callbacks, strings: seq<bv8>, chain: seq<View>, last: bool, kid: View, trace: seq<Event>)
    ensures trace <= DoneOnce(cb, trace, last, chain)
    ensures Calls(cb, strings, End, chain, last, kid, trace) == DoneOnce(cb, trace, last, chain)[|trace|..]
  {
  }

  lemma CallsNop(cb: Callbacks, strings: seq<bv8>, rest: Body, chain: seq<View>, last: bool, kid: View,
                 trace: seq<Event>)
    ensures Calls(cb, strings, NopThen(rest), chain, last, kid, trace) ==
      Calls(cb, strings, rest, chain, last, kid, trace)
  {
  }

  lemma CallsProp(cb: Callbacks, strings: seq<bv8>, b: Body, chain: seq<View>, last: bool, kid: View, trace: seq<Event>)
    requires b.PropThen?
    ensures var name := PropName(strings, b.nameOff);
            var chain' := SetLast(chain, name, b.words);
            var call := Prop(chain', name, b.len, b.words);
            Calls(cb, strings, b, chain, last, kid, trace) == [call]
              + Calls(cb, strings, b.rest, chain', last, kid, trace + [call])
  {
    hide SetLast, Nops, Fill, Encode, EncodeChild, DoneOnce, PropName;
    var name := PropName(strings, b.nameOff);
    var chain' := SetLast(chain, name, b.words);
    ScanGrows(cb, strings, b.rest, chain', last, kid, trace + [Prop(chain', name, b.len, b.words)]);
  }

  /** The calls for one subnode and its younger siblings, seen at one depth. */
  lemma ClosedChild(cb: Callbacks, strings: seq<bv8>, name: seq<bv8>, inner: Body, rest: Body, chain: seq<View>,
                    last: bool, kid: View,
                    trace: seq<Event>, depth: nat, c: Count, i: Outcome, entered: seq<Event>, closed: seq<Event>)
    requires |i.chain| == |chain| + 1
    requires var child := ChildView(chain, name, kid);
             Calls(cb, strings, ChildThen(name, inner, rest), chain, last, kid, trace)
               == DoneOnce(cb, trace, last, chain)[|trace|..] + [Open(child)]
                  + (Calls(cb, strings, inner, child, false, DEFAULT_CELLS, entered)
                     + ([Close(i.chain)] + Calls(cb, strings, rest, chain, true, i.chain[|chain|], closed)))
    requires trace <= DoneOnce(cb, trace, last, chain)
    ensures ClosedAt(Calls(cb, strings, ChildThen(name, inner, rest), chain, last, kid, trace), depth, c)
            == ClosedAt(Calls(cb, strings, inner, ChildView(chain, name, kid), false, DEFAULT_CELLS, entered), depth, c)
               + (if depth == |chain| + 1 then [CellsOf(i.chain[|chain|], c)] else [])
               + ClosedAt(Calls(cb, strings, rest, chain, true, i.chain[|chain|], closed), depth, c)
  {
    hide Calls, Scan, DoneOnce, ChildView, ClosedAt;
    var child := ChildView(chain, name, kid);
    var ci := Calls(cb, strings, inner, child, false, DEFAULT_CELLS, entered);
    var cr := Calls(cb, strings, rest, chain, true, i.chain[|chain|], closed);
    DoneNotClosed(cb, trace, last, chain, depth, c);
    ClosedParts(DoneOnce(cb, trace, last, chain)[|trace|..], child, ci, i.chain, cr, depth, c);
  }

  lemma ClosedParts(d: seq<Event>, child: seq<View>, inner: seq<Event>, chain: seq<View>, rest: seq<Event>, depth: nat,
                    c: Count)
    requires ClosedAt(d, depth, c) == [] && chain != []
    ensures ClosedAt(d + [Open(child)] + (inner + ([Close(chain)] + rest)), depth, c)
            == ClosedAt(inner, depth, c) + (if depth == |chain| then [CellsOf(chain[|chain| - 1], c)] else [])
              + ClosedAt(rest, depth, c)
  {
    ClosedOne(Open(child), depth, c);
    ClosedOne(Close(chain), depth, c);
    hide ClosedAt, CellsOf;
    ClosedAtConcat([Close(chain)], rest, depth, c);
    ClosedAtConcat(inner, [Close(chain)] + rest, depth, c);
    ClosedAtConcat(d, [Open(child)], depth, c);
    ClosedAtConcat(d + [Open(child)], inner + ([Close(chain)] + rest), depth, c);
  }

  lemma ClosedOne(call: Event, depth: nat, c: Count)
    ensures ClosedAt([call], depth, c) == ClosedBy(call, depth, c)
  {
    assert [call][1..] == [];
    assert ClosedAt([], depth, c) == [];
  }

  /** A subnode ends with its own declaration over what it was handed. */
  lemma SubnodeCells(cb: Callbacks, strings: seq<bv8>, inner: Body, chain: seq<View>, name: seq<bv8>, kid: View,
                     entered: seq<Event>, i: Outcome, c: Count)
    requires i == Scan(cb, strings, inner, ChildView(chain, name, kid), false, DEFAULT_CELLS, entered)
      && |i.chain| == |chain| + 1
    ensures CellsOf(i.chain[|chain|], c) == DeclaredOr(strings, inner, Key(c), CellsOf(kid, c))
  {
    ScanCells(cb, strings, inner, ChildView(chain, name, kid), false, DEFAULT_CELLS, entered);
    hide Scan, ADDRESS_CELLS, SIZE_CELLS, DeclaredOr;
  }

  /** The cell counts reported for the subnodes of a node are those of `Reported`. */
  lemma {:induction false} ScanReports(cb: Callbacks, strings: seq<bv8>, b: Body, chain: seq<View>, last: bool,
                                       kid: View, trace: seq<Event>,
                                       c: Count)
    requires cb.open && cb.close
    ensures ClosedAt(Calls(cb, strings, b, chain, last, kid, trace), |chain| + 1, c) ==
      Reported(strings, b, Key(c), CellsOf(kid, c))
    decreases b
  {
    hide Calls, Scan, DoneOnce, SetLast, PropName, CellsOf, Key, DeclaredOr;
    var depth := |chain| + 1;
    match b
    case End =>
      CallsEnd(cb, strings, chain, last, kid, trace);
      DoneNotClosed(cb, trace, last, chain, depth, c);
    case NopThen(rest) =>
      CallsNop(cb, strings, rest, chain, last, kid, trace);
      ScanReports(cb, strings, rest, chain, last, kid, trace, c);
    case PropThen(nameOff, len, words, rest) =>
      var chain' := SetLast(chain, PropName(strings, nameOff), words);
      var call := Prop(chain', PropName(strings, nameOff), len, words);
      ScanReports(cb, strings, rest, chain', last, kid, trace + [call], c);
      CallsProp(cb, strings, b, chain, last, kid, trace);
      ClosedAtConcat([call], Calls(cb, strings, rest, chain', last, kid, trace + [call]), depth, c);
    case ChildThen(name, inner, rest) =>
      var child := ChildView(chain, name, kid);
      var i, entered, closed := CallsChild(cb, strings, name, inner, rest, chain, last, kid, trace);
      CallsDeep(cb, strings, inner, child, false, DEFAULT_CELLS, entered, depth, c);
      SubnodeCells(cb, strings, inner, chain, name, kid, entered, i, c);
      ScanReports(cb, strings, rest, chain, true, i.chain[|chain|], closed, c);
      DoneNotClosed(cb, trace, last, chain, depth, c);
      ClosedChild(cb, strings, name, inner, rest, chain, last, kid, trace, depth, c, i, entered, closed);
  }

  /** Subnodes are reported with their own #address-cells and #size-cells, or the defaults 2 and 1, exactly when none of
      them inherits another value from an elder sibling. */
  lemma CellsAsSpecified(cb: Callbacks, strings: seq<bv8>, b: Body, chain: seq<View>, trace: seq<Event>, c: Count)
    requires cb.open && cb.close
    ensures var calls := Calls(cb, strings, b, chain, false, DEFAULT_CELLS, trace);
            var asked := Specified(strings, b, Key(c), DefaultOf(c));
            ClosedAt(calls, |chain| + 1, c) == asked <==> NoneInherits(strings, b, Key(c), DefaultOf(c), DefaultOf(c))
  {
    ScanReports(cb, strings, b, chain, false, DEFAULT_CELLS, trace, c);
    ReportedIsSpecified(strings, b, Key(c), DefaultOf(c), DefaultOf(c));
  }

  /** A node with one address cell followed by a node that says nothing: the second is reported with one cell, not
      two. */
  lemma CellsInherited(strings: seq<bv8>, nameOff: Cell, a: seq<bv8>, b: seq<bv8>)
    requires PropName(strings, nameOff) == ADDRESS_CELLS
    ensures var body := ChildThen(a, PropThen(nameOff, 4, [Bswap(1)], End), ChildThen(b, End, End));
            && Reported(strings, body, ADDRESS_CELLS, 2) == [1, 1]
            && Specified(strings, body, ADDRESS_CELLS, 2) == [1, 2]
  {
    BswapInverse(1);
    hide Bswap, PropName;
    var first := PropThen(nameOff, 4, [Bswap(1)], End);
    assert DeclaredOr(strings, first, ADDRESS_CELLS, 2) == 1;
    assert Reported(strings, ChildThen(b, End, End), ADDRESS_CELLS, 1) == [1];
    assert Specified(strings, ChildThen(b, End, End), ADDRESS_CELLS, 2) == [2];
  }
}
