/** The scanner on the words of the blob, proved against scanning the tree. */
module FdtScan {
  import opened FdtTree
  import opened FdtLaws
  import opened FdtOrder

  ghost function Size(b: Body): nat {
    match b
    case End => 0
    case NopThen(rest) => 1 + Size(rest)
    case PropThen(_, _, _, rest) => 1 + Size(rest)
    case ChildThen(_, inner, rest) => 1 + Size(inner) + Size(rest)
  }

  /** The words `s` hold the encoded items `b` between `pre` and `post`. */
  ghost predicate Layout(s: seq<Cell>, pre: seq<Cell>, b: Body, post: seq<Cell>) {
    s == pre + Encode(b) + post
  }

  /** A word at which the scan of a node stops: END_NODE, END or any unknown token. */
  predicate Stops(w: Cell) {
    Bswap(w) != FDT_NOP && Bswap(w) != FDT_PROP && Bswap(w) != FDT_BEGIN_NODE
  }

  function TokenOf(b: Body): Cell
    requires !b.End?
  {
    if b.NopThen? then FDT_NOP else if b.PropThen? then FDT_PROP else FDT_BEGIN_NODE
  }

  lemma FirstWord(s: seq<Cell>, front: seq<Cell>, b: Body, post: seq<Cell>)
    requires post != [] && Stops(post[0]) && Layout(s, front, b, post)
    ensures |front| < |s|
    ensures !b.End? ==> Bswap(s[|front|]) == TokenOf(b)
    ensures b.End? ==> s[|front|] == post[0]
  {
    BswapInverse(FDT_NOP);
    BswapInverse(FDT_PROP);
    BswapInverse(FDT_BEGIN_NODE);
    hide Bswap;
    if !b.End? {
      assert |Encode(b)| > 0;
      assert Encode(b)[0] == Bswap(TokenOf(b));
      assert s[|front|] == Encode(b)[0];
    }
  }

  /** The zero-terminated string in the bytes of the words from `at` on; its length is what strlen gives. */
  method ReadName(lex: array<Cell>, at: nat, ghost name: seq<bv8>) returns (r: seq<bv8>)
    requires 0 !in name && at + |name| / 4 < lex.Length
    requires lex[at..at + |name| / 4 + 1] == NameWords(name)
    ensures r == name
  {
    hide ByteAt;
    r := [];
    NameBytes(name, 0);
    assert NameWords(name)[0] == lex[at];
    while ByteAt(lex[at + |r| / 4], |r| % 4) != 0
      invariant |r| <= |name| && r == name[..|r|]
      invariant ByteAt(lex[at + |r| / 4], |r| % 4) == if |r| < |name| then name[|r|] else 0
      decreases |name| - |r|
    {
      r := r + [ByteAt(lex[at + |r| / 4], |r| % 4)];
      NameBytes(name, |r|);
      assert NameWords(name)[|r| / 4] == lex[at + |r| / 4];
    }
  }

  /** The deletion loop: every word of the node becomes NOP. */
  method Overwrite(lex: array<Cell>, from: nat, to: nat)
    requires from <= to <= lex.Length
    modifies lex
    ensures lex[..] == old(lex[..from]) + NopWords(to - from) + old(lex[to..])
  {
    var i := from;
    while i != to
      invariant from <= i <= to
      invariant lex[..from] == old(lex[..from]) && lex[i..] == old(lex[i..])
      invariant forall k :: from <= k < i ==> lex[k] == Bswap(FDT_NOP)
    {
      lex[i] := Bswap(FDT_NOP);
      i := i + 1;
    }
    hide Bswap;
    assert lex[from..to] == NopWords(to - from);
    assert lex[..] == lex[..from] + lex[from..to] + lex[to..];
  }

  /** Reads one property and applies it to the node it belongs to. */
  method ScanProp(lex: array<Cell>, strings: seq<bv8>, at: nat, chain: seq<View>, ghost b: Body, ghost front: seq<Cell>,
                  ghost post: seq<Cell>)
    returns (size: nat, chain': seq<View>, call: Event)
    requires b.PropThen? && WellFormed(strings, b, false)
    requires at == |front| && Layout(lex[..], front, b, post)
    ensures size == 3 + |b.words|
    ensures var name := PropName(strings, b.nameOff);
            chain' == SetLast(chain, name, b.words) && call == Prop(chain', name, b.len, b.words)
  {
    hide Bswap, Layout, SetLast, PropName, ADDRESS_CELLS, SIZE_CELLS, WordCount, LengthOk;
    PropWords(lex[..], strings, b, front, post);
    var name := PropName(strings, Bswap(lex[at + 2]));
    var len := Bswap(lex[at + 1]);
    size := 3 + WordCount(len);
    var words := lex[at + 3..at + size];
    SetLastCases(chain, name, words);
    chain' := chain;
    if chain' != [] && name == ADDRESS_CELLS {
      chain' := chain'[|chain'| - 1 := chain'[|chain'| - 1].(addressCells := Bswap(lex[at + 3]))];
    }
    if chain' != [] && name == SIZE_CELLS {
      chain' := chain'[|chain'| - 1 := chain'[|chain'| - 1].(sizeCells := Bswap(lex[at + 3]))];
    }
    call := Prop(chain', name, len, words);
  }

  lemma PropWords(s: seq<Cell>, strings: seq<bv8>, b: Body, front: seq<Cell>, post: seq<Cell>)
    requires b.PropThen? && WellFormed(strings, b, false) && Layout(s, front, b, post)
    ensures |s| >= |front| + 3 + |b.words|
    ensures Bswap(s[|front| + 1]) == b.len && Bswap(s[|front| + 2]) == b.nameOff
    ensures |b.words| == WordCount(b.len)
    ensures s[|front| + 3..|front| + 3 + |b.words|] == b.words
    ensures b.words != [] ==> s[|front| + 3] == b.words[0]
  {
    BswapInverse(b.len);
    BswapInverse(b.nameOff);
    hide Bswap, IsCells, PropName, WordCount, LengthOk;
    var h, r := PropHead(b.nameOff, b.len), Encode(b.rest);
    assert Encode(b) == h + b.words + r;
    hide Encode;
    Regroup(front, h, b.words, [], r, post);
    assert s == front + h + b.words + (r + post);
    Middle(front + h, b.words, r + post);
  }

  /** The scan of the child at the head of `b`. */
  ghost function InnerScan(cb: Callbacks, strings: seq<bv8>, b: Body, chain: seq<View>, last: bool, kid: View,
                           trace: seq<Event>): (o: Outcome)
    requires b.ChildThen?
    ensures |o.chain| == |chain| + 1
  {
    var child := ChildView(chain, b.name, kid);
    Scan(cb, strings, b.inner, child, false, DEFAULT_CELLS,
      Emit(DoneOnce(cb, trace, last, chain), cb.open, Open(child)))
  }

  ghost function ClosedTrace(cb: Callbacks, strings: seq<bv8>, b: Body, chain: seq<View>, last: bool, kid: View,
                             trace: seq<Event>): seq<Event>
    requires b.ChildThen?
  {
    var i := InnerScan(cb, strings, b, chain, last, kid, trace);
    Emit(i.trace, cb.close, Close(i.chain))
  }

  /** The words that child leaves behind. */
  ghost function ChildLeft(cb: Callbacks, strings: seq<bv8>, b: Body, chain: seq<View>, last: bool, kid: View,
                           trace: seq<Event>): seq<Cell>
    requires b.ChildThen?
  {
    if cb.close && cb.decide(ClosedTrace(cb, strings, b, chain, last, kid, trace)) == -1
      then NopWords(|EncodeChild(b.name, b.inner)|)
    else EncodeChild(b.name, InnerScan(cb, strings, b, chain, last, kid, trace).body)
  }

  /** Scans one subnode: open, its items, close, and deletion when close says so. */
  method ScanChild(cb: Callbacks, lex: array<Cell>, strings: seq<bv8>, at: nat, chain: seq<View>, last: bool, kid: View,
                   trace: seq<Event>,
                   ghost b: Body, ghost front: seq<Cell>, ghost post: seq<Cell>)
    returns (next: nat, kid': View, trace': seq<Event>)
    requires b.ChildThen? && WellFormed(strings, b, last)
    requires at == |front| && Layout(lex[..], front, b, post)
    modifies lex
    ensures next == at + |EncodeChild(b.name, b.inner)|
    ensures trace' == ClosedTrace(cb, strings, b, chain, last, kid, trace)
    ensures kid' == InnerScan(cb, strings, b, chain, last, kid, trace).chain[|chain|]
    ensures Layout(lex[..], front + ChildLeft(cb, strings, b, chain, last, kid, trace), b.rest, post)
    decreases Size(b), 0
  {
    hide Bswap, Scan, Encode, DoneOnce, Emit, ChildView, Layout;
    ghost var head, tail := ChildHead(b.name), [Bswap(FDT_END_NODE)] + Encode(b.rest) + post;
    ChildWords(lex[..], b, front, post);
    var name := ReadName(lex, at + 1, b.name);
    var child := ChildView(chain, name, kid);
    ChildViewLength(chain, name, kid);
    var entered := Emit(DoneOnce(cb, trace, last, chain), cb.open, Open(child));
    var chain';
    next, chain',
      trace' := ScanHelper(cb, lex, strings, at + 2 + |name| / 4, child, entered, b.inner, front + head, tail);
    trace' := Emit(trace', cb.close, Close(chain'));
    kid' := chain'[|chain|];
    ghost var i := InnerScan(cb, strings, b, chain, last, kid, trace);
    ScanOverwrites(cb, strings, b.inner, child, false, DEFAULT_CELLS, entered);
    ChildKept(lex[..], b, i.body, front, post);
    if cb.close && cb.decide(trace') == -1 {
      ghost var mid := lex[..];
      Overwrite(lex, at, next);
      ChildDeleted(mid, lex[..], b, i.body, front, post);
    }
  }

  lemma ChildWords(s: seq<Cell>, b: Body, front: seq<Cell>, post: seq<Cell>)
    requires b.ChildThen? && Layout(s, front, b, post)
    ensures var head, tail := ChildHead(b.name), [Bswap(FDT_END_NODE)] + Encode(b.rest) + post;
            && Layout(s, front + head, b.inner, tail)
            && |head| == 2 + |b.name| / 4 && |front| + 1 + |b.name| / 4 < |s|
            && s[|front| + 1..|front| + 2 + |b.name| / 4] == NameWords(b.name)
            && Stops(tail[0]) && Bswap(tail[0]) == FDT_END_NODE
  {
    BswapInverse(FDT_END_NODE);
    hide Bswap;
    var begin, name, inner, end, rest := [Bswap(FDT_BEGIN_NODE)], NameWords(b.name), Encode(b.inner),
      [Bswap(FDT_END_NODE)], Encode(b.rest);
    assert Encode(b) == (begin + name) + inner + end + rest;
    hide Encode, NameWords;
    Regroup(front, begin + name, inner, end, rest, post);
    Middle(front + begin, name, inner + (end + rest + post));
    Assoc(front, begin, name, inner, end + rest + post);
  }

  /** With the inner items rewritten the child stands where it stood. */
  lemma ChildKept(s: seq<Cell>, b: Body, inner': Body, front: seq<Cell>, post: seq<Cell>)
    requires b.ChildThen? && Layout(s, front + ChildHead(b.name), inner', [Bswap(FDT_END_NODE)] + Encode(b.rest) + post)
    ensures Layout(s, front + EncodeChild(b.name, inner'), b.rest, post)
    ensures |front| + |ChildHead(b.name)| + |Encode(inner')| + 1 <= |s|
  {
    hide Bswap, ChildHead, Encode;
    var head, inner, end, rest := ChildHead(b.name), Encode(inner'), [Bswap(FDT_END_NODE)], Encode(b.rest);
    Regroup(front, head, inner, end, rest, post);
    assert front + (head + inner + end) + rest + post == front + (head + inner + end + rest) + post;
  }

  lemma ChildDeleted(s: seq<Cell>, s': seq<Cell>, b: Body, inner': Body, front: seq<Cell>, post: seq<Cell>)
    requires b.ChildThen? && Layout(s, front + EncodeChild(b.name, inner'), b.rest, post)
    requires |Encode(inner')| == |Encode(b.inner)|
    requires var n := |EncodeChild(b.name, b.inner)|;
             |front| + n <= |s| && s' == s[..|front|] + NopWords(n) + s[|front| + n..]
    ensures Layout(s', front + NopWords(|EncodeChild(b.name, b.inner)|), b.rest, post)
  {
    assert |EncodeChild(b.name, inner')| == |EncodeChild(b.name, b.inner)|;
    hide EncodeChild, Encode, NopWords;
    Replace(s, front, EncodeChild(b.name, inner'), NopWords(|EncodeChild(b.name, b.inner)|), Encode(b.rest), post);
  }

  lemma Replace(s: seq<Cell>, a: seq<Cell>, b: seq<Cell>, b': seq<Cell>, c: seq<Cell>, d: seq<Cell>)
    requires s == a + b + c + d
    ensures s[..|a|] + b' + s[|a| + |b|..] == a + b' + c + d
  {
    assert s[..|a|] == a;
    assert s[|a| + |b|..] == c + d;
  }

  lemma Assoc(a: seq<Cell>, b: seq<Cell>, c: seq<Cell>, d: seq<Cell>, e: seq<Cell>)
    ensures a + (b + c) + d + e == (a + b) + c + (d + e)
  {
  }

  lemma Regroup(front: seq<Cell>, head: seq<Cell>, inner: seq<Cell>, end: seq<Cell>, rest: seq<Cell>, post: seq<Cell>)
    ensures front + (head + inner + end + rest) + post == front + head + inner + (end + rest + post)
  {
  }

  lemma Middle(a: seq<Cell>, b: seq<Cell>, c: seq<Cell>)
    ensures (a + b + c)[|a|..|a| + |b|] == b
  {
  }

  /** Scans the items from `at` on. The words there are an encoded node body between `pre` and `post`;
      afterwards they are the body the tree-level scan leaves, the calls are those of the tree-level scan,
      and the position is just past the matching end token. */
  method ScanHelper(cb: Callbacks, lex: array<Cell>, strings: seq<bv8>, at: nat, chain: seq<View>, trace: seq<Event>,
                    ghost b: Body, ghost pre: seq<Cell>, ghost post: seq<Cell>)
    returns (next: nat, chain': seq<View>, trace': seq<Event>)
    requires WellFormed(strings, b, false) && post != [] && Stops(post[0])
    requires at == |pre| && Layout(lex[..], pre, b, post)
    modifies lex
    ensures var o := Scan(cb, strings, b, chain, false, DEFAULT_CELLS, trace);
            && trace' == o.trace && chain' == o.chain
            && Layout(lex[..], pre, o.body, post)
            && next == at + |Encode(b)| + if Bswap(post[0]) == FDT_END_NODE then 1 else 0
    decreases Size(b), 1
  {
    hide Bswap, Scan, Encode, EncodeChild, DoneOnce, Emit, SetLast, ChildView, PropName, ChildHead, Overwritten, Layout,
      IsCells, PropHead, WordCount, LengthOk;
    ghost var whole := Scan(cb, strings, b, chain, false, DEFAULT_CELLS, trace);
    ScanOverwrites(cb, strings, b, chain, false, DEFAULT_CELLS, trace);
    var lexAt, last, kid := at, false, DEFAULT_CELLS;
    chain', trace' := chain, trace;
    ghost var rest, front := b, pre;
    while true
      invariant WellFormed(strings, rest, last) && Size(rest) <= Size(b)
      invariant lexAt == |front| && Layout(lex[..], front, rest, post)
      invariant var o := Scan(cb, strings, rest, chain', last, kid, trace');
        && o.trace == whole.trace && o.chain == whole.chain
        && front + Encode(o.body) == pre + Encode(whole.body)
      invariant lexAt + |Encode(rest)| == at + |Encode(b)|
      decreases Size(rest)
    {
      FirstWord(lex[..], front, rest, post);
      var token := Bswap(lex[lexAt]);
      if token == FDT_NOP {
        NopStep(lex[..], cb, strings, rest, chain', last, kid, trace', front, post);
        front, rest := front + [Bswap(FDT_NOP)], rest.rest;
        lexAt := lexAt + 1;
      } else if token == FDT_PROP {
        PropStep(lex[..], cb, strings, rest, chain', last, kid, trace', front, post);
        var size, call;
        size, chain', call := ScanProp(lex, strings, lexAt, chain', rest, front, post);
        front, rest := front + PropHead(rest.nameOff, rest.len) + rest.words, rest.rest;
        lexAt := lexAt + size;
        trace' := trace' + [call];
      } else if token == FDT_BEGIN_NODE {
        ChildStep(cb, strings, rest, chain', last, kid, trace', front);
        ghost var encoded := ChildLeft(cb, strings, rest, chain', last, kid, trace');
        lexAt, kid, trace' := ScanChild(cb, lex, strings, lexAt, chain', last, kid, trace', rest, front, post);
        last := true;
        front, rest := front + encoded, rest.rest;
      } else {
        assert rest.End?;
        ScanEnd(cb, strings, chain', last, kid, trace');
        trace' := DoneOnce(cb, trace', last, chain');
        LayoutEnd(lex[..], front, pre, whole.body, post);
        return (if token == FDT_END_NODE then lexAt + 1 else lexAt), chain', trace';
      }
    }
  }

  lemma ScanEnd(cb: Callbacks, strings: seq<bv8>, chain: seq<View>, last: bool, kid: View, trace: seq<Event>)
    ensures Scan(cb, strings, End, chain, last, kid, trace) ==
      Outcome(DoneOnce(cb, trace, last, chain), chain, End, End, [])
    ensures Encode(End) == []
  {
  }

  lemma LayoutEnd(s: seq<Cell>, front: seq<Cell>, pre: seq<Cell>, b: Body, post: seq<Cell>)
    requires Layout(s, front, End, post) && front + Encode(End) == pre + Encode(b)
    ensures Layout(s, pre, b, post)
  {
  }

  lemma ScanAfterProp(cb: Callbacks, strings: seq<bv8>, b: Body, chain: seq<View>, last: bool, kid: View,
                      trace: seq<Event>)
    requires b.PropThen?
    ensures var name := PropName(strings, b.nameOff);
            var chain' := SetLast(chain, name, b.words);
            var o, o' := Scan(cb, strings, b, chain, last, kid, trace),
                         Scan(cb, strings, b.rest, chain', last, kid, trace + [Prop(chain', name, b.len, b.words)]);
            o'.trace == o.trace && o'.chain == o.chain && o.body == PropThen(b.nameOff, b.len, b.words, o'.body)
  {
  }

  lemma NopStep(s: seq<Cell>, cb: Callbacks, strings: seq<bv8>, b: Body, chain: seq<View>, last: bool, kid: View,
                trace: seq<Event>, front: seq<Cell>, post: seq<Cell>)
    requires b.NopThen? && WellFormed(strings, b, last)
    ensures var front' := front + [Bswap(FDT_NOP)];
            var o, o' := Scan(cb, strings, b, chain, last, kid, trace),
              Scan(cb, strings, b.rest, chain, last, kid, trace);
            && WellFormed(strings, b.rest, last) && Size(b.rest) < Size(b) && |Encode(b)| == 1 + |Encode(b.rest)|
            && (Layout(s, front, b, post) ==> Layout(s, front', b.rest, post))
            && o'.trace == o.trace && o'.chain == o.chain && front' + Encode(o'.body) == front + Encode(o.body)
  {
    hide Bswap, WordCount, LengthOk, IsCells, PropName;
    var nop, r := [Bswap(FDT_NOP)], Encode(b.rest);
    assert Encode(b) == nop + r;
    Assoc(front, nop, [], r, post);
  }

  lemma SetLastCases(chain: seq<View>, name: seq<bv8>, words: seq<Cell>)
    requires IsCells(name) ==> words != []
    ensures ADDRESS_CELLS != SIZE_CELLS
    ensures chain == [] || !IsCells(name) ==> SetLast(chain, name, words) == chain
    ensures chain != [] && name == ADDRESS_CELLS ==>
              SetLast(chain, name, words) == chain[|chain| - 1 := chain[|chain| - 1].(addressCells := Bswap(words[0]))]
    ensures chain != [] && name == SIZE_CELLS ==>
              SetLast(chain, name, words) == chain[|chain| - 1 := chain[|chain| - 1].(sizeCells := Bswap(words[0]))]
  {
    hide Bswap;
    assert |ADDRESS_CELLS| != |SIZE_CELLS|;
  }

  lemma EncodeProp(nameOff: Cell, len: Cell, words: seq<Cell>, rest: Body)
    ensures Encode(PropThen(nameOff, len, words, rest)) == PropHead(nameOff, len) + words + Encode(rest)
  {
  }

  lemma PropStep(s: seq<Cell>, cb: Callbacks, strings: seq<bv8>, b: Body, chain: seq<View>, last: bool, kid: View,
                 trace: seq<Event>, front: seq<Cell>, post: seq<Cell>)
    requires b.PropThen? && WellFormed(strings, b, last)
    ensures var name := PropName(strings, b.nameOff);
            var chain' := SetLast(chain, name, b.words);
            var o, o' := Scan(cb, strings, b, chain, last, kid, trace),
                         Scan(cb, strings, b.rest, chain', last, kid, trace + [Prop(chain', name, b.len, b.words)]);
            var front' := front + PropHead(b.nameOff, b.len) + b.words;
            && !last && WellFormed(strings, b.rest, last) && Size(b.rest) < Size(b)
            && |front'| == |front| + 3 + |b.words| && |Encode(b)| == 3 + |b.words| + |Encode(b.rest)|
            && (Layout(s, front, b, post) ==> Layout(s, front', b.rest, post))
            && o'.trace == o.trace && o'.chain == o.chain && front' + Encode(o'.body) == front + Encode(o.body)
  {
    hide Bswap, Nops, Fill, SetLast, IsCells, WordCount, LengthOk, PropName, PropHead, Encode, Scan;
    PropHeadLength(b.nameOff, b.len);
    var name := PropName(strings, b.nameOff);
    var chain' := SetLast(chain, name, b.words);
    ScanAfterProp(cb, strings, b, chain, last, kid, trace);
    var o' := Scan(cb, strings, b.rest, chain', last, kid, trace + [Prop(chain', name, b.len, b.words)]);
    var h, w, r := PropHead(b.nameOff, b.len), b.words, Encode(b.rest);
    EncodeProp(b.nameOff, b.len, w, b.rest);
    EncodeProp(b.nameOff, b.len, w, o'.body);
    Assoc(front, h, w, r, post);
    Assoc(front, h, w, Encode(o'.body), []);
    Regroup(front, h, w, [], r, post);
  }

  lemma ChildStep(cb: Callbacks, strings: seq<bv8>, b: Body, chain: seq<View>, last: bool, kid: View, trace: seq<Event>,
                  front: seq<Cell>)
    requires b.ChildThen? && WellFormed(strings, b, last)
    ensures var i, closed := InnerScan(cb, strings, b, chain, last, kid, trace),
      ClosedTrace(cb, strings, b, chain, last, kid, trace);
            var o, o' := Scan(cb, strings, b, chain, last, kid, trace),
              Scan(cb, strings, b.rest, chain, true, i.chain[|chain|], closed);
            var left := ChildLeft(cb, strings, b, chain, last, kid, trace);
            && WellFormed(strings, b.rest, true) && Size(b.rest) < Size(b)
            && |left| == |EncodeChild(b.name, b.inner)| && |Encode(b)| == |left| + |Encode(b.rest)|
            && o'.trace == o.trace && o'.chain == o.chain && front + left + Encode(o'.body) == front + Encode(o.body)
  {
    hide Bswap, Fill, SetLast, DoneOnce, Emit, PropName;
    var i := InnerScan(cb, strings, b, chain, last, kid, trace);
    var closed := ClosedTrace(cb, strings, b, chain, last, kid, trace);
    var o' := Scan(cb, strings, b.rest, chain, true, i.chain[|chain|], closed);
    var child := ChildView(chain, b.name, kid);
    ScanOverwrites(cb, strings, b.inner, child, false, DEFAULT_CELLS,
      Emit(DoneOnce(cb, trace, last, chain), cb.open, Open(child)));
    EncodeNops(|EncodeChild(b.name, b.inner)|, o'.body);
  }

  /** fdt_scan: a blob with another magic number or too new a format is left alone; otherwise the structure
      block is scanned from the top, where there is no enclosing node. */
  method Start(cb: Callbacks, magic: Cell, lastCompVersion: Cell, lex: array<Cell>, strings: seq<bv8>, at: nat,
               ghost b: Body, ghost pre: seq<Cell>, ghost post: seq<Cell>)
    returns (calls: seq<Event>)
    requires WellFormed(strings, b, false) && at == |pre| && Layout(lex[..], pre, b, post) && post != []
      && Bswap(post[0]) == FDT_END
    modifies lex
    ensures if Bswap(magic) != FDT_MAGIC || Bswap(lastCompVersion) > FDT_VERSION then
              calls == [] && lex[..] == old(lex[..])
            else
              var o := Scan(cb, strings, b, [], false, DEFAULT_CELLS, []);
              && calls == o.trace && Layout(lex[..], pre, o.body, post)
              && WellFormed(strings, o.body, false)
              && (cb.open && cb.close ==> Rebuild(calls).0 == Meaning(strings, b))
              && (cb.open && cb.close && cb.done ==> calls == NodeCalls(strings, b, [], DEFAULT_CELLS))
  {
    hide Bswap, Scan, Layout, Encode, WellFormed, Rebuild, Meaning, NodeCalls;
    calls := [];
    if Bswap(magic) != FDT_MAGIC || Bswap(lastCompVersion) > FDT_VERSION {
      return;
    }
    var _, _, trace := ScanHelper(cb, lex, strings, at, [], [], b, pre, post);
    calls := trace;
    ScanWellFormed(cb, strings, b, [], false, DEFAULT_CELLS, []);
    if cb.open && cb.close {
      ScanRebuilds(cb, strings, b, [], false, DEFAULT_CELLS, [], []);
      assert Calls(cb, strings, b, [], false, DEFAULT_CELLS, []) + [] == calls;
    }
    if cb.open && cb.close && cb.done {
      CallsInOrder(cb, strings, b, [], false, DEFAULT_CELLS, []);
    }
  }

  /** fdt_get_address and fdt_get_size: cell counts are signed, and only the last two cells survive in 64 bits. */
  method ReadCells(cells: int, lex: array<Cell>, at: nat) returns (next: nat, result: bv64)
    requires cells <= 0 || at + cells <= lex.Length
    ensures next == at + (if cells > 0 then cells else 0)
    ensures cells <= 0 ==> result == 0
    ensures cells == 1 ==> result == Bswap(lex[at]) as bv64
    ensures cells >= 2 ==> result == Join(Bswap(lex[next - 2]), Bswap(lex[next - 1]))
  {
    hide Bswap, Join, Push;
    result, next := 0, at;
    JoinFacts(0, 0, 0);
    var left := cells;
    ghost var hi, lo: Cell := 0, 0;
    while left > 0
      invariant next + (if left > 0 then left else 0) == at + (if cells > 0 then cells else 0) && at <= next
      invariant result == Join(hi, lo)
      invariant next == at ==> hi == lo == 0
      invariant next == at + 1 ==> hi == 0 && lo == Bswap(lex[at])
      invariant next >= at + 2 ==> hi == Bswap(lex[next - 2]) && lo == Bswap(lex[next - 1])
    {
      JoinFacts(hi, lo, Bswap(lex[next]));
      result := Push(result, Bswap(lex[next]));
      hi, lo := lo, Bswap(lex[next]);
      next := next + 1;
      left := left - 1;
    }
    JoinFacts(hi, lo, lo);
  }

  function Join(hi: Cell, lo: Cell): bv64 { ((hi as bv64) << 32) | (lo as bv64) }

  /** One more cell: shift left and add, in 64 bits. */
  function Push(result: bv64, x: Cell): bv64 { (result << 32) + (x as bv64) }

  lemma JoinFacts(hi: Cell, lo: Cell, x: Cell)
    ensures Push(Join(hi, lo), x) == Join(lo, x) && Join(0, 0) == 0 && Join(0, x) == x as bv64
  {
  }
}
