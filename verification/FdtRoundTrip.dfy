/**
 Reading a flattened devicetree gives the tree back: what `nodes`, `children`, `parent`
 and `properties` (port/src/fdt.rs) yield on every block that a tree flattens to.
 */
module FdtRoundTrip {
  import opened Wrappers
  import opened FdtTokens
  import opened FdtTree
  import opened FdtScan

  // ----- one node: its end token is found across everything inside it

  lemma {:induction false} EndSkipsTree(toks: Tokens, t: Tree, i: nat, d: int, c: int, stop: nat)
    requires TreeIn(toks, i, t) && d > c && stop == i + TreeLen(t)
    ensures FindEnd(toks, i, d, c) == FindEnd(toks, stop, d, c)
    decreases t
  {
    var j, close := i + HeadLen(t), i + HeadLen(t) + BodyLen(t.body);
    EndSkipsBody(toks, t.body, j, d + 1, c, close);
    assert FindEnd(toks, i, d, c) == FindEnd(toks, j, d + 1, c);
    assert FindEnd(toks, close, d + 1, c) == FindEnd(toks, stop, d, c);
  }

  lemma {:induction false} EndSkipsBody(toks: Tokens, b: Body, i: nat, d: int, c: int, stop: nat)
    requires BodyIn(toks, i, b) && d > c && stop == i + BodyLen(b)
    ensures FindEnd(toks, i, d, c) == FindEnd(toks, stop, d, c)
    decreases b
  {
    match b
    case Close =>
    case Pad(rest) => EndSkipsBody(toks, rest, i + 4, d, c, stop);
    case Attr(_, value, rest) => EndSkipsBody(toks, rest, i + 12 + Align4(|value|), d, c, stop);
    case Sub(kid, rest) =>
      var j := i + TreeLen(kid);
      EndSkipsTree(toks, kid, i, d, c, j);
      EndSkipsBody(toks, rest, j, d, c, stop);
  }

  /** Where a tree begins, the record closed is the tree's. */
  lemma {:induction false} ClosedRecord(toks: Tokens, t: Tree, i: nat, c: int)
    requires TreeIn(toks, i, t)
    ensures Closed(toks, i, Tok(toks, i).value, c) == Some(Place(t, i, c).Record())
  {
    EndSkipsBody(toks, t.body, i + HeadLen(t), c + 1, c, i + HeadLen(t) + BodyLen(t.body));
  }

  // ----- nodes()

  lemma {:induction false} NodesOfTree(toks: Tokens, t: Tree, i: nat, d: int, stop: nat)
    requires TreeIn(toks, i, t) && stop == i + TreeLen(t)
    ensures AllNodes(toks, i, d) == Records(Places(t, i, d)) + AllNodes(toks, stop, d)
    decreases t
  {
    var j, close := i + HeadLen(t), i + HeadLen(t) + BodyLen(t.body);
    BeginStep(toks, t, i, d);
    NodesOfBody(toks, t.body, j, d + 1, close);
    SkipStep(toks, close, d + 1, stop);
    JoinRecords(AllNodes(toks, i, d), [Place(t, i, d)], AllNodes(toks, j, d + 1), BodyPlaces(t.body, j, d + 1),
                AllNodes(toks, stop, d));
  }

  lemma {:induction false} NodesOfBody(toks: Tokens, b: Body, i: nat, d: int, stop: nat)
    requires BodyIn(toks, i, b) && stop == i + BodyLen(b)
    ensures AllNodes(toks, i, d) == Records(BodyPlaces(b, i, d)) + AllNodes(toks, stop, d)
    decreases b
  {
    match b
    case Close =>
    case Pad(rest) =>
      SkipStep(toks, i, d, i + 4);
      NodesOfBody(toks, rest, i + 4, d, stop);
    case Attr(_, value, rest) =>
      var j := i + 12 + Align4(|value|);
      SkipStep(toks, i, d, j);
      NodesOfBody(toks, rest, j, d, stop);
    case Sub(kid, rest) =>
      var j := i + TreeLen(kid);
      NodesOfTree(toks, kid, i, d, j);
      NodesOfBody(toks, rest, j, d, stop);
      JoinRecords(AllNodes(toks, i, d), Places(kid, i, d), AllNodes(toks, j, d), BodyPlaces(rest, j, d),
                  AllNodes(toks, stop, d));
  }

  /** A token that begins no node only changes the depth. */
  lemma {:induction false} SkipStep(toks: Tokens, i: nat, d: int, j: nat)
    requires Tok(toks, i).Some? && !Tok(toks, i).value.BeginNode? && j == i + Tok(toks, i).value.TotalLen()
    ensures AllNodes(toks, i, d) == AllNodes(toks, j, d + Delta(Tok(toks, i).value))
  {
  }

  lemma {:induction false} BeginStep(toks: Tokens, t: Tree, i: nat, d: int)
    requires TreeIn(toks, i, t)
    ensures AllNodes(toks, i, d) == Records([Place(t, i, d)]) + AllNodes(toks, i + HeadLen(t), d + 1)
  {
    ClosedRecord(toks, t, i, d);
  }

  lemma {:induction false} JoinRecords(all: seq<Node>, a: seq<Place>, mid: seq<Node>, b: seq<Place>, tail: seq<Node>)
    requires all == Records(a) + mid && mid == Records(b) + tail
    ensures all == Records(a + b) + tail
  {
    assert Records(a + b) == Records(a) + Records(b);
  }

  lemma {:induction false} NodesSkipNops(toks: Tokens, i: nat, n: nat, d: int, j: nat)
    requires NopsIn(toks, i, n) && j == i + 4 * n
    ensures AllNodes(toks, i, d) == AllNodes(toks, j, d)
    decreases n
  {
    if n > 0 {
      SkipStep(toks, i, d, i + 4);
      NodesSkipNops(toks, i + 4, n - 1, d, j);
    }
  }

  /** Nothing is found in the end of the block. */
  lemma {:induction false} TailEmpty(toks: Tokens, i: nat, d: int, c: int)
    requires Tok(toks, i) == Some(End(i)) && |toks| == i + 4
    ensures AllNodes(toks, i, d) == [] && Siblings(toks, i, d, c) == []
  {
    assert Tok(toks, i + 4) == None;
  }

  /** `nodes` yields every node of the tree once, in preorder, with its own extent and depth. */
  lemma {:induction false} NodesRoundTrip(lead: nat, root: Tree, trail: nat)
    requires ValidTree(root)
    ensures AllNodes(Lex(FlatBlock(lead, root, trail)), 0, 0) == Records(Places(root, 4 * lead, 0))
  {
    var s := FlatBlock(lead, root, trail);
    FlatBlockIn(s, lead, root, trail);
    BlockNodes(Lex(s), lead, root, trail);
  }

  lemma {:induction false} BlockNodes(toks: Tokens, lead: nat, root: Tree, trail: nat)
    requires BlockIn(toks, lead, root, trail)
    ensures AllNodes(toks, 0, 0) == Records(Places(root, 4 * lead, 0))
  {
    var next := 4 * lead + TreeLen(root);
    NodesSkipNops(toks, 0, lead, 0, 4 * lead);
    NodesOfTree(toks, root, 4 * lead, 0, next);
    NodesSkipNops(toks, next, trail, 0, next + 4 * trail);
    TailEmpty(toks, next + 4 * trail, 0, 0);
  }

  // ----- properties()

  lemma {:induction false} PropsOfBody(toks: Tokens, b: Body, i: nat, close: nat)
    requires BodyIn(toks, i, b) && PropsFirst(b) && close == i + BodyLen(b)
    requires Tok(toks, close) == Some(EndNode(close))
    ensures PropsFrom(toks, i, close + 4) == PropsOf(b, i)
    decreases b
  {
    if !b.Close? {
      var j := After(b, i);
      FirstProp(b, i, j);
      if b.Sub? {
        NoPropsOf(b.rest, j);
      } else {
        PropsOfBody(toks, b.rest, j, close);
        PropsStep(toks, i, j, close + 4);
      }
    }
  }

  lemma {:induction false} PropsStep(toks: Tokens, i: nat, j: nat, stop: nat)
    requires Tok(toks, i).Some? && j == i + Tok(toks, i).value.TotalLen() && i < stop
    requires Tok(toks, i).value.Prop? || Tok(toks, i).value.Nop?
    ensures var tok := Tok(toks, i).value;
            PropsFrom(toks, i, stop)
            == (if tok.Prop? then [Property(i, tok.nameStart, i + 12, tok.valueLen, tok.TotalLen())] else [])
               + PropsFrom(toks, j, stop)
  {
  }

  lemma {:induction false} NoPropsOf(b: Body, i: nat)
    requires NoProps(b)
    ensures PropsOf(b, i) == []
    decreases b
  {
    match b
    case Close =>
    case Pad(rest) => NoPropsOf(rest, i + 4);
    case Sub(kid, rest) => NoPropsOf(rest, i + TreeLen(kid));
  }

  /** The property found at `i` names and holds what was written there. */
  predicate Holds(s: Bytes, p: Property, attr: (U32, Bytes)) {
    p.nameStart == attr.0 && ValueBytes(s, p) == Some(attr.1)
  }

  lemma {:induction false} AttrHolds(s: Bytes, i: nat, nameoff: U32, value: Bytes)
    requires |value| < 0x1_0000_0000 && At(s, i, PropBytes(nameoff, value))
    ensures Holds(s, Property(i, nameoff, i + 12, |value|, 12 + Align4(|value|)), (nameoff, value))
  {
    PropParts(s, i, nameoff, value);
    AtByte(s, i + 8, WordBytes(nameoff), 3);
    AtSlice(s, i + 12, value);
  }

  /** The properties found are those written, one by one. */
  predicate AllHold(s: Bytes, props: seq<Property>, attrs: seq<(U32, Bytes)>) {
    |props| == |attrs| && forall k | 0 <= k < |props| :: Holds(s, props[k], attrs[k])
  }

  lemma {:induction false} AllHoldCons(s: Bytes, p: Property, props: seq<Property>, a: (U32, Bytes),
                                       attrs: seq<(U32, Bytes)>)
    requires Holds(s, p, a) && AllHold(s, props, attrs)
    ensures AllHold(s, [p] + props, [a] + attrs)
  {
  }

  lemma {:induction false} PropsHold(s: Bytes, b: Body, i: nat)
    requires ValidBody(b) && At(s, i, FlatBody(b))
    ensures AllHold(s, PropsOf(b, i), Attrs(b))
    decreases b
  {
    if !b.Close? {
      var j := After(b, i);
      BodyParts(s, i, b, j);
      PropsHold(s, b.rest, j);
      FirstProp(b, i, j);
      if b.Attr? {
        AttrHolds(s, i, b.nameoff, b.value);
        AllHoldCons(s, PropAt(b, i), PropsOf(b.rest, j), (b.nameoff, b.value), Attrs(b.rest));
      }
    }
  }

  function PropAt(b: Body, i: nat): Property
    requires b.Attr?
  {
    Property(i, b.nameoff, i + 12, |b.value|, 12 + Align4(|b.value|))
  }

  lemma {:induction false} FirstProp(b: Body, i: nat, j: nat)
    requires !b.Close? && j == After(b, i)
    ensures PropsOf(b, i) == (if b.Attr? then [PropAt(b, i)] else []) + PropsOf(b.rest, j)
    ensures Attrs(b) == (if b.Attr? then [(b.nameoff, b.value)] else []) + Attrs(b.rest)
  {
  }

  /** `properties` yields each node's own properties, in order, with their names and values. */
  lemma {:induction false} PropertiesRoundTrip(lead: nat, root: Tree, trail: nat, p: Place)
    requires ValidTree(root) && p in Places(root, 4 * lead, 0)
    ensures var s := FlatBlock(lead, root, trail);
            var props, attrs := Properties(Lex(s), p.Record()), Attrs(p.tree.body);
            && props == PropsOf(p.tree.body, p.start + HeadLen(p.tree))
            && AllHold(s, props, attrs)
  {
    var s := FlatBlock(lead, root, trail);
    FlatBlockIn(s, lead, root, trail);
    PlaceAt(s, root, 4 * lead, 0, p);
    PropertiesAt(s, p);
  }

  lemma {:induction false} PropertiesOf(s: Bytes, p: Place)
    requires ValidTree(p.tree) && At(s, p.start, FlatTree(p.tree))
    ensures Properties(Lex(s), p.Record()) == PropsOf(p.tree.body, p.start + HeadLen(p.tree))
  {
    var i := p.start + HeadLen(p.tree);
    FlatTreeIn(s, p.start, p.tree);
    PropsOfBody(Lex(s), p.tree.body, i, i + BodyLen(p.tree.body));
  }

  lemma {:induction false} PropertiesAt(s: Bytes, p: Place)
    requires ValidTree(p.tree) && At(s, p.start, FlatTree(p.tree))
    ensures var props, attrs := Properties(Lex(s), p.Record()), Attrs(p.tree.body);
            && props == PropsOf(p.tree.body, p.start + HeadLen(p.tree))
            && AllHold(s, props, attrs)
  {
    PropertiesOf(s, p);
    TreeParts(s, p.start, p.tree);
    PropsHold(s, p.tree.body, p.start + HeadLen(p.tree));
  }
}
