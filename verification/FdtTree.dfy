/**
 Devicetrees as values, and their flattening by section 5.4.2 of the Devicetree
 Specification: a node is a begin token with its name, then its properties and child
 nodes, then an end token, with NOP tokens allowed in between.
 */
module FdtTree {
  import opened Wrappers
  import opened FdtTokens

  datatype Tree = Tree(name: Bytes, body: Body)

  /** What stands between a node's begin and end tokens. */
  datatype Body =
    | Close
    | Pad(rest: Body)
    | Attr(nameoff: U32, value: Bytes, rest: Body)
    | Sub(kid: Tree, rest: Body)

  /**
   What the specification allows: names without zero bytes, values whose length fits its
   field, and in each node the properties before the children.
   */
  predicate ValidTree(t: Tree) {
    (forall j | 0 <= j < |t.name| :: t.name[j] != 0) && PropsFirst(t.body) && ValidBody(t.body)
  }

  predicate ValidBody(b: Body) {
    match b
    case Close => true
    case Pad(rest) => ValidBody(rest)
    case Attr(_, value, rest) => |value| < 0x1_0000_0000 && ValidBody(rest)
    case Sub(kid, rest) => ValidTree(kid) && ValidBody(rest)
  }

  predicate PropsFirst(b: Body) {
    match b
    case Close => true
    case Pad(rest) => PropsFirst(rest)
    case Attr(_, _, rest) => PropsFirst(rest)
    case Sub(_, rest) => NoProps(rest)
  }

  predicate NoProps(b: Body) {
    match b
    case Close => true
    case Pad(rest) => NoProps(rest)
    case Attr(_, _, _) => false
    case Sub(_, rest) => NoProps(rest)
  }

  function HeadLen(t: Tree): nat {
    4 + Align4(|t.name| + 1)
  }

  function TreeLen(t: Tree): (r: nat)
    ensures r >= HeadLen(t) + 4
  {
    HeadLen(t) + BodyLen(t.body) + 4
  }

  function BodyLen(b: Body): nat {
    match b
    case Close => 0
    case Pad(rest) => 4 + BodyLen(rest)
    case Attr(_, value, rest) => 12 + Align4(|value|) + BodyLen(rest)
    case Sub(kid, rest) => TreeLen(kid) + BodyLen(rest)
  }

  /** Where the rest of a body starts. */
  function After(b: Body, i: nat): (j: nat)
    requires !b.Close?
    ensures j == i + BodyLen(b) - BodyLen(b.rest)
  {
    match b
    case Pad(_) => i + 4
    case Attr(_, value, _) => i + 12 + Align4(|value|)
    case Sub(kid, _) => i + TreeLen(kid)
  }

  function FlatTree(t: Tree): (r: Bytes)
    requires ValidTree(t)
    ensures |r| == TreeLen(t)
  {
    BeginBytes(t.name) + FlatBody(t.body) + EndBytes()
  }

  function FlatBody(b: Body): (r: Bytes)
    requires ValidBody(b)
    ensures |r| == BodyLen(b)
  {
    match b
    case Close => []
    case Pad(rest) => NopBytes() + FlatBody(rest)
    case Attr(nameoff, value, rest) => PropBytes(nameoff, value) + FlatBody(rest)
    case Sub(kid, rest) => FlatTree(kid) + FlatBody(rest)
  }

  function Nops(n: nat): (r: Bytes)
    ensures |r| == 4 * n
  {
    if n == 0 then [] else NopBytes() + Nops(n - 1)
  }

  /** A whole structure block. */
  function FlatBlock(lead: nat, root: Tree, trail: nat): Bytes
    requires ValidTree(root)
  {
    Nops(lead) + FlatTree(root) + Nops(trail) + FinalBytes()
  }

  // ----- how a flattened tree looks to the tokeniser

  /** From `i` on, the tokens are those of `t`. */
  ghost predicate TreeIn(toks: Tokens, i: nat, t: Tree)
    decreases t
  {
    var close := i + HeadLen(t) + BodyLen(t.body);
    && Tok(toks, i) == Some(BeginNode(i, Align4(|t.name| + 1)))
    && BodyIn(toks, i + HeadLen(t), t.body)
    && Tok(toks, close) == Some(EndNode(close))
  }

  ghost predicate BodyIn(toks: Tokens, i: nat, b: Body)
    decreases b
  {
    match b
    case Close => true
    case Pad(rest) => Tok(toks, i) == Some(Nop(i)) && BodyIn(toks, i + 4, rest)
    case Attr(nameoff, value, rest) =>
      && Tok(toks, i) == Some(Prop(i, nameoff, |value|))
      && BodyIn(toks, i + 12 + Align4(|value|), rest)
    case Sub(kid, rest) => TreeIn(toks, i, kid) && BodyIn(toks, i + TreeLen(kid), rest)
  }

  ghost predicate NopsIn(toks: Tokens, i: nat, n: nat)
    decreases n
  {
    n > 0 ==> Tok(toks, i) == Some(Nop(i)) && NopsIn(toks, i + 4, n - 1)
  }

  /** The tokens are those of a structure block with root node `root` after `lead` NOPs. */
  ghost predicate BlockIn(toks: Tokens, lead: nat, root: Tree, trail: nat) {
    var first := 4 * lead;
    var next := first + TreeLen(root);
    var last := next + 4 * trail;
    && NopsIn(toks, 0, lead)
    && TreeIn(toks, first, root)
    && NopsIn(toks, next, trail)
    && Tok(toks, last) == Some(End(last))
    && |toks| == last + 4
  }

  lemma {:induction false} TreeParts(s: Bytes, i: nat, t: Tree)
    requires ValidTree(t) && At(s, i, FlatTree(t))
    ensures At(s, i, BeginBytes(t.name)) && At(s, i + HeadLen(t), FlatBody(t.body))
    ensures At(s, i + HeadLen(t) + BodyLen(t.body), EndBytes())
  {
    AtConcat(s, i, BeginBytes(t.name) + FlatBody(t.body), EndBytes(), i + HeadLen(t) + BodyLen(t.body));
    AtConcat(s, i, BeginBytes(t.name), FlatBody(t.body), i + HeadLen(t));
  }

  lemma {:induction false} FlatTreeIn(s: Bytes, i: nat, t: Tree)
    requires ValidTree(t) && At(s, i, FlatTree(t))
    ensures TreeIn(Lex(s), i, t)
    decreases t
  {
    TreeParts(s, i, t);
    LexBegin(s, i, t.name);
    FlatBodyIn(s, i + HeadLen(t), t.body);
    LexEnd(s, i + HeadLen(t) + BodyLen(t.body));
  }

  /** A body's bytes are those of its first part and then those of the rest. */
  lemma {:induction false} BodyParts(s: Bytes, i: nat, b: Body, j: nat)
    requires ValidBody(b) && !b.Close? && At(s, i, FlatBody(b)) && j == i + BodyLen(b) - BodyLen(b.rest)
    ensures ValidBody(b.rest) && At(s, j, FlatBody(b.rest))
    ensures match b
            case Close => true
            case Pad(_) => At(s, i, NopBytes())
            case Attr(nameoff, value, _) => |value| < 0x1_0000_0000 && At(s, i, PropBytes(nameoff, value))
            case Sub(kid, _) => ValidTree(kid) && At(s, i, FlatTree(kid))
  {
    match b
    case Pad(rest) => AtConcat(s, i, NopBytes(), FlatBody(rest), j);
    case Attr(nameoff, value, rest) => AtConcat(s, i, PropBytes(nameoff, value), FlatBody(rest), j);
    case Sub(kid, rest) => AtConcat(s, i, FlatTree(kid), FlatBody(rest), j);
  }

  /** The first part of a body stands at `i`. */
  ghost predicate PartIn(toks: Tokens, i: nat, b: Body)
    requires !b.Close?
  {
    match b
    case Pad(_) => Tok(toks, i) == Some(Nop(i))
    case Attr(nameoff, value, _) => Tok(toks, i) == Some(Prop(i, nameoff, |value|))
    case Sub(kid, _) => TreeIn(toks, i, kid)
  }

  lemma {:induction false} BodyInStep(toks: Tokens, i: nat, b: Body)
    requires !b.Close? && PartIn(toks, i, b) && BodyIn(toks, After(b, i), b.rest)
    ensures BodyIn(toks, i, b)
  {
  }

  lemma {:induction false} FlatBodyIn(s: Bytes, i: nat, b: Body)
    requires ValidBody(b) && At(s, i, FlatBody(b))
    ensures BodyIn(Lex(s), i, b)
    decreases b
  {
    if !b.Close? {
      var j := After(b, i);
      BodyParts(s, i, b, j);
      FlatBodyIn(s, j, b.rest);
      assert PartIn(Lex(s), i, b) by {
        match b
        case Pad(_) => LexNop(s, i);
        case Attr(nameoff, value, _) => LexProp(s, i, nameoff, value);
        case Sub(kid, _) => FlatTreeIn(s, i, kid);
      }
      BodyInStep(Lex(s), i, b);
    }
  }

  lemma {:induction false} FlatNopsIn(s: Bytes, i: nat, n: nat)
    requires At(s, i, Nops(n))
    ensures NopsIn(Lex(s), i, n)
    decreases n
  {
    if n > 0 {
      AtConcat(s, i, NopBytes(), Nops(n - 1), i + 4);
      LexNop(s, i);
      FlatNopsIn(s, i + 4, n - 1);
    }
  }

  lemma {:induction false} BlockParts(s: Bytes, lead: nat, root: Tree, trail: nat, first: nat, next: nat, last: nat)
    requires ValidTree(root) && At(s, 0, FlatBlock(lead, root, trail))
    requires first == 4 * lead && next == first + TreeLen(root) && last == next + 4 * trail
    ensures At(s, 0, Nops(lead)) && At(s, first, FlatTree(root))
    ensures At(s, next, Nops(trail)) && At(s, last, FinalBytes())
  {
    AtConcat(s, 0, Nops(lead) + FlatTree(root) + Nops(trail), FinalBytes(), last);
    AtConcat(s, 0, Nops(lead) + FlatTree(root), Nops(trail), next);
    AtConcat(s, 0, Nops(lead), FlatTree(root), first);
  }

  /** Every flattened block tokenises as the tree it was made from. */
  lemma {:induction false} FlatBlockIn(s: Bytes, lead: nat, root: Tree, trail: nat)
    requires ValidTree(root) && s == FlatBlock(lead, root, trail)
    ensures BlockIn(Lex(s), lead, root, trail)
    ensures At(s, 4 * lead, FlatTree(root))
  {
    var first: nat := 4 * lead;
    var next := first + TreeLen(root);
    var last := next + 4 * trail;
    AtSelf(s, 0);
    assert s[0..] == s;
    BlockParts(s, lead, root, trail, first, next, last);
    FlatNopsIn(s, 0, lead);
    FlatTreeIn(s, first, root);
    FlatNopsIn(s, next, trail);
    LexFinal(s, last);
  }

  // ----- the nodes of a tree, as the reader's records

  datatype Node = Node(start: nat, nameStart: nat, nextTokenStart: nat, totalLen: nat, depth: int)

  datatype Property = Property(start: nat, nameStart: nat, valueStart: nat, valueLen: nat, totalLen: nat)

  /** A node of the tree, with where it starts in the block and how deep it is. */
  datatype Place = Place(tree: Tree, start: nat, depth: int) {
    function Record(): Node {
      Node(start, start + 4, start + HeadLen(tree), TreeLen(tree), depth)
    }

    /** The places of this node's children. */
    function Kids(): seq<Place> {
      KidsOf(tree.body, start + HeadLen(tree), depth + 1)
    }

    function Stop(): nat {
      start + TreeLen(tree)
    }
  }

  function KidsOf(b: Body, i: nat, d: int): seq<Place> {
    match b
    case Close => []
    case Pad(rest) => KidsOf(rest, i + 4, d)
    case Attr(_, value, rest) => KidsOf(rest, i + 12 + Align4(|value|), d)
    case Sub(kid, rest) => [Place(kid, i, d)] + KidsOf(rest, i + TreeLen(kid), d)
  }

  /** The node and all below it, in preorder. */
  function Places(t: Tree, i: nat, d: int): (r: seq<Place>)
    ensures |r| > 0
    decreases t
  {
    [Place(t, i, d)] + BodyPlaces(t.body, i + HeadLen(t), d + 1)
  }

  function BodyPlaces(b: Body, i: nat, d: int): seq<Place>
    decreases b
  {
    match b
    case Close => []
    case Pad(rest) => BodyPlaces(rest, i + 4, d)
    case Attr(_, value, rest) => BodyPlaces(rest, i + 12 + Align4(|value|), d)
    case Sub(kid, rest) => Places(kid, i, d) + BodyPlaces(rest, i + TreeLen(kid), d)
  }

  function Records(ps: seq<Place>): (r: seq<Node>)
    ensures |r| == |ps| && forall j | 0 <= j < |r| :: r[j] == ps[j].Record()
  {
    seq(|ps|, j requires 0 <= j < |ps| => ps[j].Record())
  }

  /** The properties in a node's body, in order. */
  function PropsOf(b: Body, i: nat): seq<Property> {
    match b
    case Close => []
    case Pad(rest) => PropsOf(rest, i + 4)
    case Attr(nameoff, value, rest) =>
      var len := 12 + Align4(|value|);
      [Property(i, nameoff, i + 12, |value|, len)] + PropsOf(rest, i + len)
    case Sub(kid, rest) => PropsOf(rest, i + TreeLen(kid))
  }

  /** A node's own properties: the offsets of their names and their values. */
  function Attrs(b: Body): seq<(U32, Bytes)> {
    match b
    case Close => []
    case Pad(rest) => Attrs(rest)
    case Attr(nameoff, value, rest) => [(nameoff, value)] + Attrs(rest)
    case Sub(_, rest) => Attrs(rest)
  }

  /** Nodes lie inside the node above them, deeper, and before its end token. */
  lemma {:induction false} PlacesInside(t: Tree, i: nat, d: int, p: Place)
    requires p in Places(t, i, d)
    ensures i <= p.start && p.Stop() <= i + TreeLen(t) && p.depth >= d
    ensures p == Place(t, i, d) || p in BodyPlaces(t.body, i + HeadLen(t), d + 1)
    ensures p != Place(t, i, d) ==> i < p.start && p.Stop() < i + TreeLen(t) && p.depth > d
    decreases t
  {
    if p != Place(t, i, d) {
      BodyPlacesInside(t.body, i + HeadLen(t), d + 1, p);
    }
  }

  lemma {:induction false} BodyPlacesInside(b: Body, i: nat, d: int, p: Place)
    requires p in BodyPlaces(b, i, d)
    ensures i <= p.start && p.Stop() <= i + BodyLen(b) && p.depth >= d
    decreases b
  {
    match b
    case Close =>
    case Pad(rest) => BodyPlacesInside(rest, i + 4, d, p);
    case Attr(_, value, rest) => BodyPlacesInside(rest, i + 12 + Align4(|value|), d, p);
    case Sub(kid, rest) =>
      if p in Places(kid, i, d) {
        PlacesInside(kid, i, d, p);
      } else {
        BodyPlacesInside(rest, i + TreeLen(kid), d, p);
      }
  }

  /** A child is one of its parent body's nodes, at the body's own depth. */
  lemma {:induction false} KidsArePlaces(b: Body, i: nat, d: int, k: Place)
    requires k in KidsOf(b, i, d)
    ensures k in BodyPlaces(b, i, d) && k.depth == d
    decreases b
  {
    match b
    case Close =>
    case Pad(rest) => KidsArePlaces(rest, i + 4, d, k);
    case Attr(_, value, rest) => KidsArePlaces(rest, i + 12 + Align4(|value|), d, k);
    case Sub(kid, rest) =>
      if k != Place(kid, i, d) {
        KidsArePlaces(rest, i + TreeLen(kid), d, k);
      }
  }

  lemma {:induction false} KidInside(p: Place, k: Place)
    requires k in p.Kids()
    ensures p.start < k.start && k.Stop() < p.Stop() && k.depth == p.depth + 1
  {
    KidsArePlaces(p.tree.body, p.start + HeadLen(p.tree), p.depth + 1, k);
    BodyPlacesInside(p.tree.body, p.start + HeadLen(p.tree), p.depth + 1, k);
  }

  /** A child of a node of the tree is a node of the tree. */
  lemma {:induction false} KidInTree(t: Tree, i: nat, d: int, p: Place, k: Place)
    requires p in Places(t, i, d) && k in p.Kids()
    ensures k in Places(t, i, d)
    decreases t, 1
  {
    if p == Place(t, i, d) {
      KidsArePlaces(t.body, i + HeadLen(t), d + 1, k);
    } else {
      KidInBody(t.body, i + HeadLen(t), d + 1, p, k);
    }
  }

  lemma {:induction false} KidInBody(b: Body, i: nat, d: int, p: Place, k: Place)
    requires p in BodyPlaces(b, i, d) && k in p.Kids()
    ensures k in BodyPlaces(b, i, d)
    decreases b, 0
  {
    match b
    case Close =>
    case Pad(rest) => KidInBody(rest, i + 4, d, p, k);
    case Attr(_, value, rest) => KidInBody(rest, i + 12 + Align4(|value|), d, p, k);
    case Sub(kid, rest) =>
      if p in Places(kid, i, d) {
        KidInTree(kid, i, d, p, k);
      } else {
        KidInBody(rest, i + TreeLen(kid), d, p, k);
      }
  }

  /** Every node of the tree but its root is the child of some node of the tree. */
  lemma {:induction false} HasParent(t: Tree, i: nat, d: int, k: Place) returns (p: Place)
    requires k in Places(t, i, d) && k != Place(t, i, d)
    ensures p in Places(t, i, d) && k in p.Kids()
    decreases t, 1
  {
    var q := BodyHasParent(t.body, i + HeadLen(t), d + 1, k);
    p := if q.Some? then q.value else Place(t, i, d);
  }

  lemma {:induction false} BodyHasParent(b: Body, i: nat, d: int, k: Place) returns (p: Option<Place>)
    requires k in BodyPlaces(b, i, d)
    ensures p.Some? ==> p.value in BodyPlaces(b, i, d) && k in p.value.Kids()
    ensures p.None? ==> k in KidsOf(b, i, d)
    decreases b, 0
  {
    match b
    case Close => p := None;
    case Pad(rest) => p := BodyHasParent(rest, i + 4, d, k);
    case Attr(_, value, rest) => p := BodyHasParent(rest, i + 12 + Align4(|value|), d, k);
    case Sub(kid, rest) =>
      if k == Place(kid, i, d) {
        p := None;
      } else if k in Places(kid, i, d) {
        var q := HasParent(kid, i, d, k);
        p := Some(q);
      } else {
        p := BodyHasParent(rest, i + TreeLen(kid), d, k);
      }
  }

  /** A node's bytes are those of its own tree flattened. */
  lemma {:induction false} PlaceAt(s: Bytes, t: Tree, i: nat, d: int, p: Place)
    requires ValidTree(t) && At(s, i, FlatTree(t)) && p in Places(t, i, d)
    ensures ValidTree(p.tree) && At(s, p.start, FlatTree(p.tree))
    decreases t
  {
    if p != Place(t, i, d) {
      TreeParts(s, i, t);
      BodyPlaceAt(s, t.body, i + HeadLen(t), d + 1, p);
    }
  }

  lemma {:induction false} FirstPlaces(b: Body, i: nat, d: int)
    requires !b.Close?
    ensures BodyPlaces(b, i, d) == (if b.Sub? then Places(b.kid, i, d) else []) + BodyPlaces(b.rest, After(b, i), d)
  {
  }

  lemma {:induction false} BodyPlaceAt(s: Bytes, b: Body, i: nat, d: int, p: Place)
    requires ValidBody(b) && At(s, i, FlatBody(b)) && p in BodyPlaces(b, i, d)
    ensures ValidTree(p.tree) && At(s, p.start, FlatTree(p.tree))
    decreases b
  {
    if !b.Close? {
      var j := After(b, i);
      BodyParts(s, i, b, j);
      FirstPlaces(b, i, d);
      if b.Sub? && p in Places(b.kid, i, d) {
        PlaceAt(s, b.kid, i, d, p);
      } else {
        BodyPlaceAt(s, b.rest, j, d, p);
      }
    }
  }
}
