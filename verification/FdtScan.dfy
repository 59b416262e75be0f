/**
 The linear scans of a structure block (port/src/fdt.rs): finding one node, walking over
 all nodes, the children and the properties of a node, and the parent of a node. Each scan
 is given as a function of the block's tokens, and each loop of the source as a method or
 an iterator that computes that function. Depths are integers: the underflow of an
 unsigned depth on a block with unmatched end tokens is not represented.
 */
module FdtScan {
  import opened Wrappers
  import opened FdtTokens
  import opened FdtTree

  /** How a token changes the depth of what follows. */
  function Delta(tok: Token): int {
    match tok
    case BeginNode(_, _) => 1
    case EndNode(_) => -1
    case _ => 0
  }

  /** From `i` at depth `d`, the end token that brings the depth down to `c`. */
  function FindEnd(toks: Tokens, i: nat, d: int, c: int): (r: Option<nat>)
    ensures r.Some? ==> i <= r.value < |toks|
    decreases |toks| - i
  {
    match Tok(toks, i)
    case None => None
    case Some(tok) =>
      if tok.EndNode? && d - 1 == c then Some(i)
      else FindEnd(toks, i + tok.TotalLen(), d + Delta(tok), c)
  }

  /** The record of a node begun at `start` whose end token is at `e`. */
  function ClosedBy(start: nat, next: nat, c: int, e: Option<nat>): Option<Node>
    requires e.Some? ==> start <= e.value
  {
    match e
    case None => None
    case Some(e) => Some(Node(start, start + 4, next, e + 4 - start, c))
  }

  /** The node of depth `c` begun by `tok` at `i`, if its end token is found. */
  function Closed(toks: Tokens, i: nat, tok: Token, c: int): (r: Option<Node>)
    requires i < |toks|
    ensures r.Some? ==> r.value.start == i && r.value.totalLen > 0 && r.value.depth == c
    ensures r.Some? ==> r.value.nextTokenStart == i + tok.TotalLen()
  {
    var next := i + tok.TotalLen();
    ClosedBy(i, next, c, FindEnd(toks, next, c + 1, c))
  }

  /** `node_from_index`, having reached depth `d` without having met the node sought. */
  function FindNode(toks: Tokens, i: nat, d: int, c: int): (r: Option<Node>)
    ensures r.Some? ==> i <= r.value.start < |toks| && r.value.totalLen > 0 && r.value.depth == c
    decreases |toks| - i
  {
    match Tok(toks, i)
    case None => None
    case Some(tok) =>
      if tok.BeginNode? && d == c then Closed(toks, i, tok, c)
      else if tok.EndNode? && d - 1 == c then None
      else FindNode(toks, i + tok.TotalLen(), d + Delta(tok), c)
  }

  /** One step of `nodes`: the first node begun at or after `i`. */
  function NextNode(toks: Tokens, i: nat, d: int): (r: Option<Node>)
    ensures r.Some? ==> i < r.value.nextTokenStart && i < |toks|
    decreases |toks| - i
  {
    match Tok(toks, i)
    case None => None
    case Some(tok) =>
      if tok.BeginNode? then Closed(toks, i, tok, d)
      else NextNode(toks, i + tok.TotalLen(), d + Delta(tok))
  }

  /** What `nodes` yields from `i` at depth `d` on. */
  function AllNodes(toks: Tokens, i: nat, d: int): seq<Node>
    decreases |toks| - i
  {
    match NextNode(toks, i, d)
    case None => []
    case Some(n) => [n] + AllNodes(toks, n.nextTokenStart, n.depth + 1)
  }

  /** What `children` yields from `i` on, where the depth is `d` and the children's `c`. */
  function Siblings(toks: Tokens, i: nat, d: int, c: int): seq<Node>
    decreases |toks| - i
  {
    match FindNode(toks, i, d, c)
    case None => []
    case Some(n) => [n] + Siblings(toks, n.start + n.totalLen, c, c)
  }

  lemma {:induction false} SiblingsFollow(toks: Tokens, i: nat, d: int, c: int)
    ensures forall n | n in Siblings(toks, i, d, c) :: n.depth == c && n.start >= i && n.totalLen > 0
    decreases |toks| - i
  {
    var first := FindNode(toks, i, d, c);
    if first.Some? {
      SiblingsFollow(toks, first.value.start + first.value.totalLen, c, c);
    }
  }

  function Children(toks: Tokens, n: Node): seq<Node> {
    Siblings(toks, n.nextTokenStart, n.depth + 1, n.depth + 1)
  }

  function Root(toks: Tokens): Option<Node> {
    FindNode(toks, 0, 0, 0)
  }

  predicate Encloses(outer: Node, inner: Node) {
    outer.start <= inner.start && outer.start + outer.totalLen >= inner.start + inner.totalLen
  }

  function Above(d: int, child: Node): nat {
    if d < child.depth then child.depth - d else 0
  }

  function FindParent(toks: Tokens, n: Node, child: Node): Option<Node>
    decreases Above(n.depth, child), 0
  {
    if !Encloses(n, child) || n.depth >= child.depth then None
    else if n.depth + 1 < child.depth then
      SiblingsFollow(toks, n.nextTokenStart, n.depth + 1, n.depth + 1);
      match FirstParent(toks, Children(toks, n), n.depth + 1, child)
      case Some(p) => Some(p)
      case None => Some(n)
    else Some(n)
  }

  predicate OneDepth(ns: seq<Node>, d: int) {
    forall n | n in ns :: n.depth == d
  }

  /** The first parent found among candidates of one depth. */
  function FirstParent(toks: Tokens, ns: seq<Node>, d: int, child: Node): Option<Node>
    requires OneDepth(ns, d)
    decreases Above(d, child), 1 + |ns|
  {
    if ns == [] then None
    else
      match FindParent(toks, ns[0], child)
      case Some(p) => Some(p)
      case None => FirstParent(toks, ns[1..], d, child)
  }

  function Parent(toks: Tokens, child: Node): Option<Node> {
    match Root(toks)
    case None => None
    case Some(root) => FindParent(toks, root, child)
  }

  /** What `properties` yields from `i` on, for a node that ends at `stop`. */
  function PropsFrom(toks: Tokens, i: nat, stop: nat): seq<Property>
    decreases |toks| - i
  {
    if i >= stop then []
    else
      match Tok(toks, i)
      case None => []
      case Some(tok) =>
        if tok.Prop? then
          [Property(i, tok.nameStart, i + 12, tok.valueLen, tok.TotalLen())]
          + PropsFrom(toks, i + tok.TotalLen(), stop)
        else if tok.Nop? then PropsFrom(toks, i + tok.TotalLen(), stop)
        else []
  }

  function Properties(toks: Tokens, n: Node): seq<Property> {
    PropsFrom(toks, n.nextTokenStart, n.start + n.totalLen)
  }

  /** The bytes of a property's value. */
  function ValueBytes(s: Bytes, p: Property): Option<Bytes> {
    if p.valueStart + p.valueLen <= |s| then Some(s[p.valueStart..p.valueStart + p.valueLen]) else None
  }

  // ----- the source's loops

  method ReadToken(structs: Bytes, i: nat) returns (r: Option<Token>)
    ensures r == Tok(Lex(structs), i)
    ensures r.Some? ==> r.value.start == i
  {
    LexAt(structs, i);
    r := ParseToken(structs, i);
  }

  method NodeFromIndex(structs: Bytes, start: nat, nodeDepth: int) returns (r: Option<Node>)
    ensures r == FindNode(Lex(structs), start, nodeDepth, nodeDepth)
  {
    ghost var toks := Lex(structs);
    ghost var sought := FindNode(toks, start, nodeDepth, nodeDepth);
    var i := start;
    var begin: Option<nat> := None;
    var nextTokenStart := 0;
    var depth := nodeDepth;
    while i < |structs|
      invariant begin.None? ==> depth <= nodeDepth && sought == FindNode(toks, i, depth, nodeDepth)
      invariant begin.Some? ==> depth > nodeDepth && begin.value < nextTokenStart <= i
      invariant begin.Some? ==>
                  sought == ClosedBy(begin.value, nextTokenStart, nodeDepth, FindEnd(toks, i, depth, nodeDepth))
      decreases |structs| - i
    {
      var token := ReadToken(structs, i);
      match token
      case None =>
        return None;
      case Some(tok) =>
        if tok.BeginNode? {
          if depth == nodeDepth {
            begin := Some(tok.start);
            nextTokenStart := i + tok.TotalLen();
          }
          depth := depth + 1;
        } else if tok.EndNode? {
          depth := depth - 1;
          if depth == nodeDepth {
            return if begin.Some?
                then Some(Node(begin.value, begin.value + 4, nextTokenStart, tok.start + 4 - begin.value, nodeDepth))
                else None;
          }
        }
        i := i + tok.TotalLen();
    }
    return None;
  }

  /** The iterator that `nodes` returns. */
  class NodeIter {
    const structs: Bytes
    var i: nat
    var depth: int

    constructor (structs: Bytes)
      ensures this.structs == structs
      ensures Remaining() == AllNodes(Lex(structs), 0, 0)
    {
      this.structs := structs;
      i := 0;
      depth := 0;
    }

    /** The nodes still to come. */
    ghost function Remaining(): seq<Node>
      reads this
    {
      AllNodes(Lex(structs), i, depth)
    }

    method Next() returns (r: Option<Node>)
      modifies this
      ensures r.None? ==> old(Remaining()) == []
      ensures r.Some? ==> old(Remaining()) == [r.value] + Remaining()
    {
      ghost var toks := Lex(structs);
      ghost var found := NextNode(toks, i, depth);
      var nodeDepth := 0;
      var nextTokenStart := 0;
      var begin: Option<nat> := None;
      while i < |structs|
        invariant begin.None? ==> found == NextNode(toks, i, depth)
        invariant begin.Some? ==> depth > nodeDepth && begin.value < nextTokenStart <= i
        invariant begin.Some? ==>
                    found == ClosedBy(begin.value, nextTokenStart, nodeDepth, FindEnd(toks, i, depth, nodeDepth))
        decreases |structs| - i
      {
        var token := ReadToken(structs, i);
        match token
        case None =>
          return None;
        case Some(tok) =>
          if tok.BeginNode? {
            if begin.None? {
              begin := Some(tok.start);
              nodeDepth := depth;
              nextTokenStart := i + tok.TotalLen();
            }
            depth := depth + 1;
          } else if tok.EndNode? {
            if begin.Some? && depth - 1 == nodeDepth {
              i := nextTokenStart;
              r := Some(Node(begin.value, begin.value + 4, nextTokenStart, tok.start + 4 - begin.value, nodeDepth));
              return;
            }
            depth := depth - 1;
          }
          i := i + tok.TotalLen();
      }
      return None;
    }
  }

  /** The iterator that `children` returns. */
  class ChildIter {
    const structs: Bytes
    const childDepth: int
    var i: nat

    constructor (structs: Bytes, parent: Node)
      ensures this.structs == structs && childDepth == parent.depth + 1
      ensures Remaining() == Children(Lex(structs), parent)
    {
      this.structs := structs;
      i := parent.nextTokenStart;
      childDepth := parent.depth + 1;
    }

    ghost function Remaining(): seq<Node>
      reads this
    {
      Siblings(Lex(structs), i, childDepth, childDepth)
    }

    method Next() returns (r: Option<Node>)
      modifies this
      ensures r.None? ==> old(Remaining()) == []
      ensures r.Some? ==> old(Remaining()) == [r.value] + Remaining()
    {
      r := NodeFromIndex(structs, i, childDepth);
      if r.Some? {
        i := r.value.start + r.value.totalLen;
      }
    }
  }

  method FindParentBelow(structs: Bytes, node: Node, child: Node) returns (r: Option<Node>)
    ensures r == FindParent(Lex(structs), node, child)
    decreases Above(node.depth, child)
  {
    if !Encloses(node, child) || node.depth >= child.depth {
      return None;
    }
    if node.depth + 1 < child.depth {
      SiblingsFollow(Lex(structs), node.nextTokenStart, node.depth + 1, node.depth + 1);
      var children := new ChildIter(structs, node);
      ghost var found := FirstParent(Lex(structs), children.Remaining(), node.depth + 1, child);
      var c := children.Next();
      while c.Some?
        invariant children.structs == structs && children.childDepth == node.depth + 1
        invariant c.Some? ==> OneDepth([c.value] + children.Remaining(), node.depth + 1)
        invariant c.Some? ==>
                    found == FirstParent(Lex(structs), [c.value] + children.Remaining(), node.depth + 1, child)
        invariant c.None? ==> found == None
        decreases c.Some?, |children.Remaining()|
      {
        var p := FindParentBelow(structs, c.value, child);
        if p.Some? {
          return p;
        }
        assert ([c.value] + children.Remaining())[1..] == children.Remaining();
        SiblingsFollow(Lex(structs), children.i, children.childDepth, children.childDepth);
        c := children.Next();
      }
    }
    return Some(node);
  }

  /** The iterator that `properties` returns. */
  class PropIter {
    const structs: Bytes
    const stop: nat
    var i: nat

    constructor (structs: Bytes, node: Node)
      ensures this.structs == structs
      ensures Remaining() == Properties(Lex(structs), node)
    {
      this.structs := structs;
      stop := node.start + node.totalLen;
      i := node.nextTokenStart;
    }

    ghost function Remaining(): seq<Property>
      reads this
    {
      PropsFrom(Lex(structs), i, stop)
    }

    method Next() returns (r: Option<Property>)
      modifies this
      ensures r.None? ==> old(Remaining()) == []
      ensures r.Some? ==> old(Remaining()) == [r.value] + Remaining()
    {
      while i < stop
        invariant Remaining() == old(Remaining())
        decreases |structs| - i
      {
        var token := ReadToken(structs, i);
        match token
        case Some(tok) =>
          if tok.Prop? {
            i := i + tok.TotalLen();
            r := Some(Property(tok.start, tok.nameStart, tok.start + 12, tok.valueLen, tok.TotalLen()));
            return;
          } else if tok.Nop? {
            i := i + tok.TotalLen();
          } else {
            return None;
          }
        case None =>
          return None;
      }
      return None;
    }
  }
}
