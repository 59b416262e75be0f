/**
 What `parent` (port/src/fdt.rs) returns on a flattened tree: the true parent of every
 node but the root, and nothing for the root.
 */
module FdtParent {
  import opened Wrappers
  import opened FdtTokens
  import opened FdtTree
  import opened FdtScan
  import opened FdtRoundTrip
  import opened FdtChildren

  lemma {:induction false} ParentInTree(toks: Tokens, t: Tree, i: nat, d: int, p: Place, k: Place)
    requires TreeIn(toks, i, t) && p in Places(t, i, d) && k in p.Kids()
    ensures FindParent(toks, Place(t, i, d).Record(), k.Record()) == Some(p.Record())
    decreases t, 1
  {
    var self := Place(t, i, d);
    KidInside(p, k);
    PlacesInside(t, i, d, p);
    if p != self {
      var ns := SearchedKids(toks, self);
      ParentInBody(toks, t.body, i + HeadLen(t), d + 1, Siblings(toks, self.Stop(), d, d + 1), p, k);
      Descend(toks, self.Record(), ns, k.Record());
    }
  }

  /** The candidates among which the search for a parent goes on below `p`. */
  lemma {:induction false} SearchedKids(toks: Tokens, p: Place) returns (ns: seq<Node>)
    requires TreeIn(toks, p.start, p.tree)
    ensures ns == Records(KidsOf(p.tree.body, p.start + HeadLen(p.tree), p.depth + 1))
                  + Siblings(toks, p.Stop(), p.depth, p.depth + 1)
    ensures ns == Children(toks, p.Record()) && OneDepth(ns, p.depth + 1)
  {
    var tail := Siblings(toks, p.Stop(), p.depth, p.depth + 1);
    ChildrenSplit(toks, p);
    SiblingsFollow(toks, p.Stop(), p.depth, p.depth + 1);
    KidsOneDepth(p.tree.body, p.start + HeadLen(p.tree), p.depth + 1, tail);
    ns := Records(p.Kids()) + tail;
  }

  lemma {:induction false} Descend(toks: Tokens, n: Node, ns: seq<Node>, child: Node)
    requires Encloses(n, child) && n.depth + 1 < child.depth
    requires ns == Children(toks, n) && OneDepth(ns, n.depth + 1)
    requires FirstParent(toks, ns, n.depth + 1, child).Some?
    ensures FindParent(toks, n, child) == FirstParent(toks, ns, n.depth + 1, child)
  {
  }

  lemma {:induction false} KidsOneDepth(b: Body, i: nat, d: int, tail: seq<Node>)
    requires OneDepth(tail, d)
    ensures OneDepth(Records(KidsOf(b, i, d)) + tail, d)
  {
    var kids := KidsOf(b, i, d);
    forall n | n in Records(kids)
      ensures n.depth == d
    {
      var k :| 0 <= k < |kids| && Records(kids)[k] == n;
      KidsArePlaces(b, i, d, kids[k]);
    }
  }

  /** Among a node's children the search settles on the one that holds the parent. */
  lemma {:induction false} ParentInBody(toks: Tokens, b: Body, i: nat, d: int, tail: seq<Node>, p: Place, k: Place)
    requires BodyIn(toks, i, b) && p in BodyPlaces(b, i, d) && k in p.Kids()
    requires OneDepth(Records(KidsOf(b, i, d)) + tail, d)
    ensures FirstParent(toks, Records(KidsOf(b, i, d)) + tail, d, k.Record()) == Some(p.Record())
    decreases b, 0
  {
    match b
    case Pad(rest) => ParentInBody(toks, rest, i + 4, d, tail, p, k);
    case Attr(_, value, rest) => ParentInBody(toks, rest, i + 12 + Align4(|value|), d, tail, p, k);
    case Sub(kid, rest) =>
      var j := i + TreeLen(kid);
      var ns, later := Records(KidsOf(b, i, d)) + tail, Records(KidsOf(rest, j, d)) + tail;
      assert ns[0] == Place(kid, i, d).Record() && ns[1..] == later;
      if p in Places(kid, i, d) {
        ParentInTree(toks, kid, i, d, p, k);
      } else {
        BodyPlacesInside(rest, j, d, p);
        KidInside(p, k);
        ParentInBody(toks, rest, j, d, tail, p, k);
      }
  }

  lemma {:induction false} RootSkipsNops(toks: Tokens, i: nat, n: nat, first: nat)
    requires NopsIn(toks, i, n) && first == i + 4 * n
    ensures FindNode(toks, i, 0, 0) == FindNode(toks, first, 0, 0)
    decreases n
  {
    if n > 0 {
      RootSkipsNops(toks, i + 4, n - 1, first);
    }
  }

  lemma {:induction false} BlockRoot(toks: Tokens, lead: nat, root: Tree, trail: nat)
    requires BlockIn(toks, lead, root, trail)
    ensures Root(toks) == Some(Place(root, 4 * lead, 0).Record())
  {
    RootSkipsNops(toks, 0, lead, 4 * lead);
    ClosedRecord(toks, root, 4 * lead, 0);
  }

  lemma {:induction false} BlockParent(toks: Tokens, lead: nat, root: Tree, trail: nat, p: Place, k: Place)
    requires BlockIn(toks, lead, root, trail) && p in Places(root, 4 * lead, 0) && k in p.Kids()
    ensures Parent(toks, k.Record()) == Some(p.Record())
  {
    BlockRoot(toks, lead, root, trail);
    ParentInTree(toks, root, 4 * lead, 0, p, k);
  }

  /** The parent found for a node's child is that node. */
  lemma {:induction false} ParentRoundTrip(lead: nat, root: Tree, trail: nat, p: Place, k: Place)
    requires ValidTree(root) && p in Places(root, 4 * lead, 0) && k in p.Kids()
    ensures Parent(Lex(FlatBlock(lead, root, trail)), k.Record()) == Some(p.Record())
  {
    var s := FlatBlock(lead, root, trail);
    FlatBlockIn(s, lead, root, trail);
    BlockParent(Lex(s), lead, root, trail, p, k);
  }

  /** A node has no parent exactly when it is the root. */
  lemma {:induction false} OnlyRootHasNoParent(lead: nat, root: Tree, trail: nat, k: Place)
    requires ValidTree(root) && k in Places(root, 4 * lead, 0)
    ensures Parent(Lex(FlatBlock(lead, root, trail)), k.Record()) == None <==> k == Place(root, 4 * lead, 0)
  {
    var s := FlatBlock(lead, root, trail);
    if k == Place(root, 4 * lead, 0) {
      FlatBlockIn(s, lead, root, trail);
      BlockRoot(Lex(s), lead, root, trail);
    } else {
      var p := HasParent(root, 4 * lead, 0, k);
      ParentRoundTrip(lead, root, trail, p, k);
    }
  }

  /** Of what `children` yields for a node of the block, it encloses exactly its own children. */
  lemma {:induction false} EnclosedChildrenRoundTrip(lead: nat, root: Tree, trail: nat, p: Place)
    requires ValidTree(root) && p in Places(root, 4 * lead, 0)
    ensures var toks := Lex(FlatBlock(lead, root, trail));
            EnclosedBy(p.Record(), Children(toks, p.Record())) == Records(p.Kids())
  {
    var s := FlatBlock(lead, root, trail);
    FlatBlockIn(s, lead, root, trail);
    PlaceAt(s, root, 4 * lead, 0, p);
    FlatTreeIn(s, p.start, p.tree);
    EnclosedChildren(Lex(s), p);
  }

  // ----- on any block at all

  lemma {:induction false} FoundBetween(toks: Tokens, n: Node, child: Node)
    ensures var p := FindParent(toks, n, child); p.Some? ==> n.depth <= p.value.depth < child.depth
    decreases Above(n.depth, child), 0
  {
    if Encloses(n, child) && n.depth + 1 < child.depth {
      SiblingsFollow(toks, n.nextTokenStart, n.depth + 1, n.depth + 1);
      FirstFoundBetween(toks, Children(toks, n), n.depth + 1, child);
    }
  }

  lemma {:induction false} FirstFoundBetween(toks: Tokens, ns: seq<Node>, d: int, child: Node)
    requires OneDepth(ns, d)
    ensures var p := FirstParent(toks, ns, d, child); p.Some? ==> d <= p.value.depth < child.depth
    decreases Above(d, child), 1 + |ns|
  {
    if ns != [] {
      FoundBetween(toks, ns[0], child);
      FirstFoundBetween(toks, ns[1..], d, child);
    }
  }

  /** A parent found lies strictly above the child, and not above the root. */
  lemma {:induction false} ParentBetween(toks: Tokens, child: Node)
    ensures var p := Parent(toks, child); p.Some? ==> 0 <= p.value.depth < child.depth
  {
    if Root(toks).Some? {
      FoundBetween(toks, Root(toks).value, child);
    }
  }

  /** The lowest node, going down through the nodes that enclose the child, that is still above it. */
  ghost predicate LowestAbove(toks: Tokens, p: Node, child: Node) {
    && Encloses(p, child) && p.depth < child.depth
    && (p.depth + 1 < child.depth ==> forall c | c in Children(toks, p) :: !Encloses(c, child))
  }

  /** On any block, a search finds a parent exactly if it starts at a node around the child and above it. */
  lemma {:induction false} ParentFound(toks: Tokens, n: Node, child: Node)
    ensures FindParent(toks, n, child).Some? <==> Encloses(n, child) && n.depth < child.depth
    ensures FindParent(toks, n, child).Some? ==> LowestAbove(toks, FindParent(toks, n, child).value, child)
    decreases Above(n.depth, child), 0
  {
    if Encloses(n, child) && n.depth + 1 < child.depth {
      SiblingsFollow(toks, n.nextTokenStart, n.depth + 1, n.depth + 1);
      FirstParentFound(toks, Children(toks, n), n.depth + 1, child);
    }
  }

  lemma {:induction false} FirstParentFound(toks: Tokens, ns: seq<Node>, d: int, child: Node)
    requires OneDepth(ns, d) && d < child.depth
    ensures FirstParent(toks, ns, d, child).None? <==> forall c | c in ns :: !Encloses(c, child)
    ensures FirstParent(toks, ns, d, child).Some? ==> LowestAbove(toks, FirstParent(toks, ns, d, child).value, child)
    decreases Above(d, child), 1 + |ns|
  {
    if ns != [] {
      ParentFound(toks, ns[0], child);
      FirstParentFound(toks, ns[1..], d, child);
      assert ns == [ns[0]] + ns[1..];
    }
  }
}
