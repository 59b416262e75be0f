/**
 What `children` (port/src/fdt.rs) yields on a flattened tree. The scan does not stop at
 the parent's end token, so it yields every later node of the children's depth; those that
 the parent encloses are exactly its children.
 */
module FdtChildren {
  import opened Wrappers
  import opened FdtTokens
  import opened FdtTree
  import opened FdtScan
  import opened FdtRoundTrip

  function OfDepth(ns: seq<Node>, c: int): seq<Node> {
    if ns == [] then []
    else if ns[0].depth == c then [ns[0]] + OfDepth(ns[1..], c)
    else OfDepth(ns[1..], c)
  }

  /** The records of the places of one depth. */
  function AtDepth(ps: seq<Place>, c: int): seq<Node> {
    if ps == [] then []
    else if ps[0].depth == c then [ps[0].Record()] + AtDepth(ps[1..], c)
    else AtDepth(ps[1..], c)
  }

  lemma {:induction false} AtDepthConcat(a: seq<Place>, b: seq<Place>, c: int)
    ensures AtDepth(a + b, c) == AtDepth(a, c) + AtDepth(b, c)
    decreases |a|
  {
    if a == [] {
      assert a + b == b;
    } else {
      assert (a + b)[1..] == a[1..] + b;
      AtDepthConcat(a[1..], b, c);
    }
  }

  lemma {:induction false} NoneAtDepth(ps: seq<Place>, c: int)
    requires forall p | p in ps :: p.depth > c
    ensures AtDepth(ps, c) == []
    decreases |ps|
  {
    if ps != [] {
      assert ps[0] in ps;
      NoneAtDepth(ps[1..], c);
    }
  }

  lemma {:induction false} AtDepthIsOfDepth(ps: seq<Place>, c: int)
    ensures AtDepth(ps, c) == OfDepth(Records(ps), c)
    decreases |ps|
  {
    if ps != [] {
      AtDepthIsOfDepth(ps[1..], c);
      assert Records(ps)[1..] == Records(ps[1..]);
    }
  }

  /** Of a node and all below it, only the node itself has its depth. */
  lemma {:induction false} OnlySelf(t: Tree, i: nat, d: int)
    ensures AtDepth(Places(t, i, d), d) == [Place(t, i, d).Record()]
  {
    var below := BodyPlaces(t.body, i + HeadLen(t), d + 1);
    forall p | p in below
      ensures p.depth > d
    {
      BodyPlacesInside(t.body, i + HeadLen(t), d + 1, p);
    }
    NoneAtDepth(below, d);
    assert Places(t, i, d)[1..] == below;
  }

  lemma {:induction false} JoinDepths(all: seq<Node>, a: seq<Place>, mid: seq<Node>, b: seq<Place>, tail: seq<Node>,
                                      c: int)
    requires all == AtDepth(a, c) + mid && mid == AtDepth(b, c) + tail
    ensures all == AtDepth(a + b, c) + tail
  {
    AtDepthConcat(a, b, c);
  }

  /** A token that neither begins nor ends a node of depth `c` only changes the depth. */
  lemma {:induction false} SiblingStep(toks: Tokens, i: nat, d: int, c: int, j: nat)
    requires Tok(toks, i).Some? && j == i + Tok(toks, i).value.TotalLen()
    requires Tok(toks, i).value.BeginNode? ==> d != c
    requires Tok(toks, i).value.EndNode? ==> d - 1 != c
    ensures Siblings(toks, i, d, c) == Siblings(toks, j, d + Delta(Tok(toks, i).value), c)
  {
  }

  lemma {:induction false} SiblingsOfTree(toks: Tokens, t: Tree, i: nat, d: int, c: int, stop: nat)
    requires TreeIn(toks, i, t) && d <= c && stop == i + TreeLen(t)
    ensures Siblings(toks, i, d, c) == AtDepth(Places(t, i, d), c) + Siblings(toks, stop, d, c)
    decreases t
  {
    if d == c {
      ClosedRecord(toks, t, i, c);
      OnlySelf(t, i, d);
    } else {
      var j, close := i + HeadLen(t), i + HeadLen(t) + BodyLen(t.body);
      var below := BodyPlaces(t.body, j, d + 1);
      SiblingStep(toks, i, d, c, j);
      SiblingsOfBody(toks, t.body, j, d + 1, c, close);
      SiblingStep(toks, close, d + 1, c, stop);
      JoinDepths(Siblings(toks, i, d, c), [Place(t, i, d)], Siblings(toks, j, d + 1, c), below,
                 Siblings(toks, stop, d, c), c);
    }
  }

  lemma {:induction false} SiblingsOfBody(toks: Tokens, b: Body, i: nat, d: int, c: int, stop: nat)
    requires BodyIn(toks, i, b) && d <= c && stop == i + BodyLen(b)
    ensures Siblings(toks, i, d, c) == AtDepth(BodyPlaces(b, i, d), c) + Siblings(toks, stop, d, c)
    decreases b
  {
    match b
    case Close =>
    case Pad(rest) =>
      SiblingStep(toks, i, d, c, i + 4);
      SiblingsOfBody(toks, rest, i + 4, d, c, stop);
    case Attr(_, value, rest) =>
      var j := i + 12 + Align4(|value|);
      SiblingStep(toks, i, d, c, j);
      SiblingsOfBody(toks, rest, j, d, c, stop);
    case Sub(kid, rest) =>
      var j := i + TreeLen(kid);
      SiblingsOfTree(toks, kid, i, d, c, j);
      SiblingsOfBody(toks, rest, j, d, c, stop);
      JoinDepths(Siblings(toks, i, d, c), Places(kid, i, d), Siblings(toks, j, d, c), BodyPlaces(rest, j, d),
                 Siblings(toks, stop, d, c), c);
  }

  /**
   After the begin token of `p` come the nodes `after`, up to `stop` where the depth is
   `d`: the children scan yields those one level below `p`, and goes on from `stop`.
   */
  ghost predicate ScansOver(toks: Tokens, p: Place, after: seq<Place>, d: int, stop: nat) {
    var c := p.depth + 1;
    p.depth >= d && Children(toks, p.Record()) == AtDepth(after, c) + Siblings(toks, stop, d, c)
  }

  lemma {:induction false} ScanOwnBody(toks: Tokens, t: Tree, i: nat, d: int, stop: nat)
    requires TreeIn(toks, i, t) && stop == i + TreeLen(t)
    ensures ScansOver(toks, Place(t, i, d), BodyPlaces(t.body, i + HeadLen(t), d + 1), d, stop)
  {
    var j, close := i + HeadLen(t), i + HeadLen(t) + BodyLen(t.body);
    SiblingsOfBody(toks, t.body, j, d + 1, d + 1, close);
    SiblingStep(toks, close, d + 1, d + 1, stop);
  }

  lemma {:induction false} ScanOn(toks: Tokens, p: Place, after: seq<Place>, d: int, mid: nat, rest: Body, stop: nat)
    requires ScansOver(toks, p, after, d, mid) && BodyIn(toks, mid, rest) && stop == mid + BodyLen(rest)
    ensures ScansOver(toks, p, after + BodyPlaces(rest, mid, d), d, stop)
  {
    var c := p.depth + 1;
    var later := BodyPlaces(rest, mid, d);
    SiblingsOfBody(toks, rest, mid, d, c, stop);
    JoinDepths(Children(toks, p.Record()), after, Siblings(toks, mid, d, c), later, Siblings(toks, stop, d, c), c);
  }

  lemma {:induction false} ScanPastEnd(toks: Tokens, p: Place, after: seq<Place>, d: int, close: nat, stop: nat)
    requires ScansOver(toks, p, after, d + 1, close)
    requires Tok(toks, close) == Some(EndNode(close)) && stop == close + 4
    ensures ScansOver(toks, p, after, d, stop)
  {
    SiblingStep(toks, close, d + 1, p.depth + 1, stop);
  }

  ghost predicate Splits(all: seq<Place>, p: Place, after: seq<Place>) {
    |after| < |all| && all[|all| - |after| - 1] == p && all[|all| - |after|..] == after
  }

  /** For every node of a tree, and of a body: the scan goes over the nodes after it. */
  lemma {:induction false} ScanInTree(toks: Tokens, t: Tree, i: nat, d: int, stop: nat, p: Place, after: seq<Place>)
    requires TreeIn(toks, i, t) && stop == i + TreeLen(t) && Splits(Places(t, i, d), p, after)
    ensures ScansOver(toks, p, after, d, stop)
    decreases t
  {
    var j, close := i + HeadLen(t), i + HeadLen(t) + BodyLen(t.body);
    var below := BodyPlaces(t.body, j, d + 1);
    SplitsConcat([Place(t, i, d)], below, p, after);
    if |after| >= |below| {
      ScanOwnBody(toks, t, i, d, stop);
    } else {
      ScanInBody(toks, t.body, j, d + 1, close, p, after);
      ScanPastEnd(toks, p, after, d, close, stop);
    }
  }

  lemma {:induction false} ScanInBody(toks: Tokens, b: Body, i: nat, d: int, stop: nat, p: Place, after: seq<Place>)
    requires BodyIn(toks, i, b) && stop == i + BodyLen(b) && Splits(BodyPlaces(b, i, d), p, after)
    ensures ScansOver(toks, p, after, d, stop)
    decreases b
  {
    match b
    case Pad(rest) => ScanInBody(toks, rest, i + 4, d, stop, p, after);
    case Attr(_, value, rest) => ScanInBody(toks, rest, i + 12 + Align4(|value|), d, stop, p, after);
    case Sub(kid, rest) =>
      var j := i + TreeLen(kid);
      var first, later := Places(kid, i, d), BodyPlaces(rest, j, d);
      SplitsConcat(first, later, p, after);
      if |after| < |later| {
        ScanInBody(toks, rest, j, d, stop, p, after);
      } else {
        var near := after[..|after| - |later|];
        ScanInTree(toks, kid, i, d, j, p, near);
        ScanOn(toks, p, near, d, j, rest, stop);
      }
  }

  lemma {:induction false} SplitsConcat(a: seq<Place>, b: seq<Place>, p: Place, after: seq<Place>)
    requires Splits(a + b, p, after)
    ensures |after| < |b| ==> Splits(b, p, after)
    ensures |after| >= |b| ==> Splits(a, p, after[..|after| - |b|]) && after == after[..|after| - |b|] + b
  {
  }

  lemma {:induction false} NothingAfterRoot(toks: Tokens, i: nat, n: nat, c: int)
    requires NopsIn(toks, i, n) && c > 0
    requires Tok(toks, i + 4 * n) == Some(End(i + 4 * n)) && |toks| == i + 4 * n + 4
    ensures Siblings(toks, i, 0, c) == []
    decreases n
  {
    if n == 0 {
      TailEmpty(toks, i, 0, c);
    } else {
      SiblingStep(toks, i, 0, c, i + 4);
      NothingAfterRoot(toks, i + 4, n - 1, c);
    }
  }

  /** `children` yields, in document order, exactly the later nodes one level below. */
  lemma {:induction false} ChildrenRoundTrip(lead: nat, root: Tree, trail: nat, k: nat)
    requires ValidTree(root) && k < |AllNodes(Lex(FlatBlock(lead, root, trail)), 0, 0)|
    ensures var toks := Lex(FlatBlock(lead, root, trail));
            var nodes := AllNodes(toks, 0, 0);
            Children(toks, nodes[k]) == OfDepth(nodes[k + 1..], nodes[k].depth + 1)
  {
    var s := FlatBlock(lead, root, trail);
    FlatBlockIn(s, lead, root, trail);
    BlockNodes(Lex(s), lead, root, trail);
    BlockChildren(Lex(s), lead, root, trail, k);
  }

  lemma {:induction false} BlockChildren(toks: Tokens, lead: nat, root: Tree, trail: nat, k: nat)
    requires BlockIn(toks, lead, root, trail) && k < |Places(root, 4 * lead, 0)|
    ensures var nodes := Records(Places(root, 4 * lead, 0));
            Children(toks, nodes[k]) == OfDepth(nodes[k + 1..], nodes[k].depth + 1)
  {
    var places := Places(root, 4 * lead, 0);
    var next := 4 * lead + TreeLen(root);
    ScanInTree(toks, root, 4 * lead, 0, next, places[k], places[k + 1..]);
    NothingAfterRoot(toks, next, trail, places[k].depth + 1);
    AtDepthIsOfDepth(places[k + 1..], places[k].depth + 1);
    assert Records(places[k + 1..]) == Records(places)[k + 1..];
  }

  // ----- the true children

  lemma {:induction false} KidsByDepth(b: Body, i: nat, d: int)
    ensures AtDepth(BodyPlaces(b, i, d), d) == Records(KidsOf(b, i, d))
    decreases b
  {
    match b
    case Close =>
    case Pad(rest) => KidsByDepth(rest, i + 4, d);
    case Attr(_, value, rest) => KidsByDepth(rest, i + 12 + Align4(|value|), d);
    case Sub(kid, rest) =>
      var j := i + TreeLen(kid);
      OnlySelf(kid, i, d);
      KidsByDepth(rest, j, d);
      AtDepthConcat(Places(kid, i, d), BodyPlaces(rest, j, d), d);
      assert Records(KidsOf(b, i, d)) == [Place(kid, i, d).Record()] + Records(KidsOf(rest, j, d));
  }

  /** The nodes among `ns` that `p` encloses. */
  function EnclosedBy(p: Node, ns: seq<Node>): seq<Node> {
    if ns == [] then []
    else if Encloses(p, ns[0]) then [ns[0]] + EnclosedBy(p, ns[1..])
    else EnclosedBy(p, ns[1..])
  }

  lemma {:induction false} EnclosedPrefix(p: Node, a: seq<Node>, b: seq<Node>)
    requires (forall n | n in a :: Encloses(p, n)) && forall n | n in b :: !Encloses(p, n)
    ensures EnclosedBy(p, a + b) == a
    decreases |a| + |b|
  {
    if a != [] {
      assert a[0] in a;
      assert (a + b)[1..] == a[1..] + b;
      EnclosedPrefix(p, a[1..], b);
    } else if b != [] {
      assert b[0] in b;
      assert a + b == b && a + b[1..] == b[1..];
      EnclosedPrefix(p, a, b[1..]);
    }
  }

  lemma {:induction false} ChildrenSplit(toks: Tokens, p: Place)
    requires TreeIn(toks, p.start, p.tree)
    ensures Children(toks, p.Record()) == Records(p.Kids()) + Siblings(toks, p.Stop(), p.depth, p.depth + 1)
  {
    ScanOwnBody(toks, p.tree, p.start, p.depth, p.Stop());
    KidsByDepth(p.tree.body, p.start + HeadLen(p.tree), p.depth + 1);
  }

  /** Of what `children` yields for a node, the node encloses exactly its own children. */
  lemma {:induction false} EnclosedChildren(toks: Tokens, p: Place)
    requires TreeIn(toks, p.start, p.tree)
    ensures EnclosedBy(p.Record(), Children(toks, p.Record())) == Records(p.Kids())
  {
    var kids := Records(p.Kids());
    forall n | n in kids
      ensures Encloses(p.Record(), n)
    {
      var k :| 0 <= k < |kids| && kids[k] == n;
      KidInside(p, p.Kids()[k]);
    }
    ChildrenSplit(toks, p);
    SiblingsFollow(toks, p.Stop(), p.depth, p.depth + 1);
    EnclosedPrefix(p.Record(), kids, Siblings(toks, p.Stop(), p.depth, p.depth + 1));
  }

  // ----- when the scan yields more than the children

  lemma {:induction false} OfDepthMembers(ns: seq<Node>, c: int, n: Node)
    ensures n in OfDepth(ns, c) <==> n in ns && n.depth == c
    decreases |ns|
  {
    if ns != [] {
      OfDepthMembers(ns[1..], c, n);
    }
  }

  /** A node after `p`'s end whose depth is that of `p`'s children. */
  predicate Stray(p: Place, n: Node) {
    n.start >= p.Stop() && n.depth == p.depth + 1
  }

  lemma {:induction false} NoKidStrays(p: Place, n: Node)
    requires n in Records(p.Kids())
    ensures !Stray(p, n)
  {
    var k :| 0 <= k < |p.Kids()| && Records(p.Kids())[k] == n;
    KidInside(p, p.Kids()[k]);
  }

  /** `children` yields exactly the children unless a later node outside has their depth. */
  lemma {:induction false} ChildrenAreKidsIff(lead: nat, root: Tree, trail: nat, k: nat)
    requires ValidTree(root) && k < |Places(root, 4 * lead, 0)|
    ensures var places := Places(root, 4 * lead, 0);
            Children(Lex(FlatBlock(lead, root, trail)), places[k].Record()) == Records(places[k].Kids())
            <==> forall n | n in Records(places[k + 1..]) :: !Stray(places[k], n)
  {
    var s, p := FlatBlock(lead, root, trail), Places(root, 4 * lead, 0)[k];
    FlatBlockIn(s, lead, root, trail);
    PlaceAt(s, root, 4 * lead, 0, p);
    FlatTreeIn(s, p.start, p.tree);
    BlockStrays(Lex(s), lead, root, trail, k);
  }

  lemma {:induction false} BlockStrays(toks: Tokens, lead: nat, root: Tree, trail: nat, k: nat)
    requires BlockIn(toks, lead, root, trail) && k < |Places(root, 4 * lead, 0)|
    requires TreeIn(toks, Places(root, 4 * lead, 0)[k].start, Places(root, 4 * lead, 0)[k].tree)
    ensures var places := Places(root, 4 * lead, 0);
            Children(toks, places[k].Record()) == Records(places[k].Kids())
            <==> forall n | n in Records(places[k + 1..]) :: !Stray(places[k], n)
  {
    var places := Places(root, 4 * lead, 0);
    BlockChildren(toks, lead, root, trail, k);
    assert Records(places)[k + 1..] == Records(places[k + 1..]);
    StraysAreTail(toks, places[k], Records(places[k + 1..]));
  }

  lemma {:induction false} StraysAreTail(toks: Tokens, p: Place, after: seq<Node>)
    requires TreeIn(toks, p.start, p.tree) && Children(toks, p.Record()) == OfDepth(after, p.depth + 1)
    ensures Children(toks, p.Record()) == Records(p.Kids()) <==> forall n | n in after :: !Stray(p, n)
  {
    var kids, tail := Records(p.Kids()), Siblings(toks, p.Stop(), p.depth, p.depth + 1);
    ChildrenSplit(toks, p);
    SiblingsFollow(toks, p.Stop(), p.depth, p.depth + 1);
    if tail != [] {
      assert tail[0] in tail && tail[0] in kids + tail;
      OfDepthMembers(after, p.depth + 1, tail[0]);
    } else {
      forall n | n in after
        ensures !Stray(p, n)
      {
        OfDepthMembers(after, p.depth + 1, n);
        if Stray(p, n) {
          NoKidStrays(p, n);
        }
      }
    }
  }

  /** The scan for a childless first sibling yields the second sibling's child. */
  lemma {:induction false} ChildrenOverrun(leaf: Tree)
    requires leaf == Tree([], Close)
    ensures var root := Tree([], Sub(leaf, Sub(Tree([], Sub(leaf, Close)), Close)));
            ValidTree(root) && Children(Lex(FlatBlock(0, root, 0)), Places(root, 0, 0)[1].Record()) != []
  {
    var root := Tree([], Sub(leaf, Sub(Tree([], Sub(leaf, Close)), Close)));
    OverrunPlaces(leaf, root, HeadLen(root), TreeLen(leaf));
    StrayYielded(root, 1, 3);
  }

  /** A later node that looks like a child of a childless node is taken for one. */
  lemma {:induction false} StrayYielded(root: Tree, k: nat, m: nat)
    requires ValidTree(root)
    requires var places := Places(root, 0, 0);
             k < m < |places| && places[k].Kids() == [] && Stray(places[k], places[m].Record())
    ensures Children(Lex(FlatBlock(0, root, 0)), Places(root, 0, 0)[k].Record()) != []
  {
    var places := Places(root, 0, 0);
    var after := Records(places[k + 1..]);
    assert after[m - k - 1] == places[m].Record() && after[m - k - 1] in after;
    ChildrenAreKidsIff(0, root, 0, k);
  }

  lemma {:induction false} OverrunPlaces(leaf: Tree, root: Tree, h: nat, l: nat)
    requires leaf == Tree([], Close) && root == Tree([], Sub(leaf, Sub(Tree([], Sub(leaf, Close)), Close)))
    requires h == HeadLen(root) && l == TreeLen(leaf)
    ensures ValidTree(root)
    ensures var second := Tree([], Sub(leaf, Close));
            Places(root, 0, 0) ==
              [Place(root, 0, 0), Place(leaf, h, 1), Place(second, h + l, 1), Place(leaf, h + l + h, 2)]
  {
    var second := Tree([], Sub(leaf, Close));
    assert Places(leaf, h, 1) == [Place(leaf, h, 1)];
    assert Places(leaf, h + l + h, 2) == [Place(leaf, h + l + h, 2)];
    assert BodyPlaces(Sub(leaf, Close), h + l + h, 2) == Places(leaf, h + l + h, 2);
    assert Places(second, h + l, 1) == [Place(second, h + l, 1), Place(leaf, h + l + h, 2)];
  }
}
