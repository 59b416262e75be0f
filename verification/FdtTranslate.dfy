/**
 What the `reg` and `ranges` readers (port/src/fdt.rs) compute on a flattened tree, in
 terms of the tree itself: decoding undoes encoding, and the translation of an address is
 a fold over the ancestors of its node.
 */
module FdtTranslate {
  import opened Wrappers
  import opened FdtTokens
  import opened FdtTree
  import opened FdtScan
  import opened FdtRoundTrip
  import opened FdtParent
  import opened FdtReg

  // ----- the properties of a node, from its tree

  function AttrNamed(strings: Bytes, attrs: seq<(U32, Bytes)>, name: string): Option<Bytes> {
    if attrs == [] then None
    else if InlineStr(strings, attrs[0].0) == Some(name) then Some(attrs[0].1)
    else AttrNamed(strings, attrs[1..], name)
  }

  function TreeAttr(strings: Bytes, t: Tree, name: string): Option<Bytes> {
    AttrNamed(strings, Attrs(t.body), name)
  }

  function TreeCells(strings: Bytes, t: Option<Tree>, name: string, default: nat): nat {
    match t
    case None => default
    case Some(t) => CellValue(TreeAttr(strings, t, name), default)
  }

  /** The blocks in a node's `reg`, in the cells that its parent prescribes. */
  function TreeRegs(strings: Bytes, parent: Option<Tree>, t: Tree): seq<RegBlock> {
    match TreeAttr(strings, t, "reg")
    case None => []
    case Some(v) =>
      Regs(v, 0, |v|, TreeCells(strings, parent, "#address-cells", 2), TreeCells(strings, parent, "#size-cells", 1))
  }

  /** The windows in a node's `ranges`; none at all stands for the identity. */
  function TreeRanges(strings: Bytes, parent: Option<Tree>, t: Tree): seq<Range> {
    match TreeAttr(strings, t, "ranges")
    case None => [Identity]
    case Some(v) =>
      var pac := TreeCells(strings, parent, "#address-cells", 2);
      var ac, sc := TreeCells(strings, Some(t), "#address-cells", 2), TreeCells(strings, Some(t), "#size-cells", 1);
      Ranges(v, 0, |v|, pac, ac, sc)
  }

  lemma {:induction false} FindNamed(s: Bytes, strings: Bytes, props: seq<Property>, attrs: seq<(U32, Bytes)>,
                                     name: string)
    requires AllHold(s, props, attrs)
    ensures var found, value := FindProp(strings, props, name), AttrNamed(strings, attrs, name);
            && (found.None? <==> value.None?)
            && (found.Some? ==> ValueBytes(s, found.value) == value)
    decreases |props|
  {
    if props != [] {
      assert Holds(s, props[0], attrs[0]);
      FindNamed(s, strings, props[1..], attrs[1..], name);
    }
  }

  ghost predicate Stands(dt: DeviceTree, p: Place) {
    ValidTree(p.tree) && At(dt.structs, p.start, FlatTree(p.tree))
  }

  lemma {:induction false} AttrFound(dt: DeviceTree, p: Place, name: string)
    requires Stands(dt, p)
    ensures var found, value := PropertyOf(dt, p.Record(), name), TreeAttr(dt.strings, p.tree, name);
            && (found.None? <==> value.None?)
            && (found.Some? ==> ValueBytes(dt.structs, found.value) == value)
  {
    PropertiesAt(dt.structs, p);
    FindNamed(dt.structs, dt.strings, Properties(Lex(dt.structs), p.Record()), Attrs(p.tree.body), name);
  }

  lemma {:induction false} CellsFound(dt: DeviceTree, p: Place, name: string, default: nat)
    requires Stands(dt, p)
    ensures CellCount(dt, Some(p.Record()), name, default) == TreeCells(dt.strings, Some(p.tree), name, default)
  {
    AttrFound(dt, p, name);
  }

  // ----- reading a value in place is reading it on its own

  ghost predicate Slice(s: Bytes, i: nat, v: Bytes) {
    i + |v| <= |s| && s[i..i + |v|] == v
  }

  lemma {:induction false} WordShift(s: Bytes, i: nat, v: Bytes, k: nat, j: nat)
    requires Slice(s, i, v) && k + 4 <= |v| && j == i + k
    ensures U32At(s, j) == U32At(v, k)
  {
    assert v == s[i..i + |v|];
    assert v[k] == s[j] && v[k + 1] == s[j + 1] && v[k + 2] == s[j + 2] && v[k + 3] == s[j + 3];
  }

  lemma {:induction false} CellsShift(s: Bytes, i: nat, v: Bytes, k: nat, n: nat, j: nat)
    requires Slice(s, i, v) && k + 4 * n <= |v| && j == i + k
    ensures ConsumeCells(s, j, n) == ConsumeCells(v, k, n)
  {
    if n > 0 {
      WordShift(s, i, v, k, j);
    }
    if n > 1 {
      WordShift(s, i, v, k + 4, j + 4);
    }
  }

  lemma {:induction false} RegShift(s: Bytes, i: nat, v: Bytes, k: nat, ac: nat, sc: nat, j: nat)
    requires Slice(s, i, v) && k + 4 * ac + 4 * sc <= |v| && j == i + k
    ensures RegAt(s, j, ac, sc) == RegAt(v, k, ac, sc)
  {
    CellsShift(s, i, v, k, ac, j);
    CellsShift(s, i, v, k + 4 * ac, sc, j + 4 * ac);
  }

  lemma {:induction false} RegsStep(s: Bytes, v: Bytes, j: nat, k: nat, n: nat, m: nat, stop: nat, len: nat, ac: nat,
                                    sc: nat)
    requires RegCellsOk(ac, sc) && RegAt(s, j, ac, sc) == RegAt(v, k, ac, sc)
    requires n == j + 4 * ac + 4 * sc <= stop && m == k + 4 * ac + 4 * sc <= len
    requires Regs(s, n, stop, ac, sc) == Regs(v, m, len, ac, sc)
    ensures Regs(s, j, stop, ac, sc) == Regs(v, k, len, ac, sc)
  {
  }

  lemma {:induction false} RegsShift(s: Bytes, i: nat, v: Bytes, k: nat, ac: nat, sc: nat, j: nat, stop: nat)
    requires Slice(s, i, v) && k <= |v| && j == i + k && stop == i + |v|
    ensures Regs(s, j, stop, ac, sc) == Regs(v, k, |v|, ac, sc)
    decreases |v| - k
  {
    if RegCellsOk(ac, sc) && k + 4 * ac + 4 * sc <= |v| {
      var m, n := k + 4 * ac + 4 * sc, j + 4 * ac + 4 * sc;
      RegShift(s, i, v, k, ac, sc, j);
      RegsShift(s, i, v, m, ac, sc, n, stop);
      RegsStep(s, v, j, k, n, m, stop, |v|, ac, sc);
    }
  }

  lemma {:induction false} WindowShift(s: Bytes, i: nat, v: Bytes, k: nat, pac: nat, ac: nat, sc: nat, j: nat)
    requires Slice(s, i, v) && k + 4 * ac + 4 * pac + 4 * sc <= |v| && j == i + k
    ensures WindowAt(s, j, pac, ac, sc) == WindowAt(v, k, pac, ac, sc)
  {
    CellsShift(s, i, v, k, ac, j);
    CellsShift(s, i, v, k + 4 * ac, pac, j + 4 * ac);
    CellsShift(s, i, v, k + 4 * ac + 4 * pac, sc, j + 4 * ac + 4 * pac);
  }

  lemma {:induction false} WindowsStep(s: Bytes, v: Bytes, j: nat, k: nat, n: nat, m: nat, stop: nat, len: nat,
                                       pac: nat, ac: nat, sc: nat)
    requires RangeCellsOk(pac, ac, sc) && WindowAt(s, j, pac, ac, sc) == WindowAt(v, k, pac, ac, sc)
    requires n == j + 4 * ac + 4 * pac + 4 * sc <= stop && m == k + 4 * ac + 4 * pac + 4 * sc <= len
    requires Windows(s, n, stop, pac, ac, sc) == Windows(v, m, len, pac, ac, sc)
    ensures Windows(s, j, stop, pac, ac, sc) == Windows(v, k, len, pac, ac, sc)
  {
  }

  lemma {:induction false} WindowsShift(s: Bytes, i: nat, v: Bytes, k: nat, pac: nat, ac: nat, sc: nat, j: nat,
                                        stop: nat)
    requires Slice(s, i, v) && k <= |v| && j == i + k && stop == i + |v|
    ensures Windows(s, j, stop, pac, ac, sc) == Windows(v, k, |v|, pac, ac, sc)
    decreases |v| - k
  {
    if RangeCellsOk(pac, ac, sc) && k + 4 * ac + 4 * pac + 4 * sc <= |v| {
      var m, n := k + 4 * ac + 4 * pac + 4 * sc, j + 4 * ac + 4 * pac + 4 * sc;
      WindowShift(s, i, v, k, pac, ac, sc, j);
      WindowsShift(s, i, v, m, pac, ac, sc, n, stop);
      WindowsStep(s, v, j, k, n, m, stop, |v|, pac, ac, sc);
    }
  }

  // ----- what the readers yield for a node of the tree

  /** The record of a place's parent, and its tree. */
  function RecordOf(p: Option<Place>): Option<Node> {
    match p
    case None => None
    case Some(p) => Some(p.Record())
  }

  function TreeOf(p: Option<Place>): Option<Tree> {
    match p
    case None => None
    case Some(p) => Some(p.tree)
  }

  ghost predicate ParentStands(dt: DeviceTree, q: Option<Place>, k: Place) {
    && Stands(dt, k)
    && (q.Some? ==> Stands(dt, q.value))
    && Parent(Lex(dt.structs), k.Record()) == RecordOf(q)
  }

  lemma {:induction false} ParentCells(dt: DeviceTree, q: Option<Place>, name: string, default: nat)
    requires q.Some? ==> Stands(dt, q.value)
    ensures CellCount(dt, RecordOf(q), name, default) == TreeCells(dt.strings, TreeOf(q), name, default)
  {
    if q.Some? {
      CellsFound(dt, q.value, name, default);
    }
  }

  /** The blocks read for a node are those its tree holds, in its parent's cells. */
  lemma {:induction false} RegsRead(dt: DeviceTree, q: Option<Place>, k: Place)
    requires ParentStands(dt, q, k)
    ensures NodeRegs(dt, k.Record()) == TreeRegs(dt.strings, TreeOf(q), k.tree)
  {
    ParentCells(dt, q, "#address-cells", 2);
    ParentCells(dt, q, "#size-cells", 1);
    AttrFound(dt, k, "reg");
    var prop := PropertyOf(dt, k.Record(), "reg");
    if prop.Some? {
      var v := TreeAttr(dt.strings, k.tree, "reg").value;
      var ac, sc := AddressCells(dt, RecordOf(q)), SizeCells(dt, RecordOf(q));
      RegsShift(dt.structs, prop.value.valueStart, v, 0, ac, sc, ValueStart(prop), ValueStop(prop));
    }
  }

  /** The windows read for a node are those its tree holds. */
  lemma {:induction false} RangesRead(dt: DeviceTree, q: Option<Place>, k: Place)
    requires ParentStands(dt, q, k)
    ensures NodeRanges(dt, k.Record()) == TreeRanges(dt.strings, TreeOf(q), k.tree)
  {
    ParentCells(dt, q, "#address-cells", 2);
    CellsFound(dt, k, "#address-cells", 2);
    CellsFound(dt, k, "#size-cells", 1);
    AttrFound(dt, k, "ranges");
    var prop := PropertyOf(dt, k.Record(), "ranges");
    if prop.Some? {
      var v := TreeAttr(dt.strings, k.tree, "ranges").value;
      var pac := AddressCells(dt, RecordOf(q));
      var ac, sc := AddressCells(dt, Some(k.Record())), SizeCells(dt, Some(k.Record()));
      WindowsShift(dt.structs, prop.value.valueStart, v, 0, pac, ac, sc, ValueStart(prop), ValueStop(prop));
    }
  }

  // ----- translation as a fold over the ancestors

  /** A path from the root down, each node a child of the one before. */
  ghost predicate Path(lead: nat, root: Tree, path: seq<Place>) {
    && |path| > 0
    && path[0] == Place(root, 4 * lead, 0)
    && forall j | 0 < j < |path| :: path[j] in path[j - 1].Kids()
  }

  function PlaceAbove(path: seq<Place>, j: nat): Option<Place>
    requires j < |path|
  {
    if j == 0 then None else Some(path[j - 1])
  }

  /** The windows of each node on the path. */
  function PathRanges(strings: Bytes, path: seq<Place>): (ws: seq<seq<Range>>)
    ensures |ws| == |path|
    ensures forall j | 0 <= j < |path| :: ws[j] == TreeRanges(strings, TreeOf(PlaceAbove(path, j)), path[j].tree)
  {
    seq(|path|, j requires 0 <= j < |path| => TreeRanges(strings, TreeOf(PlaceAbove(path, j)), path[j].tree))
  }

  /** A block presented to the `j`-th node, folded over that node and its ancestors below the root. */
  function FoldUp(ws: seq<seq<Range>>, j: nat, r: RegBlock): TranslatedReg
    requires j < |ws|
  {
    if j == 0 then Translated(r)
    else
      match FirstCover(ws[j], r)
      case None => Unreachable
      case Some(t) => FoldUp(ws, j - 1, t)
  }

  ghost predicate Block(dt: DeviceTree, lead: nat, root: Tree, trail: nat) {
    ValidTree(root) && dt.structs == FlatBlock(lead, root, trail)
  }

  lemma {:induction false} OnPath(lead: nat, root: Tree, path: seq<Place>, j: nat)
    requires Path(lead, root, path) && j < |path|
    ensures path[j] in Places(root, 4 * lead, 0) && path[j].depth == j
    decreases j
  {
    if j > 0 {
      OnPath(lead, root, path, j - 1);
      KidInTree(root, 4 * lead, 0, path[j - 1], path[j]);
      KidInside(path[j - 1], path[j]);
    }
  }

  lemma {:induction false} PathStands(dt: DeviceTree, lead: nat, root: Tree, trail: nat, path: seq<Place>, j: nat)
    requires Block(dt, lead, root, trail) && Path(lead, root, path) && j < |path|
    ensures ParentStands(dt, PlaceAbove(path, j), path[j])
  {
    FlatBlockIn(dt.structs, lead, root, trail);
    OnPath(lead, root, path, j);
    PlaceAt(dt.structs, root, 4 * lead, 0, path[j]);
    if j > 0 {
      OnPath(lead, root, path, j - 1);
      PlaceAt(dt.structs, root, 4 * lead, 0, path[j - 1]);
      ParentRoundTrip(lead, root, trail, path[j - 1], path[j]);
    } else {
      OnlyRootHasNoParent(lead, root, trail, path[0]);
    }
  }

  lemma {:induction false} AscendFolds(dt: DeviceTree, lead: nat, root: Tree, trail: nat, path: seq<Place>, j: nat,
                                       r: RegBlock)
    requires Block(dt, lead, root, trail) && Path(lead, root, path) && j < |path|
    ensures path[j].depth == j
            && Ascend(dt, r, Some(path[j].Record())) == Some(FoldUp(PathRanges(dt.strings, path), j, r))
    decreases j
  {
    OnPath(lead, root, path, j);
    if j > 0 {
      PathStands(dt, lead, root, trail, path, j);
      RangesRead(dt, Some(path[j - 1]), path[j]);
      var t := FirstCover(PathRanges(dt.strings, path)[j], r);
      if t.Some? {
        AscendFolds(dt, lead, root, trail, path, j - 1, t.value);
      }
    }
  }

  /** The translations of several blocks presented to the `j`-th node. */
  function FoldAll(ws: seq<seq<Range>>, j: nat, regs: seq<RegBlock>): seq<TranslatedReg>
    requires j < |ws|
  {
    if regs == [] then [] else [FoldUp(ws, j, regs[0])] + FoldAll(ws, j, regs[1..])
  }

  lemma {:induction false} AscendAllFolds(dt: DeviceTree, lead: nat, root: Tree, trail: nat, path: seq<Place>, j: nat,
                                          regs: seq<RegBlock>)
    requires Block(dt, lead, root, trail) && Path(lead, root, path) && 0 < j < |path|
    ensures AscendAll(dt, regs, path[j].Record()) == FoldAll(PathRanges(dt.strings, path), j - 1, regs)
    decreases |regs|
  {
    if regs != [] {
      PathStands(dt, lead, root, trail, path, j);
      AscendFolds(dt, lead, root, trail, path, j - 1, regs[0]);
      AscendAllFolds(dt, lead, root, trail, path, j, regs[1..]);
    }
  }

  /**
   The translated `reg` of a node: the blocks its own tree holds, each folded over the
   node's ancestors from the parent up to, but not including, the root. The root has none.
   */
  lemma {:induction false} TranslationRoundTrip(dt: DeviceTree, lead: nat, root: Tree, trail: nat, path: seq<Place>)
    requires Block(dt, lead, root, trail) && Path(lead, root, path)
    ensures var j := |path| - 1;
            var regs := TreeRegs(dt.strings, TreeOf(PlaceAbove(path, j)), path[j].tree);
            && NodeRegs(dt, path[j].Record()) == regs
            && AscendAll(dt, regs, path[j].Record()) == if j == 0 then []
               else FoldAll(PathRanges(dt.strings, path), j - 1, regs)
  {
    var j := |path| - 1;
    var regs := TreeRegs(dt.strings, TreeOf(PlaceAbove(path, j)), path[j].tree);
    PathStands(dt, lead, root, trail, path, j);
    RegsRead(dt, PlaceAbove(path, j), path[j]);
    if j > 0 {
      AscendAllFolds(dt, lead, root, trail, path, j, regs);
    }
  }

  /** Every node of the tree ends a path from the root. */
  lemma {:induction false} PathTo(lead: nat, root: Tree, k: Place) returns (path: seq<Place>)
    requires k in Places(root, 4 * lead, 0)
    ensures Path(lead, root, path) && path[|path| - 1] == k
    decreases k.start
  {
    if k == Place(root, 4 * lead, 0) {
      path := [k];
    } else {
      var p := HasParent(root, 4 * lead, 0, k);
      KidInside(p, k);
      var up := PathTo(lead, root, p);
      path := up + [k];
    }
  }

  // ----- when a block is unreachable

  /** What becomes of a block presented to the `j`-th node by the time it comes to the `i`-th. */
  function Presented(ws: seq<seq<Range>>, j: nat, r: RegBlock, i: nat): Option<RegBlock>
    requires i <= j < |ws|
    decreases j - i
  {
    if i == j then Some(r)
    else
      match Presented(ws, j, r, i + 1)
      case None => None
      case Some(t) => FirstCover(ws[i + 1], t)
  }

  /** The block comes to the `i`-th node and none of the node's windows covers it. */
  ghost predicate StopsAt(ws: seq<seq<Range>>, j: nat, r: RegBlock, i: nat)
    requires i <= j < |ws|
  {
    var t := Presented(ws, j, r, i);
    t.Some? && FirstCover(ws[i], t.value).None?
  }

  lemma {:induction false} PresentedFrom(ws: seq<seq<Range>>, j: nat, r: RegBlock, t: RegBlock, i: nat)
    requires i < j < |ws| && FirstCover(ws[j], r) == Some(t)
    ensures Presented(ws, j, r, i) == Presented(ws, j - 1, t, i)
    decreases j - i
  {
    if i < j - 1 {
      PresentedFrom(ws, j, r, t, i + 1);
    } else {
      assert Presented(ws, j, r, i + 1) == Some(r);
    }
  }

  /**
   A translation fails exactly when some ancestor below the root has no window for the
   block as it comes to that ancestor; otherwise it is the block as it comes to the root.
   */
  lemma {:induction false} UnreachableIff(ws: seq<seq<Range>>, j: nat, r: RegBlock)
    requires j < |ws|
    ensures FoldUp(ws, j, r) == Unreachable <==> exists i: nat | 0 < i <= j :: StopsAt(ws, j, r, i)
    ensures FoldUp(ws, j, r).Translated? ==> Presented(ws, j, r, 0) == Some(FoldUp(ws, j, r).reg)
    decreases j
  {
    if j > 0 {
      var t := FirstCover(ws[j], r);
      if t.None? {
        assert StopsAt(ws, j, r, j);
      } else {
        UnreachableIff(ws, j - 1, t.value);
        forall i: nat | i < j
          ensures Presented(ws, j, r, i) == Presented(ws, j - 1, t.value, i)
        {
          PresentedFrom(ws, j, r, t.value, i);
        }
        if FoldUp(ws, j, r) == Unreachable {
          var i: nat :| 0 < i <= j - 1 && StopsAt(ws, j - 1, t.value, i);
          assert StopsAt(ws, j, r, i);
        } else {
          assert forall i: nat | 0 < i < j :: StopsAt(ws, j, r, i) ==> StopsAt(ws, j - 1, t.value, i);
        }
      }
    }
  }

  // ----- what a translation does to an address

  /** The window takes in the address. */
  predicate Covers(w: Range, addr: int) {
    w.Identity? || w.child <= addr < w.child + w.len
  }

  /** How far the window moves an address. */
  function Shift(w: Range): int {
    if w.Identity? then 0 else w.parent - w.child
  }

  /** A window translates exactly the blocks that start in it, to the same distance from its parent address. */
  lemma TranslateShifts(w: Range, r: RegBlock)
    ensures Translate(w, r).Some? <==> Covers(w, r.addr)
    ensures Covers(w, r.addr) ==> var t := Translate(w, r).value; t.addr == r.addr + Shift(w) && t.len == r.len
  {
  }

  /** Window `i` is the first of those that cover the address. */
  predicate IsChosen(ws: seq<Range>, addr: int, i: nat) {
    i < |ws| && Covers(ws[i], addr) && forall k | 0 <= k < i :: !Covers(ws[k], addr)
  }

  /** A node translates a block by its first window that covers it, and fails exactly when none does. */
  lemma {:induction false} FirstCoverChosen(ws: seq<Range>, r: RegBlock) returns (i: nat)
    ensures FirstCover(ws, r).None? <==> forall k | 0 <= k < |ws| :: !Covers(ws[k], r.addr)
    ensures FirstCover(ws, r).Some? ==>
              && IsChosen(ws, r.addr, i)
              && var t := FirstCover(ws, r).value; t.addr == r.addr + Shift(ws[i]) && t.len == r.len
    decreases |ws|
  {
    i := 0;
    if ws != [] {
      TranslateShifts(ws[0], r);
      if !Covers(ws[0], r.addr) {
        var k := FirstCoverChosen(ws[1..], r);
        assert forall k | 0 < k < |ws| :: ws[k] == ws[1..][k - 1];
        i := k + 1;
      }
    }
  }

  /**
   The address, presented to the `j`-th node of a path, is moved up to the root by the windows
   numbered in `choice`, one for each node, each the first of its node to cover the address.
   */
  predicate Climbs(ws: seq<seq<Range>>, j: nat, addr: int, choice: seq<nat>)
    requires j < |ws|
  {
    && |choice| == j
    && (j > 0 ==>
          && IsChosen(ws[j], addr, choice[j - 1])
          && Climbs(ws, j - 1, addr + Shift(ws[j][choice[j - 1]]), choice[..j - 1]))
  }

  ghost predicate CanClimb(ws: seq<seq<Range>>, j: nat, addr: int)
    requires j < |ws|
  {
    exists choice :: Climbs(ws, j, addr, choice)
  }

  /** The sum of the shifts of the windows chosen. */
  function TotalShift(ws: seq<seq<Range>>, choice: seq<nat>): int
    requires |choice| < |ws| && forall i | 0 <= i < |choice| :: choice[i] < |ws[i + 1]|
  {
    if choice == [] then 0
    else
      var n := |choice| - 1;
      TotalShift(ws, choice[..n]) + Shift(ws[n + 1][choice[n]])
  }

  /** The translation `t` of the block `r`, presented to the `j`-th node of the path. */
  ghost predicate MovedBy(ws: seq<seq<Range>>, j: nat, r: RegBlock, t: TranslatedReg, choice: seq<nat>)
    requires j < |ws|
  {
    && (t.Translated? <==> CanClimb(ws, j, r.addr))
    && (t.Translated? ==>
          && Climbs(ws, j, r.addr, choice) && (forall i | 0 <= i < j :: choice[i] < |ws[i + 1]|)
          && t.reg.addr == r.addr + TotalShift(ws, choice) && t.reg.len == r.len)
  }

  /**
   A block is translated exactly when there is a window to choose at every node on the way up;
   its address is then its own plus the sum of their shifts, and its length is the same.
   */
  lemma {:induction false} TranslationShifts(ws: seq<seq<Range>>, j: nat, r: RegBlock) returns (choice: seq<nat>)
    requires j < |ws|
    ensures MovedBy(ws, j, r, FoldUp(ws, j, r), choice)
    decreases j
  {
    choice := [];
    if j == 0 {
      assert Climbs(ws, 0, r.addr, []);
    } else {
      var i := FirstCoverChosen(ws[j], r);
      var t := FirstCover(ws[j], r);
      ClimbsFirst(ws, j, r.addr);
      if t.Some? {
        var rest := TranslationShifts(ws, j - 1, t.value);
        choice := rest + [i];
        ClimbsRest(ws, j, r.addr, i);
        if FoldUp(ws, j, r).Translated? {
          ClimbsOn(ws, j, r.addr, rest, i);
        }
      }
    }
  }

  lemma {:induction false} ClimbsOn(ws: seq<seq<Range>>, j: nat, addr: int, rest: seq<nat>, i: nat)
    requires 0 < j < |ws| && IsChosen(ws[j], addr, i) && Climbs(ws, j - 1, addr + Shift(ws[j][i]), rest)
    requires forall k | 0 <= k < j - 1 :: rest[k] < |ws[k + 1]|
    ensures Climbs(ws, j, addr, rest + [i]) && forall k | 0 <= k < j :: (rest + [i])[k] < |ws[k + 1]|
    ensures TotalShift(ws, rest + [i]) == TotalShift(ws, rest) + Shift(ws[j][i])
  {
    assert (rest + [i])[..j - 1] == rest;
  }

  lemma {:induction false} ClimbsFirst(ws: seq<seq<Range>>, j: nat, addr: int)
    requires 0 < j < |ws|
    ensures CanClimb(ws, j, addr) ==> exists k | 0 <= k < |ws[j]| :: Covers(ws[j][k], addr)
  {
    if c :| Climbs(ws, j, addr, c) {
      assert Covers(ws[j][c[j - 1]], addr);
    }
  }

  lemma {:induction false} ClimbsRest(ws: seq<seq<Range>>, j: nat, addr: int, i: nat)
    requires 0 < j < |ws| && IsChosen(ws[j], addr, i)
    ensures CanClimb(ws, j, addr) ==> CanClimb(ws, j - 1, addr + Shift(ws[j][i]))
  {
    if c :| Climbs(ws, j, addr, c) {
      ChosenOnce(ws[j], addr, i, c[j - 1]);
      assert Climbs(ws, j - 1, addr + Shift(ws[j][i]), c[..j - 1]);
    }
  }

  lemma {:induction false} FoldAllAt(ws: seq<seq<Range>>, j: nat, regs: seq<RegBlock>, k: nat)
    requires j < |ws| && k < |regs|
    ensures |FoldAll(ws, j, regs)| == |regs| && FoldAll(ws, j, regs)[k] == FoldUp(ws, j, regs[k])
    decreases |regs|
  {
    if |regs| > 1 {
      FoldAllAt(ws, j, regs[1..], if k == 0 then 0 else k - 1);
    }
  }

  /**
   The `k`-th translated block of a node below the root: it comes through exactly when every
   ancestor below the root has a window for it, and its address is then the one its `reg`
   holds plus the shifts of the first such windows.
   */
  lemma {:induction false} TranslatedAddress(dt: DeviceTree, lead: nat, root: Tree, trail: nat, path: seq<Place>,
                                             k: nat)
    returns (choice: seq<nat>)
    requires Block(dt, lead, root, trail) && Path(lead, root, path) && |path| >= 2
    requires k < |TreeRegs(dt.strings, Some(path[|path| - 2].tree), path[|path| - 1].tree)|
    ensures var j, node, ws := |path| - 2, path[|path| - 1], PathRanges(dt.strings, path);
            var regs := NodeRegs(dt, node.Record());
            var all := AscendAll(dt, regs, node.Record());
            && regs == TreeRegs(dt.strings, Some(path[j].tree), node.tree) && |all| == |regs|
            && MovedBy(ws, j, regs[k], all[k], choice)
  {
    var j, ws := |path| - 2, PathRanges(dt.strings, path);
    var regs := TreeRegs(dt.strings, TreeOf(PlaceAbove(path, j + 1)), path[j + 1].tree);
    TranslationRoundTrip(dt, lead, root, trail, path);
    FoldAllAt(ws, j, regs, k);
    choice := TranslationShifts(ws, j, regs[k]);
  }

  lemma ChosenOnce(ws: seq<Range>, addr: int, i: nat, k: nat)
    requires IsChosen(ws, addr, i) && IsChosen(ws, addr, k)
    ensures i == k
  {
  }
}
