/**
 From the bytes that the Devicetree Specification prescribes to what the readers of
 port/src/fdt.rs return: names in the strings block, cell counts, and the `reg` and `ranges`
 of a node of a flattened tree.
 */
module FdtWritten {
  import opened Wrappers
  import opened FdtTokens
  import opened FdtTree
  import opened FdtScan
  import opened FdtRoundTrip
  import opened FdtReg
  import opened FdtCells
  import opened FdtTranslate

  // ----- names

  /** A name that can stand in a strings block. */
  predicate IsName(name: string) {
    forall i | 0 <= i < |name| :: 0 < name[i] as int < 256
  }

  function Codes(name: string): (b: Bytes)
    requires IsName(name)
    ensures |b| == |name| && forall i | 0 <= i < |name| :: b[i] as int == name[i] as int
  {
    seq(|name|, i requires 0 <= i < |name| => name[i] as int as Byte)
  }

  /** The name stands at `off`, with a zero byte behind it. */
  predicate NameAt(strings: Bytes, off: nat, name: string) {
    IsName(name) && At(strings, off, Codes(name) + [0])
  }

  lemma {:induction false} ZeroIsFirst(s: Bytes, i: nat, j: nat)
    requires ZeroPosition(s, i).Some? && j <= ZeroPosition(s, i).value
    ensures s[i + j] == 0 <==> j == ZeroPosition(s, i).value
    decreases j
  {
    if j > 0 {
      ZeroIsFirst(s, i + 1, j - 1);
      assert i + 1 + (j - 1) == i + j;
    }
  }

  lemma {:induction false} SliceAt(s: Bytes, i: nat, chunk: Bytes)
    requires i + |chunk| <= |s| && s[i..i + |chunk|] == chunk
    ensures At(s, i, chunk)
    decreases |chunk|
  {
    if chunk != [] {
      assert chunk[0] == s[i];
      assert chunk[1..] == s[i + 1..i + 1 + |chunk[1..]|];
      SliceAt(s, i + 1, chunk[1..]);
    }
  }

  /** `inline_str` finds a name exactly where its bytes stand. */
  lemma {:induction false} InlineStrIff(strings: Bytes, off: nat, name: string)
    requires IsName(name)
    ensures InlineStr(strings, off) == Some(name) <==> NameAt(strings, off, name)
  {
    if NameAt(strings, off, name) {
      NameFound(strings, off, name);
    }
    if InlineStr(strings, off) == Some(name) {
      FoundName(strings, off, name);
    }
  }

  lemma {:induction false} NameFound(strings: Bytes, off: nat, name: string)
    requires IsName(name) && NameAt(strings, off, name)
    ensures InlineStr(strings, off) == Some(name)
  {
    AtConcat(strings, off, Codes(name), [0], off + |name|);
    ZeroAfterName(strings, off, Codes(name));
    AtSlice(strings, off, Codes(name));
    assert Text(Codes(name)) == name;
  }

  lemma {:induction false} FoundName(strings: Bytes, off: nat, name: string)
    requires IsName(name) && InlineStr(strings, off) == Some(name)
    ensures NameAt(strings, off, name)
  {
    var n := ZeroPosition(strings, off).value;
    var chunk := strings[off..off + n];
    assert Text(chunk) == name && |chunk| == n;
    forall i | 0 <= i < n
      ensures chunk[i] == Codes(name)[i]
    {
      assert Text(chunk)[i] == chunk[i] as int as char;
    }
    ZeroIsFirst(strings, off, n);
    assert strings[off..off + n + 1] == Codes(name) + [0];
    SliceAt(strings, off, Codes(name) + [0]);
  }

  /** The name read for a node of a tree is the one it was written with. */
  lemma {:induction false} NodeNameWritten(s: Bytes, p: Place)
    requires ValidTree(p.tree) && At(s, p.start, FlatTree(p.tree))
    ensures InlineStr(s, p.Record().nameStart) == Some(Text(p.tree.name))
  {
    var name, i := p.tree.name, p.start + 4;
    HeadAt(s, p.start, p.tree);
    BeginParts(s, p.start, name);
    ZeroAfterName(s, i, name);
    AtSlice(s, i, name);
  }

  lemma {:induction false} HeadAt(s: Bytes, i: nat, t: Tree)
    requires ValidTree(t) && At(s, i, FlatTree(t))
    ensures At(s, i, BeginBytes(t.name))
  {
    var head, body := BeginBytes(t.name), FlatBody(t.body);
    AtConcat(s, i, head + body, EndBytes(), i + |head + body|);
    AtConcat(s, i, head, body, i + |head|);
  }

  // ----- properties and cell counts of a tree

  /** The property at `i` is the first of the node with the name. */
  predicate IsFirst(strings: Bytes, t: Tree, name: string, i: nat) {
    var attrs := Attrs(t.body);
    && i < |attrs| && NameAt(strings, attrs[i].0, name)
    && forall k | 0 <= k < i :: !NameAt(strings, attrs[k].0, name)
  }

  /** The node has the property with the value. */
  ghost predicate Has(strings: Bytes, t: Tree, name: string, value: Bytes) {
    exists i: nat :: IsFirst(strings, t, name, i) && Attrs(t.body)[i].1 == value
  }

  ghost predicate Lacks(strings: Bytes, t: Tree, name: string) {
    forall i | 0 <= i < |Attrs(t.body)| :: !NameAt(strings, Attrs(t.body)[i].0, name)
  }

  lemma {:induction false} AttrIsFirst(strings: Bytes, attrs: seq<(U32, Bytes)>, name: string, i: nat)
    requires IsName(name) && i <= |attrs|
    requires forall k | 0 <= k < i :: !NameAt(strings, attrs[k].0, name)
    ensures i == |attrs| ==> AttrNamed(strings, attrs, name) == None
    ensures i < |attrs| && NameAt(strings, attrs[i].0, name) ==> AttrNamed(strings, attrs, name) == Some(attrs[i].1)
    decreases i
  {
    if attrs != [] {
      InlineStrIff(strings, attrs[0].0, name);
      if i > 0 {
        assert forall k | 0 <= k < i - 1 :: attrs[1..][k] == attrs[k + 1];
        AttrIsFirst(strings, attrs[1..], name, i - 1);
      }
    }
  }

  /** A property is found exactly if the node has it, and is the first of its name. */
  lemma {:induction false} AttrHas(strings: Bytes, t: Tree, name: string, value: Bytes)
    requires IsName(name)
    ensures Has(strings, t, name, value) ==> TreeAttr(strings, t, name) == Some(value)
    ensures Lacks(strings, t, name) ==> TreeAttr(strings, t, name) == None
  {
    var attrs := Attrs(t.body);
    if Has(strings, t, name, value) {
      var i: nat :| IsFirst(strings, t, name, i) && attrs[i].1 == value;
      AttrIsFirst(strings, attrs, name, i);
    }
    if Lacks(strings, t, name) {
      AttrIsFirst(strings, attrs, name, |attrs|);
    }
  }

  /** The cell count: the word that the property holds, or the default without one. */
  ghost predicate CellsAre(strings: Bytes, t: Option<Tree>, name: string, default: nat, n: nat) {
    match t
    case None => n == default
    case Some(t) =>
      || (Lacks(strings, t, name) && n == default)
      || (n < 0x1_0000_0000 && Has(strings, t, name, WordBytes(n)))
  }

  lemma {:induction false} CellsOf(strings: Bytes, t: Option<Tree>, name: string, default: nat, n: nat)
    requires IsName(name) && CellsAre(strings, t, name, default, n)
    ensures TreeCells(strings, t, name, default) == n
  {
    if t.Some? {
      AttrHas(strings, t.value, name, []);
      if n < 0x1_0000_0000 {
        AttrHas(strings, t.value, name, WordBytes(n));
        WordSelf(n);
      }
    }
  }

  lemma {:induction false} WordSelf(n: U32)
    ensures U32At(WordBytes(n), 0) == Some(n)
  {
    AtSelf(WordBytes(n), 0);
    assert WordBytes(n)[0..] == WordBytes(n);
    WordRoundTrip(WordBytes(n), 0, n);
  }

  // ----- `reg` and `ranges` of a node

  /** The cells that the parent of a node prescribes for its `reg`. */
  ghost predicate RegCellsAre(strings: Bytes, parent: Option<Tree>, ac: nat, sc: nat) {
    && CellsAre(strings, parent, "#address-cells", 2, ac) && CellsAre(strings, parent, "#size-cells", 1, sc)
    && RegCellsOk(ac, sc)
  }

  lemma {:induction false} TreeRegsWritten(strings: Bytes, parent: Option<Tree>, t: Tree, rs: seq<RegBlock>,
                                           ac: nat, sc: nat)
    requires RegCellsAre(strings, parent, ac, sc) && forall r | r in rs :: RegFits(r, ac, sc)
    requires Has(strings, t, "reg", RegBytes(rs, ac, sc))
    ensures TreeRegs(strings, parent, t) == rs
  {
    var v := RegBytes(rs, ac, sc);
    CellsOf(strings, parent, "#address-cells", 2, ac);
    CellsOf(strings, parent, "#size-cells", 1, sc);
    AttrHas(strings, t, "reg", v);
    WholeAt(v);
    RegsRoundTrip(v, 0, rs, ac, sc, |v|);
  }

  lemma {:induction false} WholeAt(v: Bytes)
    ensures At(v, 0, v)
  {
    AtSelf(v, 0);
    assert v[0..] == v;
  }

  /** A node whose `reg` was written in the cells its parent prescribes reads as the blocks written. */
  lemma {:induction false} WrittenRegs(dt: DeviceTree, q: Option<Place>, k: Place, rs: seq<RegBlock>, ac: nat, sc: nat)
    requires ParentStands(dt, q, k)
    requires RegCellsAre(dt.strings, TreeOf(q), ac, sc) && forall r | r in rs :: RegFits(r, ac, sc)
    requires Has(dt.strings, k.tree, "reg", RegBytes(rs, ac, sc))
    ensures NodeRegs(dt, k.Record()) == rs
  {
    RegsRead(dt, q, k);
    TreeRegsWritten(dt.strings, TreeOf(q), k.tree, rs, ac, sc);
  }

  /** Without a `reg` it has no blocks. */
  lemma {:induction false} NoRegs(dt: DeviceTree, q: Option<Place>, k: Place)
    requires ParentStands(dt, q, k) && Lacks(dt.strings, k.tree, "reg")
    ensures NodeRegs(dt, k.Record()) == []
  {
    RegsRead(dt, q, k);
    AttrHas(dt.strings, k.tree, "reg", []);
  }

  /** The cells of a node's `ranges`: its parent's for the parent address, its own for the rest. */
  ghost predicate RangeCellsAre(strings: Bytes, parent: Option<Tree>, t: Tree, pac: nat, ac: nat, sc: nat) {
    && CellsAre(strings, parent, "#address-cells", 2, pac)
    && CellsAre(strings, Some(t), "#address-cells", 2, ac) && CellsAre(strings, Some(t), "#size-cells", 1, sc)
    && RangeCellsOk(pac, ac, sc)
  }

  lemma {:induction false} TreeRangesWritten(strings: Bytes, parent: Option<Tree>, t: Tree, ws: seq<Range>,
                                             pac: nat, ac: nat, sc: nat)
    requires RangeCellsAre(strings, parent, t, pac, ac, sc) && forall w | w in ws :: WindowFits(w, pac, ac, sc)
    requires ws != [] && Has(strings, t, "ranges", WindowBytes(ws, pac, ac, sc))
    ensures TreeRanges(strings, parent, t) == ws
  {
    var v := WindowBytes(ws, pac, ac, sc);
    RangeCellsOf(strings, parent, t, pac, ac, sc);
    AttrHas(strings, t, "ranges", v);
    RangesWritten(v, ws, pac, ac, sc);
  }

  lemma {:induction false} RangeCellsOf(strings: Bytes, parent: Option<Tree>, t: Tree, pac: nat, ac: nat, sc: nat)
    requires RangeCellsAre(strings, parent, t, pac, ac, sc)
    ensures TreeCells(strings, parent, "#address-cells", 2) == pac
    ensures TreeCells(strings, Some(t), "#address-cells", 2) == ac
    ensures TreeCells(strings, Some(t), "#size-cells", 1) == sc
  {
    CellsOf(strings, parent, "#address-cells", 2, pac);
    CellsOf(strings, Some(t), "#address-cells", 2, ac);
    CellsOf(strings, Some(t), "#size-cells", 1, sc);
  }

  lemma {:induction false} RangesWritten(v: Bytes, ws: seq<Range>, pac: nat, ac: nat, sc: nat)
    requires RangeCellsOk(pac, ac, sc) && forall w | w in ws :: WindowFits(w, pac, ac, sc)
    requires ws != [] && v == WindowBytes(ws, pac, ac, sc)
    ensures Ranges(v, 0, |v|, pac, ac, sc) == ws
  {
    WholeAt(v);
    assert WindowFits(ws[0], pac, ac, sc);
    WindowsRoundTrip(v, 0, ws, pac, ac, sc, |v|);
  }

  /** A node whose `ranges` was written in these cells reads as the windows written. */
  lemma {:induction false} WrittenRanges(dt: DeviceTree, q: Option<Place>, k: Place, ws: seq<Range>,
                                         pac: nat, ac: nat, sc: nat)
    requires ParentStands(dt, q, k)
    requires RangeCellsAre(dt.strings, TreeOf(q), k.tree, pac, ac, sc)
    requires forall w | w in ws :: WindowFits(w, pac, ac, sc)
    requires ws != [] && Has(dt.strings, k.tree, "ranges", WindowBytes(ws, pac, ac, sc))
    ensures NodeRanges(dt, k.Record()) == ws
  {
    RangesRead(dt, q, k);
    TreeRangesWritten(dt.strings, TreeOf(q), k.tree, ws, pac, ac, sc);
  }

  /** With an empty `ranges`, or none, it stands for the identity. */
  lemma {:induction false} NoRanges(dt: DeviceTree, q: Option<Place>, k: Place)
    requires ParentStands(dt, q, k)
    requires Lacks(dt.strings, k.tree, "ranges") || Has(dt.strings, k.tree, "ranges", [])
    ensures NodeRanges(dt, k.Record()) == [Identity]
  {
    RangesRead(dt, q, k);
    AttrHas(dt.strings, k.tree, "ranges", []);
  }
}
