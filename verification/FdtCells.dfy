/**
 Writing `reg` and `ranges` values as sections 2.3.6 and 2.3.8 of the Devicetree
 Specification prescribe: what the readers of port/src/fdt.rs get back from them.
 */
module FdtCells {
  import opened Wrappers
  import opened FdtTokens
  import opened FdtReg

  predicate Fits(x: nat, cells: nat) {
    if cells == 1 then x < 0x1_0000_0000 else cells == 2 && x < 0x1_0000_0000_0000_0000
  }

  function High(x: nat): (r: U32)
    requires Fits(x, 2)
  {
    x / 0x1_0000_0000
  }

  function Low(x: nat): (r: U32) {
    x % 0x1_0000_0000
  }

  /** A number in one or two cells, most significant first. */
  function CellBytes(x: nat, cells: nat): (r: Bytes)
    requires Fits(x, cells)
    ensures |r| == 4 * cells
  {
    if cells == 1 then WordBytes(x) else WordBytes(High(x)) + WordBytes(Low(x))
  }

  predicate RegFits(r: RegBlock, ac: nat, sc: nat) {
    Fits(r.addr, ac) && (if sc == 0 then r.len.None? else r.len.Some? && Fits(r.len.value, sc))
  }

  function LenBytes(len: Option<nat>, sc: nat): (r: Bytes)
    requires if sc == 0 then len.None? else len.Some? && Fits(len.value, sc)
    ensures |r| == 4 * sc
  {
    if sc == 0 then [] else CellBytes(len.value, sc)
  }

  function RegBytes(rs: seq<RegBlock>, ac: nat, sc: nat): (b: Bytes)
    requires forall r | r in rs :: RegFits(r, ac, sc)
  {
    if rs == [] then []
    else
      assert RegFits(rs[0], ac, sc);
      CellBytes(rs[0].addr, ac) + LenBytes(rs[0].len, sc) + RegBytes(rs[1..], ac, sc)
  }

  predicate WindowFits(w: Range, pac: nat, ac: nat, sc: nat) {
    w.Window? && Fits(w.child, ac) && Fits(w.parent, pac) && Fits(w.len, sc)
  }

  function WindowBytes(ws: seq<Range>, pac: nat, ac: nat, sc: nat): Bytes
    requires forall w | w in ws :: WindowFits(w, pac, ac, sc)
  {
    if ws == [] then []
    else
      assert WindowFits(ws[0], pac, ac, sc);
      CellBytes(ws[0].child, ac) + CellBytes(ws[0].parent, pac) + CellBytes(ws[0].len, sc)
      + WindowBytes(ws[1..], pac, ac, sc)
  }

  lemma {:induction false} CellsRoundTrip(s: Bytes, i: nat, x: nat, cells: nat)
    requires Fits(x, cells) && At(s, i, CellBytes(x, cells)) && i + 4 * cells <= |s|
    ensures ConsumeCells(s, i, cells) == Some(x)
  {
    if cells == 1 {
      WordRoundTrip(s, i, x);
    } else {
      AtConcat(s, i, WordBytes(High(x)), WordBytes(Low(x)), i + 4);
      WordRoundTrip(s, i, High(x));
      WordRoundTrip(s, i + 4, Low(x));
      assert Wide(High(x), Low(x)) == x;
    }
  }

  lemma {:induction false} RegParts(s: Bytes, i: nat, rs: seq<RegBlock>, ac: nat, sc: nat, j: nat, k: nat)
    requires rs != [] && RegFits(rs[0], ac, sc) && forall r | r in rs :: RegFits(r, ac, sc)
    requires At(s, i, RegBytes(rs, ac, sc)) && j == i + 4 * ac && k == j + 4 * sc
    ensures At(s, i, CellBytes(rs[0].addr, ac)) && At(s, j, LenBytes(rs[0].len, sc))
            && At(s, k, RegBytes(rs[1..], ac, sc))
  {
    AtConcat(s, i, CellBytes(rs[0].addr, ac) + LenBytes(rs[0].len, sc), RegBytes(rs[1..], ac, sc), k);
    AtConcat(s, i, CellBytes(rs[0].addr, ac), LenBytes(rs[0].len, sc), j);
  }

  lemma {:induction false} RegRoundTrip(s: Bytes, i: nat, r: RegBlock, ac: nat, sc: nat, j: nat)
    requires RegFits(r, ac, sc) && j == i + 4 * ac && j + 4 * sc <= |s|
    requires At(s, i, CellBytes(r.addr, ac)) && At(s, j, LenBytes(r.len, sc))
    ensures RegAt(s, i, ac, sc) == Some(r)
  {
    CellsRoundTrip(s, i, r.addr, ac);
    if sc > 0 {
      CellsRoundTrip(s, j, r.len.value, sc);
    }
  }

  lemma {:induction false} RegsCons(s: Bytes, i: nat, stop: nat, ac: nat, sc: nat, r: RegBlock, n: nat)
    requires RegCellsOk(ac, sc) && RegAt(s, i, ac, sc) == Some(r) && n == i + 4 * ac + 4 * sc <= stop
    ensures Regs(s, i, stop, ac, sc) == [r] + Regs(s, n, stop, ac, sc)
  {
  }

  /** In cells that the readers do not support, nothing is read. */
  lemma UnsupportedCells(s: Bytes, i: nat, stop: nat, pac: nat, ac: nat, sc: nat)
    ensures ac == 0 || ac > 2 || sc > 2 ==> Regs(s, i, stop, ac, sc) == []
    ensures pac == 0 || pac > 2 || ac == 0 || ac > 2 || sc == 0 || sc > 2 ==> Windows(s, i, stop, pac, ac, sc) == []
  {
  }

  /**
   A `reg` value in the given cells reads back as the blocks it was written from; bytes too
   few for another block are passed over.
   */
  lemma {:induction false} RegsRoundTrip(s: Bytes, i: nat, rs: seq<RegBlock>, ac: nat, sc: nat, stop: nat)
    requires RegCellsOk(ac, sc) && forall r | r in rs :: RegFits(r, ac, sc)
    requires At(s, i, RegBytes(rs, ac, sc)) && stop <= |s|
    requires 0 <= stop - i - |RegBytes(rs, ac, sc)| < 4 * ac + 4 * sc
    ensures Regs(s, i, stop, ac, sc) == rs
    decreases |rs|
  {
    if rs != [] {
      var j, k := i + 4 * ac, i + 4 * ac + 4 * sc;
      RegParts(s, i, rs, ac, sc, j, k);
      RegRoundTrip(s, i, rs[0], ac, sc, j);
      RegsRoundTrip(s, k, rs[1..], ac, sc, stop);
      RegsCons(s, i, stop, ac, sc, rs[0], k);
    }
  }

  lemma {:induction false} WindowParts(s: Bytes, i: nat, ws: seq<Range>, pac: nat, ac: nat, sc: nat, j: nat, k: nat,
                                       l: nat)
    requires ws != [] && WindowFits(ws[0], pac, ac, sc) && forall w | w in ws :: WindowFits(w, pac, ac, sc)
    requires At(s, i, WindowBytes(ws, pac, ac, sc)) && j == i + 4 * ac && k == j + 4 * pac && l == k + 4 * sc
    ensures At(s, i, CellBytes(ws[0].child, ac)) && At(s, j, CellBytes(ws[0].parent, pac))
    ensures At(s, k, CellBytes(ws[0].len, sc)) && At(s, l, WindowBytes(ws[1..], pac, ac, sc))
  {
    var a, b, c := CellBytes(ws[0].child, ac), CellBytes(ws[0].parent, pac), CellBytes(ws[0].len, sc);
    AtConcat(s, i, a + b + c, WindowBytes(ws[1..], pac, ac, sc), l);
    AtConcat(s, i, a + b, c, k);
    AtConcat(s, i, a, b, j);
  }

  lemma {:induction false} WindowRoundTrip(s: Bytes, i: nat, w: Range, pac: nat, ac: nat, sc: nat, j: nat, k: nat)
    requires WindowFits(w, pac, ac, sc) && j == i + 4 * ac && k == j + 4 * pac && k + 4 * sc <= |s|
    requires At(s, i, CellBytes(w.child, ac)) && At(s, j, CellBytes(w.parent, pac)) && At(s, k, CellBytes(w.len, sc))
    ensures WindowAt(s, i, pac, ac, sc) == Some(w)
  {
    CellsRoundTrip(s, i, w.child, ac);
    CellsRoundTrip(s, j, w.parent, pac);
    CellsRoundTrip(s, k, w.len, sc);
  }

  lemma {:induction false} WindowsCons(s: Bytes, i: nat, stop: nat, pac: nat, ac: nat, sc: nat, w: Range, n: nat)
    requires RangeCellsOk(pac, ac, sc) && WindowAt(s, i, pac, ac, sc) == Some(w)
             && n == i + 4 * ac + 4 * pac + 4 * sc <= stop
    ensures Windows(s, i, stop, pac, ac, sc) == [w] + Windows(s, n, stop, pac, ac, sc)
  {
  }

  /** A `ranges` value reads back as the windows it was written from, whatever too few bytes follow. */
  lemma {:induction false} WindowsRoundTrip(s: Bytes, i: nat, ws: seq<Range>, pac: nat, ac: nat, sc: nat, stop: nat)
    requires RangeCellsOk(pac, ac, sc) && forall w | w in ws :: WindowFits(w, pac, ac, sc)
    requires At(s, i, WindowBytes(ws, pac, ac, sc)) && stop <= |s|
    requires 0 <= stop - i - |WindowBytes(ws, pac, ac, sc)| < 4 * pac + 4 * ac + 4 * sc
    ensures Windows(s, i, stop, pac, ac, sc) == ws
    decreases |ws|
  {
    if ws != [] {
      var j, k, l := i + 4 * ac, i + 4 * ac + 4 * pac, i + 4 * ac + 4 * pac + 4 * sc;
      WindowParts(s, i, ws, pac, ac, sc, j, k, l);
      WindowRoundTrip(s, i, ws[0], pac, ac, sc, j, k);
      WindowsRoundTrip(s, l, ws[1..], pac, ac, sc, stop);
      WindowsCons(s, i, stop, pac, ac, sc, ws[0], l);
    }
  }
}
