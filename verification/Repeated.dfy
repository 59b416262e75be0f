/**
 Multiplication and division by repeated addition.  Index arithmetic with
 symbolic sizes is stated with these, so that proofs about it stay linear; the
 last lemmas of the module identify them with `*`, `/` and `%`.
 */
module Repeated {
  import Bits

  function Times(n: nat, w: nat): nat {
    if n == 0 then 0 else Times(n - 1, w) + w
  }

  function Quot(x: nat, w: nat): nat
    requires w >= 1
  {
    if x < w then 0 else 1 + Quot(x - w, w)
  }

  function Rem(x: nat, w: nat): (r: nat)
    requires w >= 1
    ensures r < w
  {
    if x < w then x else Rem(x - w, w)
  }

  lemma {:induction false} QuotRem(x: nat, w: nat)
    requires w >= 1
    ensures x == Times(Quot(x, w), w) + Rem(x, w)
  {
    if x >= w {
      QuotRem(x - w, w);
    }
  }

  lemma {:induction false} QuotRemOf(q: nat, r: nat, w: nat)
    requires r < w
    ensures Quot(Times(q, w) + r, w) == q && Rem(Times(q, w) + r, w) == r
  {
    if q > 0 {
      QuotRemOf(q - 1, r, w);
      assert Times(q, w) + r - w == Times(q - 1, w) + r;
    }
  }

  lemma {:induction false} TimesAdd(m: nat, n: nat, w: nat)
    ensures Times(m + n, w) == Times(m, w) + Times(n, w)
    decreases n
  {
    if n > 0 {
      TimesAdd(m, n - 1, w);
      assert m + n - 1 == m + (n - 1);
    }
  }

  /** Numbers with a smaller leading digit are smaller, whatever the offsets below the weight. */
  lemma TimesOrder(m: nat, n: nat, w: nat)
    requires m < n
    ensures Times(m, w) + w <= Times(n, w)
  {
    TimesAdd(m, n - m, w);
    TimesAdd(1, n - m - 1, w);
    assert Times(1, w) == Times(0, w) + w;
  }

  lemma TimesLess(m: nat, n: nat, w: nat)
    requires w >= 1
    ensures Times(m, w) < Times(n, w) <==> m < n
    ensures Times(m, w) <= Times(n, w) <==> m <= n
  {
    if m < n {
      TimesOrder(m, n, w);
    } else if n < m {
      TimesOrder(n, m, w);
    }
  }

  lemma {:induction false} TimesAtLeast(n: nat, w: nat)
    requires w >= 1
    ensures n <= Times(n, w)
  {
    if n > 0 {
      TimesAtLeast(n - 1, w);
    }
  }

  // ----- the operators of the source

  lemma {:induction false} TimesIsMul(n: nat, w: nat)
    ensures Times(n, w) == n * w
  {
    if n > 0 {
      TimesIsMul(n - 1, w);
      assert (n - 1) * w + w == n * w;
    }
  }

  lemma QuotRemIsDivMod(x: nat, w: nat)
    requires w >= 1
    ensures Quot(x, w) == x / w && Rem(x, w) == x % w
  {
    QuotRem(x, w);
    TimesIsMul(Quot(x, w), w);
    Bits.DivModUnique(x, w, Quot(x, w), Rem(x, w));
  }
}
