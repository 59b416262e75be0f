/**
 The bitwise operators of the machine integers, defined on naturals bit by bit,
 and the laws that turn the masks and shifts used by the kernel into division
 and remainder.
 */
module Bits {

  const U64_LIMIT: nat := 0x1_0000_0000_0000_0000

  function Pow2(k: nat): (r: nat)
    ensures r >= 1
  {
    if k == 0 then 1 else 2 * Pow2(k - 1)
  }

  predicate IsPow2(n: nat) {
    exists k: nat | k <= n :: n == Pow2(k)
  }

  function And(a: nat, b: nat): nat {
    if a == 0 || b == 0 then 0
    else 2 * And(a / 2, b / 2) + (if a % 2 == 1 && b % 2 == 1 then 1 else 0)
  }

  function Or(a: nat, b: nat): nat {
    if a == 0 then b
    else if b == 0 then a
    else 2 * Or(a / 2, b / 2) + (if a % 2 == 1 || b % 2 == 1 then 1 else 0)
  }

  function Shl(x: nat, k: nat): nat {
    x * Pow2(k)
  }

  function Shr(x: nat, k: nat): nat {
    DivNat(x, Pow2(k));
    x / Pow2(k)
  }

  lemma DivNat(x: nat, d: nat)
    requires d >= 1
    ensures 0 <= x / d
  {
  }

  /** Bit `i` of `x`, counting from the least significant. */
  predicate BitAt(x: nat, i: nat)
    decreases i
  {
    if i == 0 then x % 2 == 1 else BitAt(x / 2, i - 1)
  }

  lemma DivModUnique(x: int, d: int, q: int, r: int)
    requires 0 <= r < d
    requires x == q * d + r
    ensures x / d == q && x % d == r
  {
    var q', r' := x / d, x % d;
    assert x == d * q' + r';
    assert d * (q - q') == r' - r by { assert d * (q - q') == d * q - d * q'; }
    if q > q' {
      MulAtLeast(d, q - q');
      assert false;
    } else if q < q' {
      MulAtLeast(d, q' - q);
      assert false;
    }
  }

  lemma MulAtLeast(d: int, n: int)
    requires d > 0 && n >= 1
    ensures d * n >= d && d * -n <= -d
  {
  }

  /** The digit of `x` between the weights `a` and `a * b`. */
  lemma Digit(x: nat, a: nat, b: nat)
    requires a > 0 && b > 0
    ensures a * b > 0
    ensures x / (a * b) == x / a / b
    ensures x / a == x / a % b + b * (x / (a * b))
  {
    var y, z := x / a, x % a;
    var q, r := y / b, y % b;
    DigitSum(a, b, y, z, q, r);
    DivModUnique(x, a * b, q, a * r + z);
  }

  lemma DigitSum(a: nat, b: nat, y: nat, z: nat, q: nat, r: nat)
    requires z < a && r < b && y == b * q + r
    ensures 0 <= a * r + z < a * b
    ensures a * y + z == q * (a * b) + (a * r + z)
  {
    MulDistributes(a, b * q, r);
    MulAssociates(a, b, q);
    MulDistributes(a, r, b - r);
    MulAtLeast(a, b - r);
    MulSign(a, r);
  }

  lemma MulDistributes(a: int, x: int, y: int)
    ensures a * (x + y) == a * x + a * y
  {
  }

  lemma MulAssociates(a: int, b: int, q: int)
    ensures a * (b * q) == q * (a * b)
  {
  }

  lemma MulSign(a: nat, r: nat)
    ensures 0 <= a * r
  {
  }

  /** Adding a multiple of `s` keeps the remainder. */
  lemma ModShift(x: nat, s: nat, m: nat)
    requires s >= 1
    ensures (x + s * m) % s == x % s
  {
    MulDistributes(s, x / s, m);
    DivModUnique(x + s * m, s, x / s + m, x % s);
  }

  /** A multiple of `s * m` is a multiple of `s`. */
  lemma ModFactor(x: nat, s: nat, m: nat)
    requires s >= 1 && m >= 1 && s * m >= 1 && x % (s * m) == 0
    ensures x % s == 0
  {
    var q := x / (s * m);
    assert x == (s * m) * q;
    MulAssociates(s, m, q);
    DivModUnique(x, s, m * q, 0);
  }

  /** Splitting off the lowest bit commutes with reduction modulo a power of two. */
  lemma {:induction false} ModStep(x: nat, k: nat)
    requires k > 0
    ensures x % Pow2(k) == 2 * ((x / 2) % Pow2(k - 1)) + x % 2
  {
    var p := Pow2(k - 1);
    var q, r := (x / 2) / p, (x / 2) % p;
    assert x / 2 == p * q + r;
    assert x == q * (2 * p) + (2 * r + x % 2) by {
      assert q * (2 * p) == 2 * (p * q);
    }
    DivModUnique(x, 2 * p, q, 2 * r + x % 2);
  }

  /** `x & mask`, for a mask of the lowest `w` bits. */
  lemma {:induction false} AndLow(x: nat, w: nat)
    ensures And(x, Pow2(w) - 1) == x % Pow2(w)
    decreases w
  {
    if w > 0 {
      AndLow(x / 2, w - 1);
      AndLowStep(x, w);
    }
  }

  lemma {:induction false} AndLowStep(x: nat, w: nat)
    requires w > 0 && And(x / 2, Pow2(w - 1) - 1) == x / 2 % Pow2(w - 1)
    ensures And(x, Pow2(w) - 1) == x % Pow2(w)
  {
    var p := Pow2(w - 1);
    ModStep(x, w);
    AndOdd(x, p - 1);
    assert Pow2(w) == 2 * p;
  }

  /** `x & mask`, for a mask of the bits from `k` up to but excluding `w`. */
  lemma {:induction false} AndField(x: nat, w: nat, k: nat)
    requires k <= w
    ensures Pow2(k) <= Pow2(w)
    ensures And(x, Pow2(w) - Pow2(k)) == x % Pow2(w) - x % Pow2(k)
    decreases w
  {
    if k == 0 {
      AndLow(x, w);
    } else {
      AndField(x / 2, w - 1, k - 1);
      AndFieldStep(x, w, k);
    }
  }

  lemma {:induction false} AndFieldStep(x: nat, w: nat, k: nat)
    requires w > 0 && k > 0 && Pow2(k - 1) <= Pow2(w - 1)
    requires And(x / 2, Pow2(w - 1) - Pow2(k - 1)) == (x / 2) % Pow2(w - 1) - (x / 2) % Pow2(k - 1)
    ensures Pow2(k) <= Pow2(w)
    ensures And(x, Pow2(w) - Pow2(k)) == x % Pow2(w) - x % Pow2(k)
  {
    ModStep(x, w);
    ModStep(x, k);
    AndEven(x, Pow2(w - 1) - Pow2(k - 1));
    assert Pow2(w) - Pow2(k) == 2 * (Pow2(w - 1) - Pow2(k - 1));
  }

  lemma {:induction false} AndEven(x: nat, m: nat)
    ensures And(x, 2 * m) == 2 * And(x / 2, m)
  {
  }

  lemma {:induction false} AndOdd(x: nat, m: nat)
    ensures And(x, 2 * m + 1) == 2 * And(x / 2, m) + x % 2
  {
  }

  /** `a | b` is a sum when `b` lies below the lowest bit of `a`. */
  lemma {:induction false} OrDisjoint(a: nat, k: nat, b: nat)
    requires b < Pow2(k)
    ensures Or(a * Pow2(k), b) == a * Pow2(k) + b
  {
    if k > 0 && a > 0 && b > 0 {
      var p := a * Pow2(k - 1);
      assert a * Pow2(k) == 2 * p;
      OrDisjoint(a, k - 1, b / 2);
      assert p > 0;
    }
  }

  lemma {:induction false} Pow2IsPow2(k: nat)
    ensures k < Pow2(k) && IsPow2(Pow2(k))
  {
    if k > 0 {
      Pow2IsPow2(k - 1);
    }
  }

  lemma Pow2Monotone(j: nat, k: nat)
    requires j <= k
    ensures Pow2(j) <= Pow2(k)
    decreases k
  {
    if j < k {
      Pow2Monotone(j, k - 1);
    }
  }

  lemma {:induction false} Pow2Add(j: nat, k: nat)
    ensures Pow2(j + k) == Pow2(j) * Pow2(k)
    decreases k
  {
    if k > 0 {
      Pow2Add(j, k - 1);
      assert Pow2(j + k) == 2 * Pow2(j + (k - 1));
      assert Pow2(j) * (2 * Pow2(k - 1)) == 2 * (Pow2(j) * Pow2(k - 1));
    }
  }

  lemma {:induction false} Pow2Constants()
    ensures Pow2(3) == 8
    ensures Pow2(9) == 0x200
    ensures Pow2(12) == 0x1000
    ensures Pow2(18) == 0x4_0000
    ensures Pow2(21) == 0x20_0000
    ensures Pow2(27) == 0x800_0000
    ensures Pow2(30) == 0x4000_0000
    ensures Pow2(36) == 0x10_0000_0000
    ensures Pow2(39) == 0x80_0000_0000
    ensures Pow2(48) == 0x1_0000_0000_0000
    ensures Pow2(64) == U64_LIMIT
  {
    Pow2Small();
    Pow2Product(9, 9, 0x200, 0x200);
    Pow2Product(9, 3, 0x200, 8);
    Pow2Product(18, 3, 0x4_0000, 8);
    Pow2Product(18, 9, 0x4_0000, 0x200);
    Pow2Product(27, 3, 0x800_0000, 8);
    Pow2Product(27, 9, 0x800_0000, 0x200);
    Pow2Product(36, 3, 0x10_0000_0000, 8);
    Pow2Product(36, 12, 0x10_0000_0000, 0x1000);
    Pow2Product(48, 12, 0x1_0000_0000_0000, 0x1000);
    Pow2Product(60, 4, 0x1000_0000_0000_0000, 16);
  }

  lemma {:induction false} Pow2Small()
    ensures Pow2(3) == 8 && Pow2(4) == 16 && Pow2(9) == 0x200
  {
    Pow2Add(4, 4);
    assert Pow2(3) == 8 && Pow2(4) == 16;
    assert Pow2(9) == 2 * Pow2(8);
  }

  lemma {:induction false} Pow2Product(j: nat, k: nat, x: nat, y: nat)
    requires Pow2(j) == x && Pow2(k) == y
    ensures Pow2(j + k) == x * y
  {
    Pow2Add(j, k);
  }

  // ----- single bits of a byte

  lemma {:induction false} AndAt(a: nat, b: nat, i: nat)
    ensures BitAt(And(a, b), i) <==> BitAt(a, i) && BitAt(b, i)
    decreases i
  {
    if a == 0 || b == 0 {
      ZeroAt(i);
    } else if i > 0 {
      AndAt(a / 2, b / 2, i - 1);
    }
  }

  lemma {:induction false} OrAt(a: nat, b: nat, i: nat)
    ensures BitAt(Or(a, b), i) <==> BitAt(a, i) || BitAt(b, i)
    decreases i
  {
    if a == 0 || b == 0 {
      ZeroAt(i);
    } else if i > 0 {
      OrAt(a / 2, b / 2, i - 1);
    }
  }

  lemma {:induction false} ZeroAt(i: nat)
    ensures !BitAt(0, i)
  {
    if i > 0 {
      ZeroAt(i - 1);
    }
  }

  lemma {:induction false} Pow2At(k: nat, i: nat)
    ensures BitAt(Pow2(k), i) <==> i == k
    decreases i
  {
    if k == 0 && i > 0 {
      ZeroAt(i - 1);
    } else if k > 0 && i > 0 {
      Pow2At(k - 1, i - 1);
    }
  }

  /** `!x` on `w`-bit words. */
  lemma {:induction false} NotAt(x: nat, w: nat, i: nat)
    requires x < Pow2(w) && i < w
    ensures BitAt(Pow2(w) - 1 - x, i) <==> !BitAt(x, i)
    decreases i
  {
    assert (Pow2(w) - 1 - x) / 2 == Pow2(w - 1) - 1 - x / 2;
    if i > 0 {
      NotAt(x / 2, w - 1, i - 1);
    }
  }

  lemma {:induction false} AndBound(a: nat, b: nat)
    ensures And(a, b) <= a && And(a, b) <= b
  {
    if a != 0 && b != 0 {
      AndBound(a / 2, b / 2);
    }
  }

  lemma {:induction false} OrBound(a: nat, b: nat, w: nat)
    requires a < Pow2(w) && b < Pow2(w)
    ensures Or(a, b) < Pow2(w)
    decreases w
  {
    if w > 0 && a != 0 && b != 0 {
      OrBound(a / 2, b / 2, w - 1);
    }
  }

  /** A word that is not zero has a set bit, so a one-bit mask test reads that bit. */
  lemma {:induction false} AndPow2(x: nat, k: nat)
    ensures And(x, Pow2(k)) > 0 <==> BitAt(x, k)
  {
    if x == 0 {
      ZeroAt(k);
    } else if k > 0 {
      AndPow2(x / 2, k - 1);
    } else {
      assert And(x / 2, Pow2(0) / 2) == 0;
    }
  }
}
