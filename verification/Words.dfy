/** Unsigned machine words as the runtime uses them: wrap-around and bit masks. */
module Words {

  const WORD: nat := 0x1_0000_0000_0000_0000

  function Wrap64(x: int): nat { x % WORD }

  function Pow2(k: nat): nat {
    if k == 0 then 1 else 2 * Pow2(k - 1)
  }

  /** The bitwise conjunction of two unsigned numbers. */
  function BitAnd(a: nat, b: nat): nat
    decreases a
  {
    if a == 0 || b == 0 then 0 else 2 * BitAnd(a / 2, b / 2) + (if a % 2 == 1 && b % 2 == 1 then 1 else 0)
  }

  /** The logical right shift. */
  function ShiftRight(x: nat, k: nat): nat {
    if k == 0 then x else ShiftRight(x / 2, k - 1)
  }

  lemma {:induction false} ShiftDivides(x: nat, k: nat)
    ensures Pow2(k) >= 1 && ShiftRight(x, k) == x / Pow2(k)
    decreases k
  {
    PowPositive(k);
    if k > 0 {
      PowPositive(k - 1);
      ShiftDivides(x / 2, k - 1);
      Halve(x, Pow2(k - 1));
    }
  }

  lemma {:induction false} PowPositive(k: nat)
    ensures Pow2(k) >= 1
  {
    if k > 0 {
      PowPositive(k - 1);
    }
  }

  lemma {:induction false} PowMonotone(a: nat, b: nat)
    requires a <= b
    ensures Pow2(a) <= Pow2(b)
  {
    if a < b {
      PowMonotone(a, b - 1);
      PowPositive(b - 1);
    }
  }

  /** A mask of ones keeps a number that fits under it. */
  lemma {:induction false} AndOnes(x: nat, w: nat)
    requires x < Pow2(w)
    ensures BitAnd(x, Pow2(w) - 1) == x
    decreases w
  {
    PowPositive(w);
    if x > 0 {
      assert w > 0;
      PowPositive(w - 1);
      assert (Pow2(w) - 1) / 2 == Pow2(w - 1) - 1 && (Pow2(w) - 1) % 2 == 1;
      AndOnes(x / 2, w - 1);
    }
  }

  /** The mask 2^w - 2^k rounds down to a multiple of 2^k. */
  lemma {:induction false} MaskIsFloor(x: nat, k: nat, w: nat)
    requires k <= w && x < Pow2(w)
    ensures Pow2(k) <= Pow2(w) && Pow2(k) >= 1
    ensures BitAnd(x, Pow2(w) - Pow2(k)) == (x / Pow2(k)) * Pow2(k)
    decreases k
  {
    PowMonotone(k, w);
    PowPositive(k);
    if k == 0 {
      AndOnes(x, w);
    } else {
      var h := Pow2(k - 1);
      PowMonotone(k - 1, w - 1);
      MaskIsFloor(x / 2, k - 1, w - 1);
      AndEven(x, Pow2(w - 1) - h);
      Halve(x, h);
      Double(x / 2 / h, h);
    }
  }

  lemma {:induction false} AndEven(x: nat, m: nat)
    ensures BitAnd(x, 2 * m) == 2 * BitAnd(x / 2, m)
  {
    if x > 0 && m > 0 {
      assert (2 * m) / 2 == m && (2 * m) % 2 == 0;
    }
  }

  lemma {:induction false} Double(q: nat, h: nat)
    ensures 2 * (q * h) == q * (2 * h)
  {
  }

  lemma {:induction false} Halve(x: nat, h: nat)
    requires h >= 1
    ensures x / (2 * h) == x / 2 / h
  {
    var q, r := x / 2 / h, x / 2 % h;
    assert x / 2 == q * h + r;
    assert x == 2 * (q * h + r) + x % 2;
    assert x == q * (2 * h) + (2 * r + x % 2);
    Quotient(x, 2 * h, q, 2 * r + x % 2);
  }

  lemma {:induction false} Quotient(x: nat, d: nat, q: nat, r: nat)
    requires x == q * d + r && r < d
    ensures x / d == q && x % d == r
  {
    var q', r' := x / d, x % d;
    assert x == q' * d + r';
    if q < q' {
      MulMonotone(q + 1, q', d);
    } else if q > q' {
      MulMonotone(q' + 1, q, d);
    }
  }

  lemma {:induction false} MulMonotone(a: nat, b: nat, d: nat)
    requires a <= b
    ensures a * d <= b * d
  {
  }

  lemma {:induction false} PowAdd(a: nat, b: nat)
    ensures Pow2(a + b) == Pow2(a) * Pow2(b)
  {
    if a > 0 {
      PowAdd(a - 1, b);
    }
  }

  lemma {:induction false} WordIsPow()
    ensures Pow2(32) == 0x1_0000_0000 && Pow2(64) == WORD
  {
    assert Pow2(4) == 16;
    PowAdd(4, 4);
    PowAdd(8, 8);
    PowAdd(16, 16);
    PowAdd(32, 32);
  }

  // ---------- multiples, without the solver's nonlinear arithmetic ----------

  /** n copies of d. */
  function Product(n: nat, d: nat): nat {
    if n == 0 then 0 else Product(n - 1, d) + d
  }

  lemma {:induction false} ProductIsTimes(n: nat, d: nat)
    ensures Product(n, d) == n * d
  {
    if n > 0 {
      ProductIsTimes(n - 1, d);
      assert n * d == (n - 1) * d + d;
    }
  }

  /** Sizes in whole pages compare and add as their page counts do. */
  lemma {:induction false} ProductOrder(m: nat, n: nat, d: nat)
    requires d >= 1
    ensures m <= n <==> Product(m, d) <= Product(n, d)
    ensures Product(m + n, d) == Product(m, d) + Product(n, d)
  {
    ProductIsTimes(m, d);
    ProductIsTimes(n, d);
    ProductIsTimes(m + n, d);
    if m <= n {
      MulMonotone(m, n, d);
    } else {
      MulMonotone(n + 1, m, d);
    }
  }

  lemma {:induction false} QuotientBounds(x: nat, d: nat)
    requires d >= 1
    ensures Product(x / d, d) <= x < Product(x / d + 1, d)
  {
    ProductIsTimes(x / d, d);
  }
}
