/** Bitwise arithmetic on unsigned machine words.

    A word is a natural number and its bits are its binary digits.  The kernel's masks all select
    runs of bits, so the lemmas below turn an `&` or `|` with such a mask into arithmetic. */
module Bits {

  type Byte = b: nat | b < 0x100

  const W64: nat := 0x1_0000_0000_0000_0000

  /** C's `a & b` */
  function And(a: nat, b: nat): (r: nat)
    ensures r <= a && r <= b
    decreases a
  {
    if a == 0 then 0 else 2 * And(a / 2, b / 2) + Bit(a % 2 == 1 && b % 2 == 1)
  }

  /** C's `a | b` */
  function Or(a: nat, b: nat): (r: nat)
    ensures r >= a && r >= b
    decreases a + b
  {
    if a == 0 && b == 0 then 0 else 2 * Or(a / 2, b / 2) + Bit(a % 2 == 1 || b % 2 == 1)
  }

  function Bit(b: bool): nat { if b then 1 else 0 }

  /** C's `a << k`, before truncation to the word size */
  function Shl(a: nat, k: nat): nat {
    if k == 0 then a else 2 * Shl(a, k - 1)
  }

  lemma AndStep(a: nat, b: nat)
    ensures And(a, b) == 2 * And(a / 2, b / 2) + Bit(a % 2 == 1 && b % 2 == 1)
  {}

  lemma OrStep(a: nat, b: nat)
    ensures Or(a, b) == 2 * Or(a / 2, b / 2) + Bit(a % 2 == 1 || b % 2 == 1)
  {}

  lemma ZeroBits()
    ensures And(0, 0) == 0 && Or(0, 0) == 0
  {}

  /** `&` works on the high and low parts of two words separately. */
  lemma {:induction false} AndSplit(k: nat, a: nat, b: nat, c: nat, d: nat)
    requires b < Shl(1, k) && d < Shl(1, k)
    ensures And(Shl(a, k) + b, Shl(c, k) + d) == Shl(And(a, c), k) + And(b, d)
    decreases k
  {
    hide And, Or;
    if k == 0 {
      ZeroBits();
    } else {
      var x, y := Shl(a, k) + b, Shl(c, k) + d;
      assert x / 2 == Shl(a, k - 1) + b / 2 && x % 2 == b % 2;
      assert y / 2 == Shl(c, k - 1) + d / 2 && y % 2 == d % 2;
      AndSplit(k - 1, a, b / 2, c, d / 2);
      AndStep(x, y);
      AndStep(b, d);
    }
  }

  /** `|` works on the high and low parts of two words separately. */
  lemma {:induction false} OrSplit(k: nat, a: nat, b: nat, c: nat, d: nat)
    requires b < Shl(1, k) && d < Shl(1, k)
    ensures Or(Shl(a, k) + b, Shl(c, k) + d) == Shl(Or(a, c), k) + Or(b, d)
    decreases k
  {
    hide And, Or;
    if k == 0 {
      ZeroBits();
    } else {
      var x, y := Shl(a, k) + b, Shl(c, k) + d;
      assert x / 2 == Shl(a, k - 1) + b / 2 && x % 2 == b % 2;
      assert y / 2 == Shl(c, k - 1) + d / 2 && y % 2 == d % 2;
      OrSplit(k - 1, a, b / 2, c, d / 2);
      OrStep(x, y);
      OrStep(b, d);
    }
  }

  lemma {:induction false} OrBound(k: nat, b: nat, d: nat)
    requires b < Shl(1, k) && d < Shl(1, k)
    ensures Or(b, d) < Shl(1, k)
    decreases k
  {
    if k > 0 { OrBound(k - 1, b / 2, d / 2); }
  }

  lemma {:induction false} AndZero(a: nat)
    ensures And(a, 0) == 0
    decreases a
  {
    if a > 0 { AndZero(a / 2); }
  }

  lemma {:induction false} OrZero(a: nat)
    ensures Or(a, 0) == a && Or(0, a) == a
    decreases a
  {
    if a > 0 { OrZero(a / 2); }
  }

  /** A mask of k ones keeps the low k bits. */
  lemma {:induction false} AndOnes(a: nat, k: nat)
    requires a < Shl(1, k)
    ensures And(a, Shl(1, k) - 1) == a
    decreases k
  {
    if k > 0 {
      assert (Shl(1, k) - 1) / 2 == Shl(1, k - 1) - 1;
      AndOnes(a / 2, k - 1);
    }
  }

  lemma {:induction false} AndCommutes(a: nat, b: nat)
    ensures And(a, b) == And(b, a)
    decreases a
  {
    if a == 0 { AndZero(b); } else if b > 0 { AndCommutes(a / 2, b / 2); } else { AndZero(a); }
  }

  /** Masking with n ones at bits i .. i+n-1 keeps exactly that field of the word, in place. */
  lemma AndField(i: nat, n: nat, h: nat, f: nat, r: nat)
    requires f < Shl(1, n) && r < Shl(1, i)
    ensures And(Shl(Shl(h, n) + f, i) + r, Shl(Shl(1, n) - 1, i)) == Shl(f, i)
  {
    hide And, Shl;
    var ones: nat := Shl(1, n) - 1;
    assert And(Shl(h, n) + f, ones) == f by {
      ShlZero(n);
      AndSplit(n, h, f, 0, ones);
      AndZero(h);
      AndOnes(f, n);
    }
    AndSplit(i, Shl(h, n) + f, r, ones, 0);
    AndZero(r);
  }

  lemma {:induction false} ShlTwice(a: nat, m: nat, n: nat)
    ensures Shl(Shl(a, m), n) == Shl(a, m + n)
  {
    if n > 0 { ShlTwice(a, m, n - 1); }
  }

  /** Shifts by a constant are multiplications. */
  lemma Shl4(a: nat)
    ensures Shl(a, 4) == 0x10 * a
  {
    assert Shl(a, 1) == 2 * a;
    assert Shl(a, 2) == 4 * a;
    assert Shl(a, 3) == 8 * a;
  }

  lemma Shl8(a: nat)
    ensures Shl(a, 8) == 0x100 * a
  {
    ShlTwice(a, 4, 4);
    Shl4(a);
    Shl4(0x10 * a);
  }

  lemma Shl12(a: nat)
    ensures Shl(a, 12) == 0x1000 * a
  {
    ShlTwice(a, 8, 4);
    Shl8(a);
    Shl4(0x100 * a);
  }

  lemma Shl40(a: nat)
    ensures Shl(a, 40) == 0x100_0000_0000 * a
  {
    ShlTwice(a, 12, 12);
    ShlTwice(a, 24, 12);
    ShlTwice(a, 36, 4);
    Shl12(a);
    Shl12(0x1000 * a);
    Shl12(0x100_0000 * a);
    Shl4(0x10_0000_0000 * a);
  }

  lemma Shl52(a: nat)
    ensures Shl(a, 52) == 0x10_0000_0000_0000 * a
  {
    ShlTwice(a, 40, 12);
    Shl40(a);
    Shl12(0x100_0000_0000 * a);
  }

  lemma {:induction false} ShlZero(k: nat)
    ensures Shl(0, k) == 0
  {
    if k > 0 { ShlZero(k - 1); }
  }

  lemma MulGrows(a: nat, n: nat)
    requires a > 0
    ensures a * n >= n
  {
    assert a * n == (a - 1) * n + n;
  }

  lemma SameQuotient(q: nat, q': nat, n: nat, r: nat, r': nat)
    requires q <= q' && r < n && q * n + r == q' * n + r'
    ensures q == q' && r == r'
  {
    assert q' * n == q * n + (q' - q) * n;
    if q < q' { MulGrows(q' - q, n); }
  }

  /** Quotient and remainder are unique. */
  lemma Divides(w: nat, n: nat, q: nat, r: nat)
    requires n > 0 && r < n && w == q * n + r
    ensures w / n == q && w % n == r
  {
    var q', r' := w / n, w % n;
    assert w == q' * n + r';
    if q <= q' { SameQuotient(q, q', n, r, r'); } else { SameQuotient(q', q, n, r', r); }
  }
}
