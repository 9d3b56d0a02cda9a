/** How the bitwise operators of module Words act on the upper and the lower part of a number. */
module Bits {
  import opened Words

  /** x above the n bits of y. */
  function Join(x: nat, n: nat, y: nat): nat {
    x * Pow2(n) + y
  }

  lemma JoinOne(x: nat, n: nat, y: nat)
    requires n > 0
    ensures Join(x, n, y) / 2 == Join(x, n - 1, y / 2) && Join(x, n, y) % 2 == y % 2
  {
    var p := x * Pow2(n - 1);
    assert x * Pow2(n) == 2 * p by { assert Pow2(n) == 2 * Pow2(n - 1); }
  }

  lemma {:induction false} AndJoin(x: nat, y: nat, m: nat, k: nat, n: nat)
    requires y < Pow2(n) && k < Pow2(n)
    ensures And(Join(x, n, y), Join(m, n, k)) == Join(And(x, m), n, And(y, k))
  {
    if n == 0 {
      JoinNone(x);
      JoinNone(m);
      JoinNone(And(x, m));
    } else {
      AndJoin(x, y / 2, m, k / 2, n - 1);
      JoinOne(x, n, y);
      JoinOne(m, n, k);
      AndStep(y, k);
      AndStep(Join(x, n, y), Join(m, n, k));
      hide And;
      JoinOne(And(x, m), n, And(y, k));
    }
  }

  lemma JoinNone(x: nat)
    ensures Join(x, 0, 0) == x
  {
  }

  lemma {:induction false} OrJoin(x: nat, y: nat, m: nat, k: nat, n: nat)
    requires y < Pow2(n) && k < Pow2(n)
    ensures Or(Join(x, n, y), Join(m, n, k)) == Join(Or(x, m), n, Or(y, k))
  {
    if n == 0 {
      JoinNone(x);
      JoinNone(m);
      JoinNone(Or(x, m));
    } else {
      OrJoin(x, y / 2, m, k / 2, n - 1);
      JoinOne(x, n, y);
      JoinOne(m, n, k);
      OrStep(y, k);
      OrStep(Join(x, n, y), Join(m, n, k));
      hide Or;
      JoinOne(Or(x, m), n, Or(y, k));
    }
  }

  /** Ones keep the bits they cover. */
  lemma {:induction false} AndOnes(x: nat, n: nat)
    ensures And(x, Pow2(n) - 1) == x % Pow2(n)
  {
    if n > 0 {
      AndOnes(x / 2, n - 1);
      var p := Pow2(n - 1);
      assert (Pow2(n) - 1) / 2 == p - 1 && (Pow2(n) - 1) % 2 == 1;
      AndStep(x, Pow2(n) - 1);
      LowBits(x, p);
    } else {
      AndZero(x);
    }
  }

  /** The remainder modulo 2p, bit 0 apart. */
  lemma LowBits(x: nat, p: nat)
    requires p > 0
    ensures x % (2 * p) == 2 * (x / 2 % p) + x % 2 && x / (2 * p) == x / 2 / p
  {
    var q, r := x / 2 / p, x / 2 % p;
    assert x / 2 == q * p + r;
    assert q * (2 * p) == 2 * (q * p);
    DivUnique(x, 2 * p, q, 2 * r + x % 2);
  }

  lemma AndZero(x: nat)
    ensures And(x, 0) == 0 && And(0, x) == 0 && Or(x, 0) == x && Or(0, x) == x
  {
  }

  /** Splitting a number at bit n. */
  lemma Parts(x: nat, n: nat)
    ensures x / Pow2(n) >= 0 && x == Join(x / Pow2(n), n, x % Pow2(n)) && x % Pow2(n) < Pow2(n)
  {
    DivMod(x, Pow2(n));
  }

  lemma DivMod(x: nat, d: nat)
    requires d > 0
    ensures x / d >= 0 && x == x / d * d + x % d && x % d < d
  {
  }

  /** Parts put together come apart again. */
  lemma PartsOf(x: nat, n: nat, y: nat)
    requires y < Pow2(n)
    ensures Join(x, n, y) / Pow2(n) == x && Join(x, n, y) % Pow2(n) == y
  {
    DivUnique(Join(x, n, y), Pow2(n), x, y);
  }

  /** The low n bits are free: | is +. */
  lemma OrLow(x: nat, n: nat, y: nat)
    requires y < Pow2(n)
    ensures Or(Join(x, n, 0), y) == Join(x, n, y)
  {
    OrJoin(x, 0, 0, y, n);
    AndZero(x);
    AndZero(y);
    assert Join(0, n, y) == y;
  }

  /** Numbers with the same bits are the same. */
  lemma {:induction false} SameBits(a: nat, b: nat)
    requires forall i: nat :: Bit(a, i) == Bit(b, i)
    ensures a == b
    decreases a + b
  {
    if a + b > 0 {
      assert Bit(a, 0) == Bit(b, 0);
      forall i: nat ensures Bit(a / 2, i) == Bit(b / 2, i) {
        assert Bit(a, i + 1) == Bit(b, i + 1);
      }
      SameBits(a / 2, b / 2);
    }
  }

  // ------------------------------------------------------------------ shifting right

  function NatDiv(a: nat, b: nat): nat
    requires b > 0
  {
    DivMod(a, b);
    a / b
  }

  function Shr(a: nat, k: nat): nat {
    NatDiv(a, Pow2(k))
  }

  lemma ShrIs(a: nat, k: nat)
    ensures Shr(a, k) == a / Pow2(k)
  {
  }

  function LowPart(src: nat, r: nat): (low: nat)
    ensures low < Pow2(r) && src == Join(Shr(src, r), r, low)
  {
    Parts(src, r);
    src % Pow2(r)
  }

  /** The upper part of a remainder. */
  lemma ModDiv(a: nat, p: nat, q: nat)
    requires p > 0 && q > 0
    ensures p * q > 0 && a % (p * q) / q == a / q % p && a / (p * q) == a / q / p && a / q >= 0
    ensures a % (p * q) % q == a % q
  {
    DivMod(a, q);
    DivMod(a / q, p);
    var h, m, l := a / q / p, a / q % p, a % q;
    assert a == h * (p * q) + (m * q + l) by {
      assert (h * p + m) * q == h * p * q + m * q;
      assert h * p * q == h * (p * q);
    }
    MulMonotonic(m, p - 1, q);
    assert 0 <= m * q + l < p * q by { assert (p - 1) * q == p * q - q; }
    DivUnique(a, p * q, h, m * q + l);
    DivUnique(m * q + l, q, m, l);
  }

  lemma {:induction false} BitIs(a: nat, i: nat)
    ensures Bit(a, i) <==> a / Pow2(i) % 2 == 1
  {
    if i > 0 {
      BitIs(a / 2, i - 1);
      HalfFirst(a, i);
    }
  }

  lemma HalfFirst(a: nat, i: nat)
    requires i > 0
    ensures a / 2 >= 0 && a / 2 / Pow2(i - 1) == a / Pow2(i)
  {
    hide Pow2;
    Doubles(i - 1);
    ModDiv(a, Pow2(i - 1), 2);
  }
}
