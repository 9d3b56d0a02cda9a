/** The arithmetic of digit-by-digit addition and subtraction, in any base. */
module LongArithmetic {
  import opened Words

  /** a + b for ADDX, a - b for SUBX. */
  function Combine(add: bool, a: int, b: int): int {
    if add then a + b else a - b
  }

  /** The step of a long addition or subtraction in the given base, scaled by the weight p of the digit. */
  lemma DigitProducts(add: bool, base: int, dst: int, src: int, carry: int, res: int, carry': int, p: int)
    requires Combine(add, dst, src + carry) == Combine(add, res, base * carry')
    ensures Combine(add, res * p, base * p * carry') == Combine(add, dst * p, src * p + p * carry)
  {
    assert (base * carry') * p == base * p * carry' by { Swap(base, carry', p); }
    assert (src + carry) * p == src * p + p * carry;
    if add {
      assert (dst + (src + carry)) * p == dst * p + (src + carry) * p;
      assert (res + base * carry') * p == res * p + (base * carry') * p;
    } else {
      assert (dst - (src + carry)) * p == dst * p - (src + carry) * p;
      assert (res - base * carry') * p == res * p - (base * carry') * p;
    }
  }

  /** What is added above a digit does not change it. */
  lemma LimbBelow(base: nat, low: nat, w: nat, p: nat, q: nat)
    requires q > 0 && base > 0
    ensures low / q >= 0 && (low + w * (p * (base * q))) / q % base == low / q % base
  {
    var d, r := low / q, low % q;
    FloorMod(low, q);
    assert w * (p * (base * q)) == w * p * base * q by {
      assert p * (base * q) == p * base * q;
      assert w * (p * base * q) == w * (p * base) * q;
      assert w * (p * base) == w * p * base;
    }
    assert (d + w * p * base) * q == d * q + w * p * base * q;
    DivUnique(low + w * (p * (base * q)), q, d + w * p * base, r);
    AddMultiple(d, w * p, base);
  }

  lemma AddMultiple(d: int, k: int, base: nat)
    requires base > 0
    ensures (d + k * base) % base == d % base
  {
    FloorMod(d, base);
    assert (d / base + k) * base == d / base * base + k * base;
    DivUnique(d + k * base, base, d / base + k, d % base);
  }

  lemma Swap(a: int, b: int, c: int)
    ensures (a * b) * c == a * c * b
  {
    assert (a * b) * c == a * (b * c) == a * (c * b);
  }

  lemma SumIsZero(sum: nat, res: nat, p: nat)
    requires p > 0
    ensures sum + res * p == 0 <==> sum == 0 && res == 0
  {
    if res > 0 {
      MulAtLeast(res, p);
    }
  }

  /** Two numbers below p that agree after carries are taken off are equal, carries included. */
  lemma SameAfterCarry(a: nat, b: nat, ca: nat, cb: nat, p: nat)
    requires a < p && b < p && a - p * ca == b - p * cb
    ensures a == b && ca == cb
  {
    assert p * ca == ca * p && p * cb == cb * p;
    if ca > cb {
      assert (ca - cb) * p == ca * p - cb * p;
      MulAtLeast(ca - cb, p);
    } else if cb > ca {
      assert (cb - ca) * p == cb * p - ca * p;
      MulAtLeast(cb - ca, p);
    }
  }

  /** A result below p together with its carries is the exact sum or difference, split at p. */
  lemma SplitExact(add: bool, result: nat, carry: nat, p: nat, exact: int)
    requires result < p && Combine(add, result, p * carry) == exact
    ensures result == exact % p
    ensures add ==> carry == exact / p
    ensures !add && carry <= 1 ==> (carry == 1 <==> exact < 0)
  {
    if add {
      assert p * carry == carry * p;
      DivUnique(exact, p, carry, result);
    } else {
      var q: int := carry;
      assert (-q) * p == -(q * p) && p as int * q == q * p;
      DivUnique(exact, p, -q, result);
    }
  }
}
