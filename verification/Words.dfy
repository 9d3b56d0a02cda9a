/** Machine words as integers.

Every operation of the emulator is on unsigned machine words.  Here a word is an integer below the
word's bound, and each place where the C code wraps says so with Wrap.  The bitwise operators are
defined by recursion on the bits; what the flag macros need of them is only their top bit. */
module Words {

  const TWO8 := 0x100
  const TWO16 := 0x1_0000
  const TWO31 := 0x8000_0000
  const TWO32 := 0x1_0000_0000
  const TWO63 := 0x8000_0000_0000_0000
  const TWO64 := 0x1_0000_0000_0000_0000

  type u8 = x: int | 0 <= x < TWO8
  type u16 = x: int | 0 <= x < TWO16
  type u32 = x: int | 0 <= x < TWO32

  /** Unsigned 32-bit wrap-around. */
  function Wrap(x: int): u32 {
    x % TWO32
  }

  lemma WrapAdd(a: int, b: int)
    ensures Wrap(Wrap(a) + b) == Wrap(a + b)
  {
  }

  lemma WrapSame(a: int)
    requires 0 <= a < TWO32
    ensures Wrap(a) == a
  {
  }

  /** Two's complement negation. */
  function Neg(w: int): u32 {
    Wrap(-w)
  }

  /** The upper word of the negation of a 64-bit value in two words. */
  function NegHi(hi: int, lo: int): u32 {
    Wrap(-hi - (if lo != 0 then 1 else 0))
  }

  /** Negating a 64-bit value word by word. */
  lemma Negate64(hi: u32, lo: u32)
    ensures NegHi(hi, lo) * TWO32 + Neg(lo) == (if hi == 0 && lo == 0 then 0 else TWO64 - (hi * TWO32 + lo))
  {
  }

  /** The two's complement reading of a 32-bit word. */
  function Signed(w: u32): int {
    if w < TWO31 then w else w - TWO32
  }

  lemma SignedMeaning(w: u32)
    ensures -0x8000_0000 <= Signed(w) < 0x8000_0000 && Wrap(Signed(w)) == w
  {
  }

  /** The absolute value of the signed reading. */
  function Abs(x: int): nat {
    if x < 0 then -x else x
  }

  predicate Msb32(w: u32) {
    w >= TWO31
  }

  function B2N(b: bool): nat {
    if b then 1 else 0
  }

  // ---------------------------------------------------------------- powers of two

  function Pow2(n: nat): (p: nat)
    ensures p > 0
  {
    if n == 0 then 1 else 2 * Pow2(n - 1)
  }

  lemma {:induction false} Pow2Sum(a: nat, b: nat)
    ensures Pow2(a + b) == Pow2(a) * Pow2(b)
  {
    if a != 0 {
      Pow2Sum(a - 1, b);
      assert Pow2(a + b) == 2 * Pow2(a - 1 + b);
    }
  }

  lemma Pow2Values()
    ensures Pow2(3) == 8 && Pow2(7) == 0x80 && Pow2(8) == TWO8
    ensures Pow2(15) == 0x8000 && Pow2(16) == TWO16
    ensures Pow2(31) == TWO31 && Pow2(32) == TWO32
  {
    assert Pow2(3) == 8;
    assert Pow2(7) == 128 by { Pow2Sum(3, 4); assert Pow2(4) == 16; }
    Pow2Sum(7, 1); assert Pow2(1) == 2;
    Pow2Sum(8, 7);
    Pow2Sum(8, 8);
    Pow2Sum(16, 15);
    Pow2Sum(16, 16);
  }

  /** Shifting right by one more place halves the quotient. */
  lemma ShiftOneMore(x: nat, k: nat)
    ensures x / Pow2(k) == 2 * (x / Pow2(k + 1)) + x / Pow2(k) % 2
    ensures x / Pow2(k) / 2 == x / Pow2(k + 1)
  {
    hide Pow2;
    assert Pow2(k + 1) == 2 * Pow2(k) by { Doubles(k); }
    FloorTwice(x, Pow2(k));
  }

  lemma Doubles(k: nat)
    ensures Pow2(k + 1) == 2 * Pow2(k)
  {
  }

  lemma FloorTwice(t: int, p: nat)
    requires p > 0
    ensures t / (2 * p) == t / p / 2
  {
    var q, r := t / p, t % p;
    FloorMod(t, p);
    assert t == q / 2 * (2 * p) + (q % 2 * p + r) by {
      assert q == q / 2 * 2 + q % 2;
      assert (q / 2 * 2 + q % 2) * p == q / 2 * (2 * p) + q % 2 * p;
    }
    assert q % 2 * p <= p by { if q % 2 == 0 { assert q % 2 * p == 0; } else { assert q % 2 * p == p; } }
    DivUnique(t, 2 * p, q / 2, q % 2 * p + r);
  }

  lemma FloorMod(t: int, p: nat)
    requires p > 0
    ensures t == t / p * p + t % p && 0 <= t % p < p
  {
  }

  lemma DivUnique(x: int, d: int, q: int, r: int)
    requires d > 0 && x == q * d + r && 0 <= r < d
    ensures x / d == q && x % d == r
  {
    var q', r' := x / d, x % d;
    assert x == q' * d + r';
    assert (q - q') * d == r' - r;
    if q > q' {
      MulAtLeast(q - q', d);
    } else if q < q' {
      assert (q' - q) * d == r - r';
      MulAtLeast(q' - q, d);
    }
  }

  lemma MulAtLeast(n: int, d: int)
    requires n >= 1 && d > 0
    ensures n * d >= d
  {
  }

  lemma MulMonotonic(x: int, y: int, k: nat)
    requires x <= y
    ensures x * k <= y * k
  {
  }

  lemma PowGrows(a: nat, b: nat)
    requires a <= b
    ensures Pow2(a) <= Pow2(b)
  {
    hide Pow2;
    Pow2Sum(b - a, a);
    MulMonotonic(1, Pow2(b - a), Pow2(a));
  }

  lemma OneLess(a: int, b: int)
    ensures (a - 1) * b == a * b - b
  {
  }

  lemma SmallMod(x: nat, d: nat)
    requires x < d
    ensures x % d == x
  {
  }

  lemma ProductBound(x: nat, y: nat, bound: nat)
    requires x <= bound && y <= bound
    ensures 0 <= x * y <= bound * bound
  {
    MulMonotonic(x, bound, y);
    MulMonotonic(y, bound, bound);
    assert bound * y == y * bound;
  }

  // ---------------------------------------------------------------- bitwise operators

  function And(a: nat, b: nat): nat {
    if a == 0 || b == 0 then 0
    else B2N(a % 2 == 1 && b % 2 == 1) + 2 * And(a / 2, b / 2)
  }

  function Or(a: nat, b: nat): nat {
    if a == 0 then b else if b == 0 then a
    else B2N(a % 2 == 1 || b % 2 == 1) + 2 * Or(a / 2, b / 2)
  }

  function Xor(a: nat, b: nat): nat {
    if a == 0 then b else if b == 0 then a
    else B2N(a % 2 != b % 2) + 2 * Xor(a / 2, b / 2)
  }

  /** The complement of a 32-bit word. */
  function Not(a: u32): u32 {
    TWO32 - 1 - a
  }

  /** Bit i of a, counting from the least significant. */
  predicate Bit(a: nat, i: nat) {
    if i == 0 then a % 2 == 1 else Bit(a / 2, i - 1)
  }

  /** Bit 0 of a number and the others. */
  lemma BitAndRest(bit: nat, rest: nat)
    requires bit <= 1
    ensures (bit + 2 * rest) % 2 == bit && (bit + 2 * rest) / 2 == rest
  {
  }

  lemma AndStep(a: nat, b: nat)
    ensures And(a, b) % 2 == B2N(a % 2 == 1 && b % 2 == 1) && And(a, b) / 2 == And(a / 2, b / 2)
  {
    hide And;
    AndUnfolds(a, b);
    BitAndRest(B2N(a % 2 == 1 && b % 2 == 1), And(a / 2, b / 2));
  }

  lemma AndUnfolds(a: nat, b: nat)
    ensures And(a, b) == B2N(a % 2 == 1 && b % 2 == 1) + 2 * And(a / 2, b / 2)
  {
  }

  lemma OrStep(a: nat, b: nat)
    ensures Or(a, b) % 2 == B2N(a % 2 == 1 || b % 2 == 1) && Or(a, b) / 2 == Or(a / 2, b / 2)
  {
    hide Or;
    OrUnfolds(a, b);
    BitAndRest(B2N(a % 2 == 1 || b % 2 == 1), Or(a / 2, b / 2));
  }

  lemma OrUnfolds(a: nat, b: nat)
    ensures Or(a, b) == B2N(a % 2 == 1 || b % 2 == 1) + 2 * Or(a / 2, b / 2)
  {
  }

  lemma XorStep(a: nat, b: nat)
    ensures Xor(a, b) % 2 == B2N(a % 2 != b % 2) && Xor(a, b) / 2 == Xor(a / 2, b / 2)
  {
    hide Xor;
    XorUnfolds(a, b);
    BitAndRest(B2N(a % 2 != b % 2), Xor(a / 2, b / 2));
  }

  lemma XorUnfolds(a: nat, b: nat)
    ensures Xor(a, b) == B2N(a % 2 != b % 2) + 2 * Xor(a / 2, b / 2)
  {
  }

  /** The bitwise operators work bit by bit: what they mean to the C code. */
  lemma {:induction false} BitwiseMeaning(a: nat, b: nat, i: nat)
    ensures Bit(And(a, b), i) == (Bit(a, i) && Bit(b, i))
    ensures Bit(Or(a, b), i) == (Bit(a, i) || Bit(b, i))
    ensures Bit(Xor(a, b), i) == (Bit(a, i) != Bit(b, i))
    decreases i
  {
    hide And; hide Or; hide Xor;
    AndStep(a, b);
    OrStep(a, b);
    XorStep(a, b);
    if i > 0 {
      BitwiseMeaning(a / 2, b / 2, i - 1);
    }
  }

  lemma {:induction false} ZeroHasNoBits(i: nat)
    ensures !Bit(0, i)
  {
    if i > 0 { ZeroHasNoBits(i - 1); }
  }

  lemma {:induction false} BitwiseBound(a: nat, b: nat, n: nat)
    requires a < Pow2(n) && b < Pow2(n)
    ensures And(a, b) < Pow2(n) && Or(a, b) < Pow2(n) && Xor(a, b) < Pow2(n)
  {
    if n > 0 {
      BitwiseBound(a / 2, b / 2, n - 1);
    }
  }

  lemma {:induction false} TopBit(a: nat, n: nat)
    requires a < Pow2(n + 1)
    ensures Bit(a, n) <==> a >= Pow2(n)
  {
    if n > 0 { TopBit(a / 2, n - 1); }
  }

  /** The top bit of a bitwise operation on two (n+1)-bit words. */
  lemma BitwiseTop(a: nat, b: nat, n: nat)
    requires a < Pow2(n + 1) && b < Pow2(n + 1)
    ensures And(a, b) < Pow2(n + 1) && Or(a, b) < Pow2(n + 1) && Xor(a, b) < Pow2(n + 1)
    ensures And(a, b) >= Pow2(n) <==> a >= Pow2(n) && b >= Pow2(n)
    ensures Or(a, b) >= Pow2(n) <==> a >= Pow2(n) || b >= Pow2(n)
    ensures Xor(a, b) >= Pow2(n) <==> (a >= Pow2(n)) != (b >= Pow2(n))
  {
    BitwiseBound(a, b, n + 1);
    BitwiseMeaning(a, b, n);
    TopBit(a, n); TopBit(b, n);
    TopBit(And(a, b), n); TopBit(Or(a, b), n); TopBit(Xor(a, b), n);
  }

  lemma BitwiseTop32(a: u32, b: u32)
    ensures And(a, b) < TWO32 && Or(a, b) < TWO32 && Xor(a, b) < TWO32
    ensures Msb32(And(a, b)) <==> Msb32(a) && Msb32(b)
    ensures Msb32(Or(a, b)) <==> Msb32(a) || Msb32(b)
    ensures Msb32(Xor(a, b)) <==> Msb32(a) != Msb32(b)
  {
    Pow2Values();
    BitwiseTop(a, b, 31);
  }
}
