/** DIVL without 64-bit integers: the shift-and-subtract loops on 32-bit words, the sign handling
around them, and the handler (Musashi/m68k_in.c). */
module Divl {
  import opened Words
  import opened Bits
  import opened FlatMemory
  import opened M68k
  import opened Flags
  import opened Exceptions

  // ------------------------------------------------------------------ what division means

  /** C's truncating division: a == q * b + r with a remainder smaller than b and of a's sign. */
  predicate IsTruncDiv(a: int, b: int, q: int, r: int) {
    a == q * b + r && Abs(r) < Abs(b) && (r != 0 ==> (r < 0 <==> a < 0))
  }

  /** Quotient and remainder are determined. */
  lemma TruncDivUnique(a: int, b: int, q: int, r: int, q': int, r': int)
    requires b != 0 && IsTruncDiv(a, b, q, r) && IsTruncDiv(a, b, q', r')
    ensures q == q' && r == r'
  {
    assert (q - q') * b == r' - r;
    if q != q' {
      AbsProduct(q - q', b);
      MulAtLeast(Abs(q - q'), Abs(b));
    }
  }

  lemma AbsProduct(x: int, y: int)
    ensures Abs(x * y) == Abs(x) * Abs(y)
  {
    if x >= 0 && y >= 0 {
    } else if x < 0 && y < 0 {
      assert x * y == (-x) * (-y);
    } else if x < 0 {
      assert (-x) * y == -(x * y);
    } else {
      assert x * (-y) == -(x * y);
    }
  }

  function Quot(a: int, b: int): int
    requires b != 0
  {
    var q := Abs(a) / Abs(b);
    if (a < 0) == (b < 0) then q else -q
  }

  function Rem(a: int, b: int): int
    requires b != 0
  {
    var r := Abs(a) % Abs(b);
    if a < 0 then -r else r
  }

  lemma QuotRemMeaning(a: int, b: int)
    requires b != 0
    ensures IsTruncDiv(a, b, Quot(a, b), Rem(a, b))
  {
    hide Quot; hide Rem;
    var q, r := Abs(a) / Abs(b), Abs(a) % Abs(b);
    assert Abs(a) == q * Abs(b) + r && 0 <= r < Abs(b);
    SignedProducts(q, b);
    assert Quot(a, b) == (if (a < 0) == (b < 0) then q else -q) && Rem(a, b) == (if a < 0 then -r else r) by {
      QuotRemUnfold(a, b);
    }
  }

  lemma QuotRemUnfold(a: int, b: int)
    requires b != 0
    ensures Quot(a, b) == (if (a < 0) == (b < 0) then Abs(a) / Abs(b) else -(Abs(a) / Abs(b)))
    ensures Rem(a, b) == (if a < 0 then -(Abs(a) % Abs(b)) else Abs(a) % Abs(b))
  {
  }

  lemma SignedProducts(q: int, b: int)
    ensures (-q) * b == -(q * b)
    ensures q * Abs(b) == (if b < 0 then -(q * b) else q * b)
  {
  }

  // ------------------------------------------------------------------ what DIVL computes

  datatype DivResult = Overflow | Quotient(q: u32, r: u32)

  /** The 64-bit dividend in two registers, read as two's complement. */
  function Signed64(hi: u32, lo: u32): int {
    Signed(hi) * TWO32 + lo
  }

  /** The one dividend and divisor with quotient -2^31 that the handler treats apart. */
  predicate Special(hi: u32, lo: u32, divisor: u32) {
    hi == 0 && lo == TWO31 && divisor == TWO32 - 1
  }

  /** 64 by 32 bits.  The signed form reports overflow for every quotient of magnitude 2^31 or more,
      -2^31 included, but for the special case. */
  function QuadResult(hi: u32, lo: u32, divisor: u32, signed: bool): DivResult
    requires divisor != 0
  {
    if signed then
      var q := Quot(Signed64(hi, lo), Signed(divisor));
      if Abs(q) >= TWO31 && !Special(hi, lo, divisor) then Overflow
      else Quotient(Wrap(q), Wrap(Rem(Signed64(hi, lo), Signed(divisor))))
    else
      if (hi * TWO32 + lo) / divisor >= TWO32 then Overflow
      else Quotient(Wrap((hi * TWO32 + lo) / divisor), Wrap((hi * TWO32 + lo) % divisor))
  }

  /** The operands for which C leaves the division of the 64-bit variant undefined: -2^63 / -1. */
  predicate Undefined64(hi: u32, lo: u32, divisor: u32, signed: bool) {
    signed && hi == TWO31 && lo == 0 && divisor == TWO32 - 1
  }

  /** The variant with 64-bit integers that M68K_USE_64_BIT would select. */
  function QuadResult64(hi: u32, lo: u32, divisor: u32, signed: bool): DivResult
    requires divisor != 0 && !Undefined64(hi, lo, divisor, signed)
  {
    if signed then
      var q := Quot(Signed64(hi, lo), Signed(divisor));
      if !(-TWO31 <= q < TWO31) then Overflow
      else Quotient(Wrap(q), Wrap(Rem(Signed64(hi, lo), Signed(divisor))))
    else
      QuadResult(hi, lo, divisor, false)
  }

  /** 32 by 32 bits: never an overflow. */
  function LongResult(lo: u32, divisor: u32, signed: bool): DivResult
    requires divisor != 0
  {
    if signed then Quotient(Wrap(Quot(Signed(lo), Signed(divisor))), Wrap(Rem(Signed(lo), Signed(divisor))))
    else Quotient(Wrap(lo / divisor), Wrap(lo % divisor))
  }

  // ------------------------------------------------------------------ the long division

  lemma QuotientBelow(x: nat, d: nat)
    requires d > 0
    ensures 0 <= x / d <= x
  {
    var q := x / d;
    assert x == q * d + x % d;
    if q > 0 {
      assert q * d >= q by { MulAtLeast(d, q); assert d * q == q * d; }
    }
  }

  /** hi * 2^(32-i) + (lo >> i): the dividend without its i lowest bits. */
  function Top(hi: u32, lo: u32, i: nat): nat
    requires i <= 32
  {
    hi * Pow2(32 - i) + Shr(lo, i)
  }

  lemma ShrEnds(hi: u32, lo: u32)
    ensures Shr(hi, 32) == 0 && Shr(hi, 0) == hi
    ensures Top(hi, lo, 32) == hi && Top(hi, lo, 0) == hi * TWO32 + lo
  {
    Pow2Values();
  }

  /** The next bit that the loops take out of a word. */
  lemma NextBit(w: u32, i: nat)
    ensures Shr(w, i) == 2 * Shr(w, i + 1) + Shr(w, i) % 2
  {
    ShiftOneMore(w, i);
  }

  lemma NextTop(hi: u32, lo: u32, i: nat)
    requires i < 32
    ensures Top(hi, lo, i) == 2 * Top(hi, lo, i + 1) + Shr(lo, i) % 2
  {
    NextBit(lo, i);
    assert hi * Pow2(32 - i) == 2 * (hi * Pow2(31 - i));
  }

  lemma QuotientRoom(i: nat, quotient: nat)
    requires i < 32 && quotient < Pow2(31 - i)
    ensures 2 * quotient + 1 < Pow2(32 - i) <= TWO32
  {
    assert Pow2(32 - i) == 2 * Pow2(31 - i);
    PowGrows(32 - i, 32);
    Pow2Values();
  }

  /** Shifting a bit into the remainder and subtracting the divisor if it fits.  The 32-bit word has
      lost bit 32 of 2 * rem + bit; the old top bit tells. */
  lemma ShiftSubtract(rem: u32, bit: nat, divisor: u32)
    requires rem < divisor && bit <= 1
    ensures var shifted := Wrap(2 * rem) + bit;
      if shifted >= divisor || Msb32(rem) then
        Wrap(shifted - divisor) == 2 * rem + bit - divisor < divisor
      else
        shifted == 2 * rem + bit < divisor
  {
  }

  /** The body of the first loop, where the remainder cannot overflow. */
  method LoadStep(quotient: u32, remainder: u32, bit: nat, divisor: u32) returns (quotient': u32, remainder': u32)
    requires remainder < divisor && bit <= 1 && 2 * quotient + 1 < TWO32 && 2 * remainder + bit < TWO32
    ensures quotient' * divisor + remainder' == 2 * (quotient * divisor + remainder) + bit
    ensures remainder' < divisor
  {
    assert (2 * quotient) * divisor == 2 * (quotient * divisor);
    assert (2 * quotient + 1) * divisor == 2 * (quotient * divisor) + divisor;
    quotient' := Wrap(2 * quotient);
    remainder' := Wrap(2 * remainder) + bit;
    if remainder' >= divisor {
      remainder' := remainder' - divisor;
      quotient' := quotient' + 1;
    }
  }

  lemma NoQuotient(quotient: nat, remainder: nat, divisor: nat, hi: nat)
    requires quotient * divisor + remainder <= hi < divisor
    ensures quotient == 0
  {
    if quotient > 0 {
      MulAtLeast(quotient, divisor);
    }
  }

  lemma DoubledQuotient(quotient: u32, divisor: u32)
    requires 2 * quotient + 1 < TWO32
    ensures Wrap(2 * quotient) == 2 * quotient
    ensures (2 * quotient) * divisor == 2 * (quotient * divisor)
    ensures (2 * quotient + 1) * divisor == 2 * (quotient * divisor) + divisor
  {
  }

  /** The body of the second loop. */
  method DivideStep(quotient: u32, remainder: u32, bit: nat, divisor: u32) returns (quotient': u32, remainder': u32)
    requires remainder < divisor && bit <= 1 && 2 * quotient + 1 < TWO32
    ensures quotient' * divisor + remainder' == 2 * (quotient * divisor + remainder) + bit
    ensures remainder' < divisor && quotient' <= 2 * quotient + 1
  {
    ShiftSubtract(remainder, bit, divisor);
    DoubledQuotient(quotient, divisor);
    hide Wrap; hide Msb32;
    quotient' := Wrap(2 * quotient);
    var overflow := Msb32(remainder);
    remainder' := Wrap(2 * remainder) + bit;
    if remainder' >= divisor || overflow {
      remainder' := Wrap(remainder' - divisor);
      quotient' := quotient' + 1;
    }
  }

  /** Two loops over the words of the dividend.  Since hi < divisor, the first one only loads hi into
      the remainder. */
  method LongDivide(hi: u32, lo: u32, divisor: u32) returns (quotient: u32, remainder: u32)
    requires hi < divisor
    ensures quotient * divisor + remainder == hi * TWO32 + lo && remainder < divisor
  {
    hide Shr; hide Top; hide Pow2;
    ShrEnds(hi, lo);
    quotient, remainder := 0, 0;
    for i := 32 downto 0
      invariant remainder < divisor && quotient * divisor + remainder == Shr(hi, i) <= hi
    {
      NextBit(hi, i);
      ShrBelow(hi, i);
      NoQuotient(quotient, remainder, divisor, hi);
      quotient, remainder := LoadStep(quotient, remainder, Shr(hi, i) % 2, divisor);
    }
    NoQuotient(quotient, remainder, divisor, hi);
    One();
    for i := 32 downto 0
      invariant remainder < divisor && quotient < Pow2(32 - i)
      invariant quotient * divisor + remainder == Top(hi, lo, i)
    {
      NextTop(hi, lo, i);
      QuotientRoom(i, quotient);
      quotient, remainder := DivideStep(quotient, remainder, Shr(lo, i) % 2, divisor);
    }
  }

  lemma ShrBelow(w: u32, i: nat)
    ensures Shr(w, i) <= w
  {
    QuotientBelow(w, Pow2(i));
  }

  lemma One()
    ensures Pow2(0) == 1
  {
  }

  // ------------------------------------------------------------------ signs

  /** hi < divisor is exactly "the quotient fits in 32 bits". */
  lemma HighBelow(hi: u32, lo: u32, divisor: u32)
    requires divisor > 0
    ensures hi < divisor <==> (hi * TWO32 + lo) / divisor < TWO32
  {
    var a := hi * TWO32 + lo;
    var q, r := a / divisor, a % divisor;
    assert a == q * divisor + r;
    if hi < divisor {
      if q >= TWO32 {
        MulMonotonic(TWO32, q, divisor);
      }
    } else {
      if q < TWO32 {
        MulMonotonic(q, TWO32 - 1, divisor);
      }
    }
  }

  lemma LongDivideExact(a: nat, divisor: u32, q: u32, r: u32)
    requires divisor > 0 && q * divisor + r == a && r < divisor
    ensures a / divisor == q && a % divisor == r
  {
    DivUnique(a, divisor, q, r);
  }

  /** From the magnitudes to the signed result. */
  lemma SignedResult(hi: u32, lo: u32, divisor: u32)
    requires divisor != 0 && !Special(hi, lo, divisor)
    ensures var a, b := Signed64(hi, lo), Signed(divisor);
      var q, r := Abs(a) / Abs(b), Abs(a) % Abs(b);
      QuadResult(hi, lo, divisor, true) ==
        if q >= TWO31 then Overflow
        else Quotient(if (a < 0) == (b < 0) then q else Neg(q), if a < 0 then Neg(r) else r)
  {
    var a, b := Signed64(hi, lo), Signed(divisor);
    var q, r := Abs(a) / Abs(b), Abs(a) % Abs(b);
    assert 0 <= r < Abs(b) <= TWO31;
    QuotientBelow(Abs(a), Abs(b));
    QuotRemUnfold(a, b);
    hide Quot; hide Rem; hide Signed64; hide Signed; hide Special;
  }

  lemma UnsignedResult(hi: u32, lo: u32, divisor: u32)
    requires divisor != 0
    ensures var a := hi * TWO32 + lo;
      QuadResult(hi, lo, divisor, false) ==
        if a / divisor >= TWO32 then Overflow else Quotient(Wrap(a / divisor), Wrap(a % divisor))
    ensures forall w: u32 {:trigger Wrap(w)} :: Wrap(w) == w
  {
  }

  lemma NegNeg(q: u32)
    ensures Neg(Neg(q)) == q
  {
  }

  lemma SpecialResult(hi: u32, lo: u32, divisor: u32)
    requires Special(hi, lo, divisor)
    ensures QuadResult(hi, lo, divisor, true) == Quotient(TWO31, 0)
  {
    assert Abs(Signed64(hi, lo)) == TWO31 && Abs(Signed(divisor)) == 1;
  }

  /** The operands of the loops: magnitudes for a signed division. */
  lemma Magnitudes(hi: u32, lo: u32, divisor: u32)
    ensures var a := Signed64(hi, lo);
      && Msb32(hi) == (a < 0) && Msb32(divisor) == (Signed(divisor) < 0)
      && (if a < 0 then NegHi(hi, lo) * TWO32 + Neg(lo) else hi * TWO32 + lo) == Abs(a)
      && (if Msb32(divisor) then Neg(divisor) else divisor) == Abs(Signed(divisor))
  {
    Negate64(hi, lo);
  }

  /** quad / long: long quotient, long remainder. */
  method DivideQuad(hi: u32, lo: u32, divisor: u32, signed: bool) returns (result: DivResult)
    requires divisor != 0
    ensures result == QuadResult(hi, lo, divisor, signed)
  {
    if signed && hi == 0 && lo == TWO31 && divisor == TWO32 - 1 {
      SpecialResult(hi, lo, divisor);
      return Quotient(TWO31, 0);
    }
    var dividendHi, dividendLo, divisor' := hi, lo, divisor;
    var dividendNeg, divisorNeg := false, false;
    if signed {
      Magnitudes(hi, lo, divisor);
      SignedResult(hi, lo, divisor);
    } else {
      UnsignedResult(hi, lo, divisor);
    }
    hide QuadResult; hide Neg; hide NegHi; hide Signed64; hide Abs; hide Signed; hide Wrap; hide Special;
    if signed {
      if Msb32(dividendHi) {
        dividendNeg := true;
        dividendHi := NegHi(hi, lo);
        dividendLo := Neg(lo);
      }
      if Msb32(divisor') {
        divisorNeg := true;
        divisor' := Neg(divisor);
      }
    }
    HighBelow(dividendHi, dividendLo, divisor');
    if dividendHi >= divisor' {
      return Overflow;
    }
    var quotient, remainder := LongDivide(dividendHi, dividendLo, divisor');
    ghost var q, r := quotient, remainder;
    LongDivideExact(dividendHi * TWO32 + dividendLo, divisor', quotient, remainder);
    if signed {
      if quotient > 0x7fff_ffff {
        return Overflow;
      }
      if dividendNeg {
        remainder := Neg(remainder);
        quotient := Neg(quotient);
      }
      if divisorNeg {
        NegNeg(q);
        quotient := Neg(quotient);
      }
    }
    return Quotient(quotient, remainder);
  }

  // ------------------------------------------------------------------ what the results mean

  /** A quotient that is delivered is the truncated one, and overflow means it has magnitude 2^31 or more. */
  lemma SignedQuadMeaning(hi: u32, lo: u32, divisor: u32, q: int, r: int)
    requires divisor != 0 && IsTruncDiv(Signed64(hi, lo), Signed(divisor), q, r)
    ensures match QuadResult(hi, lo, divisor, true)
      case Quotient(q', r') => Signed(q') == q && Signed(r') == r
      case Overflow => Abs(q) >= TWO31
    ensures QuadResult(hi, lo, divisor, true).Overflow? <==> Abs(q) >= TWO31 && !Special(hi, lo, divisor)
  {
    var a, b := Signed64(hi, lo), Signed(divisor);
    QuotRemMeaning(a, b);
    TruncDivUnique(a, b, Quot(a, b), Rem(a, b), q, r);
    if Special(hi, lo, divisor) {
      SpecialResult(hi, lo, divisor);
      assert IsTruncDiv(a, b, -TWO31, 0);
      TruncDivUnique(a, b, -TWO31, 0, q, r);
    }
  }

  lemma QuotientParts(a: nat, divisor: u32)
    requires divisor != 0
    ensures a == a / divisor * divisor + a % divisor && 0 <= a % divisor < divisor && 0 <= a / divisor
  {
  }

  lemma WrapWhole(a: nat, divisor: u32)
    requires divisor != 0
    ensures Wrap(a % divisor) as int == a % divisor
    ensures a / divisor < TWO32 ==> Wrap(a / divisor) as int == a / divisor
  {
    hide Wrap;
    QuotientParts(a, divisor);
    WrapSame(a % divisor);
    if a / divisor < TWO32 { WrapSame(a / divisor); }
  }

  lemma UnsignedQuadMeaning(hi: u32, lo: u32, divisor: u32)
    requires divisor != 0
    ensures match QuadResult(hi, lo, divisor, false)
      case Quotient(q, r) => q * divisor + r == hi * TWO32 + lo && r < divisor
      case Overflow => hi >= divisor
    ensures QuadResult(hi, lo, divisor, false).Overflow? <==> hi >= divisor
  {
    hide Quot; hide Rem; hide Signed; hide Signed64; hide Special; hide Wrap;
    HighBelow(hi, lo, divisor);
    QuotientParts(hi * TWO32 + lo, divisor);
    WrapWhole(hi * TWO32 + lo, divisor);
  }

  /** The 32-bit form delivers the truncated quotient and the remainder, but that 2^31 wraps to -2^31. */
  lemma SignedLongMeaning(lo: u32, divisor: u32)
    requires divisor != 0
    ensures var Quotient(q, r) := LongResult(lo, divisor, true);
      if SpecialLong(lo, divisor, true) then q == TWO31 && r == 0
      else IsTruncDiv(Signed(lo), Signed(divisor), Signed(q), Signed(r))
  {
    if SpecialLong(lo, divisor, true) {
      SpecialLongResult();
    } else {
      var a, b := Signed(lo), Signed(divisor);
      QuotRemMeaning(a, b);
      QuotRemSmall(a, b);
      hide Quot; hide Rem; hide IsTruncDiv;
    }
  }

  /** Only -2^31 / -1 has a quotient outside the signed range. */
  lemma QuotRemSmall(a: int, b: int)
    requires b != 0 && -TWO31 <= a < TWO31 && -TWO31 <= b < TWO31 && !(a == -TWO31 && b == -1)
    ensures -TWO31 <= Quot(a, b) < TWO31 && -TWO31 <= Rem(a, b) < TWO31
  {
    QuotientBelow(Abs(a), Abs(b));
    assert Abs(a) == Abs(a) / Abs(b) * Abs(b) + Abs(a) % Abs(b);
    assert Abs(a) / Abs(b) == TWO31 ==> TWO31 * Abs(b) <= Abs(a);
  }

  lemma UnsignedLongMeaning(lo: u32, divisor: u32)
    requires divisor != 0
    ensures var Quotient(q, r) := LongResult(lo, divisor, false); q * divisor + r == lo && r < divisor
  {
    QuotientBelow(lo, divisor);
    assert lo == lo / divisor * divisor + lo % divisor;
  }

  /** The operands whose quotient is -2^31: it fits a register, but the loops never deliver it. */
  predicate MinQuotient(a: int, b: int) {
    (a < 0) != (b < 0) && TWO31 * Abs(b) <= Abs(a) < (TWO31 + 1) * Abs(b)
  }

  lemma MinQuotientMeaning(a: int, b: int)
    requires b != 0
    ensures MinQuotient(a, b) <==> Quot(a, b) == -TWO31
  {
    var q, r := Abs(a) / Abs(b), Abs(a) % Abs(b);
    QuotientBelow(Abs(a), Abs(b));
    assert Abs(a) == q * Abs(b) + r;
    if MinQuotient(a, b) {
      DivUnique(Abs(a), Abs(b), TWO31, Abs(a) - TWO31 * Abs(b));
    }
  }

  /** Undefined64 is the pair whose quotient, 2^63, has no 64-bit two's complement. */
  lemma Undefined64Meaning(hi: u32, lo: u32, divisor: u32)
    requires divisor != 0
    ensures Undefined64(hi, lo, divisor, true) <==> !(-TWO63 <= Quot(Signed64(hi, lo), Signed(divisor)) < TWO63)
  {
    var a, b := Signed64(hi, lo), Signed(divisor);
    QuotientBelow(Abs(a), Abs(b));
    if Abs(b) >= 2 {
      assert Abs(a) / Abs(b) < TWO63 by {
        assert Abs(a) == Abs(a) / Abs(b) * Abs(b) + Abs(a) % Abs(b);
        if Abs(a) / Abs(b) >= TWO63 { MulMonotonic(TWO63, Abs(a) / Abs(b), Abs(b)); }
      }
    } else {
      assert Abs(b) == 1 && Abs(a) / Abs(b) == Abs(a);
    }
  }

  /** Where the 64-bit variant is defined, the loops agree with it but for one quotient. */
  lemma QuadsAgree(hi: u32, lo: u32, divisor: u32, signed: bool)
    requires divisor != 0 && !Undefined64(hi, lo, divisor, signed)
    ensures QuadResult(hi, lo, divisor, signed) == QuadResult64(hi, lo, divisor, signed) <==>
            !(signed && MinQuotient(Signed64(hi, lo), Signed(divisor)) && !Special(hi, lo, divisor))
  {
    MinQuotientMeaning(Signed64(hi, lo), Signed(divisor));
  }

  /** -2^31 / 1: the quotient fits, and DIVL reports overflow. */
  lemma MinQuotientLost()
    ensures IsTruncDiv(Signed64(TWO32 - 1, TWO31), Signed(1), -TWO31, 0)
    ensures QuadResult(TWO32 - 1, TWO31, 1, true) == Overflow
    ensures QuadResult64(TWO32 - 1, TWO31, 1, true) == Quotient(TWO31, 0)
  {
    var a := Signed64(TWO32 - 1, TWO31);
    assert a == -TWO31;
    assert Quot(a, 1) == -TWO31 && Rem(a, 1) == 0;
  }

  // ------------------------------------------------------------------ the handler

  function QReg(word2: u16): nat {
    word2 / 0x1000 % 8
  }

  function RReg(word2: u16): nat {
    word2 % 8
  }

  /** The operands for which the 32-bit form writes the quotient before the remainder. */
  predicate SpecialLong(lo: u32, divisor: u32, signed: bool) {
    signed && lo == TWO31 && divisor == TWO32 - 1
  }

  /** What both forms leave for a divisor other than zero, from the registers and flag words before. */
  predicate Divided(word2: u16, divisor: u32, a: Outcome, b: Outcome)
    requires divisor != 0
  {
    var signed, hi, lo := word2 / 0x800 % 2 == 1, a.dar[RReg(word2)], a.dar[QReg(word2)];
    if word2 / 0x400 % 2 == 1 then
      QuadDivided(word2, QuadResult(hi, lo, divisor, signed), a, b)
    else
      b.dar == LongRegisters(a.dar, word2, lo, divisor, signed) && QuotientFlags(LongResult(lo, divisor, signed).q, b)
  }

  /** V reports overflow with everything else unchanged; else the registers hold the result. */
  predicate QuadDivided(word2: u16, result: DivResult, a: Outcome, b: Outcome) {
    match result
    case Overflow => b == a.(v := 0x80)
    case Quotient(q, r) => b.dar == a.dar[RReg(word2) := r][QReg(word2) := q] && QuotientFlags(q, b)
  }

  predicate QuotientFlags(q: u32, b: Outcome) {
    (b.n / 0x80 % 2 == 1 <==> Msb32(q)) && (b.notZ == 0 <==> q == 0) && b.v == 0 && b.c == 0
  }

  function State(cpu: Cpu): Outcome
    reads cpu`dar, cpu`n, cpu`notZ, cpu`v, cpu`c
  {
    Outcome(cpu.dar, cpu.n, cpu.notZ, cpu.v, cpu.c)
  }

  /** DIVL Dy,Dr:Dq.  The remainder register is written first, so that with Dr == Dq the quotient stays;
      only -2^31 / -1 in the 32-bit form writes them the other way round and loses the quotient. */
  method DivlD(cpu: Cpu)
    modifies cpu
    ensures !Ec020Plus(cpu.cpuType) ==>
      Entered(cpu, old(cpu.ppc), EXCEPTION_ILLEGAL_INSTRUCTION, FrameSize(cpu.cpuType))
    ensures Ec020Plus(cpu.cpuType) && old(cpu.dar[cpu.ir % 8]) == 0 ==>
      Entered(cpu, old(Wrap(cpu.pc + 2)), EXCEPTION_ZERO_DIVIDE, 12)
    ensures Ec020Plus(cpu.cpuType) && old(cpu.dar[cpu.ir % 8]) != 0 ==>
      && cpu.pc == old(Wrap(cpu.pc + 2)) && unchanged(cpu`mem, cpu`x, cpu`s, cpu`m, cpu`sp)
      && Divided(old(Read16(cpu.mem, Addr(cpu.cpuType, cpu.pc))), old(cpu.dar[cpu.ir % 8]), old(State(cpu)), State(cpu))
  {
    hide Divided; hide Read16; hide Addr; hide Read32; hide RoomBelow; hide Unwind; hide SrOf;
    if !Ec020Plus(cpu.cpuType) {
      ExceptionPlain(cpu, cpu.ppc, EXCEPTION_ILLEGAL_INSTRUCTION);
      return;
    }
    var word2 := cpu.ReadImm16();
    var divisor := cpu.dar[cpu.ir % 8];
    if divisor == 0 {
      ExceptionTrap(cpu, EXCEPTION_ZERO_DIVIDE);
      return;
    }
    Divide(cpu, word2, divisor);
  }

  /** The handler behind the test for zero. */
  method Divide(cpu: Cpu, word2: u16, divisor: u32)
    requires divisor != 0
    modifies cpu`dar, cpu`n, cpu`notZ, cpu`v, cpu`c
    ensures Divided(word2, divisor, old(State(cpu)), State(cpu))
  {
    hide QuadResult; hide LongResult; hide LongRegisters;
    var dividendHi := cpu.dar[word2 % 8];
    var dividendLo := cpu.dar[word2 / 0x1000 % 8];
    var signed := word2 / 0x800 % 2 == 1;
    if word2 / 0x400 % 2 == 1 {
      var result := DivideQuad(dividendHi, dividendLo, divisor, signed);
      match result {
        case Overflow =>
          cpu.v := 0x80;
        case Quotient(q, r) =>
          cpu.dar := cpu.dar[word2 % 8 := r];
          cpu.dar := cpu.dar[word2 / 0x1000 % 8 := q];
          SetQuotientFlags(cpu, q);
      }
      return;
    }
    DivideLong(cpu, word2, dividendLo, divisor, signed);
  }

  method DivideLong(cpu: Cpu, word2: u16, dividendLo: u32, divisor: u32, signed: bool)
    requires divisor != 0
    modifies cpu`dar, cpu`n, cpu`notZ, cpu`v, cpu`c
    ensures cpu.dar == LongRegisters(old(cpu.dar), word2, dividendLo, divisor, signed)
    ensures QuotientFlags(LongResult(dividendLo, divisor, signed).q, State(cpu))
  {
    hide Quot; hide Rem;
    if signed && dividendLo == TWO31 && divisor == TWO32 - 1 {
      SpecialLongResult();
      cpu.n, cpu.notZ, cpu.v, cpu.c := 0x80, TWO32 - 1, 0, 0;
      cpu.dar := cpu.dar[word2 / 0x1000 % 8 := TWO31];
      cpu.dar := cpu.dar[word2 % 8 := 0];
      assert word2 % 8 != word2 / 0x1000 % 8 ==>
        cpu.dar == old(cpu.dar)[word2 % 8 := 0][word2 / 0x1000 % 8 := TWO31];
      return;
    }
    var long := LongResult(dividendLo, divisor, signed);
    cpu.dar := cpu.dar[word2 % 8 := long.r];
    cpu.dar := cpu.dar[word2 / 0x1000 % 8 := long.q];
    SetQuotientFlags(cpu, long.q);
  }

  // ------------------------------------------------------------------ the handler on the fields of its words

  /** DIVU.L Dy,Dr:Dq and DIVUL.L: dividend, quotient and remainder in the registers that the extension word
      names. */
  lemma UnsignedDivision(top: nat, q: nat, quad: bool, mid: nat, r: nat, divisor: u32, a: Outcome, b: Outcome)
    requires top <= 1 && q < 8 && mid < 0x80 && r < 8 && divisor != 0
    requires var w := top * 0x8000 + q * 0x1000 + B2N(quad) * 0x400 + mid * 8 + r; w < TWO16 && Divided(w, divisor, a, b)
    ensures var dividend: int := if quad then a.dar[r] * TWO32 + a.dar[q] else a.dar[q];
      if quad && a.dar[r] >= divisor then b == a.(v := 0x80)
      else
        && b.dar[q] * divisor <= dividend < b.dar[q] * divisor + divisor
        && (q != r ==> b.dar[r] as int == dividend - b.dar[q] * divisor)
        && (forall i | 0 <= i < 16 && i != q && i != r :: b.dar[i] == a.dar[i])
        && b.v == 0 && b.c == 0 && (b.notZ == 0 <==> b.dar[q] == 0) && (b.n / 0x80 % 2 == 1 <==> Msb32(b.dar[q]))
  {
    hide QuadResult; hide LongResult; hide Quot; hide Rem; hide Signed; hide Signed64; hide Special; hide Msb32;
    ExtensionWord(top, q, false, quad, mid, r);
    if quad {
      UnsignedQuadMeaning(a.dar[r], a.dar[q], divisor);
    } else {
      UnsignedLongMeaning(a.dar[q], divisor);
      NeverOverflows(a.dar[q], divisor, false);
      var Quotient(x, y) := LongResult(a.dar[q], divisor, false);
      assert b.dar[q] == x && (q != r ==> b.dar[r] == y);
      assert x * divisor + y == a.dar[q];
    }
  }

  /** DIVS.L and DIVSL.L: truncated division of the two's complement numbers, unless V tells that the quotient
      has magnitude 2^31 or more, or it is the special case of the 32-bit form. */
  lemma SignedDivision(top: nat, q: nat, quad: bool, mid: nat, r: nat, divisor: u32, a: Outcome, b: Outcome, quot: int, rem: int)
    requires top <= 1 && q < 8 && mid < 0x80 && r < 8 && divisor != 0
    requires var w := top * 0x8000 + q * 0x1000 + 0x800 + B2N(quad) * 0x400 + mid * 8 + r;
      w < TWO16 && Divided(w, divisor, a, b)
    requires IsTruncDiv(if quad then Signed(a.dar[r]) * TWO32 + a.dar[q] else Signed(a.dar[q]), Signed(divisor), quot, rem)
    ensures quad && Abs(quot) >= TWO31 && !Special(a.dar[r], a.dar[q], divisor) ==> b == a.(v := 0x80)
    ensures (quad && (Abs(quot) < TWO31 || Special(a.dar[r], a.dar[q], divisor)))
            || (!quad && !SpecialLong(a.dar[q], divisor, true)) ==>
      && Signed(b.dar[q]) == quot && (q != r ==> Signed(b.dar[r]) == rem)
      && (forall i | 0 <= i < 16 && i != q && i != r :: b.dar[i] == a.dar[i])
      && b.v == 0 && b.c == 0 && (b.notZ == 0 <==> quot == 0) && (b.n / 0x80 % 2 == 1 <==> quot < 0)
    ensures !quad && SpecialLong(a.dar[q], divisor, true) ==> b.dar[r] == 0 && (q != r ==> b.dar[q] == TWO31)
  {
    hide QuadResult; hide LongResult; hide Quot; hide Rem; hide Special; hide Signed; hide Signed64; hide IsTruncDiv;
    hide Msb32; hide Abs;
    ExtensionWord(top, q, true, quad, mid, r);
    SignOf(b.dar[q]);
    if quad {
      SignedWords(a.dar[r], a.dar[q]);
      SignedQuadMeaning(a.dar[r], a.dar[q], divisor, quot, rem);
    } else if !SpecialLong(a.dar[q], divisor, true) {
      SignedLongMeaning(a.dar[q], divisor);
      NeverOverflows(a.dar[q], divisor, true);
      SignOf(divisor);
      var Quotient(x, y) := LongResult(a.dar[q], divisor, true);
      assert b.dar[q] == x && (q != r ==> b.dar[r] == y);
      TruncDivUnique(Signed(a.dar[q]), Signed(divisor), quot, rem, Signed(x), Signed(y));
    } else {
      SpecialLongResult();
    }
  }

  lemma NeverOverflows(lo: u32, divisor: u32, signed: bool)
    requires divisor != 0
    ensures LongResult(lo, divisor, signed).Quotient?
  {
  }

  lemma SignOf(w: u32)
    ensures (Msb32(w) <==> Signed(w) < 0) && (w == 0 <==> Signed(w) == 0)
  {
  }

  lemma SignedWords(hi: u32, lo: u32)
    ensures Signed64(hi, lo) == Signed(hi) * TWO32 + lo
  {
  }

  // ------------------------------------------------------------------ the handler that M68K_USE_64_BIT would select

  /** The result in both forms; its remainder is stored before its quotient, always. */
  function Divl64(word2: u16, divisor: u32, a: Outcome): Outcome
    requires divisor != 0 && !Undefined(word2, divisor, a.dar)
  {
    var signed, hi, lo := word2 / 0x800 % 2 == 1, a.dar[RReg(word2)], a.dar[QReg(word2)];
    match if word2 / 0x400 % 2 == 1 then QuadResult64(hi, lo, divisor, signed) else LongResult(lo, divisor, signed)
    case Overflow => a.(v := 0x80)
    case Quotient(q, r) => Outcome(a.dar[RReg(word2) := r][QReg(word2) := q], q / 0x100_0000, q, 0, 0)
  }

  predicate Undefined(word2: u16, divisor: u32, dar: Regs) {
    word2 / 0x400 % 2 == 1 && Undefined64(dar[RReg(word2)], dar[QReg(word2)], divisor, word2 / 0x800 % 2 == 1)
  }

  /** A quotient of -2^31 in the 64-bit form, but for the special case; in the 32-bit form the special case
      with both results in one register. */
  predicate VariantsDiffer(word2: u16, divisor: u32, dar: Regs) {
    var signed, hi, lo := word2 / 0x800 % 2 == 1, dar[RReg(word2)], dar[QReg(word2)];
    if word2 / 0x400 % 2 == 1 then signed && MinQuotient(Signed64(hi, lo), Signed(divisor)) && !Special(hi, lo, divisor)
    else SpecialLong(lo, divisor, signed) && QReg(word2) == RReg(word2)
  }

  /** Wherever the other handler is defined, both leave the same registers and the same N, Z, V and C bits
      exactly if the operands are not among those. */
  lemma VariantsAgree(word2: u16, divisor: u32, a: Outcome, b: Outcome)
    requires divisor != 0 && Divided(word2, divisor, a, b) && !Undefined(word2, divisor, a.dar)
    ensures SameOutcome(Divl64(word2, divisor, a), b.dar, b.n, b.notZ, b.v, b.c) <==> !VariantsDiffer(word2, divisor, a.dar)
  {
    hide Quot; hide Rem; hide QuadResult; hide QuadResult64; hide MinQuotient; hide Special; hide Signed; hide Signed64;
    hide Undefined64;
    var signed, hi, lo := word2 / 0x800 % 2 == 1, a.dar[RReg(word2)], a.dar[QReg(word2)];
    if word2 / 0x400 % 2 == 1 {
      QuadsAgree(hi, lo, divisor, signed);
      OverflowOnly(hi, lo, divisor, signed);
      if QuadResult64(hi, lo, divisor, signed).Quotient? { TopShifted(QuadResult64(hi, lo, divisor, signed).q); }
    } else {
      SpecialLongResult();
      TopShifted(LongResult(lo, divisor, signed).q);
      QuotientKept(a.dar, word2, lo, divisor, signed);
      assert Divl64(word2, divisor, a).dar[QReg(word2)] == LongResult(lo, divisor, signed).q;
    }
  }

  /** The two forms of the result differ at most in that one of them is an overflow. */
  lemma OverflowOnly(hi: u32, lo: u32, divisor: u32, signed: bool)
    requires divisor != 0 && !Undefined64(hi, lo, divisor, signed)
    ensures QuadResult(hi, lo, divisor, signed) != QuadResult64(hi, lo, divisor, signed) ==>
      QuadResult(hi, lo, divisor, signed).Overflow? && QuadResult64(hi, lo, divisor, signed).Quotient?
  {
  }

  /** The registers after the 32-bit form. */
  function LongRegisters(dar: Regs, word2: u16, lo: u32, divisor: u32, signed: bool): Regs
    requires divisor != 0
  {
    var Quotient(q, r) := LongResult(lo, divisor, signed);
    if SpecialLong(lo, divisor, signed) && QReg(word2) == RReg(word2) then dar[RReg(word2) := r]
    else dar[RReg(word2) := r][QReg(word2) := q]
  }

  /** The quotient register holds the quotient unless the special case writes the remainder over it. */
  lemma QuotientKept(dar: Regs, word2: u16, lo: u32, divisor: u32, signed: bool)
    requires divisor != 0
    ensures LongRegisters(dar, word2, lo, divisor, signed)[QReg(word2)] == LongResult(lo, divisor, signed).q <==>
            !(SpecialLong(lo, divisor, signed) && QReg(word2) == RReg(word2))
  {
    hide Quot; hide Rem;
    SpecialLongResult();
  }

  /** DIVSL.L with both results in D0, -2^31 divided by -1: D0 ends as 0. */
  lemma QuotientOverwritten(dar: Regs)
    ensures LongRegisters(dar, 0x800, TWO31, TWO32 - 1, true)[0] == 0 != LongResult(TWO31, TWO32 - 1, true).q
  {
    hide Quot; hide Rem;
    SpecialLongResult();
  }

  method SetQuotientFlags(cpu: Cpu, q: u32)
    modifies cpu`n, cpu`notZ, cpu`v, cpu`c
    ensures (cpu.n / 0x80 % 2 == 1 <==> Msb32(q)) && (cpu.notZ == 0 <==> q == 0) && cpu.v == 0 && cpu.c == 0
  {
    cpu.n := q / 0x100_0000;
    cpu.notZ := q;
    cpu.v := 0;
    cpu.c := 0;
  }

  lemma SpecialLongResult()
    ensures LongResult(TWO31, TWO32 - 1, true) == Quotient(TWO31, 0)
  {
    assert Abs(Signed(TWO31)) == TWO31 && Abs(Signed(TWO32 - 1)) == 1;
  }
}
