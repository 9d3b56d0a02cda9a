/** MULL without 64-bit integers: a 64-bit product from four 16-bit ones (Musashi/m68k_in.c). */
module Mull {
  import opened Words
  import opened FlatMemory
  import opened M68k
  import opened Flags
  import opened Exceptions

  /** The exact product of the operands as the instruction reads them. */
  function Product(src: u32, dst: u32, signed: bool): int {
    if signed then Signed(src) * Signed(dst) else src * dst
  }

  /** A product of two 16-bit numbers fits in 32 bits. */
  lemma HalfProduct(a: u16, b: u16)
    ensures 0 <= a * b <= 0xfffe_0001
  {
    ProductBound(a, b, 0xffff);
  }

  /** The product of two words from the products of their halves. */
  lemma Halves(s1: u16, s2: u16, d1: u16, d2: u16)
    ensures (s2 * TWO16 + s1) * (d2 * TWO16 + d1)
            == s2 * d2 * TWO32 + (s1 * d2 + s2 * d1) * TWO16 + s1 * d1
  {
    var x, y := s2 * TWO16, d2 * TWO16;
    assert (x + s1) * (y + d1) == x * y + x * d1 + s1 * y + s1 * d1;
    assert x * y == s2 * d2 * TWO32;
    assert x * d1 == s2 * d1 * TWO16;
    assert s1 * y == s1 * d2 * TWO16;
  }

  /** Adding the partial products with 32-bit words only: the carry into the upper word is the upper
      half of the sum of the three 16-bit columns. */
  lemma Columns(r1: u32, r2: u32, r3: u32, r4: u32)
    requires r4 * TWO32 + (r2 + r3) * TWO16 + r1 < TWO64
    ensures var lo := Wrap(r1 + Wrap(r2 % TWO16 * TWO16) + Wrap(r3 % TWO16 * TWO16));
      var hi := r4 + r2 / TWO16 + r3 / TWO16 + (r1 / TWO16 + r2 % TWO16 + r3 % TWO16) / TWO16;
      hi < TWO32 && hi * TWO32 + lo == r4 * TWO32 + (r2 + r3) * TWO16 + r1
  {
    hide Wrap;
    ColumnDigits(r1 / TWO16, r1 % TWO16, r2 / TWO16, r2 % TWO16, r3 / TWO16, r3 % TWO16);
    var carry := (r1 / TWO16 + r2 % TWO16 + r3 % TWO16) / TWO16;
    var c := (r1 / TWO16 + r2 % TWO16 + r3 % TWO16) % TWO16;
    assert r1 + r2 % TWO16 * TWO16 + r3 % TWO16 * TWO16 == carry * TWO32 + c * TWO16 + r1 % TWO16;
  }

  lemma ColumnDigits(a1: u16, b1: u16, a2: u16, b2: u16, a3: u16, b3: u16)
    ensures Wrap((a1 * TWO16 + b1) + Wrap(b2 * TWO16) + Wrap(b3 * TWO16)) == (a1 as int + b2 + b3) % TWO16 * TWO16 + b1
  {
    var column := a1 as int + b2 + b3;
    assert (a1 * TWO16 + b1) + b2 * TWO16 + b3 * TWO16 == column / TWO16 * TWO32 + column % TWO16 * TWO16 + b1;
  }

  /** The product of magnitudes, and the sign of a product. */
  lemma SignOfProduct(src: u32, dst: u32)
    ensures Abs(Product(src, dst, true)) == Abs(Signed(src)) * Abs(Signed(dst)) <= TWO31 * TWO31
    ensures Product(src, dst, true) < 0 ==> Msb32(src) != Msb32(dst)
    ensures Product(src, dst, true) > 0 ==> Msb32(src) == Msb32(dst)
  {
    var a, b := Signed(src), Signed(dst);
    var x, y := Abs(a), Abs(b);
    ProductBound(x, y, TWO31);
    if a < 0 && b < 0 {
      assert a * b == x * y;
      assert a * b > 0 by { MulAtLeast(x, y); }
    } else if a < 0 {
      assert -(a * b) == x * y;
    } else if b < 0 {
      assert -(a * b) == x * y;
    }
  }

  /** The four partial products and their sum. */
  method MultiplyHalves(src: u32, dst: u32) returns (hi: u32, lo: u32)
    ensures hi * TWO32 + lo == src * dst
  {
    var src1, src2 := src % TWO16, src / TWO16;
    var dst1, dst2 := dst % TWO16, dst / TWO16;
    HalfProduct(src1, dst1); HalfProduct(src1, dst2); HalfProduct(src2, dst1); HalfProduct(src2, dst2);
    var r1: u32, r2: u32, r3: u32, r4: u32 := src1 * dst1, src1 * dst2, src2 * dst1, src2 * dst2;
    assert r4 * TWO32 + (r2 + r3) * TWO16 + r1 == src * dst by {
      Halves(src1, src2, dst1, dst2);
      assert src == src2 * TWO16 + src1 && dst == dst2 * TWO16 + dst1;
    }
    WordProduct(src, dst);
    hi, lo := AddColumns(r1, r2, r3, r4, src as int * dst);
  }

  method AddColumns(r1: u32, r2: u32, r3: u32, r4: u32, ghost product: int) returns (hi: u32, lo: u32)
    requires product == r4 * TWO32 + (r2 + r3) * TWO16 + r1 < TWO64
    ensures hi * TWO32 + lo == product
  {
    Columns(r1, r2, r3, r4);
    lo := Wrap(r1 + Wrap(r2 % TWO16 * TWO16) + Wrap(r3 % TWO16 * TWO16));
    hi := Wrap(r4 + r2 / TWO16 + r3 / TWO16 + (r1 / TWO16 + r2 % TWO16 + r3 % TWO16) / TWO16);
  }

  /** The operands of the partial products: magnitudes for a signed multiplication. */
  lemma SignedOperands(src: u32, dst: u32)
    ensures var a, b := if Msb32(src) then Neg(src) else src, if Msb32(dst) then Neg(dst) else dst;
      && a as int * b == Abs(Product(src, dst, true))
      && Product(src, dst, true) % TWO64 ==
         if Msb32(src) != Msb32(dst) && a as int * b != 0 then TWO64 - a as int * b else a as int * b
  {
    hide Product; hide Signed; hide Neg; hide Msb32;
    SignOfProduct(src, dst);
    Magnitude(src);
    Magnitude(dst);
    ModOfSigned(Product(src, dst, true));
  }

  lemma Magnitude(w: u32)
    ensures (if Msb32(w) then Neg(w) else w) == Abs(Signed(w))
  {
  }

  lemma ModOfSigned(p: int)
    requires Abs(p) < TWO64
    ensures p % TWO64 == if p < 0 then TWO64 - Abs(p) else Abs(p)
  {
  }

  lemma XorMsb(a: u32, b: u32)
    ensures Xor(a, b) < TWO32 && (Msb32(Xor(a, b)) <==> Msb32(a) != Msb32(b))
  {
    BitwiseTop32(a, b);
  }

  /** The 64-bit product in two words. */
  method Multiply(src0: u32, dst0: u32, signed: bool) returns (hi: u32, lo: u32)
    ensures hi * TWO32 + lo == Product(src0, dst0, signed) % TWO64
  {
    hide Product; hide Signed; hide Xor; hide Msb32; hide Neg; hide NegHi; hide Abs;
    XorMsb(src0, dst0);
    SignedOperands(src0, dst0);
    ProductUnsigned(src0, dst0);
    var src, dst := src0, dst0;
    var neg := Msb32(Xor(src, dst));
    if signed {
      if Msb32(src) { src := Neg(src); }
      if Msb32(dst) { dst := Neg(dst); }
    }
    WordProduct(src, dst);
    hi, lo := MultiplyHalves(src, dst);
    if signed && neg {
      Negate64(hi, lo);
      hi, lo := NegHi(hi, lo), Neg(lo);
    }
  }

  lemma ProductUnsigned(src: u32, dst: u32)
    ensures Product(src, dst, false) == src * dst
  {
  }

  lemma WordProduct(a: u32, b: u32)
    ensures 0 <= a * b < TWO64
  {
    ProductBound(a, b, TWO32 - 1);
  }

  /** The two words hold the exact product, read as a signed or unsigned 64-bit number. */
  lemma ProductWords(src: u32, dst: u32, signed: bool, hi: u32, lo: u32)
    requires hi * TWO32 + lo == Product(src, dst, signed) % TWO64
    ensures var p := Product(src, dst, signed);
      && p == (if signed then Signed(hi) * TWO32 + lo else hi * TWO32 + lo)
  {
    hide Product;
    SignOfProduct(src, dst);
    WordProduct(src, dst);
    ProductUnsigned(src, dst);
    var p := Product(src, dst, signed);
    assert signed ==> -TWO31 * TWO31 <= p <= TWO31 * TWO31;
  }

  /** Registers and flags after a multiplication whose exact product is p. */
  twostate predicate Multiplied(cpu: Cpu, word2: u16, p: int)
    reads cpu
  {
    MultipliedTo(word2, p, old(cpu.dar), cpu.dar, cpu.n, cpu.notZ, cpu.v, cpu.c)
  }

  predicate MultipliedTo(word2: u16, p: int, dar: Regs, dar': Regs, n: u32, notZ: u32, v: u32, c: u32) {
    var signed, quad := word2 / 0x800 % 2 == 1, word2 / 0x400 % 2 == 1;
    var h, l := word2 % 8, word2 / 0x1000 % 8;
    && dar' == (if quad then dar[h := p % TWO64 / TWO32][l := p % TWO32] else dar[l := p % TWO32])
    && (n / 0x80 % 2 == 1 <==> if quad then p % TWO64 >= TWO63 else p % TWO32 >= TWO31)
    && (notZ == 0 <==> if quad then p == 0 else p % TWO32 == 0)
    && (v / 0x80 % 2 == 1 <==> !quad && !(if signed then -TWO31 <= p < TWO31 else p < TWO32))
    && c == 0
  }

  /** The exact product in the registers that the extension word names, modulo 2^32 in the 32-bit form, where
      V tells that it does not fit. */
  lemma Multiplication(top: nat, l: nat, signed: bool, quad: bool, mid: nat, h: nat, src: u32, dst: u32,
                       dar: Regs, dar': Regs, n: u32, notZ: u32, v: u32, c: u32)
    requires top <= 1 && l < 8 && mid < 0x80 && h < 8
    requires var w := top * 0x8000 + l * 0x1000 + B2N(signed) * 0x800 + B2N(quad) * 0x400 + mid * 8 + h;
      w < TWO16 && MultipliedTo(w, Product(src, dst, signed), dar, dar', n, notZ, v, c)
    ensures quad && h != l && !signed ==> dar'[h] * TWO32 + dar'[l] == src * dst
    ensures quad && h != l && signed ==> Signed(dar'[h]) * TWO32 + dar'[l] == Signed(src) * Signed(dst)
    ensures !quad || h == l ==> dar'[l] == Wrap(if signed then Signed(src) * Signed(dst) else src * dst)
    ensures forall i | 0 <= i < 16 && i != l && (i != h || !quad) :: dar'[i] == dar[i]
    ensures v / 0x80 % 2 == 1 <==>
      !quad && !(if signed then -TWO31 <= Signed(src) * Signed(dst) < TWO31 else src * dst < TWO32)
  {
    hide Signed;
    ExtensionWord(top, l, signed, quad, mid, h);
    hide Product;
    ProductIs(src, dst, signed);
    var p := Product(src, dst, signed);
    var w := p % TWO64;
    FloorMod(w, TWO32);
    WordParts(p);
    if quad && h != l {
      ProductWords(src, dst, signed, dar'[h], dar'[l]);
    }
  }

  lemma ProductIs(src: u32, dst: u32, signed: bool)
    ensures Product(src, dst, signed) == if signed then Signed(src) * Signed(dst) else src * dst
  {
  }

  lemma WordParts(p: int)
    ensures 0 <= p % TWO64 / TWO32 < TWO32 && p % TWO64 / TWO32 * TWO32 + p % TWO32 == p % TWO64
  {
  }

  // ------------------------------------------------------------------ the 64-bit variant

  /** The branch that M68K_USE_64_BIT would select, on one 64-bit word. */
  function Mull64(word2: u16, dar: Regs, src: u32, dst: u32): Outcome {
    WideOutcome(word2, dar, Product(src, dst, word2 / 0x800 % 2 == 1) % TWO64)
  }

  function WideOutcome(word2: u16, dar: Regs, res: nat): Outcome
    requires res < TWO64
  {
    var signed, quad := word2 / 0x800 % 2 == 1, word2 / 0x400 % 2 == 1;
    var h, l := word2 % 8, word2 / 0x1000 % 8;
    if quad then
      OrIsZero(res % TWO32, res / TWO32);
      Outcome(dar[h := res / TWO32][l := res % TWO32], res / 0x100_0000_0000_0000, Or(res % TWO32, res / TWO32), 0, 0)
    else
      var overflow := if signed then (if res < TWO63 then res else res - TWO64) != Signed(res % TWO32) else res >= TWO32;
      Outcome(dar[l := res % TWO32], Wrap(res / 0x100_0000), res % TWO32, B2N(overflow) * 0x80, 0)
  }

  /** Both variants leave the same registers and the same N, Z, V and C bits. */
  lemma VariantsAgree(word2: u16, dar: Regs, src: u32, dst: u32, dar': Regs, n: u32, notZ: u32, v: u32, c: u32)
    requires MultipliedTo(word2, Product(src, dst, word2 / 0x800 % 2 == 1), dar, dar', n, notZ, v, c)
    ensures SameOutcome(Mull64(word2, dar, src, dst), dar', n, notZ, v, c)
  {
    hide Product; hide WideOutcome; hide MultipliedTo; hide SameOutcome;
    SignOfProduct(src, dst);
    WordProduct(src, dst);
    ProductUnsigned(src, dst);
    WideAgrees(word2, dar, Product(src, dst, word2 / 0x800 % 2 == 1), dar', n, notZ, v, c);
  }

  lemma WideAgrees(word2: u16, dar: Regs, p: int, dar': Regs, n: u32, notZ: u32, v: u32, c: u32)
    requires if word2 / 0x800 % 2 == 1 then Abs(p) <= TWO31 * TWO31 else 0 <= p < TWO64
    requires MultipliedTo(word2, p, dar, dar', n, notZ, v, c)
    ensures SameOutcome(WideOutcome(word2, dar, p % TWO64), dar', n, notZ, v, c)
  {
    hide Or; hide Wrap; hide Signed;
    OrIsZero(p % TWO64 % TWO32, p % TWO64 / TWO32);
    WideWord(p);
    OneBit(n, v);
  }

  lemma OneBit(n: u32, v: u32)
    ensures (n / 0x80 % 2 == 0 || n / 0x80 % 2 == 1) && (v / 0x80 % 2 == 0 || v / 0x80 % 2 == 1)
  {
  }

  /** What the flag macros read off the 64-bit word of a product. */
  lemma WideWord(p: int)
    requires -TWO63 <= p < TWO64
    ensures var res := p % TWO64;
      && res % TWO32 == p % TWO32 && (res == 0 <==> p == 0)
      && res / 0x100_0000_0000_0000 / 0x80 % 2 == B2N(res >= TWO63)
      && Wrap(res / 0x100_0000) / 0x80 % 2 == B2N(p % TWO32 >= TWO31)
      && (p < TWO63 ==>
            ((if res < TWO63 then res else res - TWO64) == Signed(res % TWO32) <==> -TWO31 <= p < TWO31))
      && (p >= 0 ==> (res >= TWO32 <==> p >= TWO32))
  {
    hide Wrap;
    var res := p % TWO64;
    assert res == if p < 0 then p + TWO64 else p;
    SameLowWord(p);
    TopBit64(res);
    Bit31(res);
    if p < TWO63 { SignExtends(p); }
  }

  lemma SameLowWord(p: int)
    ensures p % TWO64 % TWO32 == p % TWO32
  {
    var k := p / TWO64;
    assert p == k * TWO32 * TWO32 + p % TWO64;
  }

  lemma TopBit64(res: nat)
    requires res < TWO64
    ensures res / 0x100_0000_0000_0000 / 0x80 % 2 == B2N(res >= TWO63)
  {
  }

  /** A number is its low word sign-extended exactly if it fits in it. */
  lemma SignExtends(p: int)
    requires -TWO63 <= p < TWO63
    ensures p == Signed(p % TWO32) <==> -TWO31 <= p < TWO31
  {
  }

  lemma Bit31(res: nat)
    requires res < TWO64
    ensures Wrap(res / 0x100_0000) / 0x80 % 2 == B2N(res % TWO32 >= TWO31)
  {
    var hi, lo := res / TWO32, res % TWO32;
    assert res / 0x100_0000 == hi * 0x100 + lo / 0x100_0000;
    BitSeven(hi, lo / 0x100_0000);
  }

  lemma BitSeven(hi: nat, top: nat)
    requires hi < TWO32 && top < 0x100
    ensures Wrap(hi * 0x100 + top) / 0x80 % 2 == B2N(top >= 0x80)
  {
    assert (hi * 0x100 + top) % TWO32 == hi % 0x100_0000 * 0x100 + top;
  }

  /** The part of the handler after the product. */
  method StoreProduct(cpu: Cpu, word2: u16, hi: u32, lo: u32, ghost p: int)
    requires hi * TWO32 + lo == p % TWO64 && cpu.c == 0
    requires p == if word2 / 0x800 % 2 == 1 then Signed(hi) * TWO32 + lo else hi * TWO32 + lo
    modifies cpu`dar, cpu`n, cpu`notZ, cpu`v
    ensures Multiplied(cpu, word2, p)
  {
    hide Or; hide Wrap;
    WordsOf(p, hi, lo);
    if word2 / 0x400 % 2 == 1 {
      cpu.dar := cpu.dar[word2 % 8 := hi];
      cpu.dar := cpu.dar[word2 / 0x1000 % 8 := lo];
      OrIsZero(hi, lo);
      cpu.n, cpu.notZ, cpu.v := hi / 0x100_0000, Or(hi, lo), 0;
      return;
    }
    cpu.dar := cpu.dar[word2 / 0x1000 % 8 := lo];
    cpu.n, cpu.notZ := lo / 0x100_0000, lo;
    if word2 / 0x800 % 2 == 1 {
      cpu.v := B2N(!((Msb32(lo) && hi == TWO32 - 1) || (!Msb32(lo) && hi == 0))) * 0x80;
    } else {
      cpu.v := B2N(hi != 0) * 0x80;
    }
  }

  /** MULL Dy,Dl or Dy,Dh:Dl: the exact product in the registers, and flags about the exact product. */
  method MullD(cpu: Cpu)
    modifies cpu
    ensures !Ec020Plus(cpu.cpuType) ==>
      Entered(cpu, old(cpu.ppc), EXCEPTION_ILLEGAL_INSTRUCTION, FrameSize(cpu.cpuType))
    ensures Ec020Plus(cpu.cpuType) ==>
      var word2 := old(Read16(cpu.mem, Addr(cpu.cpuType, cpu.pc)));
      var src, dst := old(cpu.dar)[old(cpu.ir) % 8], old(cpu.dar)[word2 / 0x1000 % 8];
      && cpu.pc == old(Wrap(cpu.pc + 2)) && unchanged(cpu`mem, cpu`x, cpu`s, cpu`m, cpu`sp)
      && Multiplied(cpu, word2, Product(src, dst, word2 / 0x800 % 2 == 1))
      && SameOutcome(Mull64(word2, old(cpu.dar), src, dst), cpu.dar, cpu.n, cpu.notZ, cpu.v, cpu.c)
  {
    hide Mull64; hide SameOutcome; hide MultipliedTo;
    hide Product; hide Read16; hide Addr; hide Read32; hide RoomBelow; hide Unwind; hide SrOf;
    if !Ec020Plus(cpu.cpuType) {
      ExceptionPlain(cpu, cpu.ppc, EXCEPTION_ILLEGAL_INSTRUCTION);
      return;
    }
    var word2 := cpu.ReadImm16();
    var src := cpu.dar[cpu.ir % 8];
    var dst := cpu.dar[word2 / 0x1000 % 8];
    cpu.c := 0;
    var hi, lo := Multiply(src, dst, word2 / 0x800 % 2 == 1);
    ProductWords(src, dst, word2 / 0x800 % 2 == 1, hi, lo);
    StoreProduct(cpu, word2, hi, lo, Product(src, dst, word2 / 0x800 % 2 == 1));
    VariantsAgree(word2, old(cpu.dar), src, dst, cpu.dar, cpu.n, cpu.notZ, cpu.v, cpu.c);
  }

  lemma WordsOf(p: int, hi: u32, lo: u32)
    requires hi * TWO32 + lo == p % TWO64
    ensures hi == p % TWO64 / TWO32 && lo == p % TWO32
    ensures Msb32(hi) <==> p % TWO64 >= TWO63
    ensures hi / 0x100_0000 / 0x80 % 2 == 1 <==> Msb32(hi)
    ensures lo / 0x100_0000 / 0x80 % 2 == 1 <==> Msb32(lo)
  {
    LowWord(p, hi, lo);
    TopOfWord(hi);
    TopOfWord(lo);
  }

  lemma LowWord(p: int, hi: u32, lo: u32)
    requires hi * TWO32 + lo == p % TWO64
    ensures hi == p % TWO64 / TWO32 && lo == p % TWO32
  {
    LowOf(hi, lo);
    LowOf(p / TWO64 * TWO32 + hi, lo);
    assert p == p / TWO64 * TWO64 + p % TWO64;
  }

  lemma LowOf(h: int, lo: u32)
    ensures (h * TWO32 + lo) / TWO32 == h && (h * TWO32 + lo) % TWO32 == lo
  {
  }

  lemma TopOfWord(w: u32)
    ensures w / 0x100_0000 / 0x80 % 2 == 1 <==> Msb32(w)
  {
  }
}
