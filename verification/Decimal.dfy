/** ABCD -(Ay),-(Ax) and SBCD -(Ay),-(Ax): two decimal digits of a packed-decimal addition or
subtraction, and what chains of them compute (Musashi/m68k_in.c). */
module Decimal {
  import opened Words
  import opened Bits
  import opened FlatMemory
  import opened M68k
  import opened Blocks
  import opened Flags
  import opened LongArithmetic

  // ------------------------------------------------------------------ one byte

  predicate Bcd(b: u8) {
    b % 0x10 <= 9 && b / 0x10 <= 9
  }

  /** The two decimal digits of a byte. */
  function Digits(b: u8): nat {
    b / 0x10 * 10 + b % 0x10
  }

  /** A byte of two nibbles. */
  lemma BcdMeaning(high: nat, low: nat)
    requires high < 16 && low < 16
    ensures Bcd(high * 16 + low) <==> high < 10 && low < 10
    ensures Bcd(high * 16 + low) ==> Digits(high * 16 + low) == 10 * high + low
  {
  }

  /** res of the handlers before the upper nibbles are added, and before the final correction. */
  function AbcdLow(src: u8, dst: u8, x: nat): u32
    requires x <= 1
  {
    src % 0x10 + dst % 0x10 + x
  }

  function AbcdRaw(src: u8, dst: u8, x: nat): u32
    requires x <= 1
  {
    var low := AbcdLow(src, dst, x);
    (if low > 9 then low + 6 else low) + src / 0x10 * 0x10 + dst / 0x10 * 0x10
  }

  function SbcdLow(src: u8, dst: u8, x: nat): u32 {
    Wrap(dst as int % 0x10 - src % 0x10 - x)
  }

  function SbcdRaw(src: u8, dst: u8, x: nat): u32 {
    var low: int := SbcdLow(src, dst, x);
    Wrap(Wrap(if low > 9 then low - 6 else low) + (dst as int / 0x10 * 0x10 - src / 0x10 * 0x10))
  }

  /** The byte that a handler stores and the carry or borrow, for any operands. */
  function DecimalResult(add: bool, src: u8, dst: u8, x: nat): u8
    requires x <= 1
  {
    if add then
      var raw := AbcdRaw(src, dst, x);
      Wrap(raw as int - 0xa0 * B2N(raw > 0x99)) % 0x100
    else
      var raw := SbcdRaw(src, dst, x);
      Wrap(raw + 0xa0 * B2N(raw > 0x99)) % 0x100
  }

  function DecimalCarry(add: bool, src: u8, dst: u8, x: nat): (carry: nat)
    requires x <= 1
    ensures carry <= 1
  {
    B2N((if add then AbcdRaw(src, dst, x) else SbcdRaw(src, dst, x)) > 0x99)
  }

  /** Bit 7 of v & res. */
  lemma BitSeven(v: u32, res: u32)
    ensures And(v, res) / 0x80 % 2 == 1 <==> v / 0x80 % 2 == 1 && res / 0x80 % 2 == 1
  {
    hide And; hide Bit; hide Pow2;
    Pow2Values();
    BitwiseMeaning(v, res, 7);
    BitIs(v, 7);
    BitIs(res, 7);
    BitIs(And(v, res), 7);
  }

  /** On decimal operands both handlers are exact, and their results are decimal. */
  lemma AbcdExact(src: u8, dst: u8, x: nat)
    requires Bcd(src) && Bcd(dst) && x <= 1
    ensures var res, carry := DecimalResult(true, src, dst, x), DecimalCarry(true, src, dst, x);
      Bcd(res) && Digits(dst) + (Digits(src) + x) == Digits(res) + 100 * carry && (res == 0 <==> Digits(res) == 0)
  {
    hide AbcdRaw; hide Wrap;
    var l: int := src % 0x10 + dst % 0x10 + x;
    var h: int := src / 0x10 + dst / 0x10 + B2N(l > 9);
    var l' := if l > 9 then l - 10 else l;
    AbcdDigits(src, dst, x, l, h, l');
    Reduced(h, l');
    DigitsOf(if h > 9 then h - 10 else h, l');
  }

  lemma AbcdDigits(src: u8, dst: u8, x: nat, l: int, h: int, l': int)
    requires Bcd(src) && Bcd(dst) && x <= 1
    requires l == src % 0x10 + dst % 0x10 + x && h == src / 0x10 + dst / 0x10 + B2N(l > 9)
    requires l' == if l > 9 then l - 10 else l
    ensures AbcdRaw(src, dst, x) == h * 0x10 + l'
  {
  }

  /** Taking 0xa0 off leaves the two digits ten tens lower. */
  lemma Reduced(h: int, l: int)
    requires 0 <= h <= 19 && 0 <= l <= 9
    ensures h * 0x10 + l > 0x99 <==> h > 9
    ensures Wrap(h * 0x10 + l - 0xa0 * B2N(h > 9)) % 0x100 == (if h > 9 then h - 10 else h) * 0x10 + l
  {
  }

  lemma SbcdExact(src: u8, dst: u8, x: nat)
    requires Bcd(src) && Bcd(dst) && x <= 1
    ensures var res, carry := DecimalResult(false, src, dst, x), DecimalCarry(false, src, dst, x);
      Bcd(res) && Digits(dst) - (Digits(src) + x) == Digits(res) - 100 * carry && (res == 0 <==> Digits(res) == 0)
  {
    hide SbcdRaw; hide Wrap;
    var l: int := dst as int % 0x10 - src % 0x10 - x;
    var h: int := dst as int / 0x10 - src / 0x10 - B2N(l < 0);
    var l' := if l < 0 then l + 10 else l;
    SbcdDigits(src, dst, x, l, h, l');
    Corrected(h, l');
    DigitsOf(if h < 0 then h + 10 else h, l');
  }

  lemma SbcdDigits(src: u8, dst: u8, x: nat, l: int, h: int, l': int)
    requires Bcd(src) && Bcd(dst) && x <= 1
    requires l == dst as int % 0x10 - src % 0x10 - x && h == dst as int / 0x10 - src / 0x10 - B2N(l < 0)
    requires l' == if l < 0 then l + 10 else l
    ensures SbcdRaw(src, dst, x) == Wrap(h * 0x10 + l')
  {
    hide SbcdLow; hide Wrap;
    SbcdLowIs(src, dst, x, l);
    WrapAdd(if l < 0 then l + TWO32 - 6 else l, dst as int / 0x10 * 0x10 - src / 0x10 * 0x10);
    WrapOnce(h * 0x10 + l');
  }

  lemma SbcdLowIs(src: u8, dst: u8, x: nat, l: int)
    requires Bcd(src) && Bcd(dst) && x <= 1 && l == dst as int % 0x10 - src % 0x10 - x
    ensures SbcdLow(src, dst, x) as int == (if l < 0 then l + TWO32 else l) && -10 <= l <= 9
  {
  }

  lemma WrapOnce(a: int)
    ensures Wrap(a + TWO32) == Wrap(a)
  {
  }

  lemma DigitsOf(h: nat, l: nat)
    requires h <= 9 && l <= 9
    ensures Bcd(h * 0x10 + l) && Digits(h * 0x10 + l) == 10 * h + l
  {
  }

  /** Adding 0xa0 to a negative result wraps back to the two digits ten tens higher. */
  lemma Corrected(h: int, l: int)
    requires -10 <= h <= 9 && 0 <= l <= 9
    ensures Wrap(h * 0x10 + l) > 0x99 <==> h < 0
    ensures Wrap(Wrap(h * 0x10 + l) + 0xa0 * B2N(h < 0)) % 0x100 == (if h < 0 then h + 10 else h) * 0x10 + l
  {
  }

  /** The arithmetic of the ABCD handler.  The manual leaves N and V undefined; the code leaves the top bit
      of the result in both. */
  method AbcdByte(src: u8, dst: u8, x: nat) returns (res8: u8, carry: u32, v: u32, n: u32)
    requires x <= 1
    ensures res8 == DecimalResult(true, src, dst, x) && carry == DecimalCarry(true, src, dst, x) * 0x100
    ensures n / 0x80 % 2 == res8 / 0x80 && (v / 0x80 % 2 == 1 <==> res8 >= 0x80)
  {
    hide And; hide Wrap;
    WrapSame(AbcdRaw(src, dst, x));
    var res: u32 := src % 0x10 + dst % 0x10 + x;
    v := Not(res);
    assert v / 0x80 % 2 == 1;
    if res > 9 {
      res := res + 6;
    }
    res := res + src / 0x10 * 0x10 + dst / 0x10 * 0x10;
    carry := B2N(res > 0x99) * 0x100;
    if carry != 0 {
      res := Wrap(res as int - 0xa0);
    }
    AndBound(v, res);
    BitSeven(v, res);
    LowByteTop(res);
    v := And(v, res);
    n := res;
    res8 := res % 0x100;
  }

  lemma LowByteTop(res: u32)
    ensures res / 0x80 % 2 == res % 0x100 / 0x80
  {
  }

  /** The arithmetic of the SBCD handler.  N is the top bit of the result; V as well, unless the low digits
      borrow. */
  method SbcdByte(src: u8, dst: u8, x: nat) returns (res8: u8, carry: u32, v: u32, n: u32)
    requires x <= 1
    ensures res8 == DecimalResult(false, src, dst, x) && carry == DecimalCarry(false, src, dst, x) * 0x100
    ensures n / 0x80 % 2 == res8 / 0x80
    ensures v / 0x80 % 2 == 1 <==> res8 >= 0x80 && dst % 0x10 >= src % 0x10 + x
  {
    hide And; hide Wrap;
    WrapSame(SbcdLow(src, dst, x));
    var res: u32 := Wrap(dst as int % 0x10 - src % 0x10 - x);
    LowBorrow(dst as int % 0x10 - src % 0x10 - x);
    v := Not(res);
    if res > 9 {
      res := Wrap(res as int - 6);
    }
    res := Wrap(res as int + (dst as int / 0x10 * 0x10 - src / 0x10 * 0x10));
    WrapSame(res);
    carry := B2N(res > 0x99) * 0x100;
    if carry != 0 {
      res := Wrap(res as int + 0xa0);
    }
    res8 := res % 0x100;
    AndBound(v, res8);
    BitSeven(v, res8);
    v := And(v, res8);
    n := res8;
  }

  /** Bit 7 of the complement of a small difference is set exactly if there is no borrow. */
  lemma LowBorrow(low: int)
    requires -0x10 <= low < 0x10
    ensures Not(Wrap(low)) / 0x80 % 2 == 1 <==> low >= 0
  {
  }

  lemma AndBound(a: u32, b: u32)
    ensures And(a, b) < TWO32
  {
    BitwiseTop32(a, b);
  }

  /** The operands of a handler: predecrement Ay and read, predecrement Ax and read. */
  method Operands(cpu: Cpu) returns (src: u8, dst: u8, ea: u32)
    modifies cpu`dar
    ensures cpu.dar == Predecremented(old(cpu.dar), cpu.ir, 1)
    ensures src == Peek(cpu.mem, Addr(cpu.cpuType, Wrap(old(cpu.dar)[8 + cpu.ir % 8] as int - 1)))
    ensures ea == Addr(cpu.cpuType, cpu.dar[8 + cpu.ir / 0x200 % 8]) && dst == Peek(cpu.mem, ea)
  {
    hide Addr; hide Wrap; hide Peek;
    cpu.dar := cpu.dar[Ry(cpu.ir) := Wrap(cpu.dar[Ry(cpu.ir)] as int - 1)];
    src := Peek(cpu.mem, Addr(cpu.cpuType, cpu.dar[Ry(cpu.ir)]));
    cpu.dar := cpu.dar[Rx(cpu.ir) := Wrap(cpu.dar[Rx(cpu.ir)] as int - 1)];
    ea := Addr(cpu.cpuType, cpu.dar[Rx(cpu.ir)]);
    dst := Peek(cpu.mem, ea);
  }

  /** The result byte in memory, the carry in X and C, and a Z that only a nonzero result changes; on
      decimal operands the decimal sum or difference. */
  twostate predicate DecimalStep(cpu: Cpu, add: bool)
    reads cpu
  {
    var y, x := 8 + cpu.ir % 8, 8 + cpu.ir / 0x200 % 8;
    var ea := Addr(cpu.cpuType, cpu.dar[x]);
    var src := old(Peek(cpu.mem, Addr(cpu.cpuType, Wrap(cpu.dar[y] as int - 1))));
    var dst := Peek(old(cpu.mem), ea);
    var res := DecimalResult(add, src, dst, old(cpu.XBit()));
    && cpu.dar == Predecremented(old(cpu.dar), cpu.ir, 1) && cpu.c == cpu.x
    && cpu.XBit() == DecimalCarry(add, src, dst, old(cpu.XBit()))
    && cpu.mem == Poke(old(cpu.mem), ea, res) && (cpu.notZ == 0 <==> old(cpu.notZ) == 0 && res == 0)
    && cpu.n / 0x80 % 2 == res / 0x80
    && (cpu.v / 0x80 % 2 == 1 <==> res >= 0x80 && (add || dst % 0x10 >= src % 0x10 + old(cpu.XBit())))
    && (Bcd(src) && Bcd(dst) ==>
          Bcd(res) && (res == 0 <==> Digits(res) == 0)
          && Combine(add, Digits(dst), Digits(src) + old(cpu.XBit())) == Combine(add, Digits(res), 100 * cpu.XBit()))
  }

  method AbcdMm(cpu: Cpu)
    modifies cpu`dar, cpu`mem, cpu`x, cpu`n, cpu`notZ, cpu`v, cpu`c
    ensures DecimalStep(cpu, true)
  {
    hide Or; hide Addr; hide Wrap; hide Peek; hide Poke; hide DecimalResult; hide DecimalCarry; hide Bcd; hide Digits;
    hide Predecremented;
    var x := cpu.XBit();
    var src, dst, ea := Operands(cpu);
    var res, carry, v, n := AbcdByte(src, dst, x);
    if Bcd(src) && Bcd(dst) {
      AbcdExact(src, dst, x);
    }
    OrIsZero(cpu.notZ, res);
    cpu.x, cpu.c, cpu.v, cpu.n, cpu.notZ := carry, carry, v, n, Or(cpu.notZ, res);
    cpu.mem := Poke(cpu.mem, ea, res);
  }

  method SbcdMm(cpu: Cpu)
    modifies cpu`dar, cpu`mem, cpu`x, cpu`n, cpu`notZ, cpu`v, cpu`c
    ensures DecimalStep(cpu, false)
  {
    hide Or; hide Addr; hide Wrap; hide Peek; hide Poke; hide DecimalResult; hide DecimalCarry; hide Bcd; hide Digits;
    hide Predecremented;
    var x := cpu.XBit();
    var src, dst, ea := Operands(cpu);
    var res, carry, v, n := SbcdByte(src, dst, x);
    if Bcd(src) && Bcd(dst) {
      SbcdExact(src, dst, x);
    }
    OrIsZero(cpu.notZ, res);
    cpu.x, cpu.c, cpu.v, cpu.n, cpu.notZ := carry, carry, v, n, Or(cpu.notZ, res);
    cpu.mem := Poke(cpu.mem, ea, res);
  }

  // ------------------------------------------------------------------ chains

  function Pow100(n: nat): (p: nat)
    ensures p > 0
  {
    if n == 0 then 1 else 100 * Pow100(n - 1)
  }

  /** The big-endian packed-decimal number in the n bytes that end just below address top. */
  function DecimalNumber(mem: Bytes, top: nat, n: nat): nat
    requires n <= top <= TWO32
  {
    hide Peek; hide Digits; hide Pow100;
    if n == 0 then 0
    else DecimalNumber(mem, top, n - 1) + Digits(Peek(mem, top - n)) * Pow100(n - 1)
  }

  ghost predicate AllBcd(mem: Bytes, top: nat, n: nat) {
    forall b: u32 | top - n <= b < top :: Bcd(Peek(mem, b))
  }

  lemma {:induction false} DecimalSame(m: Bytes, m': Bytes, top: nat, n: nat)
    requires n <= top <= TWO32 && SameRange(m, m', top - n, top)
    ensures DecimalNumber(m, top, n) == DecimalNumber(m', top, n)
  {
    if n > 0 {
      DecimalSame(m, m', top, n - 1);
    }
  }

  /** A valid string of n bytes has a value of 2n decimal digits. */
  lemma {:induction false} DecimalBound(mem: Bytes, top: nat, n: nat)
    requires n <= top <= TWO32 && AllBcd(mem, top, n)
    ensures DecimalNumber(mem, top, n) < Pow100(n)
  {
    if n > 0 {
      DecimalBound(mem, top, n - 1);
      var b: u32 := top - n;
      assert Bcd(Peek(mem, b));
      MulMonotonic(Digits(Peek(mem, b)), 99, Pow100(n - 1));
    }
  }

  lemma {:induction false} Pow100Sum(a: nat, b: nat)
    ensures Pow100(a + b) == Pow100(a) * Pow100(b)
  {
    if a > 0 {
      Pow100Sum(a - 1, b);
      assert Pow100(a + b) == 100 * Pow100(a - 1 + b);
    }
  }

  /** The digits of the number are those of the bytes: pair k is the k-th byte below the top. */
  lemma {:induction false} DecimalDigits(mem: Bytes, top: nat, n: nat, k: nat)
    requires n <= top <= TWO32 && AllBcd(mem, top, n) && 1 <= k <= n
    ensures DecimalNumber(mem, top, n) / Pow100(k - 1) % 100 == Digits(Peek(mem, top - k))
  {
    hide Peek; hide Digits; hide Pow100;
    var low, w, p := DecimalNumber(mem, top, n - 1), Digits(Peek(mem, top - n)), Pow100(n - 1);
    DecimalBound(mem, top, n - 1);
    ByteBound(mem, top, n);
    if k == n {
      DivUnique(w * p + low, p, w, low);
      SmallMod(w, 100);
    } else {
      DecimalDigits(mem, top, n - 1, k);
      Pow100Sum(n - 1 - k, k);
      NextPow100(k - 1);
      LimbBelow(100, low, w, Pow100(n - 1 - k), Pow100(k - 1));
    }
  }

  lemma NextPow100(k: nat)
    ensures Pow100(k + 1) == 100 * Pow100(k)
  {
  }

  lemma ByteBound(mem: Bytes, top: nat, n: nat)
    requires 0 < n <= top <= TWO32 && AllBcd(mem, top, n)
    ensures Digits(Peek(mem, top - n)) < 100
  {
    var b: u32 := top - n;
    assert Bcd(Peek(mem, b));
  }

  /** After k steps: the low k bytes below x hold the decimal sum or difference of the low k bytes of the
      operands, less what the carry or borrow stands for; they are decimal; Z is sticky. */
  ghost predicate Chained(add: bool, m0: Bytes, m: Bytes, y: nat, x: nat, k: nat, x0: nat, carry: nat, z0: u32, z: u32) {
    && k <= y <= TWO32 && k <= x <= TWO32
    && ChangedBelow(m0, m, x, k) && AllBcd(m, x, k)
    && Combine(add, DecimalNumber(m, x, k), Pow100(k) * carry)
       == Combine(add, DecimalNumber(m0, x, k), DecimalNumber(m0, y, k) + x0)
    && (z == 0 <==> z0 == 0 && DecimalNumber(m, x, k) == 0)
  }

  lemma ChainStart(add: bool, m0: Bytes, y: nat, x: nat, x0: nat, z0: u32)
    requires y <= TWO32 && x <= TWO32
    ensures Chained(add, m0, m0, y, x, 0, x0, x0, z0, z0)
  {
  }

  lemma ByteWritten(m0: Bytes, m: Bytes, top: nat, k: nat, res: u8)
    requires k + 1 <= top <= TWO32 && ChangedBelow(m0, m, top, k) && AllBcd(m, top, k) && Bcd(res)
    requires var b: u32 := top - (k + 1); b in m0
    ensures var m' := Poke(m, top - (k + 1), res);
      && ChangedBelow(m0, m', top, k + 1) && AllBcd(m', top, k + 1)
      && DecimalNumber(m', top, k + 1) == DecimalNumber(m, top, k) + Digits(res) * Pow100(k)
  {
    var m' := Poke(m, top - (k + 1), res);
    assert SameRange(m, m', top - k, top);
    DecimalSame(m, m', top, k);
  }

  lemma ChainStep(add: bool, m0: Bytes, m: Bytes, y: nat, x: nat, k: nat, x0: nat, carry: nat, z0: u32, z: u32,
                  res: u8, carry': nat, z': u32)
    requires Chained(add, m0, m, y, x, k, x0, carry, z0, z) && k + 1 <= y && k + 1 <= x && Bcd(res)
    requires var b: u32 := x - (k + 1); b in m0
    requires Combine(add, Digits(Peek(m0, x - (k + 1))), Digits(Peek(m0, y - (k + 1))) + carry)
             == Combine(add, Digits(res), 100 * carry')
    requires z' == 0 <==> z == 0 && Digits(res) == 0
    ensures Chained(add, m0, Poke(m, x - (k + 1), res), y, x, k + 1, x0, carry', z0, z')
  {
    hide Peek; hide Poke; hide ChangedBelow; hide AllBcd; hide Digits; hide Bcd;
    ByteWritten(m0, m, x, k, res);
    DigitProducts(add, 100, Digits(Peek(m0, x - (k + 1))), Digits(Peek(m0, y - (k + 1))), carry, Digits(res), carry', Pow100(k));
    SumIsZero(DecimalNumber(m, x, k), Digits(res), Pow100(k));
  }

  /** Two disjoint packed-decimal strings of n bytes each, accessible and not wrapping, below Ay and Ax. */
  ghost predicate DecimalOperands(cpu: Cpu, n: nat)
    reads cpu
  {
    var t, ry, rx := cpu.cpuType, cpu.dar[Ry(cpu.ir)], cpu.dar[Rx(cpu.ir)];
    var y, x := TopOf(t, ry, n), TopOf(t, rx, n);
    && Ry(cpu.ir) != Rx(cpu.ir)
    && RoomBelow(t, cpu.mem, ry, n) && RoomBelow(t, cpu.mem, rx, n)
    && (y <= x - n || x <= y - n)
    && AllBcd(cpu.mem, y, n) && AllBcd(cpu.mem, x, n)
  }

  /** The same for decimal strings, whose bytes are valid as well. */
  lemma DecimalOperandsMeaning(cpu: Cpu, n: nat)
    requires n <= Addr(cpu.cpuType, cpu.dar[Ry(cpu.ir)]) && n <= Addr(cpu.cpuType, cpu.dar[Rx(cpu.ir)])
    ensures var y: int, x: int := Addr(cpu.cpuType, cpu.dar[Ry(cpu.ir)]), Addr(cpu.cpuType, cpu.dar[Rx(cpu.ir)]);
      DecimalOperands(cpu, n) <==>
        && Ry(cpu.ir) != Rx(cpu.ir)
        && (forall b: u32 | y - n <= b < y || x - n <= b < x :: b in cpu.mem && Bcd(cpu.mem[b]))
        && (y <= x - n || x <= y - n)
  {
    hide Addr; hide RoomBelow; hide TopOf; hide Bcd;
    RoomMeaning(cpu.cpuType, cpu.mem, cpu.dar[Ry(cpu.ir)], n);
    RoomMeaning(cpu.cpuType, cpu.mem, cpu.dar[Rx(cpu.ir)], n);
    TopMeaning(cpu.cpuType, cpu.dar[Ry(cpu.ir)], n);
    TopMeaning(cpu.cpuType, cpu.dar[Rx(cpu.ir)], n);
    MappedPeeks(cpu.mem);
    if DecimalOperands(cpu, n) {
      var y: int, x: int := Addr(cpu.cpuType, cpu.dar[Ry(cpu.ir)]), Addr(cpu.cpuType, cpu.dar[Rx(cpu.ir)]);
      forall b: u32 | y - n <= b < y || x - n <= b < x ensures b in cpu.mem && Bcd(cpu.mem[b]) {
        assert Bcd(Peek(cpu.mem, b));
      }
    }
  }

  lemma MappedPeeks(m: Bytes)
    ensures forall b: u32 | b in m :: Peek(m, b) == m[b]
  {
  }

  /** The operands of step k are still the original bytes, and decimal. */
  lemma ByteOperands(cpu: Cpu, m0: Bytes, d0: Regs, y: nat, x: nat, n: nat, k: nat)
    requires k < n && Ry(cpu.ir) != Rx(cpu.ir) && cpu.dar == Stepped(d0, cpu.ir, k)
    requires y == TopOf(cpu.cpuType, d0[Ry(cpu.ir)], n) && x == TopOf(cpu.cpuType, d0[Rx(cpu.ir)], n)
    requires RoomBelow(cpu.cpuType, m0, d0[Ry(cpu.ir)], n) && RoomBelow(cpu.cpuType, m0, d0[Rx(cpu.ir)], n)
    requires (y <= x - n || x <= y - n) && AllBcd(m0, y, n) && AllBcd(m0, x, n) && ChangedBelow(m0, cpu.mem, x, k)
    ensures n <= y <= TWO32 && n <= x <= TWO32
    ensures Addr(cpu.cpuType, Wrap(cpu.dar[Ry(cpu.ir)] as int - 1)) == y - (k + 1)
    ensures Addr(cpu.cpuType, Wrap(cpu.dar[Rx(cpu.ir)] as int - 1)) == x - (k + 1)
    ensures Peek(cpu.mem, y - (k + 1)) == Peek(m0, y - (k + 1)) && Bcd(Peek(m0, y - (k + 1)))
    ensures Peek(cpu.mem, x - (k + 1)) == Peek(m0, x - (k + 1)) && Bcd(Peek(m0, x - (k + 1)))
    ensures var b: u32 := x - (k + 1); b in m0
  {
    hide Peek; hide Addr; hide Wrap; hide In; hide Bcd;
    WrapAdd(d0[Ry(cpu.ir)] as int - k, -1);
    WrapAdd(d0[Rx(cpu.ir)] as int - k, -1);
    TopBounds(cpu.cpuType, m0, d0[Ry(cpu.ir)], n);
    TopBounds(cpu.cpuType, m0, d0[Rx(cpu.ir)], n);
    BlockAddress(cpu.cpuType, d0[Ry(cpu.ir)], n, k + 1);
    BlockAddress(cpu.cpuType, d0[Rx(cpu.ir)], n, k + 1);
    InBlock(x - (k + 1), x - n, n);
  }

  lemma ChainFrame(add: bool, m0: Bytes, m: Bytes, y: nat, x: nat, k: nat, x0: nat, carry: nat, z0: u32, z: u32)
    requires Chained(add, m0, m, y, x, k, x0, carry, z0, z)
    ensures ChangedBelow(m0, m, x, k)
  {
  }

  /** What a chain leaves is the whole decimal sum or difference modulo 100^n, and X its carry or borrow. */
  lemma ChainIsExact(add: bool, m0: Bytes, m: Bytes, y: nat, x: nat, n: nat, x0: nat, carry: nat, z0: u32, z: u32)
    requires Chained(add, m0, m, y, x, n, x0, carry, z0, z) && carry <= 1
    ensures var exact := Combine(add, DecimalNumber(m0, x, n), DecimalNumber(m0, y, n) + x0);
      && DecimalNumber(m, x, n) == exact % Pow100(n)
      && (add ==> carry == exact / Pow100(n)) && (!add ==> (carry == 1 <==> exact < 0))
  {
    hide DecimalNumber; hide ChangedBelow; hide Pow100; hide AllBcd;
    DecimalBound(m, x, n);
    SplitExact(add, DecimalNumber(m, x, n), carry, Pow100(n),
               Combine(add, DecimalNumber(m0, x, n), DecimalNumber(m0, y, n) + x0));
  }

  /** One step of a chain, on decimal operands. */
  method DecimalMm(cpu: Cpu, add: bool) returns (ghost res: u8)
    requires Bcd(Peek(cpu.mem, Addr(cpu.cpuType, Wrap(cpu.dar[Ry(cpu.ir)] as int - 1)))) && Ry(cpu.ir) != Rx(cpu.ir)
    requires Bcd(Peek(cpu.mem, Addr(cpu.cpuType, Wrap(cpu.dar[Rx(cpu.ir)] as int - 1))))
    modifies cpu`dar, cpu`mem, cpu`x, cpu`n, cpu`notZ, cpu`v, cpu`c
    ensures cpu.dar == Predecremented(old(cpu.dar), cpu.ir, 1) && cpu.c == cpu.x
    ensures var src := old(Peek(cpu.mem, Addr(cpu.cpuType, Wrap(cpu.dar[Ry(cpu.ir)] as int - 1))));
      var ea := Addr(cpu.cpuType, Wrap(old(cpu.dar)[Rx(cpu.ir)] as int - 1));
      && cpu.mem == Poke(old(cpu.mem), ea, res) && (cpu.notZ == 0 <==> old(cpu.notZ) == 0 && res == 0)
      && Bcd(res) && (res == 0 <==> Digits(res) == 0)
      && Combine(add, Digits(Peek(old(cpu.mem), ea)), Digits(src) + old(cpu.XBit()))
         == Combine(add, Digits(res), 100 * cpu.XBit())
  {
    hide Peek; hide Poke; hide Wrap; hide Addr; hide Bcd; hide Digits; hide DecimalResult; hide DecimalCarry;
    ghost var m, x := cpu.mem, cpu.XBit();
    if add {
      AbcdMm(cpu);
    } else {
      SbcdMm(cpu);
    }
    ghost var src := Peek(m, Addr(cpu.cpuType, Wrap(old(cpu.dar)[Ry(cpu.ir)] as int - 1)));
    ghost var ea := Addr(cpu.cpuType, Wrap(old(cpu.dar)[Rx(cpu.ir)] as int - 1));
    res := DecimalResult(add, src, Peek(m, ea), x);
  }

  /** n steps of ABCD (add) or SBCD on valid strings: exact decimal addition or subtraction. */
  method DecimalChain(cpu: Cpu, n: nat, add: bool)
    requires DecimalOperands(cpu, n)
    modifies cpu`dar, cpu`mem, cpu`x, cpu`n, cpu`notZ, cpu`v, cpu`c
    ensures cpu.dar == Stepped(old(cpu.dar), cpu.ir, n)
    ensures Chained(add, old(cpu.mem), cpu.mem, TopOf(cpu.cpuType, old(cpu.dar)[Ry(cpu.ir)], n),
                    TopOf(cpu.cpuType, old(cpu.dar)[Rx(cpu.ir)], n), n,
                    old(cpu.XBit()), cpu.XBit(), old(cpu.notZ), cpu.notZ)
    ensures n > 0 ==> cpu.c == cpu.x
  {
    hide Peek; hide Poke; hide Wrap; hide Addr; hide Chained; hide ChangedBelow; hide DecimalNumber;
    hide AllBcd; hide Bcd;
    hide Digits; hide Pow100; hide Stepped; hide TopOf; hide RoomBelow;
    ghost var m0, d0, x0, z0 := cpu.mem, cpu.dar, cpu.XBit(), cpu.notZ;
    ghost var y, x := TopOf(cpu.cpuType, d0[Ry(cpu.ir)], n), TopOf(cpu.cpuType, d0[Rx(cpu.ir)], n);
    SteppedZero(d0, cpu.ir);
    TopBounds(cpu.cpuType, m0, d0[Ry(cpu.ir)], n);
    TopBounds(cpu.cpuType, m0, d0[Rx(cpu.ir)], n);
    ChainStart(add, m0, y, x, x0, z0);
    for k := 0 to n
      invariant cpu.dar == Stepped(d0, cpu.ir, k)
      invariant Chained(add, m0, cpu.mem, y, x, k, x0, cpu.XBit(), z0, cpu.notZ)
      invariant k > 0 ==> cpu.c == cpu.x
    {
      ghost var m1, x1, z1 := cpu.mem, cpu.XBit(), cpu.notZ;
      ChainFrame(add, m0, m1, y, x, k, x0, x1, z0, z1);
      ByteOperands(cpu, m0, d0, y, x, n, k);
      ghost var res := DecimalMm(cpu, add);
      StepOnce(d0, cpu.ir, k, 1);
      ChainStep(add, m0, m1, y, x, k, x0, x1, z0, z1, res, cpu.XBit(), cpu.notZ);
    }
  }
}
