/** ADDX.L -(Ay),-(Ax) and SUBX.L -(Ay),-(Ax): one limb of a multi-precision addition or subtraction,
and what chains of them compute (Musashi/m68k_in.c). */
module MultiPrecision {
  import opened Words
  import opened FlatMemory
  import opened M68k
  import opened Blocks
  import opened Flags
  import opened LongArithmetic

  // ------------------------------------------------------------------ numbers in memory

  /** The big-endian number in the n longs that end just below address top. */
  function Number(mem: Bytes, top: nat, n: nat): nat
    requires 4 * n <= top <= TWO32
  {
    hide Read32; hide Pow2;
    if n == 0 then 0
    else Number(mem, top, n - 1) + Read32(mem, top - 4 * n) * Pow2(32 * (n - 1))
  }

  lemma NextLimbWeight(n: nat)
    ensures Pow2(32 * (n + 1)) == TWO32 * Pow2(32 * n)
  {
    Pow2Sum(32, 32 * n);
    Pow2Values();
  }

  lemma {:induction false} NumberBound(mem: Bytes, top: nat, n: nat)
    requires 4 * n <= top <= TWO32
    ensures Number(mem, top, n) < Pow2(32 * n)
  {
    if n > 0 {
      NumberBound(mem, top, n - 1);
      NextLimbWeight(n - 1);
      var w, p := Read32(mem, top - 4 * n), Pow2(32 * (n - 1));
      MulMonotonic(w, TWO32 - 1, p);
    } else {
      assert Pow2(0) == 1;
    }
  }

  lemma {:induction false} NumberSame(m: Bytes, m': Bytes, top: nat, n: nat)
    requires 4 * n <= top <= TWO32 && SameRange(m, m', top - 4 * n, top)
    ensures Number(m, top, n) == Number(m', top, n)
  {
    if n > 0 {
      NumberSame(m, m', top, n - 1);
      SameLong(m, m', top - 4 * n);
    }
  }

  /** Limb k of the number is the k-th long below the top. */
  lemma {:induction false} NumberLimb(mem: Bytes, top: nat, n: nat, k: nat)
    requires 4 * n <= top <= TWO32 && 1 <= k <= n
    ensures Number(mem, top, n) / Pow2(32 * (k - 1)) % 0x1_0000_0000 == Read32(mem, top - 4 * k)
  {
    hide Read32; hide Pow2;
    var low, w, p := Number(mem, top, n - 1), Read32(mem, top - 4 * n), Pow2(32 * (n - 1));
    NumberBound(mem, top, n - 1);
    if k == n {
      DivUnique(w * p + low, p, w, low);
      SmallMod(w, TWO32);
    } else {
      NumberLimb(mem, top, n - 1, k);
      Pow2Sum(32 * (n - 1 - k), 32 * k);
      NextLimbWeight(k - 1);
      LimbBelow(TWO32, low, w, Pow2(32 * (n - 1 - k)), Pow2(32 * (k - 1)));
    }
  }

  /** Limbs are determined by the number. */
  lemma {:induction false} NumberInjective(m: Bytes, m': Bytes, top: nat, n: nat, k: nat)
    requires 4 * n <= top <= TWO32 && Number(m, top, n) == Number(m', top, n) && 1 <= k <= n
    ensures Read32(m, top - 4 * k) == Read32(m', top - 4 * k)
  {
    NumberBound(m, top, n - 1);
    NumberBound(m', top, n - 1);
    var p := Pow2(32 * (n - 1));
    DivUnique(Number(m, top, n), p, Read32(m, top - 4 * n), Number(m, top, n - 1));
    DivUnique(Number(m', top, n), p, Read32(m', top - 4 * n), Number(m', top, n - 1));
    if k < n {
      NumberInjective(m, m', top, n - 1, k);
    }
  }

  /** A long determines its bytes. */
  lemma Read32Bytes(m: Bytes, m': Bytes, a: u32)
    requires a + 4 <= TWO32 && Read32(m, a) == Read32(m', a)
    ensures SameRange(m, m', a, a + 4)
  {
    hide Peek;
    var b0, b1, b2, b3 := Peek(m, a), Peek(m, a + 1), Peek(m, a + 2), Peek(m, a + 3);
    var c0, c1, c2, c3 := Peek(m', a), Peek(m', a + 1), Peek(m', a + 2), Peek(m', a + 3);
    FourDigits(b0, b1, b2, b3, c0, c1, c2, c3);
    assert Wrap(a + 1) == a + 1 && Wrap(a + 2) == a + 2 && Wrap(a + 3) == a + 3;
    forall b: u32 | a <= b < a + 4
      ensures Peek(m, b) == Peek(m', b)
    {
      assert b == a || b == a + 1 || b == a + 2 || b == a + 3;
    }
  }

  lemma FourDigits(b0: u8, b1: u8, b2: u8, b3: u8, c0: u8, c1: u8, c2: u8, c3: u8)
    ensures ((b0 * 0x100 + b1) * 0x100 + b2) * 0x100 + b3 == ((c0 * 0x100 + c1) * 0x100 + c2) * 0x100 + c3
            ==> b0 == c0 && b1 == c1 && b2 == c2 && b3 == c3
  {
  }

  // ------------------------------------------------------------------ one limb

  method AddxMm32(cpu: Cpu)
    modifies cpu`dar, cpu`mem, cpu`x, cpu`n, cpu`notZ, cpu`v, cpu`c
    ensures cpu.dar == Predecremented(old(cpu.dar), cpu.ir, 4)
    ensures
      var y, x := 8 + cpu.ir % 8, 8 + cpu.ir / 0x200 % 8;
      var src, ea := old(Read32(cpu.mem, Addr(cpu.cpuType, Wrap(cpu.dar[y] as int - 4)))), cpu.dar[x];
      var dst := Read32(old(cpu.mem), Addr(cpu.cpuType, ea));
      var res := Wrap(src as int + dst + old(cpu.XBit()));
      && cpu.mem == Write32(old(cpu.mem), Addr(cpu.cpuType, ea), res)
      && cpu.XBit() == (src as int + dst + old(cpu.XBit())) / TWO32 && cpu.c == cpu.x
      && (cpu.notZ == 0 <==> old(cpu.notZ) == 0 && res == 0)
      && cpu.n / 0x80 % 2 == B2N(Msb32(res))
      && (cpu.v / 0x80 % 2 == 1 <==> !(-TWO31 <= Signed(src) + Signed(dst) + old(cpu.XBit()) < TWO31))
  {
    hide Read32; hide Write32; hide Addr; hide CflagAdd32; hide VflagAdd32; hide Or; hide Wrap; hide Signed;
    hide Msb32;
    cpu.dar := cpu.dar[Ry(cpu.ir) := Wrap(cpu.dar[Ry(cpu.ir)] as int - 4)];
    var src := Read32(cpu.mem, Addr(cpu.cpuType, cpu.dar[Ry(cpu.ir)]));
    cpu.dar := cpu.dar[Rx(cpu.ir) := Wrap(cpu.dar[Rx(cpu.ir)] as int - 4)];
    var ea := cpu.dar[Rx(cpu.ir)];
    var dst := Read32(cpu.mem, Addr(cpu.cpuType, ea));
    var res := Wrap(src as int + dst + cpu.XBit());

    CarryOfAdd(src, dst, cpu.XBit());
    cpu.n := res / 0x100_0000;
    TopShifted(res);
    cpu.v := VflagAdd32(src, dst, res);
    cpu.x := CflagAdd32(src, dst, res);
    cpu.c := cpu.x;
    OrIsZero(cpu.notZ, res);
    cpu.notZ := Or(cpu.notZ, res);
    cpu.mem := Write32(cpu.mem, Addr(cpu.cpuType, ea), res);
  }

  method SubxMm32(cpu: Cpu)
    modifies cpu`dar, cpu`mem, cpu`x, cpu`n, cpu`notZ, cpu`v, cpu`c
    ensures cpu.dar == Predecremented(old(cpu.dar), cpu.ir, 4)
    ensures
      var y, x := 8 + cpu.ir % 8, 8 + cpu.ir / 0x200 % 8;
      var src, ea := old(Read32(cpu.mem, Addr(cpu.cpuType, Wrap(cpu.dar[y] as int - 4)))), cpu.dar[x];
      var dst := Read32(old(cpu.mem), Addr(cpu.cpuType, ea));
      var res := Wrap(dst as int - src - old(cpu.XBit()));
      && cpu.mem == Write32(old(cpu.mem), Addr(cpu.cpuType, ea), res)
      && cpu.XBit() == B2N(dst as int - src - old(cpu.XBit()) < 0) && cpu.c == cpu.x
      && (cpu.notZ == 0 <==> old(cpu.notZ) == 0 && res == 0)
      && cpu.n / 0x80 % 2 == B2N(Msb32(res))
      && (cpu.v / 0x80 % 2 == 1 <==> !(-TWO31 <= Signed(dst) - Signed(src) - old(cpu.XBit()) < TWO31))
  {
    hide Read32; hide Write32; hide Addr; hide CflagSub32; hide VflagSub32; hide Or; hide Wrap; hide Signed;
    hide Msb32;
    cpu.dar := cpu.dar[Ry(cpu.ir) := Wrap(cpu.dar[Ry(cpu.ir)] as int - 4)];
    var src := Read32(cpu.mem, Addr(cpu.cpuType, cpu.dar[Ry(cpu.ir)]));
    cpu.dar := cpu.dar[Rx(cpu.ir) := Wrap(cpu.dar[Rx(cpu.ir)] as int - 4)];
    var ea := cpu.dar[Rx(cpu.ir)];
    var dst := Read32(cpu.mem, Addr(cpu.cpuType, ea));
    var res := Wrap(dst as int - src - cpu.XBit());

    BorrowOfSub(src, dst, cpu.XBit());
    cpu.n := res / 0x100_0000;
    TopShifted(res);
    cpu.x := CflagSub32(src, dst, res);
    cpu.c := cpu.x;
    cpu.v := VflagSub32(src, dst, res);
    OrIsZero(cpu.notZ, res);
    cpu.notZ := Or(cpu.notZ, res);
    cpu.mem := Write32(cpu.mem, Addr(cpu.cpuType, ea), res);
  }

  // ------------------------------------------------------------------ chains

  /** The addresses just above the two numbers of n longs that a chain works on. */
  function SourceTop(cpu: Cpu, n: nat): nat
    reads cpu`dar, cpu`ir
  {
    TopOf(cpu.cpuType, cpu.dar[Ry(cpu.ir)], 4 * n)
  }

  function DestTop(cpu: Cpu, n: nat): nat
    reads cpu`dar, cpu`ir
  {
    TopOf(cpu.cpuType, cpu.dar[Rx(cpu.ir)], 4 * n)
  }

  /** Two disjoint numbers of n longs each, accessible and not wrapping, below Ay and Ax. */
  ghost predicate Operands(cpu: Cpu, n: nat)
    reads cpu
  {
    var t, y, x := cpu.cpuType, cpu.dar[Ry(cpu.ir)], cpu.dar[Rx(cpu.ir)];
    && Ry(cpu.ir) != Rx(cpu.ir)
    && RoomBelow(t, cpu.mem, y, 4 * n) && RoomBelow(t, cpu.mem, x, 4 * n)
    && (TopOf(t, y, 4 * n) <= TopOf(t, x, 4 * n) - 4 * n || TopOf(t, x, 4 * n) <= TopOf(t, y, 4 * n) - 4 * n)
  }

  /** Pointers that are far enough into the address space: both numbers are mapped, and they do not overlap. */
  lemma OperandsMeaning(cpu: Cpu, n: nat)
    requires 4 * n <= Addr(cpu.cpuType, cpu.dar[Ry(cpu.ir)]) && 4 * n <= Addr(cpu.cpuType, cpu.dar[Rx(cpu.ir)])
    ensures var y: int, x: int := Addr(cpu.cpuType, cpu.dar[Ry(cpu.ir)]), Addr(cpu.cpuType, cpu.dar[Rx(cpu.ir)]);
      Operands(cpu, n) <==>
        && Ry(cpu.ir) != Rx(cpu.ir) && (forall b: u32 | y - 4 * n <= b < y || x - 4 * n <= b < x :: b in cpu.mem)
        && (y <= x - 4 * n || x <= y - 4 * n)
  {
    hide Addr; hide RoomBelow; hide TopOf;
    RoomMeaning(cpu.cpuType, cpu.mem, cpu.dar[Ry(cpu.ir)], 4 * n);
    RoomMeaning(cpu.cpuType, cpu.mem, cpu.dar[Rx(cpu.ir)], 4 * n);
    TopMeaning(cpu.cpuType, cpu.dar[Ry(cpu.ir)], 4 * n);
    TopMeaning(cpu.cpuType, cpu.dar[Rx(cpu.ir)], 4 * n);
  }

  /** Writing limb k + 1 puts it on top of the number written so far. */
  lemma LimbWritten(m0: Bytes, m: Bytes, top: nat, k: nat, res: u32)
    requires 4 * (k + 1) <= top <= TWO32 && ChangedBelow(m0, m, top, 4 * k)
    requires forall b: u32 | top - 4 * (k + 1) <= b < top :: b in m0
    ensures var m' := Write32(m, top - 4 * (k + 1), res);
      ChangedBelow(m0, m', top, 4 * (k + 1)) && Number(m', top, k + 1) == Number(m, top, k) + res * Pow2(32 * k)
  {
    hide Write32; hide Read32;
    WriteNext(m0, m, top, k, res);
    NumberSame(m, Write32(m, top - 4 * (k + 1), res), top, k);
  }

  /** After k steps of a chain: the low k limbs below x hold the sum or difference of the low k limbs
      of the operands, less what the carry or borrow stands for; Z is set if it was set before and the
      stored number is zero; all other bytes are unchanged. */
  ghost predicate Chained(add: bool, m0: Bytes, m: Bytes, y: nat, x: nat, k: nat, x0: nat, carry: nat, z0: u32, z: u32) {
    && 4 * k <= y <= TWO32 && 4 * k <= x <= TWO32
    && ChangedBelow(m0, m, x, 4 * k)
    && Combine(add, Number(m, x, k), Pow2(32 * k) * carry) == Combine(add, Number(m0, x, k), Number(m0, y, k) + x0)
    && (z == 0 <==> z0 == 0 && Number(m, x, k) == 0)
  }

  lemma ChainStart(add: bool, m0: Bytes, y: nat, x: nat, x0: nat, z0: u32)
    requires y <= TWO32 && x <= TWO32
    ensures Chained(add, m0, m0, y, x, 0, x0, x0, z0, z0)
  {
    assert Pow2(0) == 1;
  }

  lemma ChainStep(add: bool, m0: Bytes, m: Bytes, y: nat, x: nat, k: nat, x0: nat, carry: nat, z0: u32, z: u32,
                     src: u32, dst: u32, res: u32, carry': nat, z': u32)
    requires Chained(add, m0, m, y, x, k, x0, carry, z0, z) && 4 * (k + 1) <= y && 4 * (k + 1) <= x
    requires forall b: u32 | x - 4 * (k + 1) <= b < x :: b in m0
    requires src == Read32(m0, y - 4 * (k + 1)) && dst == Read32(m0, x - 4 * (k + 1))
    requires Combine(add, dst, src as int + carry) == Combine(add, res, TWO32 * carry')
    requires z' == 0 <==> z == 0 && res == 0
    ensures Chained(add, m0, Write32(m, x - 4 * (k + 1), res), y, x, k + 1, x0, carry', z0, z')
  {
    hide Read32; hide Write32; hide ChangedBelow;
    LimbWritten(m0, m, x, k, res);
    NextLimbWeight(k);
    var p := Pow2(32 * k);
    DigitProducts(add, TWO32, dst, src, carry, res, carry', p);
    SumIsZero(Number(m, x, k), res, p);
  }

  /** n steps of ADDX.L -(Ay),-(Ax): the whole sum modulo 2^(32n) at Ax, the carry in X and C, and Z
      set exactly if it was set before and the stored sum is zero. */
  method AddxChain(cpu: Cpu, n: nat)
    requires Operands(cpu, n)
    modifies cpu`dar, cpu`mem, cpu`x, cpu`n, cpu`notZ, cpu`v, cpu`c
    ensures cpu.dar == Stepped(old(cpu.dar), cpu.ir, 4 * n)
    ensures Chained(true, old(cpu.mem), cpu.mem, old(SourceTop(cpu, n)), old(DestTop(cpu, n)), n,
                    old(cpu.XBit()), cpu.XBit(), old(cpu.notZ), cpu.notZ)
    ensures n > 0 ==> cpu.c == cpu.x
  {
    hide Read32; hide Write32; hide Wrap; hide Addr; hide Signed; hide Msb32; hide Chained; hide ChangedBelow;
    hide Number;
    hide Pow2; hide Stepped; hide TopOf; hide RoomBelow;
    ghost var t, m0, d0, x0, z0 := cpu.cpuType, cpu.mem, cpu.dar, cpu.XBit(), cpu.notZ;
    ghost var y, x := TopOf(t, d0[Ry(cpu.ir)], 4 * n), TopOf(t, d0[Rx(cpu.ir)], 4 * n);
    SteppedZero(d0, cpu.ir);
    TopBounds(t, m0, d0[Ry(cpu.ir)], 4 * n);
    TopBounds(t, m0, d0[Rx(cpu.ir)], 4 * n);
    ChainStart(true, m0, y, x, x0, z0);
    for k := 0 to n
      invariant cpu.dar == Stepped(d0, cpu.ir, 4 * k)
      invariant Chained(true, m0, cpu.mem, y, x, k, x0, cpu.XBit(), z0, cpu.notZ)
      invariant k > 0 ==> cpu.c == cpu.x
    {
      ghost var m1, x1, z1 := cpu.mem, cpu.XBit(), cpu.notZ;
      LimbOperands(cpu, t, m0, d0, n, k);
      AddxMm32(cpu);
      StepOnce(d0, cpu.ir, 4 * k, 4);
      ghost var src, dst := Read32(m0, y - 4 * (k + 1)), Read32(m0, x - 4 * (k + 1));
      WrapSum(src as int + dst + x1);
      ChainStep(true, m0, m1, y, x, k, x0, x1, z0, z1, src, dst, Wrap(src as int + dst + x1), cpu.XBit(), cpu.notZ);
    }
  }

  /** n steps of SUBX.L -(Ay),-(Ax): the whole difference modulo 2^(32n) at Ax, the borrow in X and C. */
  method SubxChain(cpu: Cpu, n: nat)
    requires Operands(cpu, n)
    modifies cpu`dar, cpu`mem, cpu`x, cpu`n, cpu`notZ, cpu`v, cpu`c
    ensures cpu.dar == Stepped(old(cpu.dar), cpu.ir, 4 * n)
    ensures Chained(false, old(cpu.mem), cpu.mem, old(SourceTop(cpu, n)), old(DestTop(cpu, n)), n,
                    old(cpu.XBit()), cpu.XBit(), old(cpu.notZ), cpu.notZ)
    ensures n > 0 ==> cpu.c == cpu.x
  {
    hide Read32; hide Write32; hide Wrap; hide Addr; hide Signed; hide Msb32; hide Chained; hide ChangedBelow;
    hide Number;
    hide Pow2; hide Stepped; hide TopOf; hide RoomBelow;
    ghost var t, m0, d0, x0, z0 := cpu.cpuType, cpu.mem, cpu.dar, cpu.XBit(), cpu.notZ;
    ghost var y, x := TopOf(t, d0[Ry(cpu.ir)], 4 * n), TopOf(t, d0[Rx(cpu.ir)], 4 * n);
    SteppedZero(d0, cpu.ir);
    TopBounds(t, m0, d0[Ry(cpu.ir)], 4 * n);
    TopBounds(t, m0, d0[Rx(cpu.ir)], 4 * n);
    ChainStart(false, m0, y, x, x0, z0);
    for k := 0 to n
      invariant cpu.dar == Stepped(d0, cpu.ir, 4 * k)
      invariant Chained(false, m0, cpu.mem, y, x, k, x0, cpu.XBit(), z0, cpu.notZ)
      invariant k > 0 ==> cpu.c == cpu.x
    {
      ghost var m1, x1, z1 := cpu.mem, cpu.XBit(), cpu.notZ;
      LimbOperands(cpu, t, m0, d0, n, k);
      SubxMm32(cpu);
      StepOnce(d0, cpu.ir, 4 * k, 4);
      ghost var src, dst := Read32(m0, y - 4 * (k + 1)), Read32(m0, x - 4 * (k + 1));
      WrapDifference(dst as int - src - x1);
      ChainStep(false, m0, m1, y, x, k, x0, x1, z0, z1, src, dst, Wrap(dst as int - src - x1), cpu.XBit(), cpu.notZ);
    }
  }

  lemma WrapDifference(a: int)
    requires -TWO32 <= a < TWO32
    ensures a == Wrap(a) - TWO32 * B2N(a < 0)
  {
  }

  lemma ChainMeaning(add: bool, m0: Bytes, m: Bytes, y: nat, x: nat, k: nat, x0: nat, carry: nat, z0: u32, z: u32)
    requires Chained(add, m0, m, y, x, k, x0, carry, z0, z)
    ensures 4 * k <= y <= TWO32 && 4 * k <= x <= TWO32
    ensures ChangedBelow(m0, m, x, 4 * k) && (z == 0 <==> z0 == 0 && Number(m, x, k) == 0)
    ensures add ==> Number(m, x, k) + Pow2(32 * k) * carry == Number(m0, x, k) + Number(m0, y, k) + x0
    ensures !add ==> Number(m, x, k) - Pow2(32 * k) * carry == Number(m0, x, k) - Number(m0, y, k) - x0
  {
    hide ChangedBelow; hide Number; hide Pow2;
  }

  lemma WrapSum(a: nat)
    ensures a == Wrap(a) + TWO32 * (a / TWO32)
  {
  }

  /** The operands of step k are still the original limbs. */
  lemma LimbOperands(cpu: Cpu, t: CpuType, m0: Bytes, d0: Regs, n: nat, k: nat)
    requires k < n && Ry(cpu.ir) != Rx(cpu.ir) && t == cpu.cpuType && cpu.dar == Stepped(d0, cpu.ir, 4 * k)
    requires RoomBelow(t, m0, d0[Ry(cpu.ir)], 4 * n) && RoomBelow(t, m0, d0[Rx(cpu.ir)], 4 * n)
    requires var y, x := TopOf(t, d0[Ry(cpu.ir)], 4 * n), TopOf(t, d0[Rx(cpu.ir)], 4 * n);
      && (y <= x - 4 * n || x <= y - 4 * n)
      && exists add: bool, x0: nat, c: nat, z0: u32, z: u32 :: Chained(add, m0, cpu.mem, y, x, k, x0, c, z0, z)
    ensures var y, x := TopOf(t, d0[Ry(cpu.ir)], 4 * n), TopOf(t, d0[Rx(cpu.ir)], 4 * n);
      && Addr(t, Wrap(cpu.dar[Ry(cpu.ir)] as int - 4)) == y - 4 * (k + 1)
      && Addr(t, Wrap(cpu.dar[Rx(cpu.ir)] as int - 4)) == x - 4 * (k + 1)
      && Read32(cpu.mem, y - 4 * (k + 1)) == Read32(m0, y - 4 * (k + 1))
      && Read32(cpu.mem, x - 4 * (k + 1)) == Read32(m0, x - 4 * (k + 1))
      && (forall b: u32 | x - 4 * n <= b < x :: b in m0)
  {
    hide Read32; hide Addr; hide Wrap; hide In;
    var y, x := TopOf(t, d0[Ry(cpu.ir)], 4 * n), TopOf(t, d0[Rx(cpu.ir)], 4 * n);
    WrapAdd(d0[Ry(cpu.ir)] as int - 4 * k, -4);
    WrapAdd(d0[Rx(cpu.ir)] as int - 4 * k, -4);
    BlockAddress(t, d0[Ry(cpu.ir)], 4 * n, 4 * (k + 1));
    BlockAddress(t, d0[Rx(cpu.ir)], 4 * n, 4 * (k + 1));
    SameLong(m0, cpu.mem, y - 4 * (k + 1));
    SameLong(m0, cpu.mem, x - 4 * (k + 1));
    forall b: u32 | x - 4 * n <= b < x ensures b in m0 { InBlock(b, x - 4 * n, 4 * n); }
  }

  /** What a chain leaves is the whole sum or difference modulo 2^(32n), and X its carry or borrow. */
  lemma ChainIsExact(add: bool, m0: Bytes, m: Bytes, y: nat, x: nat, n: nat, x0: nat, carry: nat, z0: u32, z: u32)
    requires Chained(add, m0, m, y, x, n, x0, carry, z0, z) && carry <= 1
    ensures var exact := Combine(add, Number(m0, x, n), Number(m0, y, n) + x0);
      && Number(m, x, n) == exact % Pow2(32 * n)
      && (add ==> carry == exact / Pow2(32 * n)) && (!add ==> (carry == 1 <==> exact < 0))
  {
    hide Number; hide ChangedBelow; hide Pow2;
    NumberBound(m, x, n);
    SplitExact(add, Number(m, x, n), carry, Pow2(32 * n), Combine(add, Number(m0, x, n), Number(m0, y, n) + x0));
  }

  /** Memory outside the written longs is unchanged, and so are the longs that hold the same number. */
  lemma SameNumberSameMemory(m: Bytes, m': Bytes, top: nat, n: nat)
    requires 4 * n <= top <= TWO32 && ChangedBelow(m, m', top, 4 * n) && Number(m, top, n) == Number(m', top, n)
    ensures m == m'
  {
    forall b: u32 | top - 4 * n <= b < top
      ensures Peek(m, b) == Peek(m', b)
    {
      var k := (top - b + 3) / 4;
      NumberInjective(m, m', top, n, k);
      Read32Bytes(m, m', top - 4 * k);
    }
    forall b: u32 | b in m
      ensures m[b] == m'[b]
    {
      assert Peek(m, b) == Peek(m', b);
    }
  }

  lemma SourceUntouched(m: Bytes, m': Bytes, x: nat, y: nat, n: nat)
    requires ChangedBelow(m, m', x, 4 * n) && 4 * n <= y <= TWO32 && (y <= x - 4 * n || x <= y - 4 * n)
    ensures m.Keys == m'.Keys && Number(m', y, n) == Number(m, y, n)
  {
    NumberSame(m, m', y, n);
  }

  /** A subtraction chain from the same start, with the same X, undoes an addition chain: memory is as
      before and X holds the carry of the addition as a borrow. */
  method AddThenSubtract(cpu: Cpu, n: nat)
    requires Operands(cpu, n)
    modifies cpu`dar, cpu`mem, cpu`x, cpu`n, cpu`notZ, cpu`v, cpu`c
    ensures cpu.mem == old(cpu.mem)
    ensures var y, x := old(SourceTop(cpu, n)), old(DestTop(cpu, n));
      && 4 * n <= y <= TWO32 && 4 * n <= x <= TWO32
      && cpu.XBit() == (Number(old(cpu.mem), x, n) + Number(old(cpu.mem), y, n) + old(cpu.XBit())) / Pow2(32 * n)
  {
    hide Number; hide Pow2; hide Stepped; hide TopOf; hide ChangedBelow; hide RoomBelow; hide Chained;
    ghost var t, m0, x0, n' := cpu.cpuType, cpu.mem, cpu.XBit(), 4 * n;
    ghost var ry, rx := cpu.dar[Ry(cpu.ir)], cpu.dar[Rx(cpu.ir)];
    ghost var y, x := TopOf(t, ry, n'), TopOf(t, rx, n');
    TopBounds(t, m0, ry, n');
    TopBounds(t, m0, rx, n');
    var dar, xFlag := cpu.dar, cpu.x;
    AddxChain(cpu, n);
    ghost var m1, c1 := cpu.mem, cpu.XBit();
    ChainMeaning(true, m0, m1, y, x, n, x0, c1, old(cpu.notZ), cpu.notZ);
    cpu.dar, cpu.x := dar, xFlag;
    SourceUntouched(m0, m1, x, y, n);
    RoomSameKeys(t, m0, m1, ry, n');
    RoomSameKeys(t, m0, m1, rx, n');
    ghost var z1 := cpu.notZ;
    SubxChain(cpu, n);
    ChainMeaning(false, m1, cpu.mem, y, x, n, x0, cpu.XBit(), z1, cpu.notZ);
    ChangedTwice(m0, m1, cpu.mem, x, 4 * n);
    NumberBound(m0, x, n);
    NumberBound(m1, x, n);
    NumberBound(cpu.mem, x, n);
    SameAfterCarry(Number(cpu.mem, x, n), Number(m0, x, n), cpu.XBit(), c1, Pow2(32 * n));
    SameNumberSameMemory(m0, cpu.mem, x, n);
    DivUnique(Number(m0, x, n) + Number(m0, y, n) + x0, Pow2(32 * n), c1, Number(m1, x, n));
  }
}
