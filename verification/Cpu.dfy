/** The CPU core: registers, flags, stack banks, the status register and exception entry
(Musashi/m68kcpu.h), over the flat memory of module FlatMemory. */
module M68k {
  import opened Words
  import opened FlatMemory

  datatype CpuType = M68000 | M68010 | M68EC020 | M68020

  type Regs = s: seq<u32> | |s| == 16 witness seq(16, _ => 0)
  type SpBase = s: seq<u32> | |s| == 7 witness seq(7, _ => 0)
  type SFlag = x: int | x == 0 || x == 4
  type MFlag = x: int | x == 0 || x == 2
  type T1Flag = x: int | x == 0 || x == 0x8000
  type T0Flag = x: int | x == 0 || x == 0x4000
  type Ipl = x: int | 0 <= x <= 0x700 && x % 0x100 == 0
  type Vector = x: int | 0 <= x < 0x100

  const EXCEPTION_ILLEGAL_INSTRUCTION := 4
  const EXCEPTION_ZERO_DIVIDE := 5
  const EXCEPTION_PRIVILEGE_VIOLATION := 8
  const EXCEPTION_FORMAT_ERROR := 14
  const EXCEPTION_UNINITIALIZED_INTERRUPT := 15
  const EXCEPTION_INTERRUPT_AUTOVECTOR := 24

  /** The three logical stack pointers. */
  datatype Stacks = Stacks(usp: u32, isp: u32, msp: u32) {
    function Active(s: SFlag, m: MFlag): u32 {
      if s == 0 then usp else if m == 0 then isp else msp
    }

    function WithActive(s: SFlag, m: MFlag, v: u32): Stacks {
      if s == 0 then this.(usp := v) else if m == 0 then this.(isp := v) else this.(msp := v)
    }
  }

  function AddressSpaceSize(t: CpuType): nat {
    if t == M68020 then TWO32 else 0x100_0000
  }

  /** ADDRESS_68K: the address lines the CPU type has. */
  function Addr(t: CpuType, a: u32): u32 {
    if t == M68020 then a else a % 0x100_0000
  }

  predicate Ec020Plus(t: CpuType) {
    t == M68EC020 || t == M68020
  }

  /** All types but the 68020 have 24 address lines; T0, M and the instructions of the 68020 are those of it
      and of the EC020. */
  lemma Variants(high: nat, low: nat)
    requires high < 0x100 && low < 0x100_0000
    ensures var a: u32 := high * 0x100_0000 + low;
      && Addr(M68000, a) == Addr(M68010, a) == Addr(M68EC020, a) == low && Addr(M68020, a) == a
    ensures !Ec020Plus(M68000) && !Ec020Plus(M68010) && Ec020Plus(M68EC020) && Ec020Plus(M68020)
    ensures forall t: CpuType, a: u32 :: Addr(t, a) < AddressSpaceSize(t)
  {
  }

  /** The n bytes below the pointer sp are accessible and do not wrap around the address space. */
  ghost predicate RoomBelow(t: CpuType, mem: Bytes, sp: u32, n: nat) {
    var low := Addr(t, Wrap(sp - n));
    low + n <= AddressSpaceSize(t) && Mapped(mem, low, n)
  }

  /** For a pointer at least n into the address space this means that those bytes are mapped. */
  lemma RoomMeaning(t: CpuType, mem: Bytes, sp: u32, n: nat)
    requires n <= Addr(t, sp)
    ensures RoomBelow(t, mem, sp, n) <==> forall b: u32 | Addr(t, sp) as int - n <= b < Addr(t, sp) :: b in mem
  {
    hide Wrap; hide In;
    LowEnd(t, sp, n);
    var low: u32 := Addr(t, sp) as int - n;
    forall b: u32 ensures In(b, low, n) <==> low <= b < low + n { InRange(b, low, n); }
  }

  lemma LowEnd(t: CpuType, sp: u32, n: nat)
    requires n <= Addr(t, sp)
    ensures Addr(t, Wrap(sp as int - n)) as int == Addr(t, sp) as int - n
  {
  }

  /** Bit p of v in place, for a power of two p: v & p. */
  function BitAt(v: u32, p: nat): nat
    requires p > 0
  {
    v / p % 2 * p
  }

  /** w & CPU_SR_MASK.  The mask 0xa71f keeps T1, S, the interrupt mask and the condition codes;
      the mask of the 68020 types, 0xf71f, keeps T0 and M as well. */
  function MaskSr(t: CpuType, w: u16): (r: u16)
    ensures r / 0x8000 % 2 == w / 0x8000 % 2 && r / 0x2000 % 2 == w / 0x2000 % 2
    ensures r / 0x4000 % 2 == (if Ec020Plus(t) then w / 0x4000 % 2 else 0)
    ensures r / 0x1000 % 2 == (if Ec020Plus(t) then w / 0x1000 % 2 else 0)
    ensures r / 0x100 % 8 == w / 0x100 % 8 && r % 0x20 == w % 0x20
  {
    var t0 := if Ec020Plus(t) then w / 0x4000 % 2 else 0;
    var m := if Ec020Plus(t) then w / 0x1000 % 2 else 0;
    SrDigits(w / 0x8000 % 2, t0, w / 0x2000 % 2, m, w / 0x100 % 8, w % 0x20);
    w / 0x8000 % 2 * 0x8000 + t0 * 0x4000 + w / 0x2000 % 2 * 0x2000 + m * 0x1000 + w / 0x100 % 8 * 0x100 + w % 0x20
  }

  /** The fields of a status register are its digits. */
  lemma SrDigits(t1: nat, t0: nat, s: nat, m: nat, level: nat, ccr: nat)
    requires t1 <= 1 && t0 <= 1 && s <= 1 && m <= 1 && level < 8 && ccr < 0x20
    ensures var w := t1 * 0x8000 + t0 * 0x4000 + s * 0x2000 + m * 0x1000 + level * 0x100 + ccr;
      w < TWO16 && w / 0x8000 % 2 == t1 && w / 0x4000 % 2 == t0 && w / 0x2000 % 2 == s && w / 0x1000 % 2 == m
      && w / 0x100 % 8 == level && w % 0x20 == ccr
  {
    var w := t1 * 0x8000 + t0 * 0x4000 + s * 0x2000 + m * 0x1000 + level * 0x100 + ccr;
    assert w / 0x8000 == t1;
    assert w / 0x4000 == t1 * 2 + t0;
    assert w / 0x2000 == t1 * 4 + t0 * 2 + s;
    assert w / 0x1000 == t1 * 8 + t0 * 4 + s * 2 + m;
    assert w / 0x100 == t1 * 0x80 + t0 * 0x40 + s * 0x20 + m * 0x10 + level;
  }

  /** m68ki_get_sr: the fields occupy disjoint bits, so that the C code's | is a sum. */
  function SrOf(t1: T1Flag, t0: T0Flag, s: SFlag, m: MFlag, intMask: Ipl,
                x: u32, n: u32, notZ: u32, v: u32, c: u32): u16
  {
    t1 + t0 + s * 0x800 + m * 0x800 + intMask
    + x / 0x100 % 2 * 0x10 + n / 0x80 % 2 * 8 + B2N(notZ == 0) * 4 + v / 0x80 % 2 * 2 + c / 0x100 % 2
  }

  /** The S and M flags that a new status register asks for. */
  function SrS(w: u16): SFlag {
    w / 0x2000 % 2 * 4
  }

  function SrM(t: CpuType, w: u16): MFlag {
    if Ec020Plus(t) then w / 0x1000 % 2 * 2 else 0
  }

  class Cpu {
    const cpuType: CpuType
    var dar: Regs           // D0-D7, A0-A7
    var ppc: u32
    var pc: u32
    var sp: SpBase          // [0] user, [4] interrupt, [6] master
    var vbr: u32
    var ir: u16
    var t1: T1Flag
    var t0: T0Flag
    var s: SFlag
    var m: MFlag
    var x: u32              // carry flags live in bit 8, N and V in bit 7, Z is inverted
    var n: u32
    var notZ: u32
    var v: u32
    var c: u32
    var intMask: Ipl
    var intLevel: Ipl
    var stopped: u8
    var mem: Bytes

    constructor (t: CpuType)
      ensures cpuType == t
    {
      cpuType := t;
    }

    // -------------------------------------------------------------- views

    function BankIndex(): nat
      reads `s, `m
      ensures BankIndex() < 7
    {
      s + (if s == 4 then m else 0)
    }

    /** USP, ISP and MSP as m68k_get_reg reports them. */
    function StackPointers(): Stacks
      reads `dar, `sp, `s, `m
    {
      Stacks(if s != 0 then sp[0] else dar[15],
                  if s != 0 && m == 0 then dar[15] else sp[4],
                  if s != 0 && m != 0 then dar[15] else sp[6])
    }

    function GetSr(): u16
      reads `t1, `t0, `s, `m, `intMask, `x, `n, `notZ, `v, `c
    {
      SrOf(t1, t0, s, m, intMask, x, n, notZ, v, c)
    }

    /** The bits the CPU type does not have are clear, as SetSrNoint leaves them. */
    predicate Implemented()
      reads `t0, `m
    {
      !Ec020Plus(cpuType) ==> t0 == 0 && m == 0
    }

    function Sp(): int
      reads `dar
    {
      dar[15]
    }

    function XBit(): nat
      reads `x
    {
      x / 0x100 % 2
    }

    // -------------------------------------------------------------- memory and stack

    method ReadImm16() returns (w: u16)
      modifies `pc
      ensures pc == Wrap(old(pc) + 2) && w == Read16(mem, Addr(cpuType, old(pc)))
    {
      hide Read16; hide Addr;
      pc := Wrap(pc + 2);
      assert Wrap(pc - 2) == old(pc);
      w := Read16(mem, Addr(cpuType, Wrap(pc - 2)));
    }

    method Push16(value: u16)
      modifies `dar, `mem
      ensures dar == old(dar)[15 := Wrap(old(Sp()) - 2)]
      ensures mem == Write16(old(mem), Addr(cpuType, dar[15]), value)
    {
      dar := dar[15 := Wrap(Sp() - 2)];
      mem := Write16(mem, Addr(cpuType, dar[15]), value);
    }

    method Push32(value: u32)
      modifies `dar, `mem
      ensures dar == old(dar)[15 := Wrap(old(Sp()) - 4)]
      ensures mem == Write32(old(mem), Addr(cpuType, dar[15]), value)
    {
      dar := dar[15 := Wrap(Sp() - 4)];
      mem := Write32(mem, Addr(cpuType, dar[15]), value);
    }

    method Pull16() returns (value: u16)
      modifies `dar
      ensures dar == old(dar)[15 := Wrap(old(Sp()) + 2)]
      ensures value == Read16(mem, Addr(cpuType, old(dar)[15]))
    {
      hide Read16; hide Addr;
      dar := dar[15 := Wrap(Sp() + 2)];
      assert Wrap(Sp() - 2) == old(Sp());
      value := Read16(mem, Addr(cpuType, Wrap(Sp() - 2)));
    }

    method Pull32() returns (value: u32)
      modifies `dar
      ensures dar == old(dar)[15 := Wrap(old(Sp()) + 4)]
      ensures value == Read32(mem, Addr(cpuType, old(dar)[15]))
    {
      hide Read32; hide Addr;
      dar := dar[15 := Wrap(Sp() + 4)];
      assert Wrap(Sp() - 4) == old(Sp());
      value := Read32(mem, Addr(cpuType, Wrap(Sp() - 4)));
    }

    // -------------------------------------------------------------- status register

    method SetSFlag(value: SFlag)
      modifies `dar, `sp, `s
      ensures s == value && StackPointers() == old(StackPointers())
      ensures dar[..15] == old(dar)[..15]
    {
      sp := sp[BankIndex() := dar[15]];
      s := value;
      dar := dar[15 := sp[BankIndex()]];
    }

    method SetSmFlag(sValue: SFlag, mValue: MFlag)
      modifies `dar, `sp, `s, `m
      ensures s == sValue && m == mValue && StackPointers() == old(StackPointers())
      ensures dar[..15] == old(dar)[..15]
    {
      sp := sp[BankIndex() := dar[15]];
      s := sValue;
      m := mValue;
      dar := dar[15 := sp[BankIndex()]];
    }

    method SetCcr(value: u16)
      modifies `x, `n, `notZ, `v, `c
      ensures x == BitAt(value, 0x10) * 0x10 && n == BitAt(value, 8) * 0x10
      ensures notZ == B2N(BitAt(value, 4) == 0)
      ensures v == BitAt(value, 2) * 0x40 && c == BitAt(value, 1) * 0x100
    {
      x := BitAt(value, 0x10) * 0x10;
      n := BitAt(value, 8) * 0x10;
      notZ := B2N(BitAt(value, 4) == 0);
      v := BitAt(value, 2) * 0x40;
      c := BitAt(value, 1) * 0x100;
    }

    /** The part of m68ki_set_sr_noint after the mask: the fields of a status register. */
    method SetSrFields(value: u16)
      modifies `dar, `sp, `s, `m, `t1, `t0, `intMask, `x, `n, `notZ, `v, `c
      ensures t1 == BitAt(value, 0x8000) && t0 == BitAt(value, 0x4000)
      ensures s == BitAt(value, 0x2000) / 0x800 && m == BitAt(value, 0x1000) / 0x800
      ensures intMask == value / 0x100 % 8 * 0x100
      ensures x == BitAt(value, 0x10) * 0x10 && n == BitAt(value, 8) * 0x10
      ensures notZ == B2N(BitAt(value, 4) == 0)
      ensures v == BitAt(value, 2) * 0x40 && c == BitAt(value, 1) * 0x100
      ensures StackPointers() == old(StackPointers()) && dar[..15] == old(dar)[..15]
    {
      t1 := BitAt(value, 0x8000);
      t0 := BitAt(value, 0x4000);
      intMask := value / 0x100 % 8 * 0x100;
      SetCcr(value);
      SetSmFlag(BitAt(value, 0x2000) / 0x800, BitAt(value, 0x1000) / 0x800);
    }

    /** Only the implemented bits of the new value arrive, and every stack pointer keeps its value. */
    method SetSrNoint(newSr: u16)
      modifies `dar, `sp, `s, `m, `t1, `t0, `intMask, `x, `n, `notZ, `v, `c
      ensures GetSr() == MaskSr(cpuType, newSr) && Implemented()
      ensures s == SrS(newSr) && m == SrM(cpuType, newSr)
      ensures intMask == newSr / 0x100 % 8 * 0x100
      ensures StackPointers() == old(StackPointers()) && dar[..15] == old(dar)[..15]
    {
      var value := MaskSr(cpuType, newSr);
      SetSrFields(value);
      SrRebuilt(cpuType, newSr, value);
    }
  }

  /** The register fields of an instruction word. */
  lemma InstructionWord(line: nat, x: nat, mid: nat, y: nat)
    requires line < 16 && x < 8 && mid < 64 && y < 8
    ensures var ir := line * 0x1000 + x * 0x200 + mid * 8 + y; ir < TWO16 && ir % 8 == y && ir / 0x200 % 8 == x
  {
    var ir := line * 0x1000 + x * 0x200 + mid * 8 + y;
    assert ir / 0x200 == line * 8 + x;
  }

  /** The fields of the extension word of DIVL and MULL: the first register, two flags and the second register. */
  lemma ExtensionWord(top: nat, q: nat, signed: bool, quad: bool, mid: nat, r: nat)
    requires top <= 1 && q < 8 && mid < 0x80 && r < 8
    ensures var w := top * 0x8000 + q * 0x1000 + B2N(signed) * 0x800 + B2N(quad) * 0x400 + mid * 8 + r;
      && w < TWO16 && w / 0x1000 % 8 == q && (w / 0x800 % 2 == 1 <==> signed) && (w / 0x400 % 2 == 1 <==> quad) && w % 8 == r
  {
    var w := top * 0x8000 + q * 0x1000 + B2N(signed) * 0x800 + B2N(quad) * 0x400 + mid * 8 + r;
    assert w / 0x400 == top * 32 + q * 4 + B2N(signed) * 2 + B2N(quad);
    assert w / 0x800 == top * 16 + q * 2 + B2N(signed);
    assert w / 0x1000 == top * 8 + q;
  }

  /** m68ki_get_sr of fields that hold the given digits. */
  lemma SrOfDigits(t1: nat, t0: nat, s: nat, m: nat, level: nat, x: nat, n: nat, z: nat, v: nat, c: nat)
    requires t1 <= 1 && t0 <= 1 && s <= 1 && m <= 1 && level < 8
    requires x <= 1 && n <= 1 && z <= 1 && v <= 1 && c <= 1
    ensures SrOf(t1 * 0x8000, t0 * 0x4000, s * 4, m * 2, level * 0x100,
                 x * 0x10 * 0x10, n * 8 * 0x10, B2N(z * 4 == 0), v * 2 * 0x40, c * 0x100)
            == t1 * 0x8000 + t0 * 0x4000 + s * 0x2000 + m * 0x1000 + level * 0x100 + x * 0x10 + n * 8 + z * 4 + v * 2 + c
  {
  }

  lemma MaskSrDigits(t: CpuType, w: u16)
    ensures var u := MaskSr(t, w);
      u == u / 0x8000 % 2 * 0x8000 + u / 0x4000 % 2 * 0x4000 + u / 0x2000 % 2 * 0x2000
           + u / 0x1000 % 2 * 0x1000 + u / 0x100 % 8 * 0x100 + u % 0x20
  {
  }

  /** Taking a masked status register apart and putting it together again. */
  lemma SrRebuilt(t: CpuType, w: u16, u: u16)
    requires u == MaskSr(t, w)
    ensures u / 0x100 % 8 * 0x100 <= 0x700
    ensures SrOf(BitAt(u, 0x8000), BitAt(u, 0x4000), BitAt(u, 0x2000) / 0x800, BitAt(u, 0x1000) / 0x800,
                 u / 0x100 % 8 * 0x100, BitAt(u, 0x10) * 0x10, BitAt(u, 8) * 0x10, B2N(BitAt(u, 4) == 0),
                 BitAt(u, 2) * 0x40, BitAt(u, 1) * 0x100) == u
  {
    hide MaskSr; hide SrOf;
    CcrDigits(u);
    assert u == u / 0x8000 % 2 * 0x8000 + u / 0x4000 % 2 * 0x4000 + u / 0x2000 % 2 * 0x2000
                + u / 0x1000 % 2 * 0x1000 + u / 0x100 % 8 * 0x100 + u % 0x20 by { MaskSrDigits(t, w); }
    SrOfDigits(u / 0x8000 % 2, u / 0x4000 % 2, u / 0x2000 % 2, u / 0x1000 % 2, u / 0x100 % 8,
               u / 0x10 % 2, u / 8 % 2, u / 4 % 2, u / 2 % 2, u % 2);
    assert BitAt(u, 0x2000) / 0x800 == u / 0x2000 % 2 * 4;
    assert BitAt(u, 0x1000) / 0x800 == u / 0x1000 % 2 * 2;
  }

  lemma CcrDigits(w: u16)
    ensures w % 0x20 == w / 0x10 % 2 * 0x10 + w / 8 % 2 * 8 + w / 4 % 2 * 4 + w / 2 % 2 * 2 + w % 2
  {
    var w1, w2, w3, w4, w5 := w / 2, w / 4, w / 8, w / 0x10, w / 0x20;
    assert w == 2 * w1 + w % 2;
    assert w1 == 2 * w2 + w1 % 2 by { assert w2 == w1 / 2; }
    assert w2 == 2 * w3 + w2 % 2 by { assert w3 == w2 / 2; }
    assert w3 == 2 * w4 + w3 % 2 by { assert w4 == w3 / 2; }
    assert w4 == 2 * w5 + w4 % 2 by { assert w5 == w4 / 2; }
    assert w == 0x20 * w5 + w % 0x20;
  }

  /** Each field can be read back from the status register. */
  lemma GetSrDigits(cpu: Cpu)
    ensures var w := cpu.GetSr();
      && w / 0x8000 % 2 == cpu.t1 / 0x8000 && w / 0x4000 % 2 == cpu.t0 / 0x4000
      && w / 0x2000 % 2 == cpu.s / 4 && w / 0x1000 % 2 == cpu.m / 2 && w / 0x100 % 8 * 0x100 == cpu.intMask
      && w == cpu.t1 + cpu.t0 + cpu.s * 0x800 + cpu.m * 0x800 + cpu.intMask + w % 0x20
  {
    var t1, t0, s, m, level := cpu.t1 / 0x8000, cpu.t0 / 0x4000, cpu.s / 4, cpu.m / 2, cpu.intMask / 0x100;
    var ccr := cpu.x / 0x100 % 2 * 0x10 + cpu.n / 0x80 % 2 * 8 + B2N(cpu.notZ == 0) * 4
               + cpu.v / 0x80 % 2 * 2 + cpu.c / 0x100 % 2;
    assert cpu.GetSr() == t1 * 0x8000 + t0 * 0x4000 + s * 0x2000 + m * 0x1000 + level * 0x100 + ccr;
    SrDigits(t1, t0, s, m, level, ccr);
  }

  /** Which bit of the status register tells what. */
  lemma SrBits(cpu: Cpu)
    ensures var w := cpu.GetSr();
      && (w / 0x8000 % 2 == 1 <==> cpu.t1 != 0) && (w / 0x4000 % 2 == 1 <==> cpu.t0 != 0)
      && (w / 0x2000 % 2 == 1 <==> cpu.s != 0) && (w / 0x1000 % 2 == 1 <==> cpu.m != 0)
      && w / 0x100 % 8 * 0x100 == cpu.intMask && w / 0x20 % 8 == 0 && w / 0x800 % 2 == 0
      && w / 0x10 % 2 == cpu.XBit() && w / 8 % 2 == cpu.n / 0x80 % 2 && (w / 4 % 2 == 1 <==> cpu.notZ == 0)
      && w / 2 % 2 == cpu.v / 0x80 % 2 && w % 2 == cpu.c / 0x100 % 2
  {
    hide SrOf;
    GetSrDigits(cpu);
    FlagValues(cpu);
    ConditionCodes(cpu.GetSr(), (cpu.t1 + cpu.t0 + cpu.s * 0x800 + cpu.m * 0x800 + cpu.intMask) / 0x100,
                   cpu.x / 0x100 % 2, cpu.n / 0x80 % 2, B2N(cpu.notZ == 0), cpu.v / 0x80 % 2, cpu.c / 0x100 % 2);
  }

  lemma FlagValues(cpu: Cpu)
    ensures cpu.GetSr() == (cpu.t1 + cpu.t0 + cpu.s * 0x800 + cpu.m * 0x800 + cpu.intMask) / 0x100 * 0x100
      + cpu.x / 0x100 % 2 * 0x10 + cpu.n / 0x80 % 2 * 8 + B2N(cpu.notZ == 0) * 4 + cpu.v / 0x80 % 2 * 2 + cpu.c / 0x100 % 2
    ensures (cpu.t1 + cpu.t0 + cpu.s * 0x800 + cpu.m * 0x800 + cpu.intMask) / 0x100 / 8 % 2 == 0
    ensures (cpu.t1 / 0x8000 == 1 <==> cpu.t1 != 0) && (cpu.t0 / 0x4000 == 1 <==> cpu.t0 != 0)
    ensures (cpu.s / 4 == 1 <==> cpu.s != 0) && (cpu.m / 2 == 1 <==> cpu.m != 0)
  {
  }

  lemma ConditionCodes(w: u16, high: nat, x: nat, n: nat, z: nat, v: nat, c: nat)
    requires x <= 1 && n <= 1 && z <= 1 && v <= 1 && c <= 1
    requires w == high * 0x100 + x * 0x10 + n * 8 + z * 4 + v * 2 + c
    ensures w / 0x10 % 2 == x && w / 8 % 2 == n && w / 4 % 2 == z && w / 2 % 2 == v && w % 2 == c
    ensures w / 0x20 % 8 == 0 && w / 0x800 == high / 8
  {
    assert w / 2 == high * 0x80 + x * 8 + n * 4 + z * 2 + v;
    assert w / 4 == high * 0x40 + x * 4 + n * 2 + z;
    assert w / 8 == high * 0x20 + x * 2 + n;
    assert w / 0x10 == high * 0x10 + x;
    assert w / 0x20 == high * 8;
    assert w / 0x800 == high / 8;
  }

  /** A status register the CPU type can hold passes its mask unchanged. */
  lemma MaskSrOfSr(cpu: Cpu)
    requires cpu.Implemented()
    ensures MaskSr(cpu.cpuType, cpu.GetSr()) == cpu.GetSr()
  {
    hide SrOf;
    GetSrDigits(cpu);
  }
}
