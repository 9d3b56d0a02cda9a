/** Blocks of memory below a pointer, as predecrement addressing walks through them. */
module Blocks {
  import opened Words
  import opened FlatMemory
  import opened M68k

  /** The numbers of AY and AX among the sixteen registers. */
  function Ry(ir: u16): nat { 8 + ir % 8 }
  function Rx(ir: u16): nat { 8 + ir / 0x200 % 8 }

  /** In an instruction word AY is named by the lowest three bits and AX by bits 9 to 11. */
  lemma OperandRegisters(line: nat, x: nat, mid: nat, y: nat)
    requires line < 16 && x < 8 && mid < 64 && y < 8
    ensures var ir := line * 0x1000 + x * 0x200 + mid * 8 + y; ir < TWO16 && Ry(ir) == 8 + y && Rx(ir) == 8 + x
  {
    InstructionWord(line, x, mid, y);
  }

  /** Predecrementing two different registers, and one register twice. */
  lemma PredecrementedMeaning(dar: Regs, line: nat, x: nat, mid: nat, y: nat, size: nat)
    requires line < 16 && x < 8 && mid < 64 && y < 8
    ensures var d := Predecremented(dar, line * 0x1000 + x * 0x200 + mid * 8 + y, size);
      && (forall r | 0 <= r < 16 && r != 8 + x && r != 8 + y :: d[r] == dar[r])
      && (x != y ==> d[8 + x] as int == (dar[8 + x] as int - size) % 0x1_0000_0000
                     && d[8 + y] as int == (dar[8 + y] as int - size) % 0x1_0000_0000)
      && (x == y ==> d[8 + y] as int == (dar[8 + y] as int - 2 * size) % 0x1_0000_0000)
  {
    OperandRegisters(line, x, mid, y);
    TwiceDown(dar[8 + y], size);
  }

  lemma TwiceDown(a: int, size: int)
    ensures Wrap(Wrap(a - size) as int - size) as int == (a - 2 * size) % 0x1_0000_0000
  {
  }

  /** The registers after predecrementing AY and then AX by the operand size. */
  function Predecremented(dar: Regs, ir: u16, size: nat): Regs {
    var d1 := dar[Ry(ir) := Wrap(dar[Ry(ir)] as int - size)];
    d1[Rx(ir) := Wrap(d1[Rx(ir)] as int - size)]
  }

  /** AY and AX moved down by n bytes. */
  function Stepped(dar: Regs, ir: u16, n: nat): Regs {
    dar[Ry(ir) := Wrap(dar[Ry(ir)] as int - n)][Rx(ir) := Wrap(dar[Rx(ir)] as int - n)]
  }

  lemma StepOnce(dar: Regs, ir: u16, n: nat, size: nat)
    requires Ry(ir) != Rx(ir)
    ensures Predecremented(Stepped(dar, ir, n), ir, size) == Stepped(dar, ir, n + size)
  {
    hide Wrap;
    var down: int := size;
    down := -down;
    WrapAdd(dar[Ry(ir)] as int - n, down);
    WrapAdd(dar[Rx(ir)] as int - n, down);
  }

  lemma SteppedZero(dar: Regs, ir: u16)
    ensures Stepped(dar, ir, 0) == dar
  {
  }

  /** The address just above the n bytes below a pointer. */
  function TopOf(t: CpuType, pointer: u32, n: nat): nat {
    Addr(t, Wrap(pointer as int - n)) + n
  }

  /** A pointer at least n into the address space: the block ends right at it. */
  lemma TopMeaning(t: CpuType, pointer: u32, n: nat)
    requires n <= Addr(t, pointer)
    ensures TopOf(t, pointer, n) == Addr(t, pointer)
  {
  }

  lemma BlockAddress(t: CpuType, pointer: int, n: nat, j: nat)
    requires 0 <= pointer < TWO32 && TopOf(t, pointer, n) <= AddressSpaceSize(t) && 0 < j <= n
    ensures Addr(t, Wrap(pointer - j)) == TopOf(t, pointer, n) - j
  {
  }

  /** Memory differs at most in the n bytes below top. */
  ghost predicate ChangedBelow(m: Bytes, m': Bytes, top: nat, n: nat) {
    m'.Keys == m.Keys && forall b: u32 | !(top - n <= b < top) :: Peek(m', b) == Peek(m, b)
  }

  lemma TopBounds(t: CpuType, mem: Bytes, pointer: u32, n: nat)
    requires RoomBelow(t, mem, pointer, n)
    ensures n <= TopOf(t, pointer, n) <= TWO32
  {
  }

  lemma InBlock(b: u32, low: u32, n: nat)
    requires low + n <= TWO32 && low <= b < low + n
    ensures In(b, low, n)
  {
  }

  lemma RoomSameKeys(t: CpuType, m: Bytes, m': Bytes, pointer: u32, n: nat)
    requires m.Keys == m'.Keys && RoomBelow(t, m, pointer, n)
    ensures RoomBelow(t, m', pointer, n)
  {
  }

  lemma ChangedTwice(m: Bytes, m': Bytes, m'': Bytes, x: nat, n: nat)
    requires ChangedBelow(m, m', x, n) && ChangedBelow(m', m'', x, n)
    ensures ChangedBelow(m, m'', x, n)
  {
  }

  /** Writing the next long down in a block of longs keeps those above it. */
  lemma WriteNext(m0: Bytes, m: Bytes, top: nat, k: nat, v: u32)
    requires 4 * (k + 1) <= top <= TWO32 && ChangedBelow(m0, m, top, 4 * k)
    requires forall b: u32 | top - 4 * (k + 1) <= b < top :: b in m0
    ensures var low: u32 := top - 4 * (k + 1); var m' := Write32(m, low, v);
      ChangedBelow(m0, m', top, 4 * (k + 1)) && Read32(m', low) == v && SameRange(m, m', low + 4, top)
  {
    hide Write32; hide Read32; hide In;
    var low: u32 := top - 4 * (k + 1);
    Write32Effect(m, low, v);
    forall b: u32 ensures In(b, low, 4) <==> low <= b < low + 4 { InRange(b, low, 4); }
    assert Mapped(m, low, 4);
  }
}
