/** Supexec: a subroutine of the program runs in supervisor mode, and its RTS lands on a magic address
whose second byte, when it is fetched, brings everything back (xbios.c, cpu.c). */
module Supexec {
  import opened Words
  import opened FlatMemory
  import opened M68k
  import opened Exceptions

  const MAGIC: u32 := 0x200
  const NOP := 0x4e71

  type DataRegs = s: seq<u32> | |s| == 5 witness seq(5, _ => 0)
  type AddressRegs = s: seq<u32> | |s| == 4 witness seq(4, _ => 0)

  /** D3-D7 and A3-A6, which C code expects a call to preserve. */
  function Preserved(dar: Regs): seq<u32> {
    dar[3..8] + dar[11..15]
  }

  /** The addresses whose reads are trapped, the instruction that they read as, and the registers kept. */
  lemma MagicValues(dar: Regs, a: u32)
    ensures MAGIC == 0x200 && NOP == 0x4e71 && (InMagic(a) <==> a == 0x200 || a == 0x201)
    ensures Preserved(dar) == [dar[3], dar[4], dar[5], dar[6], dar[7], dar[11], dar[12], dar[13], dar[14]]
  {
  }

  // ------------------------------------------------------------------ cpu.c

  /** sr & ~0x2000. */
  function WithoutS(sr: u16): u16 {
    if sr / 0x2000 % 2 == 1 then sr - 0x2000 else sr
  }

  /** Bit 13 is clear, and no other bit changes. */
  lemma WithoutSMeaning(sr: u16)
    ensures WithoutS(sr) / 0x2000 % 2 == 0 && WithoutS(sr) % 0x2000 == sr % 0x2000 && WithoutS(sr) / 0x4000 == sr / 0x4000
  {
  }

  /** Setting and clearing S leaves the other fields of a status register. */
  lemma SupervisorBit(cpu: Cpu)
    requires cpu.Implemented()
    ensures var sr := cpu.GetSr();
      && SrS(WithS(sr)) == 4 && SrM(cpu.cpuType, WithS(sr)) == cpu.m && WithS(sr) / 0x100 % 8 * 0x100 == cpu.intMask
      && SrS(WithoutS(sr)) == 0 && SrM(cpu.cpuType, WithoutS(sr)) == cpu.m && WithoutS(sr) / 0x100 % 8 * 0x100 == cpu.intMask
      && MaskSr(cpu.cpuType, WithoutS(sr)) == WithoutS(sr) && MaskSr(cpu.cpuType, WithS(sr)) == WithS(sr)
      && WithS(sr) % 0x2000 == sr % 0x2000 == WithoutS(sr) % 0x2000
      && WithS(sr) / 0x4000 == sr / 0x4000 == WithoutS(sr) / 0x4000
  {
    hide SrOf; hide MaskSr; hide WithS; hide WithoutS; hide SrS; hide SrM;
    GetSrDigits(cpu);
    FieldsDivide(cpu);
    WithSMeaning(cpu.GetSr());
    WithoutSMeaning(cpu.GetSr());
    ToggledFields(cpu.cpuType, cpu.GetSr(), cpu.t1 / 0x8000, cpu.t0 / 0x4000, cpu.s / 4, cpu.m / 2, cpu.intMask / 0x100,
                  cpu.GetSr() % 0x20);
  }

  lemma FieldsDivide(cpu: Cpu)
    ensures cpu.t1 == cpu.t1 / 0x8000 * 0x8000 <= 0x8000 && cpu.t0 == cpu.t0 / 0x4000 * 0x4000 <= 0x4000
    ensures cpu.s == cpu.s / 4 * 4 <= 4 && cpu.m == cpu.m / 2 * 2 <= 2 && cpu.intMask == cpu.intMask / 0x100 * 0x100 <= 0x700
  {
  }

  lemma ToggledFields(t: CpuType, sr: u16, t1: nat, t0: nat, s: nat, m: nat, level: nat, ccr: nat)
    requires t1 <= 1 && t0 <= 1 && s <= 1 && m <= 1 && level < 8 && ccr < 0x20 && (!Ec020Plus(t) ==> t0 == 0 && m == 0)
    requires sr == t1 * 0x8000 + t0 * 0x4000 + s * 0x2000 + m * 0x1000 + level * 0x100 + ccr
    ensures SrS(WithS(sr)) == 4 && SrM(t, WithS(sr)) == m * 2 && WithS(sr) / 0x100 % 8 == level
    ensures SrS(WithoutS(sr)) == 0 && SrM(t, WithoutS(sr)) == m * 2 && WithoutS(sr) / 0x100 % 8 == level
    ensures MaskSr(t, WithoutS(sr)) == WithoutS(sr) && MaskSr(t, WithS(sr)) == WithS(sr)
  {
    hide MaskSr; hide SrS; hide SrM;
    SrDigits(t1, t0, s, m, level, ccr);
    Fields(t, sr as int - s * 0x2000, t1, t0, 0, m, level, ccr);
    Fields(t, sr as int - s * 0x2000 + 0x2000, t1, t0, 1, m, level, ccr);
  }

  lemma Fields(t: CpuType, w: u16, t1: nat, t0: nat, s: nat, m: nat, level: nat, ccr: nat)
    requires t1 <= 1 && t0 <= 1 && s <= 1 && m <= 1 && level < 8 && ccr < 0x20 && (!Ec020Plus(t) ==> t0 == 0 && m == 0)
    requires w == t1 * 0x8000 + t0 * 0x4000 + s * 0x2000 + m * 0x1000 + level * 0x100 + ccr
    ensures MaskSr(t, w) == w && SrS(w) == s * 4 && SrM(t, w) == m * 2 && w / 0x100 % 8 == level
  {
    SrDigits(t1, t0, s, m, level, ccr);
  }

  /** The state that a change of S alone leads to. */
  ghost function WithSr(cpu: Cpu, sr: u16): Machine
    reads cpu
  {
    Of(cpu).(sr := sr, s := SrS(sr))
  }

  /** Supervisor mode on the stack that M selects; an interrupt above the mask is taken at once. */
  method EnableSupervisorMode(cpu: Cpu)
    requires cpu.Implemented()
    modifies cpu
    ensures GoesOn(cpu, old(WithSr(cpu, WithS(cpu.GetSr()))), old(cpu.intLevel), old(cpu.stopped))
    ensures var sr, sr' := old(cpu.GetSr()), old(WithS(cpu.GetSr()));
      sr' / 0x2000 % 2 == 1 && sr' % 0x2000 == sr % 0x2000 && sr' / 0x4000 == sr / 0x4000
    ensures old(SrS(WithS(cpu.GetSr()))) == 4 && cpu.Implemented() && cpu.dar[..15] == old(cpu.dar[..15])
    ensures old(Pends(WithS(cpu.GetSr()), cpu.intLevel, cpu.stopped) <==> cpu.intLevel > cpu.intMask && cpu.stopped < 2)
    ensures old(cpu.intLevel <= cpu.intMask || cpu.stopped >= 2) ==> unchanged(cpu`intMask, cpu`intLevel)
    ensures unchanged(cpu`ppc, cpu`ir, cpu`vbr) && (old(cpu.intLevel <= cpu.intMask) ==> unchanged(cpu`stopped))
  {
    hide SrOf; hide MaskSr; hide WithS; hide Interrupted; hide SrS; hide SrM;
    SupervisorBit(cpu);
    WithSMeaning(cpu.GetSr());
    SetSr(cpu, WithS(cpu.GetSr()));
  }

  method DisableSupervisorMode(cpu: Cpu)
    requires cpu.Implemented()
    modifies cpu
    ensures GoesOn(cpu, old(WithSr(cpu, WithoutS(cpu.GetSr()))), old(cpu.intLevel), old(cpu.stopped))
    ensures var sr, sr' := old(cpu.GetSr()), old(WithoutS(cpu.GetSr()));
      sr' / 0x2000 % 2 == 0 && sr' % 0x2000 == sr % 0x2000 && sr' / 0x4000 == sr / 0x4000
    ensures old(SrS(WithoutS(cpu.GetSr()))) == 0 && cpu.Implemented() && cpu.dar[..15] == old(cpu.dar[..15])
    ensures old(Pends(WithoutS(cpu.GetSr()), cpu.intLevel, cpu.stopped) <==> cpu.intLevel > cpu.intMask && cpu.stopped < 2)
    ensures old(cpu.intLevel <= cpu.intMask || cpu.stopped >= 2) ==> unchanged(cpu`intMask, cpu`intLevel)
    ensures unchanged(cpu`ppc, cpu`ir, cpu`vbr) && (old(cpu.intLevel <= cpu.intMask) ==> unchanged(cpu`stopped))
  {
    hide SrOf; hide MaskSr; hide WithoutS; hide Interrupted; hide SrS; hide SrM;
    SupervisorBit(cpu);
    WithoutSMeaning(cpu.GetSr());
    SetSr(cpu, WithoutS(cpu.GetSr()));
  }

  /** Pushes of the host do not mask the address. */
  method PushU32(cpu: Cpu, value: u32)
    modifies cpu`dar, cpu`mem
    ensures cpu.dar == old(cpu.dar)[15 := Wrap(old(cpu.Sp()) - 4)]
    ensures cpu.mem == Write32(old(cpu.mem), cpu.dar[15], value)
  {
    hide Write32;
    var sp := Wrap(cpu.Sp() - 4);
    cpu.mem := Write32(cpu.mem, sp, value);
    cpu.dar := cpu.dar[15 := sp];
  }

  /** The popped long goes through a uint16_t: its upper half is lost. */
  method PopU32(cpu: Cpu) returns (value: u32)
    modifies cpu`dar
    ensures cpu.dar == old(cpu.dar)[15 := Wrap(old(cpu.Sp()) + 4)]
    ensures value == Read32(cpu.mem, old(cpu.dar)[15]) % TWO16
  {
    hide Read32;
    value := Read32(cpu.mem, cpu.dar[15]) % TWO16;
    cpu.dar := cpu.dar[15 := Wrap(cpu.Sp() + 4)];
  }

  method Rts(cpu: Cpu)
    modifies cpu`dar, cpu`pc
    ensures cpu.dar == old(cpu.dar)[15 := Wrap(old(cpu.Sp()) + 4)]
    ensures cpu.pc == Read32(cpu.mem, Addr(cpu.cpuType, old(cpu.dar)[15]))
  {
    hide Read32; hide Addr;
    var newPc := cpu.Pull32();
    cpu.pc := newPc;
  }

  // ------------------------------------------------------------------ xbios.c

  class Xbios {
    var dreg: DataRegs
    var areg: AddressRegs

    constructor ()
    {
    }

    method SaveRegs(cpu: Cpu)
      modifies this
      ensures dreg == cpu.dar[3..8] && areg == cpu.dar[11..15]
    {
      for i := 0 to 5
        invariant forall j | 0 <= j < i :: dreg[j] == cpu.dar[3 + j]
      {
        dreg := dreg[i := cpu.dar[3 + i]];
      }
      for i := 0 to 4
        invariant dreg == cpu.dar[3..8] && forall j | 0 <= j < i :: areg[j] == cpu.dar[11 + j]
      {
        areg := areg[i := cpu.dar[11 + i]];
      }
    }

    method RestoreRegs(cpu: Cpu)
      modifies cpu`dar
      ensures Preserved(cpu.dar) == dreg + areg
      ensures forall r | 0 <= r < 16 && !(3 <= r < 8) && !(11 <= r < 15) :: cpu.dar[r] == old(cpu.dar)[r]
    {
      for i := 0 to 5
        invariant forall r | 0 <= r < 16 :: cpu.dar[r] == if 3 <= r < 3 + i then dreg[r - 3] else old(cpu.dar)[r]
      {
        cpu.dar := cpu.dar[3 + i := dreg[i]];
      }
      for i := 0 to 4
        invariant forall r | 0 <= r < 16 ::
          cpu.dar[r] == if 3 <= r < 8 then dreg[r - 3] else if 11 <= r < 11 + i then areg[r - 11] else old(cpu.dar)[r]
      {
        cpu.dar := cpu.dar[11 + i := areg[i]];
      }
      assert cpu.dar[3..8] == dreg && cpu.dar[11..15] == areg;
    }

    /** XBIOS_Supexec as trap 14 calls it: the result of the call is in D0 when the subroutine starts.
        In supervisor mode it uses the stack that is active.  A pending interrupt stacks its frames first
        (then "framed" is the memory with them), and it is the start of its handler that is pushed. */
    method Supexec(cpu: Cpu) returns (ghost framed: Bytes)
      requires cpu.Implemented()
      modifies this, cpu
      ensures dreg + areg == old(Preserved(cpu.dar))
      ensures cpu.Implemented() && cpu.pc == old(Read32(cpu.mem, Wrap(cpu.Sp() + 2)))
      ensures cpu.dar[..15] == old(cpu.dar)[..15][0 := 0] && (old(cpu.intLevel <= cpu.intMask) ==> unchanged(cpu`stopped))
      ensures var t, a, level := cpu.cpuType, old(WithSr(cpu, WithS(cpu.GetSr()))), old(cpu.intLevel) / 0x100;
        if old(cpu.intLevel > cpu.intMask && cpu.stopped < 2) then
          && FramesStacked(t, a.mem, a.stacks, a.m, framed, a.pc, a.sr, 24 + level)
          && Called(cpu, framed, InterruptStacks(t, a.stacks, a.m), InterruptM(t, a.m), InterruptPc(t, a.mem, cpu.vbr, level))
          && cpu.intMask == level * 0x100 && cpu.intLevel == 0
        else
          && framed == a.mem && Called(cpu, framed, a.stacks, a.m, a.pc)
          && cpu.intMask == old(cpu.intMask) && cpu.intLevel == old(cpu.intLevel)
    {
      hide Read32; hide Write32; hide Wrap; hide SrOf; hide WithS; hide FramesStacked; hide InterruptStacks;
      hide InterruptPc; hide InterruptM;
      var lv0 := Read32(cpu.mem, Wrap(cpu.Sp() + 2));
      SaveRegs(cpu);
      framed := EnterCall(cpu);
      cpu.pc := lv0;
      cpu.dar := cpu.dar[0 := 0];
    }

    /** The part of Supexec between saving the registers and setting the PC. */
    method EnterCall(cpu: Cpu) returns (ghost framed: Bytes)
      requires cpu.Implemented()
      modifies cpu
      ensures cpu.Implemented() && cpu.dar[..15] == old(cpu.dar[..15]) && cpu.vbr == old(cpu.vbr)
      ensures old(cpu.intLevel <= cpu.intMask) ==> unchanged(cpu`stopped)
      ensures var t, a, level := cpu.cpuType, old(WithSr(cpu, WithS(cpu.GetSr()))), old(cpu.intLevel) / 0x100;
        if old(cpu.intLevel > cpu.intMask && cpu.stopped < 2) then
          && FramesStacked(t, a.mem, a.stacks, a.m, framed, a.pc, a.sr, 24 + level)
          && Called(cpu, framed, InterruptStacks(t, a.stacks, a.m), InterruptM(t, a.m), InterruptPc(t, a.mem, cpu.vbr, level))
          && cpu.intMask == level * 0x100 && cpu.intLevel == 0
        else
          && framed == a.mem && Called(cpu, framed, a.stacks, a.m, a.pc)
          && cpu.intMask == old(cpu.intMask) && cpu.intLevel == old(cpu.intLevel)
    {
      hide Read32; hide Write32; hide Wrap; hide SrOf; hide WithS; hide SrS; hide FramesStacked; hide InterruptStacks;
      hide InterruptPc; hide InterruptM; hide MaskSr; hide SrM; hide Pends; hide Called;
      EnableSupervisorMode(cpu);
      framed := cpu.mem;
      PushCall(cpu);
    }

    method PushCall(cpu: Cpu)
      requires cpu.s == 4
      modifies cpu`dar, cpu`mem
      ensures Called(cpu, old(cpu.mem), old(cpu.StackPointers()), cpu.m, cpu.pc) && cpu.dar[..15] == old(cpu.dar[..15])
    {
      hide Write32; hide Wrap;
      TwoBelow(cpu.Sp());
      PushU32(cpu, cpu.pc);
      PushU32(cpu, MAGIC);
    }

    /** The PC and the magic address are pushed in memory, on the supervisor stack. */
    ghost predicate Called(cpu: Cpu, mem: Bytes, st: Stacks, m: MFlag, pc: u32)
      reads cpu
    {
      var sp: int := st.Active(4, m);
      && cpu.s == 4 && cpu.m == m && cpu.StackPointers() == st.WithActive(4, m, Wrap(sp - 8))
      && cpu.mem == Write32(Write32(mem, Wrap(sp - 4), pc), Wrap(sp - 8), MAGIC)
    }

    /** The callback of the magic area. */
    method MagicRead(cpu: Cpu, address: u32) returns (value: u8)
      requires cpu.Implemented() && cpu.s == 4
      modifies cpu
      ensures value == if address == MAGIC then NOP / 0x100 else if address == MAGIC + 1 then NOP % 0x100 else 0
      ensures address != MAGIC + 1 ==> unchanged(cpu)
      ensures address == MAGIC + 1 ==> BroughtBack(cpu, old(cpu.pc))
      ensures cpu.Implemented()
    {
      hide Read32; hide Wrap; hide SrOf; hide WithoutS; hide SrS; hide FramesStacked; hide InterruptStacks;
      hide InterruptPc; hide Preserved;
      if address == MAGIC {
        return 0x4e;
      } else if address == MAGIC + 1 {
        var lv0 := PopU32(cpu);
        DisableSupervisorMode(cpu);
        cpu.pc := lv0;
        RestoreRegs(cpu);
        return 0x71;
      }
      value := 0;
    }

    /** A byte as the CPU reads it.  The magic area can be read in supervisor mode only. */
    method ReadByte(cpu: Cpu, address: u32) returns (value: u8)
      requires cpu.Implemented()
      modifies cpu
      ensures !InMagic(address) ==> value == Peek(cpu.mem, address)
      ensures !(address == MAGIC + 1 && old(cpu.s) == 4) ==> unchanged(cpu)
      ensures address == MAGIC && old(cpu.s) == 4 ==> value == NOP / 0x100
      ensures address == MAGIC + 1 && old(cpu.s) == 4 ==> value == NOP % 0x100 && BroughtBack(cpu, old(cpu.pc))
      ensures cpu.Implemented()
    {
      hide Read32; hide Wrap; hide SrOf; hide WithoutS; hide Peek;
      if InMagic(address) {
        value := 0;
        if cpu.s != 0 {
          value := MagicRead(cpu, address);
        }
      } else {
        value := Peek(cpu.mem, address);
      }
    }

    /** What the callback does for the second byte: the popped PC, user mode, the saved registers.  An
        interrupt that is pending then is stacked with the PC from before, but its handler is not run. */
    twostate predicate BroughtBack(cpu: Cpu, pc: u32)
      reads this, cpu
    {
      var sp: int := old(cpu.dar)[15];
      var a := Machine(old(cpu.mem), pc, old(WithoutS(cpu.GetSr())),
                       old(cpu.StackPointers()).WithActive(4, old(cpu.m), Wrap(sp + 4)), 0, old(cpu.m));
      && cpu.pc == Read32(old(cpu.mem), sp) % TWO16 && Preserved(cpu.dar) == dreg + areg
      && (forall r | 0 <= r < 15 && !(3 <= r < 8) && !(11 <= r < 15) :: cpu.dar[r] == old(cpu.dar)[r])
      && if old(cpu.intLevel > cpu.intMask && cpu.stopped < 2) then Taken(cpu, a, old(cpu.intLevel) / 0x100)
         else Of(cpu) == a.(pc := cpu.pc) && cpu.intLevel == old(cpu.intLevel)
    }

    /** The fetch of an instruction in m68k_execute. */
    method Fetch(cpu: Cpu)
      requires cpu.Implemented()
      modifies cpu
      ensures var a := Addr(cpu.cpuType, old(cpu.pc));
        if old(cpu.s) == 4 && InMagic(a) then BroughtBack(cpu, Wrap(old(cpu.pc) + 2)) && (a == MAGIC ==> cpu.ir == NOP)
        else
          && Of(cpu) == old(Of(cpu)).(pc := Wrap(old(cpu.pc) + 2)) && unchanged(cpu`dar, cpu`intLevel, cpu`stopped)
          && (!InMagic(a) && !InMagic(Wrap(a + 1)) ==> cpu.ir == Read16(cpu.mem, a))
      ensures cpu.Implemented()
    {
      hide Read32; hide Wrap; hide SrOf; hide WithoutS; hide Peek; hide Addr; hide Preserved;
      hide FramesStacked; hide InterruptStacks;
      NextAddress(cpu.pc);
      var a: int := Addr(cpu.cpuType, cpu.pc);
      cpu.ppc := cpu.pc;
      cpu.pc := Wrap(cpu.pc + 2);
      var word := ReadWord(cpu, Addr(cpu.cpuType, Wrap(cpu.pc - 2)));
      cpu.ir := word;
    }

    /** The bytes of a word in the order in which the CPU reads them. */
    method ReadWord(cpu: Cpu, a: u32) returns (word: u16)
      requires cpu.Implemented()
      modifies cpu
      ensures if old(cpu.s) == 4 && InMagic(a) then BroughtBack(cpu, old(cpu.pc)) && (a == MAGIC ==> word == NOP)
              else unchanged(cpu) && (!InMagic(a) && !InMagic(Wrap(a + 1)) ==> word == Read16(cpu.mem, a))
      ensures cpu.Implemented()
    {
      hide Wrap; hide SrOf; hide Peek; hide Read32; hide WithoutS; hide Preserved; hide FramesStacked; hide InterruptStacks;
      NextByte(a);
      var high := ReadByte(cpu, a);
      var low := ReadByte(cpu, Wrap(a as int + 1));
      word := high as int * 0x100 + low;
    }
  }

  lemma NextByte(a: int)
    requires 0 <= a < TWO32
    ensures Wrap(a + 1) == MAGIC + 1 <==> a == MAGIC
    ensures a == MAGIC + 1 ==> !InMagic(Wrap(a + 1))
  {
  }

  /** The two longs that Supexec pushes are in memory, at addresses that the CPU has. */
  ghost predicate Room(cpu: Cpu)
    reads cpu
  {
    var low := Wrap(cpu.StackPointers().Active(4, cpu.m) as int - 8);
    low + 8 <= AddressSpaceSize(cpu.cpuType) && Mapped(cpu.mem, low, 8)
  }

  lemma RoomIs(cpu: Cpu)
    ensures var sp: int := if cpu.m == 0 then cpu.StackPointers().isp else cpu.StackPointers().msp;
      8 <= sp <= AddressSpaceSize(cpu.cpuType) ==> (Room(cpu) <==> forall b: u32 | sp - 8 <= b < sp :: b in cpu.mem)
  {
    hide In;
    var sp: int := if cpu.m == 0 then cpu.StackPointers().isp else cpu.StackPointers().msp;
    if 8 <= sp <= AddressSpaceSize(cpu.cpuType) {
      var low: u32 := sp - 8;
      forall b: u32 ensures In(b, low, 8) <==> low <= b < low + 8 { InRange(b, low, 8); }
    }
  }

  /** What a subroutine does up to its RTS: any registers, flags and memory, with its stack balanced. */
  datatype Subroutine = Subroutine(effect: HandlerEffect, t1: T1Flag, t0: T0Flag, vbr: u32)

  method RunSubroutine(cpu: Cpu, sub: Subroutine)
    requires cpu.Implemented() && (Ec020Plus(cpu.cpuType) || sub.t0 == 0)
    modifies cpu
    ensures cpu.Implemented() && cpu.s == old(cpu.s) && cpu.m == old(cpu.m) && cpu.stopped == old(cpu.stopped)
    ensures cpu.mem == sub.effect.mem && cpu.intMask == sub.effect.intMask && cpu.intLevel == sub.effect.intLevel
    ensures cpu.dar == sub.effect.regs[15 := old(cpu.dar)[15]] && cpu.StackPointers() == old(cpu.StackPointers())
  {
    RunHandler(cpu, sub.effect);
    cpu.vbr, cpu.t1, cpu.t0 := sub.vbr, sub.t1, sub.t0;
  }

  lemma PushedTwo(m: Bytes, low: u32, pc: u32)
    requires low + 8 <= TWO32 && Mapped(m, low, 8)
    ensures var m' := Write32(Write32(m, low + 4, pc), low, MAGIC);
      SameOutside(m, m', low, 8) && Read32(m', low) == MAGIC && Read32(m', low + 4) == pc
  {
    hide Write32; hide Read32; hide In;
    forall b: u32 ensures In(b, low, 8) <==> In(b, low, 4) || In(b, low + 4, 4) {
      InRange(b, low, 4);
      InRange(b, low + 4, 4);
      InRange(b, low, 8);
    }
    var m1 := Write32(m, low + 4, pc);
    var m2 := Write32(m1, low, MAGIC);
    Write32Effect(m, low + 4, pc);
    Write32Effect(m1, low, MAGIC);
    forall b: u32 | In(b, low + 4, 4) ensures !In(b, low, 4) {
      InRange(b, low, 4);
      InRange(b, low + 4, 4);
    }
    ReadsSame(m1, m2, low + 4);
  }

  /** A call from user mode, any subroutine with a balanced stack, and its RTS.  It comes back to user mode,
      with both stack pointers, D3-D7 and A3-A6 as at the call, exactly if the RTS leads into the magic
      area and no interrupt takes over; and it comes back to the lower half of the second long, which is
      the PC of the call modulo 2^16 if the subroutine leaves the two longs alone. */
  method CallAndReturn(xbios: Xbios, cpu: Cpu, sub: Subroutine) returns (ghost entered: Bytes)
    requires cpu.Implemented() && cpu.s == 0 && cpu.intLevel <= cpu.intMask && Room(cpu)
    requires Ec020Plus(cpu.cpuType) || sub.t0 == 0
    modifies xbios, cpu
    ensures var low := old(Wrap(cpu.StackPointers().Active(4, cpu.m) as int - 8));
      var target, mem := Read32(sub.effect.mem, low), sub.effect.mem;
      var pends := sub.effect.intLevel > sub.effect.intMask && old(cpu.stopped) < 2;
      && Read32(entered, low) == 0x200 && Read32(entered, Wrap(low + 4)) == old(cpu.pc)
      && SameOutside(old(cpu.mem), entered, low, 8)
      && (cpu.s == 0 <==> InMagic(Addr(cpu.cpuType, target)) && !pends)
      && (InMagic(Addr(cpu.cpuType, target)) ==>
            && Preserved(cpu.dar) == old(Preserved(cpu.dar)) && cpu.pc == Read32(mem, Wrap(low + 4)) % TWO16
            && (forall r | 0 <= r < 15 && !(3 <= r < 8) && !(11 <= r < 15) :: cpu.dar[r] == sub.effect.regs[r])
            && (if pends then cpu.StackPointers() == old(InterruptStacks(cpu.cpuType, cpu.StackPointers(), cpu.m))
                else cpu.StackPointers() == old(cpu.StackPointers()) && cpu.mem == mem))
      && (!InMagic(Addr(cpu.cpuType, target)) ==>
            cpu.pc == Wrap(target + 2) && cpu.StackPointers() == old(cpu.StackPointers().WithActive(4, cpu.m, Wrap(low + 4))))
      && (SameOn(entered, mem, low, 8) ==>
            InMagic(Addr(cpu.cpuType, target)) && cpu.ir == NOP && cpu.pc == old(cpu.pc) % TWO16
            && (cpu.pc == old(cpu.pc) <==> old(cpu.pc) < TWO16))
  {
    hide Read32; hide Write32; hide Wrap; hide SrOf; hide WithoutS; hide Peek; hide Addr; hide Preserved;
    hide Mapped; hide SameOutside; hide SameOn; hide In; hide WithS; hide FramesStacked; hide InterruptStacks;
    ghost var sp: int := cpu.StackPointers().Active(4, cpu.m);
    ghost var low := Wrap(sp - 8);
    BelowStack(sp);
    PushedTwo(cpu.mem, low, cpu.pc);
    ghost var framed := xbios.Supexec(cpu);
    entered := cpu.mem;
    if SameOn(entered, sub.effect.mem, low, 8) {
      KeptReads(entered, sub.effect.mem, low);
    }
    AddressFits(cpu.cpuType, low);
    RunAndReturn(xbios, cpu, sub);
  }

  /** The part of a call after Supexec. */
  method RunAndReturn(xbios: Xbios, cpu: Cpu, sub: Subroutine)
    requires cpu.Implemented() && cpu.s == 4 && (Ec020Plus(cpu.cpuType) || sub.t0 == 0)
    modifies cpu
    ensures var low: int := old(cpu.dar[15]);
      var target, mem := Read32(sub.effect.mem, Addr(cpu.cpuType, low)), sub.effect.mem;
      var popped := old(cpu.StackPointers().WithActive(4, cpu.m, Wrap(Wrap(low + 4) as int + 4)));
      if InMagic(Addr(cpu.cpuType, target)) then
        && Preserved(cpu.dar) == xbios.dreg + xbios.areg && cpu.pc == Read32(mem, Wrap(low + 4)) % TWO16
        && (forall r | 0 <= r < 15 && !(3 <= r < 8) && !(11 <= r < 15) :: cpu.dar[r] == sub.effect.regs[r])
        && (Addr(cpu.cpuType, target) == MAGIC ==> cpu.ir == NOP)
        && (if sub.effect.intLevel > sub.effect.intMask && old(cpu.stopped) < 2
            then cpu.s == 4 && cpu.StackPointers() == old(InterruptStacks(cpu.cpuType, popped, cpu.m))
            else cpu.s == 0 && cpu.StackPointers() == popped && cpu.mem == mem)
      else
        && cpu.s == 4 && cpu.pc == Wrap(target + 2)
        && cpu.StackPointers() == old(cpu.StackPointers().WithActive(4, cpu.m, Wrap(low + 4)))
  {
    hide Read32; hide Wrap; hide SrOf; hide WithoutS; hide Addr; hide Preserved; hide FramesStacked;
    hide InterruptStacks; hide InMagic; hide Read16; hide InterruptM;
    AddressFits(cpu.cpuType, 0);
    RunSubroutine(cpu, sub);
    Rts(cpu);
    xbios.Fetch(cpu);
  }

  /** A call at 0x12344 by a subroutine that does nothing comes back at 0x2344. */
  method LostReturn() returns (cpu: Cpu, caller: u32)
    ensures fresh(cpu) && cpu.s == 0 && caller == 0x1_2344 && cpu.pc == 0x2344
  {
    hide Read32; hide Write32; hide SrOf; hide Preserved; hide SameOutside; hide SameOn; hide InterruptStacks;
    hide SrS; hide Peek; hide Room; hide Mapped;
    cpu := Caller();
    PushedTwo(cpu.mem, 0x6f8, 0x1_2344);
    var left := Write32(Write32(cpu.mem, 0x6fc, 0x1_2344), 0x6f8, MAGIC);
    var effect := HandlerEffect(cpu.dar, left, 0, 0, 0, 0, 0, 0, 0, 0, 0);
    var xbios := new Xbios();
    caller := cpu.pc;
    var _ := CallAndReturn(xbios, cpu, Subroutine(effect, 0, 0, 0));
  }

  /** A program at 0x12344 in user mode with a supervisor stack below 0x700. */
  method Caller() returns (cpu: Cpu)
    ensures fresh(cpu) && cpu.cpuType == M68000 && cpu.Implemented() && cpu.s == 0 && cpu.m == 0
    ensures cpu.pc == 0x1_2344 && cpu.intLevel == cpu.intMask == 0 && cpu.StackPointers().isp == 0x700
    ensures Room(cpu) && Mapped(cpu.mem, 0x6f8, 8)
  {
    hide SrOf; hide In;
    cpu := new Cpu(M68000);
    cpu.s, cpu.m, cpu.t1, cpu.t0, cpu.intMask, cpu.intLevel := 0, 0, 0, 0, 0, 0;
    cpu.sp := cpu.sp[4 := 0x700];
    cpu.pc := 0x1_2344;
    cpu.mem := map[0x6f8 := 0, 0x6f9 := 0, 0x6fa := 0, 0x6fb := 0, 0x6fc := 0, 0x6fd := 0, 0x6fe := 0, 0x6ff := 0];
    forall b: u32 | In(b, 0x6f8, 8) ensures b in cpu.mem { InRange(b, 0x6f8, 8); }
  }

  lemma BelowStack(sp: int)
    requires 0 <= sp < TWO32
    ensures var low := Wrap(sp - 8);
      low + 8 <= TWO32 ==> Wrap(sp - 4) == low + 4 == Wrap(low + 4) && Wrap(low + 4 + 4) == sp
  {
  }

  lemma KeptReads(m: Bytes, m': Bytes, low: u32)
    requires low + 8 <= TWO32 && SameOn(m, m', low, 8)
    ensures Read32(m', low) == Read32(m, low) && Read32(m', low + 4) == Read32(m, low + 4)
  {
    hide Read32;
    forall b: u32 ensures In(b, low, 4) || In(b, low + 4, 4) ==> In(b, low, 8) {
      InRange(b, low, 4);
      InRange(b, low + 4, 4);
      InRange(b, low, 8);
    }
    ReadsSame(m, m', low);
    ReadsSame(m, m', low + 4);
  }

  lemma AddressFits(t: CpuType, low: u32)
    ensures low + 8 <= AddressSpaceSize(t) ==> Addr(t, low) == low && Addr(t, low + 4) == low + 4
    ensures Addr(t, MAGIC) == MAGIC
  {
  }

  predicate InMagic(address: u32) {
    address == MAGIC || address == MAGIC + 1
  }

  lemma NextAddress(pc: u32)
    ensures Wrap(Wrap(pc + 2) as int - 2) == pc && Wrap(MAGIC + 1) == MAGIC + 1
  {
  }

  lemma TwoBelow(sp: int)
    ensures Wrap(Wrap(sp - 4) - 4) == Wrap(sp - 8)
  {
  }
}
