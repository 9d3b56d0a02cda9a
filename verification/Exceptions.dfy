/** Exception entry and RTE: stack frames, the bank switch, and the unwinding of both
(Musashi/m68kcpu.h, Musashi/m68k_in.c). */
module Exceptions {
  import opened Words
  import opened FlatMemory
  import opened M68k

  // ------------------------------------------------------------------ frames in memory

  /** Within a stack area that does not wrap, addresses are consecutive. */
  lemma StackAddress(t: CpuType, top: int, n: nat, k: nat)
    requires 0 <= top < TWO32
    requires Addr(t, Wrap(top - n)) + n <= AddressSpaceSize(t) && k < n <= 12
    ensures Wrap(Wrap(top - n) + k) == Wrap(top - (n - k))
    ensures Addr(t, Wrap(top - (n - k))) == Addr(t, Wrap(top - n)) + k
  {
    var low := if top >= n then top - n else top - n + TWO32;
    assert Wrap(top - n) == low;
    assert Wrap(top - (n - k)) == if low + k < TWO32 then low + k else low + k - TWO32;
  }

  lemma WrapBack(x: u32, k: nat)
    ensures Wrap(Wrap(x as int - k) + k) == x
  {
  }

  lemma WrapDown(x: int, j: nat, k: nat)
    ensures Wrap(Wrap(x - j) - k) == Wrap(x - (j + k))
  {
  }

  /** The bytes of a frame with stack pointer a: SR, PC and, from the 68010 on, the format word. */
  ghost predicate FrameAt(t: CpuType, mem: Bytes, a: u32, sr: u16, pc: u32) {
    Read16(mem, Addr(t, a)) == sr && Read32(mem, Addr(t, Wrap(a + 2))) == pc
  }

  /** The format and the vector offset. */
  function WordAt(t: CpuType, mem: Bytes, a: u32): u16 {
    Read16(mem, Addr(t, Wrap(a + 6)))
  }

  lemma FrameReadsBack(t: CpuType, mem: Bytes, a: u32, sr: u16, pc: u32)
    ensures FrameAt(t, mem, a, sr, pc) <==> Read16(mem, Addr(t, a)) == sr && Read32(mem, Addr(t, Wrap(a + 2))) == pc
  {
  }

  function FormatAt(t: CpuType, mem: Bytes, a: u32): nat {
    WordAt(t, mem, a) / 0x1000
  }

  /** A whole frame, but for the instruction address of format 2; the 68000 has no format word. */
  ghost predicate Frame(t: CpuType, mem: Bytes, a: u32, sr: u16, pc: u32, word: u16) {
    FrameAt(t, mem, a, sr, pc) && (t != M68000 ==> WordAt(t, mem, a) == word)
  }

  /** SR and PC stored at lo and lo + 2, over whatever was stored above. */
  lemma SrPcStored(m0: Bytes, lo: u32, sr: u16, pc: u32)
    requires lo + 6 <= TWO32 && Mapped(m0, lo, 6)
    ensures var m := Write16(Write32(m0, lo + 2, pc), lo, sr);
      Read16(m, lo) == sr && Read32(m, lo + 2) == pc && SameOutside(m0, m, lo, 6)
  {
    hide Write16; hide Write32; hide Read16; hide Read32;
    var m1 := Write32(m0, lo + 2, pc);
    var m2 := Write16(m1, lo, sr);
    forall b: u32 ensures In(b, lo, 6) <==> In(b, lo, 2) || In(b, lo + 2, 4)
                  ensures !(In(b, lo, 2) && In(b, lo + 2, 4))
    {
      InRange(b, lo, 6); InRange(b, lo, 2); InRange(b, lo + 2, 4);
    }
    Write32Effect(m0, lo + 2, pc);
    Write16Effect(m1, lo, sr);
    assert Mapped(m0, lo + 2, 4) && Mapped(m1, lo, 2);
    assert SameOn(m1, m2, lo + 2, 4);
    ReadsSame(m1, m2, lo + 2);
  }

  /** The same with a format word above. */
  lemma FormatStored(m0: Bytes, lo: u32, sr: u16, pc: u32, word: u16)
    requires lo + 8 <= TWO32 && Mapped(m0, lo, 8)
    ensures var m := Write16(Write32(Write16(m0, lo + 6, word), lo + 2, pc), lo, sr);
      Read16(m, lo) == sr && Read32(m, lo + 2) == pc && Read16(m, lo + 6) == word && SameOutside(m0, m, lo, 8)
  {
    hide Write16; hide Write32; hide Read16; hide Read32;
    var m1 := Write16(m0, lo + 6, word);
    var m := Write16(Write32(m1, lo + 2, pc), lo, sr);
    forall b: u32 ensures In(b, lo, 8) <==> In(b, lo, 6) || In(b, lo + 6, 2)
                  ensures !(In(b, lo, 6) && In(b, lo + 6, 2))
    {
      InRange(b, lo, 8); InRange(b, lo, 6); InRange(b, lo + 6, 2);
    }
    Write16Effect(m0, lo + 6, word);
    assert Mapped(m0, lo + 6, 2) && Mapped(m1, lo, 6);
    SrPcStored(m1, lo, sr, pc);
    assert SameOn(m1, m, lo + 6, 2);
    ReadsSame(m1, m, lo + 6);
  }

  // ------------------------------------------------------------------ stacking

  method InitException(cpu: Cpu) returns (sr: u16)
    modifies cpu`t1, cpu`t0, cpu`dar, cpu`sp, cpu`s
    ensures sr == old(cpu.GetSr()) && cpu.t1 == 0 && cpu.t0 == 0 && cpu.s == 4
    ensures cpu.StackPointers() == old(cpu.StackPointers()) && cpu.dar[..15] == old(cpu.dar)[..15]
  {
    sr := cpu.GetSr();
    cpu.t1 := 0;
    cpu.t0 := 0;
    cpu.SetSFlag(4);
  }

  method StackFrame3Word(cpu: Cpu, pc: u32, sr: u16)
    modifies cpu`dar, cpu`mem
    ensures cpu.dar == old(cpu.dar)[15 := Wrap(old(cpu.Sp()) - 6)]
    ensures old(RoomBelow(cpu.cpuType, cpu.mem, cpu.dar[15], 6)) ==>
      && FrameAt(cpu.cpuType, cpu.mem, cpu.dar[15], sr, pc)
      && SameOutside(old(cpu.mem), cpu.mem, Addr(cpu.cpuType, cpu.dar[15]), 6)
  {
    hide Write16; hide Write32; hide Read16; hide Read32; hide Addr; hide Wrap;
    ghost var t, m0 := cpu.cpuType, cpu.mem;
    ghost var top: int := cpu.dar[15];
    cpu.Push32(pc);
    cpu.Push16(sr);
    WrapDown(top, 4, 2);
    if RoomBelow(t, m0, top, 6) {
      StackAddress(t, top, 6, 2);
      SrPcStored(m0, Addr(t, Wrap(top - 6)), sr, pc);
    }
  }

  method StackFormatWord(cpu: Cpu, pc: u32, sr: u16, word: u16)
    modifies cpu`dar, cpu`mem
    ensures cpu.dar == old(cpu.dar)[15 := Wrap(old(cpu.Sp()) - 8)]
    ensures old(RoomBelow(cpu.cpuType, cpu.mem, cpu.dar[15], 8)) ==>
      && FrameAt(cpu.cpuType, cpu.mem, cpu.dar[15], sr, pc)
      && WordAt(cpu.cpuType, cpu.mem, cpu.dar[15]) == word
      && SameOutside(old(cpu.mem), cpu.mem, Addr(cpu.cpuType, cpu.dar[15]), 8)
  {
    hide Write16; hide Write32; hide Read16; hide Read32; hide Addr; hide Wrap;
    ghost var t, m0 := cpu.cpuType, cpu.mem;
    ghost var top: int := cpu.dar[15];
    cpu.Push16(word);
    cpu.Push32(pc);
    cpu.Push16(sr);
    WrapDown(top, 2, 4);
    WrapDown(top, 6, 2);
    if RoomBelow(t, m0, top, 8) {
      StackAddress(t, top, 8, 2);
      StackAddress(t, top, 8, 6);
      FormatStored(m0, Addr(t, Wrap(top - 8)), sr, pc, word);
    }
  }

  method StackFrame0000(cpu: Cpu, pc: u32, sr: u16, vector: Vector)
    modifies cpu`dar, cpu`mem
    ensures cpu.dar == old(cpu.dar)[15 := Wrap(old(cpu.Sp()) - FrameSize(cpu.cpuType))]
    ensures old(RoomBelow(cpu.cpuType, cpu.mem, cpu.dar[15], FrameSize(cpu.cpuType))) ==>
      && Frame(cpu.cpuType, cpu.mem, cpu.dar[15], sr, pc, vector * 4)
      && SameOutside(old(cpu.mem), cpu.mem, Addr(cpu.cpuType, cpu.dar[15]), FrameSize(cpu.cpuType))
  {
    if cpu.cpuType == M68000 {
      StackFrame3Word(cpu, pc, sr);
      return;
    }
    StackFormatWord(cpu, pc, sr, vector * 4);
  }

  /** The throwaway frame of the 68020. */
  method StackFrame0001(cpu: Cpu, pc: u32, sr: u16, vector: Vector)
    modifies cpu`dar, cpu`mem
    ensures cpu.dar == old(cpu.dar)[15 := Wrap(old(cpu.Sp()) - 8)]
    ensures old(RoomBelow(cpu.cpuType, cpu.mem, cpu.dar[15], 8)) ==>
      && Frame(cpu.cpuType, cpu.mem, cpu.dar[15], sr, pc, 0x1000 + vector * 4)
      && SameOutside(old(cpu.mem), cpu.mem, Addr(cpu.cpuType, cpu.dar[15]), 8)
  {
    StackFormatWord(cpu, pc, sr, 0x1000 + vector * 4);
  }

  /** The trap frame of the 68020, with the address of the instruction above the format word. */
  method StackFrame0010(cpu: Cpu, sr: u16, vector: Vector)
    modifies cpu`dar, cpu`mem
    ensures cpu.dar == old(cpu.dar)[15 := Wrap(old(cpu.Sp()) - 12)]
    ensures old(RoomBelow(cpu.cpuType, cpu.mem, cpu.dar[15], 12)) ==>
      && Frame(cpu.cpuType, cpu.mem, cpu.dar[15], sr, cpu.pc, 0x2000 + vector * 4)
      && Read32(cpu.mem, Addr(cpu.cpuType, Wrap(old(cpu.Sp()) - 4))) == cpu.ppc
      && SameOutside(old(cpu.mem), cpu.mem, Addr(cpu.cpuType, cpu.dar[15]), 12)
  {
    hide Write16; hide Write32; hide Read16; hide Read32; hide Addr; hide Wrap;
    ghost var t, m0 := cpu.cpuType, cpu.mem;
    ghost var top: int := cpu.dar[15];
    cpu.Push32(cpu.ppc);
    ghost var m1 := cpu.mem;
    StackFormatWord(cpu, cpu.pc, sr, 0x2000 + vector * 4);
    WrapDown(top, 4, 8);
    if RoomBelow(t, m0, top, 12) {
      var lo := Addr(t, Wrap(top - 12));
      StackAddress(t, top, 12, 8);
      forall b: u32 ensures In(b, lo, 12) <==> In(b, lo, 8) || In(b, lo + 8, 4)
      {
        InRange(b, lo, 12); InRange(b, lo, 8); InRange(b, lo + 8, 4);
      }
      Write32Effect(m0, lo + 8, cpu.ppc);
      assert Mapped(m1, lo, 8);
      assert RoomBelow(t, m1, Wrap(top - 4), 8);
      forall b: u32 | In(b, lo + 8, 4) ensures !In(b, lo, 8) {
        InRange(b, lo, 8);
        InRange(b, lo + 8, 4);
      }
      assert SameOn(m1, cpu.mem, lo + 8, 4);
      ReadsSame(m1, cpu.mem, lo + 8);
      assert Mapped(m0, lo + 8, 4);
    }
  }

  function FrameSize(t: CpuType): nat {
    if t == M68000 then 6 else 8
  }

  method JumpVector(cpu: Cpu, vector: Vector)
    modifies cpu`pc
    ensures cpu.pc == Read32(cpu.mem, Addr(cpu.cpuType, Wrap(vector * 4 + cpu.vbr)))
  {
    cpu.pc := Wrap(vector * 4 + cpu.vbr);
    cpu.pc := Read32(cpu.mem, Addr(cpu.cpuType, cpu.pc));
  }

  /** The vector numbers, and the size of the frames. */
  lemma VectorNumbers()
    ensures EXCEPTION_ILLEGAL_INSTRUCTION == 4 && EXCEPTION_ZERO_DIVIDE == 5 && EXCEPTION_PRIVILEGE_VIOLATION == 8
    ensures EXCEPTION_FORMAT_ERROR == 14 && EXCEPTION_UNINITIALIZED_INTERRUPT == 15 && EXCEPTION_INTERRUPT_AUTOVECTOR == 24
    ensures FrameSize(M68000) == 6 && FrameSize(M68010) == FrameSize(M68EC020) == FrameSize(M68020) == 8
    ensures TrapSize(M68000) == 6 && TrapSize(M68010) == 8 && TrapSize(M68EC020) == TrapSize(M68020) == 12
  {
  }

  // ------------------------------------------------------------------ unwinding

  datatype Option<T> = None | Some(value: T)

  /** Where RTE ends: back at pc with a status register, or on a frame it does not know. */
  datatype Landing = Return(pc: u32, sr: u16, stacks: Stacks) | BadFormat(stacks: Stacks, s: SFlag, m: MFlag)

  /** What the frames in memory say about the end of an RTE.  A throwaway frame (format 1) only
      switches to the stack its status register selects; fuel bounds how many of them there are. */
  function Unwind(t: CpuType, mem: Bytes, st: Stacks, s: SFlag, m: MFlag, fuel: nat): Option<Landing>
    decreases fuel
  {
    hide Read16; hide Read32;
    var a := st.Active(s, m);
    var sr := Read16(mem, Addr(t, a));
    var pc := Read32(mem, Addr(t, Wrap(a + 2)));
    var format := FormatAt(t, mem, a);
    if t == M68000 then Some(Return(pc, sr, st.WithActive(s, m, Wrap(a + 6))))
    else if format == 0 then Some(Return(pc, sr, st.WithActive(s, m, Wrap(a + 8))))
    else if t == M68010 then Some(BadFormat(st, s, m))
    else if format == 2 then Some(Return(pc, sr, st.WithActive(s, m, Wrap(a + 12))))
    else if format != 1 then Some(BadFormat(st, s, m))
    else if fuel == 0 then None
    else Unwind(t, mem, st.WithActive(s, m, Wrap(a + 8)), SrS(sr), SrM(t, sr), fuel - 1)
  }

  /** What RTE finds at the supervisor stack pointer: SR and PC, and above them what the format says.  It knows
      format 0 on the 68010, and formats 0 and 2 on the 68020 types, where format 1 leads on. */
  lemma KnownFormats(t: CpuType, mem: Bytes, st: Stacks, m: MFlag)
    ensures var a: int := if m == 0 then st.isp else st.msp;
      var sr, pc := Read16(mem, Addr(t, a)), Read32(mem, Addr(t, (a + 2) % 0x1_0000_0000));
      var f: int := Read16(mem, Addr(t, (a + 6) % 0x1_0000_0000)) / 0x1000;
      var size := if t == M68000 then 6 else if f == 2 then 12 else 8;
      var above: u32 := (a + size) % 0x1_0000_0000;
      var late := t == M68EC020 || t == M68020;
      Unwind(t, mem, st, 4, m, 0) ==
        if late && f == 1 then None
        else if (t == M68010 && f != 0) || (late && f > 2) then Some(BadFormat(st, 4, m))
        else Some(Return(pc, sr, if m == 0 then st.(isp := above) else st.(msp := above)))
  {
    hide Read16; hide Read32; hide Addr;
  }

  ghost function Pending(cpu: Cpu, fuel: nat): Option<Landing>
    reads cpu
  {
    Unwind(cpu.cpuType, cpu.mem, cpu.StackPointers(), cpu.s, cpu.m, fuel)
  }

  /** A plain or trap frame below the active supervisor stack unwinds to what was stacked. */
  lemma UnwindOne(t: CpuType, mem: Bytes, st: Stacks, m: MFlag, size: nat, sr: u16, pc: u32)
    requires var p := Wrap(st.Active(4, m) as int - size);
      && FrameAt(t, mem, p, sr, pc)
      && (t == M68000 ==> size == 6)
      && (t != M68000 ==> (FormatAt(t, mem, p) == 0 && size == 8) || (Ec020Plus(t) && FormatAt(t, mem, p) == 2 && size == 12))
    ensures Unwind(t, mem, st.WithActive(4, m, Wrap(st.Active(4, m) as int - size)), 4, m, 0) == Some(Return(pc, sr, st))
  {
    hide Read16; hide Read32; hide Addr; hide Wrap;
    WrapBack(st.Active(4, m), size);
  }

  /** Supervisor mode was entered through a frame of the given size below the active supervisor
      stack, and an RTE from here would undo it. */
  twostate predicate Entered(cpu: Cpu, framePc: u32, vector: Vector, size: nat)
    reads cpu
  {
    var st := old(cpu.StackPointers());
    var a: int := st.Active(4, cpu.m);
    && cpu.s == 4 && cpu.m == old(cpu.m) && cpu.t1 == 0 && cpu.t0 == 0
    && cpu.StackPointers() == st.WithActive(4, cpu.m, Wrap(a - size))
    && cpu.dar[..15] == old(cpu.dar[..15])
    && cpu.pc == Read32(cpu.mem, Addr(cpu.cpuType, Wrap(vector * 4 + cpu.vbr)))
    && (old(RoomBelow(cpu.cpuType, cpu.mem, a, size)) ==>
          && Frame(cpu.cpuType, cpu.mem, Wrap(a - size), old(cpu.GetSr()), framePc,
                   (if size == 12 then 0x2000 else 0) + vector * 4)
          && (size == 12 ==> Read32(cpu.mem, Addr(cpu.cpuType, Wrap(a - 4))) == old(cpu.ppc))
          && SameOutside(old(cpu.mem), cpu.mem, Addr(cpu.cpuType, Wrap(a - size)), size)
          && Pending(cpu, 0) == Some(Return(framePc, old(cpu.GetSr()), st)))
  }

  /** m68ki_exception_trap: a format 2 frame on the 68020, a plain frame below it. */
  method ExceptionTrap(cpu: Cpu, vector: Vector)
    modifies cpu`t1, cpu`t0, cpu`dar, cpu`sp, cpu`s, cpu`mem, cpu`pc
    ensures Entered(cpu, old(cpu.pc), vector, TrapSize(cpu.cpuType))
    ensures cpu.s == 4 && cpu.m == old(cpu.m) && cpu.t1 == 0 && cpu.t0 == 0
    ensures var t, size, top := cpu.cpuType, TrapSize(cpu.cpuType), old(cpu.StackPointers().Active(4, cpu.m)) as int;
      var low := Wrap(top - size);
      && cpu.pc == Read32(cpu.mem, Addr(t, Wrap(4 * vector + cpu.vbr))) && cpu.dar[15] == low
      && (old(RoomBelow(cpu.cpuType, cpu.mem, top, size)) ==>
            Read16(cpu.mem, Addr(t, low)) == old(cpu.GetSr()) && Read32(cpu.mem, Addr(t, Wrap(low + 2))) == old(cpu.pc))
  {
    hide Read16; hide Read32; hide Addr; hide Wrap; hide SameOutside; hide RoomBelow; hide SrOf;
    hide FrameAt; hide WordAt; hide Unwind;
    ghost var st := cpu.StackPointers();
    ghost var size := TrapSize(cpu.cpuType);
    ghost var room := RoomBelow(cpu.cpuType, cpu.mem, st.Active(4, cpu.m), size);
    var sr := InitException(cpu);
    if !Ec020Plus(cpu.cpuType) {
      StackFrame0000(cpu, cpu.pc, sr, vector);
    } else {
      StackFrame0010(cpu, sr, vector);
    }
    if room {
      UnwindOne(cpu.cpuType, cpu.mem, st, cpu.m, size, sr, cpu.pc);
      FrameReadsBack(cpu.cpuType, cpu.mem, cpu.dar[15], sr, cpu.pc);
    }
    JumpVector(cpu, vector);
  }

  /** Privilege violation, illegal instruction and format error: a plain frame. */
  method ExceptionPlain(cpu: Cpu, framePc: u32, vector: Vector)
    modifies cpu`t1, cpu`t0, cpu`dar, cpu`sp, cpu`s, cpu`mem, cpu`pc
    ensures Entered(cpu, framePc, vector, FrameSize(cpu.cpuType))
  {
    hide Read16; hide Read32; hide Addr; hide Wrap; hide SameOutside; hide RoomBelow; hide SrOf;
    hide FrameAt; hide WordAt; hide Unwind;
    ghost var st := cpu.StackPointers();
    ghost var size := FrameSize(cpu.cpuType);
    ghost var room := RoomBelow(cpu.cpuType, cpu.mem, st.Active(4, cpu.m), size);
    var sr := InitException(cpu);
    StackFrame0000(cpu, framePc, sr, vector);
    if room {
      UnwindOne(cpu.cpuType, cpu.mem, st, cpu.m, size, sr, framePc);
    }
    JumpVector(cpu, vector);
  }

  // ------------------------------------------------------------------ interrupts

  /** The part of the machine that entry and RTE are about. */
  datatype Machine = Machine(mem: Bytes, pc: u32, sr: u16, stacks: Stacks, s: SFlag, m: MFlag)

  ghost function Of(cpu: Cpu): Machine
    reads cpu
  {
    Machine(cpu.mem, cpu.pc, cpu.GetSr(), cpu.StackPointers(), cpu.s, cpu.m)
  }

  /** The vector an interrupt jumps through: its autovector, or the uninitialised-interrupt vector. */
  function InterruptPc(t: CpuType, mem: Bytes, vbr: u32, level: nat): u32 {
    var pc := Read32(mem, Addr(t, Wrap((EXCEPTION_INTERRUPT_AUTOVECTOR + level) * 4 + vbr)));
    if pc != 0 then pc else Read32(mem, Addr(t, Wrap(EXCEPTION_UNINITIALIZED_INTERRUPT * 4 + vbr)))
  }

  lemma InterruptVector(t: CpuType, mem: Bytes, vbr: u32, level: nat)
    ensures var pc := Read32(mem, Addr(t, Wrap(4 * (24 + level) + vbr)));
      InterruptPc(t, mem, vbr, level) == if pc != 0 then pc else Read32(mem, Addr(t, Wrap(60 + vbr)))
  {
  }

  /** A 68020 interrupt with M set stacks on the master and on the interrupt stack. */
  predicate TwoStacks(t: CpuType, m: MFlag) {
    m == 2 && Ec020Plus(t)
  }

  /** Room for the frames of an interrupt; two frames must not overlap. */
  ghost predicate InterruptRoom(t: CpuType, mem: Bytes, st: Stacks, m: MFlag) {
    if TwoStacks(t, m) then
      && RoomBelow(t, mem, st.msp, 8) && RoomBelow(t, mem, st.isp, 8)
      && Apart(Addr(t, Wrap(st.msp as int - 8)), 8, Addr(t, Wrap(st.isp as int - 8)), 8)
    else
      RoomBelow(t, mem, st.Active(4, m), FrameSize(t))
  }

  /** The stack pointers after an interrupt has stacked its frames. */
  function InterruptStacks(t: CpuType, st: Stacks, m: MFlag): Stacks {
    if TwoStacks(t, m) then
      Stacks(st.usp, Wrap(st.isp as int - 8), Wrap(st.msp as int - 8))
    else
      st.WithActive(4, m, Wrap(st.Active(4, m) as int - FrameSize(t)))
  }

  /** Where the frames of an interrupt go. */
  lemma InterruptPlaces(t: CpuType, st: Stacks, m: MFlag)
    ensures var two := (t == M68EC020 || t == M68020) && m == 2;
      var size: int := if t == M68000 then 6 else 8;
      var isp, msp: int := st.isp, st.msp;
      InterruptStacks(t, st, m) ==
        (if two then Stacks(st.usp, (isp - 8) % 0x1_0000_0000, (msp - 8) % 0x1_0000_0000)
         else if m == 0 then Stacks(st.usp, (isp - size) % 0x1_0000_0000, st.msp)
         else Stacks(st.usp, st.isp, (msp - size) % 0x1_0000_0000))
      && InterruptM(t, m) == (if two then 0 else m) && Throwaways(t, m) == if two then 1 else 0
  {
  }

  /** The number of throwaway frames that an interrupt stacks. */
  function Throwaways(t: CpuType, m: MFlag): nat {
    if TwoStacks(t, m) then 1 else 0
  }

  /** The M flag after an interrupt. */
  function InterruptM(t: CpuType, m: MFlag): MFlag {
    if TwoStacks(t, m) then 0 else m
  }

  /** b is a byte of the frames that an interrupt stacks from the given stack pointers. */
  predicate InFrames(t: CpuType, st: Stacks, m: MFlag, b: u32) {
    if TwoStacks(t, m) then
      In(b, Addr(t, Wrap(st.msp as int - 8)), 8) || In(b, Addr(t, Wrap(st.isp as int - 8)), 8)
    else
      In(b, Addr(t, Wrap(st.Active(4, m) as int - FrameSize(t))), FrameSize(t))
  }

  /** Memory differs at most in the frames of an interrupt. */
  ghost predicate OnlyFrames(t: CpuType, st: Stacks, m: MFlag, m0: Bytes, m1: Bytes) {
    m0.Keys == m1.Keys && forall b <- m0.Keys | !InFrames(t, st, m, b) :: m0[b] == m1[b]
  }

  /** What stacking the frames of an interrupt from stack pointers st makes of the memory m0: only the
      frames change, they hold pc, sr and the vector offset, and RTE would go back to pc, sr and st. */
  ghost predicate FramesStacked(t: CpuType, m0: Bytes, st: Stacks, m: MFlag, m1: Bytes, pc: u32, sr: u16, vector: Vector) {
    InterruptRoom(t, m0, st, m) ==>
      && OnlyFrames(t, st, m, m0, m1) && FramesHold(t, st, m, m1, pc, sr, vector)
      && (TwoStacks(t, m) ==> SelectsMaster(t, m1, Wrap(st.isp as int - 8)))
      && Unwind(t, m1, InterruptStacks(t, st, m), 4, InterruptM(t, m), Throwaways(t, m)) == Some(Return(pc, sr, st))
  }

  /** The frames of an interrupt: with M set, the throwaway frame on the interrupt stack has S forced high. */
  ghost predicate FramesHold(t: CpuType, st: Stacks, m: MFlag, m1: Bytes, pc: u32, sr: u16, vector: Vector) {
    if TwoStacks(t, m) then
      && Frame(t, m1, Wrap(st.msp as int - 8), sr, pc, vector * 4)
      && Frame(t, m1, Wrap(st.isp as int - 8), WithS(sr), pc, 0x1000 + vector * 4)
    else
      Frame(t, m1, Wrap(st.Active(4, m) as int - FrameSize(t)), sr, pc, vector * 4)
  }

  /** An interrupt of this level was taken in state a, up to the jump to its handler. */
  ghost predicate Taken(cpu: Cpu, a: Machine, level: nat)
    requires level <= 7
    reads cpu
  {
    && cpu.s == 4 && cpu.t1 == 0 && cpu.t0 == 0 && cpu.intMask == level * 0x100 && cpu.intLevel == 0
    && cpu.m == InterruptM(cpu.cpuType, a.m) && cpu.StackPointers() == InterruptStacks(cpu.cpuType, a.stacks, a.m)
    && FramesStacked(cpu.cpuType, a.mem, a.stacks, a.m, cpu.mem, a.pc, a.sr, EXCEPTION_INTERRUPT_AUTOVECTOR + level)
  }

  /** The same with the jump: execution is at the start of the handler. */
  ghost predicate Interrupted(cpu: Cpu, a: Machine, level: nat)
    requires level <= 7
    reads cpu
  {
    Taken(cpu, a, level) && cpu.pc == InterruptPc(cpu.cpuType, a.mem, cpu.vbr, level)
  }

  /** The status register stored at a has S and M set. */
  predicate SelectsMaster(t: CpuType, mem: Bytes, a: u32) {
    var sr := Read16(mem, Addr(t, a));
    sr / 0x2000 % 2 == 1 && sr / 0x1000 % 2 == 1
  }

  /** The throwaway frame on the interrupt stack leads to the plain frame on the master stack. */
  lemma UnwindTwo(t: CpuType, mem: Bytes, st: Stacks, sr: u16, sr': u16, pc: u32)
    requires Ec020Plus(t) && sr' / 0x2000 % 2 == 1 && sr' / 0x1000 % 2 == 1
    requires var p := Wrap(st.msp as int - 8); FrameAt(t, mem, p, sr, pc) && FormatAt(t, mem, p) == 0
    requires var p := Wrap(st.isp as int - 8); FrameAt(t, mem, p, sr', pc) && FormatAt(t, mem, p) == 1
    ensures Unwind(t, mem, Stacks(st.usp, Wrap(st.isp as int - 8), Wrap(st.msp as int - 8)), 4, 0, 1)
            == Some(Return(pc, sr, st))
  {
    hide Read16; hide Read32; hide Addr; hide Wrap;
    WrapBack(st.isp, 8);
    assert SrS(sr') == 4 && SrM(t, sr') == 2;
    UnwindOne(t, mem, st, 2, 8, sr, pc);
  }

  /** RTE reads nothing of a frame but its bytes. */
  lemma FrameReads(t: CpuType, m0: Bytes, m1: Bytes, top: int, size: nat)
    requires (size == 6 || size == 8 || size == 12) && 0 <= top < TWO32
    requires Addr(t, Wrap(top - size)) + size <= AddressSpaceSize(t)
    requires SameOn(m0, m1, Addr(t, Wrap(top - size)), size)
    ensures var a := Wrap(top - size);
      && Read16(m1, Addr(t, a)) == Read16(m0, Addr(t, a))
      && Read32(m1, Addr(t, Wrap(a + 2))) == Read32(m0, Addr(t, Wrap(a + 2)))
      && (size > 6 ==> WordAt(t, m1, a) == WordAt(t, m0, a))
  {
    hide Read16; hide Read32; hide Addr; hide Wrap;
    var lo := Addr(t, Wrap(top - size));
    StackAddress(t, top, size, 2);
    if size > 6 {
      StackAddress(t, top, size, 6);
    }
    forall b: u32
      ensures In(b, lo, 2) || In(b, lo + 2, 4) || (size > 6 && In(b, lo + 6, 2)) ==> In(b, lo, size)
    {
      InRange(b, lo, size); InRange(b, lo, 2); InRange(b, lo + 2, 4);
      if size > 6 {
        InRange(b, lo + 6, 2);
      }
    }
    assert SameOn(m0, m1, lo, 2) && SameOn(m0, m1, lo + 2, 4);
    ReadsSame(m0, m1, lo);
    ReadsSame(m0, m1, lo + 2);
    if size > 6 {
      assert SameOn(m0, m1, lo + 6, 2);
      ReadsSame(m0, m1, lo + 6);
    }
  }

  /** A frame outside the written bytes stays what it was. */
  lemma FrameKept(t: CpuType, m0: Bytes, m1: Bytes, sp: int, at: u32, sr: u16, pc: u32)
    requires 0 <= sp < TWO32 && Addr(t, Wrap(sp - 8)) + 8 <= AddressSpaceSize(t)
    requires SameOutside(m0, m1, at, 8)
    requires Apart(Addr(t, Wrap(sp - 8)), 8, at, 8)
    ensures FrameAt(t, m0, Wrap(sp - 8), sr, pc) ==> FrameAt(t, m1, Wrap(sp - 8), sr, pc)
    ensures WordAt(t, m1, Wrap(sp - 8)) == WordAt(t, m0, Wrap(sp - 8))
  {
    hide Read16; hide Read32; hide Addr; hide Wrap;
    FrameReads(t, m0, m1, sp, 8);
  }

  /** sr | 0x2000: the S bit forced high. */
  function WithS(sr: u16): (r: u16)
    ensures r / 0x2000 % 2 == 1 && r / 0x1000 % 2 == sr / 0x1000 % 2
  {
    if sr / 0x2000 % 2 == 1 then sr else sr + 0x2000
  }

  /** Bit 13 is set, and no other bit changes. */
  lemma WithSMeaning(sr: u16)
    ensures WithS(sr) / 0x2000 % 2 == 1 && WithS(sr) % 0x2000 == sr % 0x2000 && WithS(sr) / 0x4000 == sr / 0x4000
  {
  }

  lemma FrameSelects(t: CpuType, mem: Bytes, a: u32, sr: u16, pc: u32)
    requires FrameAt(t, mem, a, sr, pc) && sr / 0x2000 % 2 == 1 && sr / 0x1000 % 2 == 1
    ensures SelectsMaster(t, mem, a)
  {
  }

  /** The frames of an interrupt, stacked in supervisor mode. */
  method StackInterrupt(cpu: Cpu, sr: u16, vector: Vector)
    requires cpu.s == 4 && (TwoStacks(cpu.cpuType, cpu.m) ==> sr / 0x1000 % 2 == 1)
    modifies cpu`dar, cpu`sp, cpu`s, cpu`m, cpu`mem
    ensures cpu.s == 4 && cpu.m == InterruptM(cpu.cpuType, old(cpu.m)) && cpu.dar[..15] == old(cpu.dar[..15])
    ensures cpu.StackPointers() == old(InterruptStacks(cpu.cpuType, cpu.StackPointers(), cpu.m))
    ensures FramesStacked(cpu.cpuType, old(cpu.mem), old(cpu.StackPointers()), old(cpu.m), cpu.mem, cpu.pc, sr, vector)
  {
    hide Read16; hide Read32; hide Addr; hide Wrap; hide SameOutside; hide RoomBelow;
    hide FrameAt; hide WordAt; hide Unwind; hide In; hide Apart; hide WithS;
    ghost var st, two, t := cpu.StackPointers(), TwoStacks(cpu.cpuType, cpu.m), cpu.cpuType;
    ghost var room := InterruptRoom(cpu.cpuType, cpu.mem, cpu.StackPointers(), cpu.m);
    StackFrame0000(cpu, cpu.pc, sr, vector);
    if room && !two {
      UnwindOne(t, cpu.mem, st, cpu.m, FrameSize(t), sr, cpu.pc);
    }
    ghost var m1 := cpu.mem;
    if cpu.m != 0 && Ec020Plus(cpu.cpuType) {
      cpu.SetSmFlag(cpu.s, 0);
      var throwawaySr := WithS(sr);
      StackFrame0001(cpu, cpu.pc, throwawaySr, vector);
      if room {
        RoomKept(t, st, old(cpu.mem), m1);
        FrameKept(t, m1, cpu.mem, st.msp, Addr(t, Wrap(st.isp as int - 8)), sr, cpu.pc);
        UnwindTwo(t, cpu.mem, st, sr, throwawaySr, cpu.pc);
        FrameSelects(t, cpu.mem, Wrap(st.isp as int - 8), throwawaySr, cpu.pc);
      }
    }
  }

  method ExceptionInterrupt(cpu: Cpu, level: nat)
    requires level <= 7
    modifies cpu`stopped, cpu`t1, cpu`t0, cpu`dar, cpu`sp, cpu`s, cpu`m, cpu`mem, cpu`pc, cpu`intMask, cpu`intLevel
    ensures cpu.stopped == old(cpu.stopped) - old(cpu.stopped) % 2
    ensures cpu.stopped != 0 ==>
      unchanged(cpu`t1, cpu`t0, cpu`dar, cpu`sp, cpu`s, cpu`m, cpu`mem, cpu`pc, cpu`intMask, cpu`intLevel)
    ensures cpu.stopped == 0 ==> Interrupted(cpu, old(Of(cpu)), level) && cpu.dar[..15] == old(cpu.dar[..15])
    ensures cpu.stopped == 0 ==>
      && cpu.s == 4 && cpu.t1 == 0 && cpu.t0 == 0 && cpu.intMask == level * 0x100 && cpu.intLevel == 0
      && var pc := old(Read32(cpu.mem, Addr(cpu.cpuType, Wrap(4 * (24 + level) + cpu.vbr))));
         cpu.pc == if pc != 0 then pc else old(Read32(cpu.mem, Addr(cpu.cpuType, Wrap(60 + cpu.vbr))))
    ensures old(cpu.Implemented()) ==> cpu.Implemented()
  {
    hide SrOf; hide FramesStacked; hide InterruptStacks; hide InterruptPc;
    cpu.stopped := cpu.stopped - cpu.stopped % 2;
    if cpu.stopped != 0 {
      return;
    }
    GetSrDigits(cpu);
    InterruptVector(cpu.cpuType, cpu.mem, cpu.vbr, level);
    var sr := InitException(cpu);
    ServeInterrupt(cpu, sr, level);
  }

  /** The part of it in supervisor mode: mask, vector, frames and jump. */
  method ServeInterrupt(cpu: Cpu, sr: u16, level: nat)
    requires level <= 7 && cpu.s == 4 && cpu.t1 == 0 && cpu.t0 == 0 && (TwoStacks(cpu.cpuType, cpu.m) ==> sr / 0x1000 % 2 == 1)
    modifies cpu`dar, cpu`sp, cpu`s, cpu`m, cpu`mem, cpu`pc, cpu`intMask, cpu`intLevel
    ensures Interrupted(cpu, old(Machine(cpu.mem, cpu.pc, sr, cpu.StackPointers(), cpu.s, cpu.m)), level)
    ensures cpu.dar[..15] == old(cpu.dar[..15])
  {
    hide Read32; hide Addr; hide Wrap; hide SrOf; hide FramesStacked; hide InterruptStacks;
    cpu.intMask := level * 0x100;
    var vector := EXCEPTION_INTERRUPT_AUTOVECTOR + level;
    var newPc := Read32(cpu.mem, Addr(cpu.cpuType, Wrap(vector * 4 + cpu.vbr)));
    if newPc == 0 {
      newPc := Read32(cpu.mem, Addr(cpu.cpuType, Wrap(EXCEPTION_UNINITIALIZED_INTERRUPT * 4 + cpu.vbr)));
    }
    StackInterrupt(cpu, sr, vector);
    cpu.pc := newPc;
    cpu.intLevel := 0;
  }

  lemma RoomKept(t: CpuType, st: Stacks, m0: Bytes, m1: Bytes)
    requires RoomBelow(t, m0, st.isp, 8) && m0.Keys == m1.Keys
    requires RoomBelow(t, m0, st.msp, 8)
    ensures RoomBelow(t, m1, st.isp, 8)
    ensures Addr(t, Wrap(st.msp as int - 8)) + 8 <= AddressSpaceSize(t)
  {
  }

  method CheckInterrupts(cpu: Cpu)
    modifies cpu`stopped, cpu`t1, cpu`t0, cpu`dar, cpu`sp, cpu`s, cpu`m, cpu`mem, cpu`pc, cpu`intMask, cpu`intLevel
    ensures old(cpu.intLevel <= cpu.intMask) ==>
      unchanged(cpu`stopped, cpu`t1, cpu`t0, cpu`dar, cpu`sp, cpu`s, cpu`m, cpu`mem, cpu`pc, cpu`intMask, cpu`intLevel)
    ensures old(cpu.intLevel > cpu.intMask) ==> cpu.stopped == old(cpu.stopped) - old(cpu.stopped) % 2
    ensures old(cpu.Implemented()) ==> cpu.Implemented()
    ensures old(cpu.intLevel > cpu.intMask) && cpu.stopped == 0 ==>
      Interrupted(cpu, old(Of(cpu)), old(cpu.intLevel) / 0x100) && cpu.dar[..15] == old(cpu.dar[..15])
    ensures cpu.stopped != 0 ==>
      unchanged(cpu`t1, cpu`t0, cpu`dar, cpu`sp, cpu`s, cpu`m, cpu`mem, cpu`pc, cpu`intMask, cpu`intLevel)
  {
    hide Interrupted; hide SrOf;
    if cpu.intLevel > cpu.intMask {
      ExceptionInterrupt(cpu, cpu.intLevel / 0x100);
    }
  }

  // ------------------------------------------------------------------ RTE

  /** Execution goes on from state a: there, or, when an interrupt above its mask is pending and the CPU is
      not halted, in the handler of that interrupt. */
  ghost predicate GoesOn(cpu: Cpu, a: Machine, intLevel: Ipl, stopped: u8)
    reads cpu
  {
    if Pends(a.sr, intLevel, stopped) then Interrupted(cpu, a, intLevel / 0x100)
    else Of(cpu) == a && cpu.intLevel == intLevel
  }

  /** The interrupt is taken once the status register is sr. */
  predicate Pends(sr: u16, intLevel: Ipl, stopped: u8) {
    intLevel > sr / 0x100 % 8 * 0x100 && stopped < 2
  }

  /** m68ki_set_sr: an interrupt whose level is above the new mask is taken at once. */
  method SetSr(cpu: Cpu, newSr: u16)
    modifies cpu
    ensures var t := cpu.cpuType;
      GoesOn(cpu, old(Of(cpu)).(sr := MaskSr(t, newSr), s := SrS(newSr), m := SrM(t, newSr)),
             old(cpu.intLevel), old(cpu.stopped))
    ensures cpu.Implemented() && cpu.dar[..15] == old(cpu.dar[..15]) && unchanged(cpu`ppc, cpu`ir, cpu`vbr)
    ensures !old(Pends(newSr, cpu.intLevel, cpu.stopped)) ==> cpu.intMask == newSr / 0x100 % 8 * 0x100
    ensures old(cpu.intLevel) <= newSr / 0x100 % 8 * 0x100 ==> unchanged(cpu`stopped)
  {
    hide SrOf; hide Interrupted; hide SrS; hide SrM; hide MaskSr;
    MaskedM(cpu.cpuType, newSr);
    cpu.SetSrNoint(newSr);
    CheckInterrupts(cpu);
  }

  lemma MaskedM(t: CpuType, sr: u16)
    ensures SrM(t, MaskSr(t, sr)) == SrM(t, sr)
  {
    hide MaskSr;
  }

  /** The state that frames ask for: only the implemented bits of the status register count. */
  function Landed(t: CpuType, mem: Bytes, l: Landing): Machine
    requires l.Return?
  {
    Machine(mem, l.pc, MaskSr(t, l.sr), l.stacks, SrS(l.sr), SrM(t, l.sr))
  }

  /** The end of an RTE on a known frame: pull SR and PC, drop the rest of the frame. */
  method ReturnFrom(cpu: Cpu, size: nat)
    requires size == 6 || size == 8 || size == 12
    modifies cpu
    ensures var a: int := old(cpu.Sp());
      var st := old(cpu.StackPointers().WithActive(cpu.s, cpu.m, Wrap(cpu.Sp() + size)));
      var l := old(Return(Read32(cpu.mem, Addr(cpu.cpuType, Wrap(a + 2))), Read16(cpu.mem, Addr(cpu.cpuType, a)), st));
      GoesOn(cpu, Landed(cpu.cpuType, old(cpu.mem), l), old(cpu.intLevel), old(cpu.stopped))
    ensures cpu.Implemented() && cpu.dar[..15] == old(cpu.dar[..15]) && cpu.vbr == old(cpu.vbr)
  {
    hide Read16; hide Read32; hide Addr; hide Wrap; hide MaskSr; hide SrOf; hide SrS; hide SrM; hide GoesOn;
    var newSr := cpu.Pull16();
    var newPc := cpu.Pull32();
    var a: int := old(cpu.Sp());
    WrapAdd(a + 2, 4);
    WrapAdd(a + 6, size - 6);
    cpu.dar := cpu.dar[15 := Wrap(cpu.Sp() + (size - 6))];
    cpu.pc := newPc;
    SetSr(cpu, newSr);
  }

  /** A throwaway frame: only its status register counts. */
  method DropThrowaway(cpu: Cpu)
    modifies cpu`dar, cpu`sp, cpu`s, cpu`m, cpu`t1, cpu`t0, cpu`intMask, cpu`x, cpu`n, cpu`notZ, cpu`v, cpu`c
    ensures var sr := Read16(cpu.mem, Addr(cpu.cpuType, old(cpu.dar[15]))); cpu.s == SrS(sr) && cpu.m == SrM(cpu.cpuType, sr)
    ensures cpu.StackPointers() == old(cpu.StackPointers().WithActive(cpu.s, cpu.m, Wrap(cpu.Sp() + 8)))
    ensures cpu.dar[..15] == old(cpu.dar[..15])
  {
    hide Read16; hide Addr; hide Wrap; hide MaskSr; hide SrOf;
    var a: int := cpu.Sp();
    var newSr := cpu.Pull16();
    WrapAdd(a + 2, 6);
    cpu.dar := cpu.dar[15 := Wrap(cpu.Sp() + 6)];
    cpu.SetSrNoint(newSr);
  }

  /** The state after an RTE in supervisor mode that found this in memory. */
  ghost predicate Left(cpu: Cpu, mem: Bytes, l: Landing, intLevel: Ipl, stopped: u8)
    reads cpu
  {
    match l
    case Return(_, _, _) => GoesOn(cpu, Landed(cpu.cpuType, mem, l), intLevel, stopped) && cpu.Implemented()
    case BadFormat(st, s, m) =>
      var sp, size: int := st.Active(4, m), FrameSize(cpu.cpuType);
      && cpu.s == 4 && cpu.m == m && cpu.StackPointers() == st.WithActive(4, m, Wrap(sp - size))
      && cpu.pc == Read32(cpu.mem, Addr(cpu.cpuType, Wrap(EXCEPTION_FORMAT_ERROR * 4 + cpu.vbr)))
      && (RoomBelow(cpu.cpuType, mem, sp, size) ==>
            SameOutside(mem, cpu.mem, Addr(cpu.cpuType, Wrap(sp - size)), size))
  }

  /** RTE: exactly what the frames in memory say; then an interrupt above the restored mask is taken. */
  method Rte(cpu: Cpu, ghost fuel: nat)
    requires cpu.s != 0 ==> Pending(cpu, fuel).Some?
    modifies cpu
    ensures old(cpu.s) == 0 ==> Entered(cpu, old(cpu.ppc), EXCEPTION_PRIVILEGE_VIOLATION, FrameSize(cpu.cpuType))
    ensures old(cpu.s) != 0 ==>
      Left(cpu, old(cpu.mem), old(Pending(cpu, fuel)).value, old(cpu.intLevel), old(cpu.stopped))
    ensures cpu.dar[..15] == old(cpu.dar[..15]) && cpu.vbr == old(cpu.vbr)
  {
    hide Read16; hide Read32; hide Addr; hide Wrap; hide SrOf; hide RoomBelow; hide SameOutside; hide GoesOn;
    hide Landed; hide SrS; hide SrM; hide FrameAt;
    if cpu.s == 0 {
      ExceptionPlain(cpu, cpu.ppc, EXCEPTION_PRIVILEGE_VIOLATION);
      return;
    }
    if cpu.cpuType == M68000 {
      ReturnFrom(cpu, 6);
      return;
    }
    if cpu.cpuType == M68010 {
      var format := Read16(cpu.mem, Addr(cpu.cpuType, Wrap(cpu.Sp() + 6))) / 0x1000;
      if format == 0 {
        ReturnFrom(cpu, 8);
      } else {
        ExceptionPlain(cpu, cpu.pc, EXCEPTION_FORMAT_ERROR);
      }
      return;
    }
    ghost var k := fuel;
    while true
      invariant Pending(cpu, k) == old(Pending(cpu, fuel))
      invariant cpu.mem == old(cpu.mem) && cpu.dar[..15] == old(cpu.dar)[..15]
      invariant unchanged(cpu`intLevel, cpu`stopped, cpu`vbr)
      decreases k
    {
      var format := Read16(cpu.mem, Addr(cpu.cpuType, Wrap(cpu.Sp() + 6))) / 0x1000;
      if format == 0 {
        ReturnFrom(cpu, 8);
        return;
      } else if format == 1 {
        DropThrowaway(cpu);
        k := k - 1;
      } else if format == 2 {
        ReturnFrom(cpu, 12);
        return;
      } else {
        ExceptionPlain(cpu, cpu.pc, EXCEPTION_FORMAT_ERROR);
        return;
      }
    }
  }

  // ------------------------------------------------------------------ RTE undoes entry

  /** What a handler leaves behind: any registers but the stack pointer, any condition codes and
      interrupt mask, any memory. */
  datatype HandlerEffect = HandlerEffect(regs: Regs, mem: Bytes, pc: u32, ppc: u32,
                                         x: u32, n: u32, notZ: u32, v: u32, c: u32, intMask: Ipl, intLevel: Ipl)

  /** A handler that balances its stack, followed by RTE.  It may change the frames. */
  method HandleAndReturn(cpu: Cpu, h: HandlerEffect, ghost fuel: nat)
    requires cpu.s == 4 && Unwind(cpu.cpuType, h.mem, cpu.StackPointers(), cpu.s, cpu.m, fuel).Some?
    modifies cpu
    ensures Left(cpu, h.mem, old(Unwind(cpu.cpuType, h.mem, cpu.StackPointers(), cpu.s, cpu.m, fuel)).value,
                 h.intLevel, old(cpu.stopped))
    ensures cpu.dar[..15] == h.regs[..15]
  {
    hide Unwind; hide SrOf; hide Left;
    RunHandler(cpu, h);
    Rte(cpu, fuel);
  }

  method RunHandler(cpu: Cpu, h: HandlerEffect)
    modifies cpu`dar, cpu`mem, cpu`pc, cpu`ppc, cpu`x, cpu`n, cpu`notZ, cpu`v, cpu`c, cpu`intMask, cpu`intLevel
    ensures cpu.dar == h.regs[15 := old(cpu.dar[15])] && cpu.StackPointers() == old(cpu.StackPointers())
    ensures cpu.mem == h.mem && cpu.intMask == h.intMask && cpu.intLevel == h.intLevel
  {
    cpu.dar := h.regs[15 := cpu.dar[15]];
    cpu.mem := h.mem;
    cpu.pc, cpu.ppc := h.pc, h.ppc;
    SetFlags(cpu, h);
  }

  method SetFlags(cpu: Cpu, h: HandlerEffect)
    modifies cpu`x, cpu`n, cpu`notZ, cpu`v, cpu`c, cpu`intMask, cpu`intLevel
    ensures cpu.intMask == h.intMask && cpu.intLevel == h.intLevel
  {
    cpu.x, cpu.n, cpu.notZ, cpu.v, cpu.c := h.x, h.n, h.notZ, h.v, h.c;
    cpu.intMask, cpu.intLevel := h.intMask, h.intLevel;
  }

  /** PC, SR and the three stack pointers are those of state a. */
  ghost predicate Restored(cpu: Cpu, a: Machine)
    reads cpu
  {
    cpu.pc == a.pc && cpu.GetSr() == a.sr && cpu.StackPointers() == a.stacks
  }

  /** The frames lead back to state a, but for bits of the status register that the CPU does not have. */
  predicate LeadsBack(t: CpuType, l: Landing, a: Machine) {
    l.Return? && l.pc == a.pc && MaskSr(t, l.sr) == a.sr && l.stacks == a.stacks
  }

  /** A trap, a handler and its RTE.  What a handler leaves in memory decides where execution goes on, for
      the 3-word frame of the 68000, format 0 of the 68010 and format 2 of the 68020.  If no interrupt takes
      over, PC, SR and all three stack pointers come back exactly if the frames lead back, which they do
      when the handler leaves the frame alone.  "entered" is the memory the handler starts with. */
  method TrapAndReturn(cpu: Cpu, vector: Vector, h: HandlerEffect, ghost fuel: nat) returns (ghost entered: Bytes)
    requires cpu.Implemented()
    requires RoomBelow(cpu.cpuType, cpu.mem, cpu.StackPointers().Active(4, cpu.m), TrapSize(cpu.cpuType))
    requires Unwind(cpu.cpuType, h.mem, TrapStacks(cpu.cpuType, cpu.StackPointers(), cpu.m), 4, cpu.m, fuel).Some?
    modifies cpu
    ensures var t, a := cpu.cpuType, old(Of(cpu));
      var st, sp := TrapStacks(t, a.stacks, a.m), Wrap(a.stacks.Active(4, a.m) as int - TrapSize(t));
      var l := Unwind(t, h.mem, st, 4, a.m, fuel).value;
      && Unwind(t, entered, st, 4, a.m, 0) == Some(Return(a.pc, a.sr, a.stacks))
      && SameOutside(a.mem, entered, Addr(t, sp), TrapSize(t))
      && Left(cpu, h.mem, l, h.intLevel, old(cpu.stopped)) && cpu.dar[..15] == h.regs[..15]
      && (l.Return? && !Pends(l.sr, h.intLevel, old(cpu.stopped)) ==> (Restored(cpu, a) <==> LeadsBack(t, l, a)))
      && (SameOn(entered, h.mem, Addr(t, sp), TrapSize(t)) ==> LeadsBack(t, l, a) && l.sr == a.sr)
  {
    hide MaskSr; hide SrOf; hide FrameAt; hide WordAt; hide SameOutside; hide SameOn; hide Read16;
    hide Read32; hide Addr; hide Wrap; hide SrS; hide SrM; hide Mapped; hide Unwind;
    MaskSrOfSr(cpu);
    ghost var a: int := cpu.StackPointers().Active(4, cpu.m);
    ExceptionTrap(cpu, vector);
    entered := cpu.mem;
    if SameOn(entered, h.mem, Addr(cpu.cpuType, Wrap(a - TrapSize(cpu.cpuType))), TrapSize(cpu.cpuType)) {
      TrapReads(cpu.cpuType, cpu.StackPointers(), cpu.m, a, entered, h.mem);
      MoreFuel(cpu.cpuType, h.mem, cpu.StackPointers(), 4, cpu.m, 0, fuel);
    }
    HandleAndReturn(cpu, h, fuel);
  }

  /** The stack pointers after a trap. */
  function TrapStacks(t: CpuType, st: Stacks, m: MFlag): Stacks {
    st.WithActive(4, m, Wrap(st.Active(4, m) as int - TrapSize(t)))
  }

  /** Fuel only bounds the number of throwaway frames. */
  lemma {:induction false} MoreFuel(t: CpuType, mem: Bytes, st: Stacks, s: SFlag, m: MFlag, k: nat, n: nat)
    requires k <= n && Unwind(t, mem, st, s, m, k).Some?
    ensures Unwind(t, mem, st, s, m, n) == Unwind(t, mem, st, s, m, k)
    decreases k
  {
    hide Read16; hide Read32; hide Addr; hide Wrap; hide SrS; hide SrM;
    var a: int := st.Active(s, m);
    var sr := Read16(mem, Addr(t, a));
    if k > 0 && Ec020Plus(t) && FormatAt(t, mem, a) == 1 {
      MoreFuel(t, mem, st.WithActive(s, m, Wrap(a + 8)), SrS(sr), SrM(t, sr), k - 1, n - 1);
    }
  }

  /** RTE after a trap reads nothing but the bytes of its frame. */
  lemma TrapReads(t: CpuType, st: Stacks, m: MFlag, top: int, m0: Bytes, m1: Bytes)
    requires 0 <= top < TWO32 && st.Active(4, m) == Wrap(top - TrapSize(t))
    requires Addr(t, Wrap(top - TrapSize(t))) + TrapSize(t) <= AddressSpaceSize(t)
    requires SameOn(m0, m1, Addr(t, Wrap(top - TrapSize(t))), TrapSize(t))
    requires Unwind(t, m0, st, 4, m, 0).Some?
    ensures Unwind(t, m1, st, 4, m, 0) == Unwind(t, m0, st, 4, m, 0)
  {
    hide Read16; hide Read32; hide Addr; hide Wrap; hide SameOn;
    FrameReads(t, m0, m1, top, TrapSize(t));
  }

  function TrapSize(t: CpuType): nat {
    if Ec020Plus(t) then 12 else FrameSize(t)
  }

  /** The bytes of the frames that an interrupt stacks from the given stack pointers. */
  ghost predicate SameFrames(t: CpuType, st: Stacks, m: MFlag, m0: Bytes, m1: Bytes) {
    if TwoStacks(t, m) then
      SameOn(m0, m1, Addr(t, Wrap(st.msp as int - 8)), 8) && SameOn(m0, m1, Addr(t, Wrap(st.isp as int - 8)), 8)
    else
      SameOn(m0, m1, Addr(t, Wrap(st.Active(4, m) as int - FrameSize(t))), FrameSize(t))
  }

  /** RTE after an interrupt reads nothing but the bytes of its frames. */
  lemma InterruptReads(t: CpuType, mem: Bytes, st: Stacks, m: MFlag, m0: Bytes, m1: Bytes)
    requires InterruptRoom(t, mem, st, m) && SameFrames(t, st, m, m0, m1)
    requires TwoStacks(t, m) ==> SelectsMaster(t, m0, Wrap(st.isp as int - 8))
    ensures var st', m', fuel := InterruptStacks(t, st, m), InterruptM(t, m), Throwaways(t, m);
      Unwind(t, m1, st', 4, m', fuel) == Unwind(t, m0, st', 4, m', fuel)
  {
    hide Read16; hide Read32; hide Addr; hide Wrap; hide Mapped; hide Apart;
    if TwoStacks(t, m) {
      FrameReads(t, m0, m1, st.isp, 8);
      FrameReads(t, m0, m1, st.msp, 8);
    } else {
      FrameReads(t, m0, m1, st.Active(4, m), FrameSize(t));
    }
  }

  /** The same for an interrupt, with its two frames if M is set. */
  method InterruptAndReturn(cpu: Cpu, level: nat, h: HandlerEffect, ghost fuel: nat) returns (ghost entered: Bytes)
    requires cpu.Implemented() && level <= 7 && cpu.stopped < 2
    requires InterruptRoom(cpu.cpuType, cpu.mem, cpu.StackPointers(), cpu.m)
    requires Unwind(cpu.cpuType, h.mem, InterruptStacks(cpu.cpuType, cpu.StackPointers(), cpu.m), 4,
                    InterruptM(cpu.cpuType, cpu.m), fuel).Some?
    modifies cpu
    ensures var t, a := cpu.cpuType, old(Of(cpu));
      var st, m := InterruptStacks(t, a.stacks, a.m), InterruptM(t, a.m);
      var l := Unwind(t, h.mem, st, 4, m, fuel).value;
      && Unwind(t, entered, st, 4, m, Throwaways(t, a.m)) == Some(Return(a.pc, a.sr, a.stacks))
      && OnlyFrames(t, a.stacks, a.m, a.mem, entered)
      && Left(cpu, h.mem, l, h.intLevel, 0) && cpu.dar[..15] == h.regs[..15]
      && (l.Return? && !Pends(l.sr, h.intLevel, 0) ==> (Restored(cpu, a) <==> LeadsBack(t, l, a)))
      && (SameFrames(t, a.stacks, a.m, entered, h.mem) ==> LeadsBack(t, l, a) && l.sr == a.sr)
  {
    hide Unwind; hide MaskSr; hide SrOf; hide InterruptRoom; hide Addr; hide Wrap; hide SameFrames; hide Read32;
    hide SelectsMaster; hide OnlyFrames; hide InterruptStacks; hide SrS; hide SrM;
    MaskSrOfSr(cpu);
    ghost var t, a := cpu.cpuType, Of(cpu);
    ExceptionInterrupt(cpu, level);
    entered := cpu.mem;
    if SameFrames(t, a.stacks, a.m, entered, h.mem) {
      InterruptReads(t, a.mem, a.stacks, a.m, entered, h.mem);
      SameUnwind(t, h.mem, cpu.StackPointers(), cpu.m, Throwaways(t, a.m), fuel);
    }
    HandleAndReturn(cpu, h, fuel);
  }

  /** Any two amounts of fuel that are enough give the same. */
  lemma SameUnwind(t: CpuType, mem: Bytes, st: Stacks, m: MFlag, k: nat, n: nat)
    requires Unwind(t, mem, st, 4, m, k).Some? && Unwind(t, mem, st, 4, m, n).Some?
    ensures Unwind(t, mem, st, 4, m, k) == Unwind(t, mem, st, 4, m, n)
  {
    if k <= n {
      MoreFuel(t, mem, st, 4, m, k, n);
    } else {
      MoreFuel(t, mem, st, 4, m, n, k);
    }
  }
}
