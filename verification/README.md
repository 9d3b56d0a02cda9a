# The tosemu machine, modelled in Dafny

tosemu runs Atari TOS programs on another host.  It contains the Musashi 68000-family CPU core, a memory
map made of areas, a loader that relocates programs, and replacements for the GEMDOS, BIOS and XBIOS calls.
This project models the parts with the most state and arithmetic and proves what they are for.

All numbers of the emulator are machine words.  Here a word is an integer below its bound; every place where
the C code wraps, shifts or masks says so with `Wrap`, a power of two or the bitwise operators of `Words.dfy`,
which are defined on the bits.  `M68K_USE_64_BIT` is off in the repository's configuration, so the portable
branches are the ones modelled; the 64-bit branches serve as a second specification where noted.  Where C
code combines fields that have no bit in common with `|`, the model adds them.

| file | what it models |
|---|---|
| `Words.dfy`, `Bits.dfy` | machine words, powers of two, bitwise operators, joining and splitting numbers at a bit |
| `FlatMemory.dfy` | memory as the CPU sees it: a map from accessible addresses to bytes, big-endian accesses |
| `AddressSpace.dfy` | the list of memory areas with permissions, and that it behaves as such a map |
| `Cpu.dfy`, `Exceptions.dfy` | registers, three stack pointers, status register, exception and interrupt entry, RTE |
| `Blocks.dfy`, `Flags.dfy`, `LongArithmetic.dfy` | blocks of memory below a pointer, carry and overflow macros, arithmetic of chains |
| `MultiPrecision.dfy`, `Decimal.dfy` | ADDX/SUBX and ABCD/SBCD, and chains of them |
| `Mull.dfy`, `Divl.dfy` | 32x32 multiplication and 64/32 division without 64-bit arithmetic |
| `Shifts.dfy`, `ShiftHandlers.dfy`, `Rotates.dfy` | shifts and rotates by a register count against one-bit steps |
| `Movem.dfy`, `BitField.dfy`, `Compare.dfy` | MOVEM save and restore, bit fields, CMP with the branch conditions |
| `Nesting.dfy` | traps, interrupts and RTEs nested in each other |
| `Supexec.dfy` | the XBIOS call that runs a subroutine in supervisor mode, and its way back through a magic address |
| `Allocation.dfy`, `Gemdos.dfy` | what GEMDOS memory calls do to the list of areas, and the linked list that does it |
| `Relocation.dfy` | the relocation-table interpreter of the loader |
| `OpcodeTable.dfy`, `OpcodeGenerator.dfy`, `OpcodeList.dfy` | the opcode jump table, the masks and the order the generator gives it, and what it makes of a line of the opcode list |

A handler of the CPU is a method on the object that holds the registers, with a contract about the whole
effect; what the effect means is a lemma about the functions in that contract.  Conditions such as room on a
stack are stated about addresses the CPU has and memory that can be accessed.  The map of accessible
addresses in the CPU model is the supervisor's view of the memory areas: in user mode the emulator also
refuses areas flagged for the supervisor only, as `AddressSpace.dfy` models.  The supervisor stack that
Supexec and the exceptions need room on is an area of that kind.

## Where the code differs from what one would expect

- Signed 64-bit DIVL reports overflow for the quotient -2^31, which fits, but for one dividend and divisor
  (`Divl.MinQuotientLost`, `Divl.QuadsAgree`).
- The 32-bit DIVL of -2^31 by -1 writes the quotient register first.  When both register fields name the same
  register, the remainder overwrites the quotient; every other path keeps the quotient
  (`Divl.QuotientOverwritten`, `Divl.QuotientKept`).
- `pop_u32` returns a `uint32_t` but goes through a `uint16_t`, so Supexec returns to the caller's PC only
  below 0x10000 (`Supexec.LostReturn`, `Supexec.CallAndReturn`).  With an interrupt pending at a change of mode, the PC set
  afterwards replaces that of its handler, whose frames are already stacked (`Supexec.Xbios.Supexec`,
  `Supexec.Xbios.MagicRead`).  The comment above Supexec says that D0 is
  set on the way back; the code sets it when the call is made, before the subroutine runs.
- The initial heap area ends 0x800 above the top that allocations compare with.  Until the program gives
  those bytes back, the gap at the end wraps and requests beyond memory succeed
  (`Allocation.InitialOvercommits`, `Allocation.FirstCall`).
- Malloc takes the base of an empty block again, and Mfree then finds the empty block first
  (`Allocation.EmptyBlockFreed`, `Allocation.FreeAfterMalloc`).
- Malloc, also with -1, looks only at the gaps behind areas unless the list is empty, so the space before the
  first area is neither counted as a gap nor given out (`Gemdos.MemoryManager.LargestGap`).
- `remove_memory_area` never advances its pointer, so that it ends only for the area at the head or on an
  empty list (`AddressSpace.RemovalOfHead`, `AddressSpace.RemovalOfSecond`).
- BFINS into a field that runs into a fifth byte masks that byte without shifting mask and value by the
  offset, so that it changes the wrong bits of it (`BitField.SpillDiffers`, `BitField.InsertExact`).

## Model

| member | source | states |
|---|---|---|
| `Divl.LongDivide` | Musashi/m68k_in.c:4666-4686 | Two shift-and-subtract loops on wrapping 32-bit words: for every hi < divisor, quotient * divisor + remainder = hi * 2^32 + lo with remainder < divisor, although the shifted remainder loses its top bit |
| `Divl.DivideQuad` | Musashi/m68k_in.c:4629-4711 | The 64/32 division with its sign handling and its special case delivers QuadResult, for every dividend and non-zero divisor |
| `Divl.SignedQuadMeaning` | Musashi/m68k_in.c:4629-4711 | Whenever V is clear the result is the quotient truncated towards zero and its remainder; V is set exactly when the quotient has magnitude 2^31 or more, outside the special case |
| `Divl.UnsignedQuadMeaning` | Musashi/m68k_in.c:4659-4711 | The unsigned form overflows exactly when hi >= divisor, and is exact division otherwise |
| `Divl.SignedLongMeaning` | Musashi/m68k_in.c:4714-4730 | The 32-bit signed form is truncated division for every operand but -2^31 / -1, which delivers 2^31 as a word |
| `Divl.UnsignedLongMeaning` | Musashi/m68k_in.c:4731-4741 | The 32-bit unsigned form is exact division |
| `Divl.VariantsAgree` | Musashi/m68k_in.c:4540-4607 | Wherever the handler with 64-bit integers is defined, both leave the same registers and the same N, Z, V and C if and only if the operands are neither a 64-bit division with quotient -2^31 outside the special case nor -2^31 / -1 in the 32-bit form with both results in one register |
| `Divl.QuadsAgree` | Musashi/m68k_in.c:4629-4711 | The results of the 64-bit division alone: the loops and the wide division agree if and only if the operands do not meet MinQuotient outside the special case |
| `Divl.Undefined64Meaning` | Musashi/m68k_in.c:4556-4569 | The 64-bit signed operands for which that handler is not defined are exactly those whose quotient no 64-bit word can hold |
| `Divl.QuotientKept` | Musashi/m68k_in.c:4714-4741 | In the 32-bit forms the quotient register ends with the quotient if and only if it is not the special case with both results in one register |
| `Divl.QuotientOverwritten` | Musashi/m68k_in.c:4720-4726 | A concrete DIVSL.L with both results in D0 that loses its quotient |
| `Divl.MinQuotientMeaning` | Musashi/m68k_in.c:4688-4694 | MinQuotient, a test on the operands, holds exactly when the quotient is -2^31 |
| `Divl.MinQuotientLost` | Musashi/m68k_in.c:4688-4694 | A concrete dividend, -2^31 divided by 1, whose quotient fits and is still reported as overflow |
| `Divl.DivlD` | Musashi/m68k_in.c:4611-4748 | The handler: illegal instruction below the 68EC020, zero-divide trap, V on overflow with the registers untouched, else remainder and quotient in their registers and N and Z of the quotient |
| `Divl.UnsignedDivision` | Musashi/m68k_in.c:4611-4748 | On the fields of the extension word: the 64-bit dividend is in Dr:Dq or the 32-bit one in Dq, Dq gets the exact quotient and Dr the remainder, with the flags of the quotient; or V and nothing else |
| `Divl.SignedDivision` | Musashi/m68k_in.c:4611-4748 | The same for the signed forms, as truncated division of two's complement numbers |
| `Mull.MultiplyHalves` | Musashi/m68k_in.c:7384-7396 | 32 by 32 bits from four 16-bit products with carries in 32-bit words: exactly the 64-bit product |
| `Mull.Multiply` | Musashi/m68k_in.c:7357-7403 | The signed or unsigned product modulo 2^64 for all operands |
| `Mull.ProductWords` | Musashi/m68k_in.c:7398-7402 | The two words are the exact product, read unsigned or as two's complement |
| `Mull.VariantsAgree` | Musashi/m68k_in.c:7309-7351 | The 64-bit variant leaves the same registers and the same N, Z, V and C as the portable code, for all operands and both sizes |
| `Mull.MullD` | Musashi/m68k_in.c:7305-7426 | Registers are those of the exact product; V of the 32-bit form is set exactly when the product does not fit; N and Z tell about the exact product |
| `Mull.Multiplication` | Musashi/m68k_in.c:7305-7426 | On the fields of the extension word: Dh:Dl is the exact signed or unsigned product, or Dl its low word with V when it does not fit; no other register changes |
| `Flags.CarryOfAdd` | Musashi/m68kcpu.h:640-649 | CFLAG_ADD_32 recovers the carry, and VFLAG_ADD_32 the signed overflow, from the wrapped sum, with a carry in |
| `Flags.BorrowOfSub` | Musashi/m68kcpu.h:640-651 | CFLAG_SUB_32 and VFLAG_SUB_32 are the borrow and the signed overflow, with a borrow in |
| `MultiPrecision.AddxMm32` | Musashi/m68k_in.c:1603-1618 | One ADDX.L -(Ay),-(Ax) on the registers named by bits 0-2 and 9-11: the exact sum with X at the decremented Ax split into stored long and carry, V the signed overflow, Z cleared or kept |
| `MultiPrecision.SubxMm32` | Musashi/m68k_in.c:9823-9838 | One SUBX.L -(Ay),-(Ax), likewise |
| `Blocks.OperandRegisters` | Musashi/m68kcpu.h:571-572 | In an instruction word the lowest three bits name AY, the source, and bits 9 to 11 name AX, the destination |
| `Blocks.PredecrementedMeaning` | Musashi/m68k_in.c:1603-1618 | Both registers go down by the operand size, one register that is both by twice as much, and no other register changes |
| `MultiPrecision.AddxChain` | Musashi/m68k_in.c:1603-1618 | For any n, n steps keep the chain relation between the operands, the stored limbs, X and Z, and change no byte but those of the destination |
| `MultiPrecision.SubxChain` | Musashi/m68k_in.c:9823-9838 | The same for n steps of SUBX.L |
| `MultiPrecision.ChainIsExact` | Musashi/m68k_in.c:1603-1618 | After n steps memory holds (A + B + X) or (A - B - X) modulo 2^(32n), X is the true carry or borrow, and Z is set exactly if it was and the whole number is zero |
| `MultiPrecision.AddThenSubtract` | Musashi/m68k_in.c:9823-9838 | A SUBX chain with the same starting X undoes an ADDX chain: all of memory is as before, and X ends as the carry of the addition |
| `MultiPrecision.NumberInjective` | Musashi/m68k_in.c:1603-1618 | Two memories with the same multi-precision number have the same limbs |
| `MultiPrecision.NumberLimb` | Musashi/m68k_in.c:1603-1618 | Limb k of the number in memory is the k-th long below the top |
| `MultiPrecision.OperandsMeaning` | Musashi/m68k_in.c:1603-1618 | What the chains ask for: two different registers, both numbers mapped, and no overlap; adjacent numbers are allowed |
| `Decimal.AbcdExact` | Musashi/m68k_in.c:1005-1019 | On valid digits with carry in the correction steps give exact decimal addition, and a valid result |
| `Decimal.SbcdExact` | Musashi/m68k_in.c:9170-9181 | On valid digits with borrow in, exact decimal subtraction modulo 100, and a valid result |
| `Decimal.BcdMeaning` | Musashi/m68k_in.c:1005-1019 | A byte is decimal if both its nibbles are below ten, and stands for ten times the upper one plus the lower one |
| `Decimal.AbcdMm` | Musashi/m68k_in.c:1000-1023 | The handler stores that byte and sets X, C and sticky Z; for all operands, valid or not, N and V both end as bit 7 of the result |
| `Decimal.SbcdMm` | Musashi/m68k_in.c:9165-9188 | The same for SBCD, but V is clear also when the low digits borrow |
| `Decimal.DecimalChain` | Musashi/m68k_in.c:1000-1023 | For any n, a chain over valid strings keeps the decimal chain relation and validity |
| `Decimal.ChainIsExact` | Musashi/m68k_in.c:9165-9188 | The chain is exact decimal addition or subtraction of the whole strings modulo 100^n, with X the carry or borrow |
| `Decimal.DecimalDigits` | Musashi/m68k_in.c:1000-1023 | The digits of the number in memory are those of its bytes, the k-th pair being the k-th byte below the top |
| `Decimal.DecimalOperandsMeaning` | Musashi/m68k_in.c:1000-1023 | The same for decimal strings, with valid bytes |
| `M68k.Cpu.SetSFlag` | Musashi/m68kcpu.h:1383-1393 | Entering or leaving supervisor mode changes none of USP, ISP and MSP as m68k_get_reg reports them |
| `M68k.Cpu.SetSmFlag` | Musashi/m68kcpu.h:1396-1405 | Switching S and M together changes none of the three stack pointers |
| `M68k.Cpu.SetSrNoint` | Musashi/m68kcpu.h:1427-1440 | Reading the status register back gives the masked value, and no stack pointer changes |
| `M68k.MaskSrOfSr` | Musashi/m68kcpu.h:733-738 | A status register that the CPU can hold passes CPU_SR_MASK unchanged |
| `M68k.SrRebuilt` | Musashi/m68kcpu.h:1417-1440 | Taking a status register apart into flag words and putting it together again is the identity |
| `M68k.SrBits` | Musashi/m68kcpu.h:1417-1424 | Bits 15, 14, 13 and 12 of the status register tell T1, T0, S and M, bits 8-10 the mask, and bits 4 to 0 X, N, Z, V and C |
| `M68k.Variants` | Musashi/m68kcpu.c:565-622 | The 68000, the 68010 and the EC020 see 24 address bits, the 68020 all; T0, M and the 68020 instructions are of the EC020 and the 68020 |
| `M68k.RoomMeaning` | Musashi/m68kcpu.h:1482-1525 | Room for n bytes below a stack pointer means that those n addresses are mapped |
| `Exceptions.InitException` | Musashi/m68kcpu.h:1467-1479 | Trace off, supervisor mode on, stack pointers kept; returns the status register from before |
| `Exceptions.StackFrame3Word` | Musashi/m68kcpu.h:1482-1488 | The frame is in memory where RTE reads it, and nothing else changes |
| `Exceptions.StackFrame0000` | Musashi/m68kcpu.h:1491-1504 | The same for format 0 and the vector offset, with the 3-word frame on the 68000 |
| `Exceptions.StackFrame0001` | Musashi/m68kcpu.h:1507-1514 | The same for the throwaway frame of format 1 and the vector offset |
| `Exceptions.StackFrame0010` | Musashi/m68kcpu.h:1517-1525 | The same for format 2, with the address of the instruction above the format word |
| `Exceptions.ExceptionTrap` | Musashi/m68kcpu.h:1717-1730 | After a trap, what an RTE would find is the PC, SR and stack pointers from before |
| `Exceptions.ExceptionInterrupt` | Musashi/m68kcpu.h:1908-1977 | The same for an interrupt, with two frames on two stacks when M is set, and no byte outside the frames changes |
| `Exceptions.UnwindTwo` | Musashi/m68k_in.c:8979-9022 | The throwaway frame leads RTE to the frame on the master stack |
| `Exceptions.CheckInterrupts` | Musashi/m68kcpu.h:1981-1986 | An interrupt is taken exactly when its level is above the mask |
| `Exceptions.Rte` | Musashi/m68k_in.c:8947-9029 | For every CPU type RTE resumes what the frames in memory say, and if an interrupt above the restored mask is pending it is taken right there; RTE loops over throwaway frames, reports other formats as format errors, and is a privilege violation in user mode |
| `Exceptions.SetSr` | Musashi/m68kcpu.h:1457-1461 | Writing SR sets its implemented bits and keeps the stack pointers; if an interrupt is above the new mask and the CPU is not halted, it is taken, and its RTE would come back with the new SR |
| `Exceptions.TrapAndReturn` | Musashi/m68kcpu.h:1717-1730 | A trap, any handler that may also change the frame, and its RTE: execution goes on where the frame then says; unless an interrupt takes over, PC, SR and all three stack pointers come back if and only if what RTE finds there leads to the old PC, the old stack pointers and the old SR but for bits the CPU does not have; leaving the frame bytes alone is enough |
| `Exceptions.TrapReads` | Musashi/m68k_in.c:8979-9022 | RTE after a trap depends on no byte but those of its frame |
| `Exceptions.InterruptAndReturn` | Musashi/m68kcpu.h:1908-1977 | The same for an interrupt, also one taken with M set, where RTE goes through both frames |
| `Exceptions.InterruptReads` | Musashi/m68k_in.c:8979-9022 | RTE after an interrupt depends on no byte but those of its frames |
| `Exceptions.VectorNumbers` | Musashi/m68kcpu.h:142-153 | The vectors of illegal instruction, zero divide, privilege violation, format error, uninitialised interrupt and autovectors, and the sizes of the frames per CPU type |
| `Exceptions.InterruptPlaces` | Musashi/m68kcpu.h:1908-1977 | Where an interrupt puts its frames: on a 68020 with M set 8 bytes on each of two stacks and M clear afterwards, else 6 or 8 bytes on the active one |
| `Exceptions.KnownFormats` | Musashi/m68k_in.c:8979-9022 | What RTE reads at the stack pointer: SR, then PC, then the format, and how much each format drops; formats other than 0 are errors on the 68010, those above 2 on the 68020 types, where format 1 leads on |
| `Nesting.TakeTrap` | Musashi/m68kcpu.h:1717-1730 | A trap is an entry event: frames that say how to go back, and no other byte changed |
| `Nesting.TakeInterrupt` | Musashi/m68kcpu.h:1908-1977 | So is an interrupt |
| `Nesting.ReturnFromException` | Musashi/m68k_in.c:8947-9029 | RTE is a return event to where the frames say; if an interrupt above the restored mask is pending, an entry event follows from there |
| `Nesting.ReturnRestores` | Musashi/m68k_in.c:8947-9029 | A return over intact frames brings back PC, SR and the three stack pointers from before the entry |
| `Nesting.NestedReturn` | Musashi/m68k_in.c:8947-9029 | In every run of traps, interrupts, handler work and RTEs, however deep they nest, each RTE restores PC, SR and the three stack pointers from before its own entry |
| `Nesting.ReturnsMatch` | Musashi/m68k_in.c:8947-9029 | Every RTE of a run belongs to an entry, so that the statement above is about each of them |
| `Supexec.PopU32` | cpu.c:70-77 | The popped long comes back modulo 2^16, because it goes through a uint16_t |
| `Supexec.EnableSupervisorMode` | cpu.c:26-29 | S is set and nothing else of SR, no stack pointer and no memory changes; a pending interrupt above the mask is taken at once, stacked with the SR that has S set |
| `Supexec.DisableSupervisorMode` | cpu.c:31-34 | S is cleared, likewise; a pending interrupt is taken from user mode |
| `Supexec.Xbios.SaveRegs` | xbios.c:46-53 | D3-D7 and A3-A6 are saved |
| `Supexec.Xbios.RestoreRegs` | xbios.c:55-62 | They are restored, and no other register changes |
| `Supexec.Xbios.Supexec` | xbios.c:80-96 | Called in either mode, it switches to supervisor mode, pushes PC and 0x200 on that stack and continues at the subroutine; with an interrupt pending its frames are stacked first, and what is pushed above them is the PC of its handler |
| `Supexec.Xbios.MagicRead` | xbios.c:99-114 | Reading 0x201 pops the PC, leaves supervisor mode and restores the registers; a pending interrupt is stacked from user mode, but the popped PC replaces that of its handler; the two bytes read are a NOP |
| `Supexec.Xbios.Fetch` | Musashi/m68kcpu.h:995-1011 | Fetching at 0x200 or 0x201 in supervisor mode does that; fetching elsewhere reads memory and only advances the PC |
| `Supexec.SupervisorBit` | cpu.c:26-34 | Setting and clearing bit 13 of a status register leaves M, the interrupt mask and the implemented bits |
| `Exceptions.WithSMeaning` | cpu.c:26-29 | Setting S sets bit 13 of the status register and changes no other bit |
| `Supexec.WithoutSMeaning` | cpu.c:31-34 | Leaving supervisor mode clears bit 13 and changes no other bit |
| `Supexec.MagicValues` | xbios.c:99-114 | The magic addresses are 0x200 and 0x201, they read as a NOP, and the registers kept are D3-D7 and A3-A6 |
| `Supexec.PushedTwo` | cpu.c:53-59 | Both pushed longs can be read back, and no other byte changes |
| `Supexec.RoomIs` | cpu.c:53-59 | What a call asks for: the eight bytes below the supervisor stack pointer are mapped |
| `Supexec.CallAndReturn` | xbios.c:64-114 | From user mode and through any subroutine with a balanced stack: it is back in user mode if and only if the long under its RTS leads into the magic area and no interrupt takes over; then both stack pointers, D3-D7 and A3-A6 are as at the call and the PC is the lower half of the second long; if the subroutine leaves the two longs alone that is the PC of the call if and only if it is below 0x10000 |
| `Supexec.LostReturn` | cpu.c:70-77 | A concrete call at 0x12344 that comes back at 0x2344 |
| `Shifts.LeftValue` | Musashi/m68k_in.c:2099-2210 | k one-bit steps to the left give src * 2^k modulo the width |
| `Shifts.AslOverflow` | Musashi/m68k_in.c:2099-2210 | The sign changed at some step exactly if the top k + 1 bits are not all the same |
| `Shifts.AslOverflowAll` | Musashi/m68k_in.c:2099-2210 | With at least as many steps as bits, exactly if the operand was not zero |
| `Shifts.AsrValue` | Musashi/m68k_in.c:1874-2027 | k arithmetic steps divide the signed value by 2^k, rounding down |
| `Shifts.StepsMeaning` | Musashi/m68k_in.c:1874-2210 | Value, C, X and V after any number of steps of all four operations in closed form |
| `ShiftHandlers.TableIs` | Musashi/m68kcpu.c:80-113 | Entry k of each shift table has exactly the top k bits |
| `ShiftHandlers.AslMask` | Musashi/m68k_in.c:2155-2157 | Masking with entry k + 1 tells whether the top k + 1 bits are all the same |
| `ShiftHandlers.Asl8` | Musashi/m68k_in.c:2099-2133 | ASL.B by 0 to 63 is that many single-bit steps: result, N, Z, C, V, and X untouched at count 0 |
| `ShiftHandlers.Asl16` | Musashi/m68k_in.c:2136-2170 | ASL.W likewise |
| `ShiftHandlers.Asl32` | Musashi/m68k_in.c:2173-2207 | ASL.L likewise |
| `ShiftHandlers.Lsl8` | Musashi/m68k_in.c:5505-5539 | LSL.B likewise |
| `ShiftHandlers.Lsl16` | Musashi/m68k_in.c:5542-5576 | LSL.W likewise |
| `ShiftHandlers.Lsl32` | Musashi/m68k_in.c:5579-5612 | LSL.L likewise |
| `ShiftHandlers.Asr8` | Musashi/m68k_in.c:1874-1923 | ASR.B likewise |
| `ShiftHandlers.Asr16` | Musashi/m68k_in.c:1926-1975 | ASR.W likewise |
| `ShiftHandlers.Asr32` | Musashi/m68k_in.c:1978-2027 | ASR.L likewise |
| `ShiftHandlers.Lsr8` | Musashi/m68k_in.c:5332-5366 | LSR.B likewise |
| `ShiftHandlers.Lsr16` | Musashi/m68k_in.c:5369-5403 | LSR.W likewise |
| `ShiftHandlers.Lsr32` | Musashi/m68k_in.c:5406-5439 | LSR.L likewise |
| `ShiftHandlers.LeftGood` | Musashi/m68k_in.c:2099-2207 | The closed forms of ASL and LSL at any width leave the result and the flags of that many single steps |
| `ShiftHandlers.RightGood` | Musashi/m68k_in.c:1874-2027 | The closed forms of ASR and LSR do |
| `ShiftHandlers.ShiftedMeaning` | Musashi/m68k_in.c:1874-2210 | The twelve handlers on the fields of the instruction word: DY is shifted by DX modulo 64 to that closed form with its flags, and nothing else changes |
| `Rotates.LeftsJoin` | Musashi/m68kcpu.h:286-298 | k one-bit turns exchange the upper k bits of a word with the others, for any width |
| `Rotates.RightsUndoLefts` | Musashi/m68kcpu.h:286-298 | k turns to the right undo k turns to the left |
| `Rotates.LeftsUndoRights` | Musashi/m68kcpu.h:286-298 | And the other way round |
| `Rotates.RolTurns` | Musashi/m68kcpu.h:286-290 | The two-shift macros ROL_8, ROL_16 and ROL_32 are k one-bit turns |
| `Rotates.RorTurns` | Musashi/m68kcpu.h:293-297 | ROR_8, ROR_16 and ROR_32 are k one-bit turns to the right |
| `Rotates.Rol8` | Musashi/m68k_in.c:8394-8426 | ROL.B by any count is that many one-bit turns; C is the bit that went round last, X is untouched |
| `Rotates.Rol16` | Musashi/m68k_in.c:8429-8461 | ROL.W likewise |
| `Rotates.Rol32` | Musashi/m68k_in.c:8464-8489 | ROL.L likewise; C is not described for a count of 32 |
| `Rotates.Ror8` | Musashi/m68k_in.c:8249-8273 | ROR.B likewise |
| `Rotates.Ror16` | Musashi/m68k_in.c:8276-8300 | ROR.W likewise |
| `Rotates.Ror32` | Musashi/m68k_in.c:8303-8327 | ROR.L likewise |
| `Rotates.TurnsMeaning` | Musashi/m68kcpu.h:286-298 | Any number of turns exchanges the two parts of the word |
| `Rotates.TurnedMeaning` | Musashi/m68k_in.c:8249-8489 | The six handlers on the fields of the instruction word: DY is turned by DX modulo 64, and nothing else changes |
| `Rotates.RotateBack` | Musashi/m68k_in.c:8249-8489 | A rotate by the same count the other way restores all registers |
| `Rotates.RolThroughTurns` | Musashi/m68k_in.c:8892-8893 | The 32-bit formula with X cleared in and put in is k turns of the 33 bits X:Dn, and the tested bit is the new X |
| `Rotates.RorThroughTurns` | Musashi/m68k_in.c:8679-8680 | The same to the right |
| `Rotates.WideRotates` | Musashi/m68k_in.c:8855-8886 | The 64-bit formulas compute the same 33 bits |
| `Rotates.ThroughVariantsAgree` | Musashi/m68k_in.c:8642-8909 | The handlers of ROXL.L and ROXR.L with 64-bit integers leave the same registers and the same X, N, Z, V and C, for every count |
| `Rotates.Roxl32` | Musashi/m68k_in.c:8886-8909 | ROXL.L by any count rotates X:Dn as 33 bits by that count |
| `Rotates.Roxr32` | Musashi/m68k_in.c:8673-8696 | ROXR.L likewise |
| `Rotates.TurnedThroughMeaning` | Musashi/m68k_in.c:8642-8909 | The same for X and DY as 33 bits |
| `Rotates.RotateThroughBack` | Musashi/m68k_in.c:8642-8699 | ROXL.L and ROXR.L by the same count undo each other, X included |
| `Movem.MovemPd` | Musashi/m68k_in.c:6905-6922 | The save writes the listed registers downwards in the mirrored order and leaves An at the last one |
| `Movem.MovemPi` | Musashi/m68k_in.c:7021-7038 | The restore reads them upwards and leaves An behind the last one |
| `Movem.OneRegister` | Musashi/m68k_in.c:6905-7038 | Bit k of the list stands for register 15 - k of D0-D7, A0-A7 when it is saved downwards and for register k when it is restored upwards |
| `Movem.LoadedAt` | Musashi/m68k_in.c:7021-7038 | Each listed register gets the long behind those of the listed registers before it, and the others stay |
| `Movem.CountMeaning` | Musashi/m68k_in.c:6905-7038 | The count that places a register is the number of bits set below its own |
| `Movem.StoredIsSaved` | Musashi/m68k_in.c:6905-6922 | A save changes exactly 4 bytes for each bit of the list, and An's are its value before |
| `Movem.RestoreUndoesSave` | Musashi/m68k_in.c:7021-7038 | For all lists, also with An in them, a restore with the mirrored list brings back An and every listed register and leaves the others, whatever happened to registers other than An and to memory elsewhere |
| `BitField.WithFieldMeaning` | Musashi/m68k_in.c:2824-2826 | Replacing a field: the field reads back, and the bits on both sides stay |
| `BitField.FieldOperands` | Musashi/m68k_in.c:2789-2828 | The fields of the extension word: data register, offset or its register, width or its register; the offset is signed in memory and modulo 32 in a register, a width of 0 stands for 32 |
| `BitField.LeftsOf` | Musashi/m68k_in.c:2811-2826 | The register turned so that the field is on top |
| `BitField.InsertTurned` | Musashi/m68k_in.c:2811-2826 | Rotated mask and rotated value replace exactly the field, for every offset and width, also around the end of the register |
| `BitField.BfinsD` | Musashi/m68k_in.c:2789-2828 | BFINS on a register changes only the field of DY; N and Z tell about the inserted field |
| `BitField.BfextuD` | Musashi/m68k_in.c:2618-2649 | BFEXTU on a register delivers the field and its N and Z |
| `BitField.InsertedMeaning` | Musashi/m68k_in.c:2789-2828 | On the fields of the words, for a field that does not wrap: DY gets the low width bits of the data register at the offset from its top and keeps the bits on both sides; no other register changes |
| `BitField.ExtractedMeaning` | Musashi/m68k_in.c:2618-2649 | Likewise the data register gets DY shifted down and cut to the width |
| `BitField.InsertThenExtract` | Musashi/m68k_in.c:2618-2649 | BFINS then BFEXTU returns the low width bits of what was inserted |
| `BitField.Normalise` | Musashi/m68k_in.c:2667-2675 | The offset arithmetic of C is floor division by 8 and the remainder, for every signed offset |
| `BitField.FieldPlace` | Musashi/m68k_in.c:2667-2675 | Bit offset 8k + o, for any k, is bit o of the byte k bytes on |
| `BitField.BfinsMemory` | Musashi/m68k_in.c:2831-2889 | BFINS on memory, for every field: the long gets its part of the field; a field that runs into a fifth byte changes the top w - 24 bits of that byte, wherever the field starts; no other byte changes; N tells about the inserted field, Z about the field and the masked bits of the fifth byte |
| `BitField.InsertExact` | Musashi/m68k_in.c:2864-2886 | BFINS replaces exactly the field, for all memory and all values, if and only if the field does not run into the fifth byte |
| `BitField.FiveMeaning` | Musashi/m68k_in.c:2864-2886 | What an exact replacement in five bytes means: the field is there, and the bits on both sides stay |
| `BitField.SpillDiffers` | Musashi/m68k_in.c:2879-2886 | Where it does, inserting zeros over ones clears too many bits |
| `BitField.BfextuMemory` | Musashi/m68k_in.c:2652-2696 | BFEXTU on memory delivers the field of the five bytes with its N and Z, for every offset and width |
| `BitField.FillIn` | Musashi/m68k_in.c:2677-2684 | The long shifted up with the top of the fifth byte filled in has the whole field on top |
| `BitField.InsertThenExtractMemory` | Musashi/m68k_in.c:2831-2889 | The round trip in memory for a field within its long, with every byte outside the long unchanged |
| `Compare.Cmp8` | Musashi/m68k_in.c:3853-3863 | After CMP.B all ten conditions hold exactly when the unsigned or signed comparison of destination with source does |
| `Compare.Cmp16` | Musashi/m68k_in.c:3879-3889 | After CMP.W likewise |
| `Compare.Cmp32` | Musashi/m68k_in.c:3918-3928 | After CMP.L likewise |
| `Compare.Verdict` | Musashi/m68kcpu.h:689-702 | For every operand width the conditions, computed from flag words that hold N, V, Z and the borrow, are the comparisons |
| `Gemdos.MemoryManager.FindMemArea` | gemdosmem.c:42-57 | The first node with the base, and its predecessor |
| `Gemdos.MemoryManager.LargestGap` | gemdosmem.c:112-144 | Malloc(-1) returns the size of the largest gap behind an area, or of the whole heap when there is none |
| `Gemdos.MemoryManager.Malloc` | gemdosmem.c:112-209 | The list changes as the specification of the call says: the lowest gap larger than the request, through a newly allocated node, or no change and 0 |
| `Gemdos.MemoryManager.Mfree` | gemdosmem.c:211-234 | The first area with the base is unlinked, or the call fails and changes nothing |
| `Gemdos.MemoryManager.Mshrink` | gemdosmem.c:59-79 | The first area with the base is shrunk, or the call fails and changes nothing |
| `Gemdos.MemoryManager.DoAll` | gemdosmem.c:59-234 | Any sequence of calls on the linked list is a run of the specification, so a list that is laid out stays so after every call |
| `Gemdos.MemoryManager.constructor` | gemdosmem.c:237-249 | The initial list |
| `Allocation.StepKeepsLaid` | gemdosmem.c:59-234 | Every call keeps the list sorted, without overlap and below the allocatable top |
| `Allocation.MallocMeaning` | gemdosmem.c:146-207 | On a list that is laid out the new area starts at the end of the first area that has more than n bytes after it, or at 0x900 on an empty list; else the call returns 0 |
| `Allocation.LargestMeaning` | gemdosmem.c:112-144 | Malloc(-1) returns the most bytes after any area |
| `Allocation.MshrinkMeaning` | gemdosmem.c:59-79 | The first area with the base gets exactly the new length if it does not grow; otherwise -67, or -40 when no area has the base, and no change |
| `Allocation.MfreeMeaning` | gemdosmem.c:211-234 | Exactly the first area with the base goes; -40 and no change when there is none |
| `Allocation.RunKeepsLaid` | gemdosmem.c:59-234 | So does every run of calls |
| `Allocation.MallocDisjoint` | gemdosmem.c:146-207 | A new region is disjoint from every live area, ends below the top, and is all that changes |
| `Allocation.ApartMeaning` | gemdosmem.c:146-207 | Areas that are disjoint in that sense have no address in common |
| `Allocation.MallocAgreesWithLargest` | gemdosmem.c:112-207 | In every state a request is allocated if and only if it is smaller than what Malloc(-1) returns |
| `Allocation.FreeAfterMalloc` | gemdosmem.c:146-234 | Freeing what Malloc returned restores the list if and only if the block before the gap is not empty or the request is |
| `Allocation.MfreeAfterMalloc` | gemdosmem.c:146-234 | Over the calls: Mfree of what Malloc returned succeeds, and the list is as before if and only if the request is 0 or no empty block has that base |
| `Allocation.InitialOvercommits` | gemdosmem.c:237-249 | The initial area ends 0x800 above the top, so the first request succeeds beyond the end of memory: the initial state does not keep the invariant |
| `Allocation.FirstCall` | gemdosmem.c:59-249 | From the initial list a call establishes the invariant if and only if it is a Mshrink of the program's area that gives back those 0x800 bytes, or a Mfree of that area in a memory that reaches the heap |
| `Allocation.EmptyBlockFreed` | gemdosmem.c:146-234 | A concrete list where Mfree of what Malloc returned takes an older empty block instead |
| `AddressSpace.Memory.FindMemarea` | memory.c:103-116 | The first area that covers the address |
| `AddressSpace.Memory.AddPtrMemoryArea` | memory.c:44-71 | A new area hides the older ones at its addresses and no others |
| `AddressSpace.Memory.RemoveMemoryArea` | memory.c:73-95 | A call that ends removes the head, or fails on an empty list |
| `AddressSpace.RemovalOfHead` | memory.c:73-95 | The loop, whose pointer never advances, ends if and only if the list is empty or the area asked for is its head |
| `AddressSpace.RemovalOfSecond` | memory.c:73-95 | Two areas for which it runs for ever |
| `AddressSpace.Memory.ResetMemory` | memory.c:97-101 | Removing heads empties the list, and each of those calls ends |
| `AddressSpace.Memory.TosRead` | memory.c:141-165 | Reads see the flat view; a refused read gives 0 and halts |
| `AddressSpace.Memory.TosWrite` | memory.c:167-190 | A permitted write changes one byte of the view; a refused one changes nothing and halts |
| `AddressSpace.Permissions` | memory.c:141-190 | In user mode only flags 1 and 2 permit reading and writing, in supervisor mode 4 and 8 as well |
| `AddressSpace.CoversMeaning` | memory.c:103-116 | An area that ends below the end of the address space covers exactly its len bytes, any other none |
| `AddressSpace.Memory.ReadMemory16` | memory.c:198-209 | The accumulating loop is the big-endian read of the view |
| `AddressSpace.Memory.ReadMemory32` | memory.c:210-222 | The same for longs |
| `AddressSpace.Memory.WriteMemory16` | memory.c:240-248 | The loop writes the permitted bytes of the word; every other byte of memory stays, readable in this mode or not |
| `AddressSpace.Memory.WriteMemory32` | memory.c:249-257 | The same for longs |
| `AddressSpace.OutsideMeaning` | memory.c:240-257 | The bytes outside an access are all those below its first and above its last |
| `AddressSpace.WriteThenRead` | memory.c:210-257 | A permitted long write is read back across area boundaries and overlapping areas, and every other byte of memory stays, readable in this mode or not |
| `AddressSpace.FlatWrites` | memory.c:240-257 | Where the bytes of an access can be written if they can be read, the write is the write of the flat memory that the CPU model uses |
| `AddressSpace.WriteBytesMeaning` | memory.c:249-257 | Of a long write exactly the permitted bytes arrive, each the one that big-endian order gives its address, also when others are refused |
| `AddressSpace.WriteIsFlat32` | memory.c:249-257 | The byte-by-byte long write is the flat one |
| `FlatMemory.Write32Effect` | memory.c:210-257 | A long written is read back, and no other byte changes, with addresses that wrap |
| `FlatMemory.ReadHalves` | memory.c:198-222 | A long read is the concatenation of its two word reads |
| `FlatMemory.BigEndian` | memory.c:198-257 | The byte at the lowest address is the most significant one, in reads and in writes |
| `FlatMemory.NoAccess` | memory.c:141-190 | An address without access reads as 0 and drops what is written |
| `Relocation.Relocate` | tossystem.c:187-220 | The interpreter loop adjusts the longs at exactly the offsets that the table denotes, as far as they can be written, and leaves every other byte of memory |
| `Relocation.RelocationEffect` | tossystem.c:203-218 | With offsets at least 4 apart and longs that can be read and written, each of those longs grows by 0x900 modulo 2^32 once, and no other byte changes |
| `Relocation.RoundTrip` | tossystem.c:205-218 | Encoding a list of offsets and interpreting the table gives the list back |
| `Relocation.TableEntry` | tossystem.c:205-218 | k bytes 1 and a byte b lead to the long 254 * k + b bytes on; a byte 0 ends the table |
| `Relocation.OffsetsHaveGaps` | tossystem.c:205-218 | Whatever a table says, its offsets increase by at least 2 |
| `Relocation.TableExists` | tossystem.c:199-220 | A list of offsets has a table if and only if it starts above 0 and increases by at least 2 |
| `OpcodeTable.Builder.FillGeneral` | Musashi/m68k_in.c:183-195 | The general loop gives an entry's handler to exactly the words that match it |
| `OpcodeTable.Builder.FillLow` | Musashi/m68k_in.c:196-205 | The loops for free low bits do the same for masks 0xff00, 0xfff0 and 0xfff8 |
| `OpcodeTable.Builder.FillTwo` | Musashi/m68k_in.c:206-221 | The loop for two register numbers does it for mask 0xf1f8 |
| `OpcodeTable.Builder.FillHigh` | Musashi/m68k_in.c:232-241 | The loop for one register number does it for mask 0xf1ff |
| `OpcodeTable.Builder.FillOne` | Musashi/m68k_in.c:252-258 | And the single store for mask 0xffff |
| `OpcodeTable.Builder.Build` | Musashi/m68k_in.c:166-259 | For every table in the order of the fill loops with matches within their masks, the jump table holds the last matching entry's handler for each word, else illegal |
| `OpcodeTable.LowWord` | Musashi/m68k_in.c:198-201 | match | i matches, for every i that the loop runs through |
| `OpcodeTable.FromLow` | Musashi/m68k_in.c:198-201 | Every matching word is match | i for one of them |
| `OpcodeTable.FromTwo` | Musashi/m68k_in.c:208-213 | Every word matching under 0xf1f8 is match | i << 9 | j |
| `OpcodeGenerator.Populate` | Musashi/m68kmake.c:1147-1154 | The words that match the generated mask and match are exactly those that fit the bit pattern |
| `OpcodeGenerator.FitsMeaning` | Musashi/m68kmake.c:1147-1154 | A word fits a pattern if each bit is as its character says, the first character being bit 15 |
| `OpcodeGenerator.SetOpcodeStruct` | Musashi/m68kmake.c:840-852 | An addressing-mode variant stays within its mask, and where mode and entry agree it matches exactly the words of the entry in that mode |
| `OpcodeGenerator.GenerateCcVariants` | Musashi/m68kmake.c:947-990 | The 14 condition variants match exactly the words with that condition number and the entry's other bits |
| `OpcodeGenerator.FixedMeaning` | Musashi/m68kmake.c:947-990 | The condition is in bits 8 to 11, and the rest of a word is all other bits |
| `OpcodeGenerator.CountsBits` | Musashi/m68kmake.c:550-557 | The parallel count is the number of bits set |
| `OpcodeGenerator.SortedPair` | Musashi/m68kmake.c:802-810 | Entries are in order by bits in the mask, then mask, then match |
| `OpcodeGenerator.SortedIsGrouped` | Musashi/m68kmake.c:802-820 | A table sorted by bits, mask and match is in the order the builder needs, if the masks after 0xff00 have fill loops |
| `OpcodeList.GenerateEaVariants` | Musashi/m68kmake.c:892-944 | The addressing-mode variants of a line match exactly the words that match the line and whose low six bits are a mode of its column; a mode has its own variant exactly if its letter is in its column, the two for A7 only for size 8 |
| `OpcodeList.GenerateVariants` | Musashi/m68kmake.c:947-990 | All entries made of a line together match exactly the words it stands for: its pattern, an allowed mode, and any condition but T and F |
| `OpcodeList.ListedMasks` | Musashi/m68k_in.c:365-877 | Every variant of every kind of line in the opcode list has one of ten masks, and a match within it |
| `OpcodeList.SixteenKinds` | Musashi/m68k_in.c:365-877 | The sixteen combinations of mask, modes and conditions in the opcode list are all among the lines that this covers |
| `OpcodeList.TableIsGrouped` | Musashi/m68kmake.c:802-820 | So the sorted table is in the order that the builder needs, without any restriction on its masks, once it has an entry with mask 0xff00 |
| `OpcodeGenerator.FewerBits` | Musashi/m68kmake.c:802-810 | A mask strictly inside another has fewer bits |
| `OpcodeGenerator.Winner` | Musashi/m68k_in.c:166-259 | The last-match rule: an entry that matches a word gives it its handler if no later entry matches, and without any match the word is illegal |
| `OpcodeGenerator.WinnerExists` | Musashi/m68k_in.c:166-259 | Every word that some entry matches has such a last entry |
| `OpcodeGenerator.MostSpecific` | Musashi/m68kmake.c:802-820 | In a table built from a sorted one the winner for a word has the most mask bits of all matching entries, and no matching entry is strictly more specific |

## Left out

- Console, file, directory, process and time calls, the trap dispatch tables and the command line: host input and output.
- Cycle counts, the disassembler, the text templates of the generator, and the instruction hook with its verbose mode.
- Prefetch, trace, address errors and function codes, which the configuration disables; bus-error and coprocessor frames.
- The byte and word forms of ADDX/SUBX, the register and A7 forms of ABCD/SBCD, the memory forms of DIVL and MULL, the immediate and memory forms of the shifts and rotates, and the byte and word forms of ROXL/ROXR: the same arithmetic on other operands.
- Rotates.Rol32: does not describe C for a count of 32, where the code shifts a word by 32, which C leaves undefined.
- Exceptions.Rte, Exceptions.TrapAndReturn, Exceptions.InterruptAndReturn: take a ghost bound on the number of throwaway frames in a row; a stack of throwaway frames without end is not described.
- Supexec.CallAndReturn: the subroutine makes no Supexec call of its own, no interrupt is pending when the call is made, and the subroutine balances its stack; nested calls share the saved registers in the code.
- The list of memory areas is a sequence with the newest area first rather than linked nodes; areas backed by functions appear only as the magic area of Supexec.
- The halt flag that a refused access sets is in `AddressSpace.dfy`; the flat memory of the CPU model drops the write or reads 0 and goes on.
- The shift tables are functions with the same entries; entries from the width on are all ones.
- Freeing of host memory, and a host allocation that fails.
- OpcodeGenerator.SortedIsGrouped: takes a restriction on masks as a condition; OpcodeList.TableIsGrouped discharges it for the kinds of lines in the opcode list.
- The lines of the opcode list appear by kind (mask, conditions, whether modes are listed), not one by one.
- qsort is described by what it leaves, a sorted table; the order of equal entries does not matter.
