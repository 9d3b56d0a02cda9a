/** MOVEM.L list,-(An) and MOVEM.L (An)+,list: what a save leaves in memory, and that a restore undoes it
for every list (Musashi/m68k_in.c). */
module Movem {
  import opened Words
  import opened FlatMemory
  import opened M68k
  import opened Blocks

  /** The number of bits set among the lowest i. */
  function Count(list: nat, i: nat): nat {
    if i == 0 then 0 else Count(list, i - 1) + B2N(Bit(list, i - 1))
  }

  function BitsBelow(list: nat, i: nat): set<nat> {
    set j: nat | j < i && Bit(list, j)
  }

  lemma {:induction false} CountMeaning(list: nat, i: nat)
    ensures Count(list, i) == |BitsBelow(list, i)|
  {
    hide Bit;
    if i > 0 {
      CountMeaning(list, i - 1);
      if Bit(list, i - 1) {
        assert BitsBelow(list, i) == BitsBelow(list, i - 1) + {i - 1};
      } else {
        assert BitsBelow(list, i) == BitsBelow(list, i - 1);
      }
    }
  }

  lemma {:induction false} CountGrows(list: nat, i: nat, j: nat)
    requires i <= j
    ensures Count(list, i) <= Count(list, j) <= Count(list, i) + (j - i)
    decreases j
  {
    if i < j { CountGrows(list, i, j - 1); }
  }

  /** The long of bit i, counted from the pointer downwards: predecrement stores bit 0 on top. */
  function StoreAddress(t: CpuType, list: u16, a: u32, i: nat): u32 {
    Addr(t, Wrap(a as int - 4 * Count(list, i + 1)))
  }

  function LoadAddress(t: CpuType, list: u16, a: u32, i: nat): u32 {
    Addr(t, Wrap(a + 4 * Count(list, i)))
  }

  /** Memory after i bits of the list.  Bit 0 stands for A7, bit 15 for D0. */
  function Stored(t: CpuType, m: Bytes, dar: Regs, list: u16, a: u32, i: nat): Bytes
    requires i <= 16
  {
    if i == 0 then m
    else
      var m' := Stored(t, m, dar, list, a, i - 1);
      if Bit(list, i - 1) then Write32(m', StoreAddress(t, list, a, i - 1), dar[16 - i]) else m'
  }

  /** The registers after i bits of the list.  Bit 0 stands for D0, bit 15 for A7. */
  function Loaded(t: CpuType, m: Bytes, dar: Regs, list: u16, a: u32, i: nat): Regs
    requires i <= 16
  {
    if i == 0 then dar
    else
      var d := Loaded(t, m, dar, list, a, i - 1);
      if Bit(list, i - 1) then d[i - 1 := Read32(m, LoadAddress(t, list, a, i - 1))] else d
  }

  /** A list of one register: bit k stands for register 15 - k when it is stored and for register k when it
      is loaded, of D0 to D7 and A0 to A7. */
  lemma OneRegister(t: CpuType, m: Bytes, dar: Regs, list: u16, a: u32, k: nat)
    requires k < 16 && forall i: nat | i < 16 :: Bit(list, i) <==> i == k
    ensures Stored(t, m, dar, list, a, 16) == Write32(m, Addr(t, (a as int - 4) % 0x1_0000_0000), dar[15 - k])
    ensures Loaded(t, m, dar, list, a, 16) == dar[k := Read32(m, Addr(t, a))]
    ensures Count(list, 16) == 1
  {
    hide Write32; hide Read32; hide Addr; hide Bit;
    OneBelow(t, m, dar, list, a, k, 16);
  }

  lemma {:induction false} OneBelow(t: CpuType, m: Bytes, dar: Regs, list: u16, a: u32, k: nat, i: nat)
    requires k < 16 && i <= 16 && forall j: nat | j < 16 :: Bit(list, j) <==> j == k
    ensures Count(list, i) == B2N(k < i)
    ensures Stored(t, m, dar, list, a, i) == if k < i then Write32(m, Addr(t, Wrap(a as int - 4)), dar[15 - k]) else m
    ensures Loaded(t, m, dar, list, a, i) == if k < i then dar[k := Read32(m, Addr(t, a))] else dar
  {
    hide Write32; hide Read32; hide Addr; hide Bit;
    if i > 0 {
      OneBelow(t, m, dar, list, a, k, i - 1);
      WrapSame(a);
    }
  }

  method MovemPd(cpu: Cpu)
    modifies cpu`pc, cpu`dar, cpu`mem
    ensures cpu.pc == old(Wrap(cpu.pc + 2))
    ensures
      var y := 8 + cpu.ir % 8;
      var list, a := old(Read16(cpu.mem, Addr(cpu.cpuType, cpu.pc))), old(cpu.dar)[y];
      && cpu.mem == Stored(cpu.cpuType, old(cpu.mem), old(cpu.dar), list, a, 16)
      && cpu.dar == old(cpu.dar)[y := Wrap(a as int - 4 * Count(list, 16))]
  {
    hide Read16; hide Write32; hide Addr; hide Wrap; hide Bit;
    var list := cpu.ReadImm16();
    ghost var a: int := cpu.dar[Ry(cpu.ir)];
    var ea: u32 := cpu.dar[Ry(cpu.ir)];
    WrapSame(ea);
    for i := 0 to 16
      invariant cpu.pc == old(Wrap(cpu.pc + 2)) && cpu.dar == old(cpu.dar)
      invariant cpu.mem == Stored(cpu.cpuType, old(cpu.mem), cpu.dar, list, a, i)
      invariant ea == Wrap(a - 4 * Count(list, i))
    {
      if Bit(list, i) {
        WrapAdd(a - 4 * Count(list, i), -4);
        ea := Wrap(ea as int - 4);
        cpu.mem := Write32(cpu.mem, Addr(cpu.cpuType, ea), cpu.dar[15 - i]);
      }
    }
    cpu.dar := cpu.dar[Ry(cpu.ir) := ea];
  }

  method MovemPi(cpu: Cpu)
    modifies cpu`pc, cpu`dar
    ensures cpu.pc == old(Wrap(cpu.pc + 2))
    ensures
      var y := 8 + cpu.ir % 8;
      var list, a := Read16(cpu.mem, Addr(cpu.cpuType, old(cpu.pc))), old(cpu.dar)[y];
      cpu.dar == Loaded(cpu.cpuType, cpu.mem, old(cpu.dar), list, a, 16)[y := Wrap(a + 4 * Count(list, 16))]
  {
    hide Read16; hide Read32; hide Addr; hide Wrap; hide Bit;
    var list := cpu.ReadImm16();
    ghost var a: int := cpu.dar[Ry(cpu.ir)];
    var ea: u32 := cpu.dar[Ry(cpu.ir)];
    WrapSame(ea);
    for i := 0 to 16
      invariant cpu.pc == old(Wrap(cpu.pc + 2)) && cpu.mem == old(cpu.mem)
      invariant cpu.dar == Loaded(cpu.cpuType, cpu.mem, old(cpu.dar), list, a, i)
      invariant ea == Wrap(a + 4 * Count(list, i))
    {
      if Bit(list, i) {
        cpu.dar := cpu.dar[i := Read32(cpu.mem, Addr(cpu.cpuType, ea))];
        WrapAdd(a + 4 * Count(list, i), 4);
        ea := Wrap(ea as int + 4);
      }
    }
    cpu.dar := cpu.dar[Ry(cpu.ir) := ea];
  }

  // ------------------------------------------------------------------ what a save leaves in memory

  /** With room for n longs below the pointer, the long of bit i is the Count(i + 1)-th from the top. */
  lemma StoreSlot(t: CpuType, list: u16, a: u32, n: nat, i: nat)
    requires Count(list, i + 1) <= n && Bit(list, i) && TopOf(t, a, 4 * n) <= AddressSpaceSize(t)
    ensures StoreAddress(t, list, a, i) == TopOf(t, a, 4 * n) - 4 * Count(list, i + 1)
  {
    BlockAddress(t, a, 4 * n, 4 * Count(list, i + 1));
  }

  /** Each register of the list lies at its place below the pointer, and no byte outside changes. */
  ghost predicate Saved(m0: Bytes, m: Bytes, dar: Regs, list: u16, top: nat, i: nat)
    requires i <= 16
  {
    && 4 * Count(list, i) <= top <= TWO32 && ChangedBelow(m0, m, top, 4 * Count(list, i))
    && forall j: nat | j < i && Bit(list, j) ::
      0 <= top - 4 * Count(list, j + 1) < TWO32 && Read32(m, top - 4 * Count(list, j + 1)) == dar[15 - j]
  }

  /** Writing the next long down keeps the longs above it. */
  lemma SaveNext(m0: Bytes, m: Bytes, dar: Regs, list: u16, top: nat, i: nat)
    requires i < 16 && Saved(m0, m, dar, list, top, i) && Bit(list, i) && 4 * Count(list, i + 1) <= top
    requires forall b: u32 | top - 4 * Count(list, i + 1) <= b < top :: b in m0
    ensures Saved(m0, Write32(m, top - 4 * Count(list, i + 1), dar[15 - i]), dar, list, top, i + 1)
  {
    hide Read32; hide Write32; hide Bit; hide ChangedBelow;
    var low := top - 4 * Count(list, i + 1);
    WriteNext(m0, m, top, Count(list, i), dar[15 - i]);
    forall j: nat | j < i && Bit(list, j)
      ensures 0 <= top - 4 * Count(list, j + 1) < TWO32
      ensures Read32(Write32(m, low, dar[15 - i]), top - 4 * Count(list, j + 1)) == dar[15 - j]
    {
      CountGrows(list, j + 1, i);
      SameLong(m, Write32(m, low, dar[15 - i]), top - 4 * Count(list, j + 1));
    }
  }

  /** A save writes exactly the four bytes of each listed register, An's being its value before. */
  lemma {:induction false} StoredIsSaved(t: CpuType, m: Bytes, dar: Regs, list: u16, a: u32, n: nat, i: nat)
    requires i <= 16 && Count(list, i) <= n && RoomBelow(t, m, a, 4 * n)
    ensures Saved(m, Stored(t, m, dar, list, a, i), dar, list, TopOf(t, a, 4 * n), i)
  {
    hide Write32; hide Read32; hide Bit; hide TopOf; hide RoomBelow; hide StoreAddress;
    TopBounds(t, m, a, 4 * n);
    if i > 0 {
      CountGrows(list, i - 1, i);
      StoredIsSaved(t, m, dar, list, a, n, i - 1);
      if Bit(list, i - 1) {
        RoomAddresses(t, m, a, 4 * n);
        StoreSlot(t, list, a, n, i - 1);
        SaveNext(m, Stored(t, m, dar, list, a, i - 1), dar, list, TopOf(t, a, 4 * n), i - 1);
      }
    }
  }

  lemma RoomAddresses(t: CpuType, m: Bytes, a: u32, n: nat)
    requires RoomBelow(t, m, a, n)
    ensures TopOf(t, a, n) <= AddressSpaceSize(t)
    ensures forall b: u32 | TopOf(t, a, n) - n <= b < TopOf(t, a, n) :: b in m
  {
    forall b: u32 | TopOf(t, a, n) - n <= b < TopOf(t, a, n) ensures b in m {
      InBlock(b, TopOf(t, a, n) - n, n);
    }
  }

  // ------------------------------------------------------------------ the mirrored list

  /** The lowest n bits in the opposite order. */
  function Mirror(w: nat, n: nat): (r: nat)
    ensures r < Pow2(n)
  {
    if n == 0 then 0 else w % 2 * Pow2(n - 1) + Mirror(w / 2, n - 1)
  }

  lemma {:induction false} BitOfSum(x: nat, n: nat, b: nat, i: nat)
    requires x < Pow2(n) && b <= 1 && i <= n
    ensures Bit(b * Pow2(n) + x, i) == (if i == n then b == 1 else Bit(x, i))
  {
    if n > 0 {
      var p := Pow2(n - 1);
      assert b * Pow2(n) == 2 * (b * p);
      assert (b * Pow2(n) + x) % 2 == x % 2 && (b * Pow2(n) + x) / 2 == b * p + x / 2;
      if i > 0 { BitOfSum(x / 2, n - 1, b, i - 1); }
    }
  }

  lemma {:induction false} MirrorBits(w: nat, n: nat, i: nat)
    requires i < n
    ensures Bit(Mirror(w, n), i) == Bit(w, n - 1 - i)
  {
    BitOfSum(Mirror(w / 2, n - 1), n - 1, w % 2, i);
    if i < n - 1 { MirrorBits(w / 2, n - 1, i); }
  }

  /** The list of a restore that matches a save. */
  function Mirror16(list: u16): u16 {
    Pow2Values();
    Mirror(list, 16)
  }

  lemma {:induction false} MirrorCount(list: u16, i: nat)
    requires i <= 16
    ensures Count(Mirror16(list), i) + Count(list, 16 - i) == Count(list, 16)
  {
    hide Bit; hide Mirror;
    if i > 0 {
      MirrorCount(list, i - 1);
      MirrorBits(list, 16, i - 1);
    }
  }

  // ------------------------------------------------------------------ restore undoes save

  lemma {:induction false} LoadedAt(t: CpuType, m: Bytes, dar: Regs, list: u16, a: u32, i: nat, r: nat)
    requires i <= 16 && r < 16
    ensures Loaded(t, m, dar, list, a, i)[r]
            == if r < i && Bit(list, r) then Read32(m, LoadAddress(t, list, a, r)) else dar[r]
  {
    hide Read32; hide LoadAddress; hide Bit;
    if i > 0 { LoadedAt(t, m, dar, list, a, i - 1, r); }
  }

  /** The restore finds the long of register r where the save put it. */
  lemma SameSlot(t: CpuType, list: u16, a: u32, r: nat)
    requires r < 16 && Bit(list, 15 - r)
    ensures LoadAddress(t, Mirror16(list), Wrap(a as int - 4 * Count(list, 16)), r) == StoreAddress(t, list, a, 15 - r)
  {
    hide Addr;
    MirrorCount(list, r);
    WrapAdd(a as int - 4 * Count(list, 16), 4 * Count(Mirror16(list), r));
  }

  /** For every list, also one with An in it: a restore with the mirrored list brings back An and every
      listed register and leaves the others as they were in between, whatever happened to the registers
      other than An and to memory outside the saved bytes. */
  lemma RestoreUndoesSave(t: CpuType, m: Bytes, dar: Regs, list: u16, y: nat, m': Bytes, between: Regs)
    requires 8 <= y < 16
    requires RoomBelow(t, m, dar[y], 4 * Count(list, 16))
    requires
      var top := TopOf(t, dar[y], 4 * Count(list, 16));
      SameRange(m', Stored(t, m, dar, list, dar[y], 16), top - 4 * Count(list, 16), top)
    requires between[y] == Wrap(dar[y] as int - 4 * Count(list, 16))
    ensures
      var list' := Mirror16(list);
      var after := Loaded(t, m', between, list', between[y], 16)[y := Wrap(between[y] + 4 * Count(list', 16))];
      forall r | 0 <= r < 16 :: after[r] == if r == y || Bit(list', r) then dar[r] else between[r]
  {
    hide Read32; hide Bit; hide TopOf; hide RoomBelow; hide LoadAddress; hide StoreAddress; hide Stored;
    hide Loaded;
    hide Mirror16; hide Wrap;
    var n, list' := Count(list, 16), Mirror16(list);
    var top := TopOf(t, dar[y], 4 * n);
    StoredIsSaved(t, m, dar, list, dar[y], n, 16);
    RoomAddresses(t, m, dar[y], 4 * n);
    MirrorCount(list, 16);
    assert Wrap(between[y] + 4 * Count(list', 16)) == dar[y] by { WrapAdd(dar[y] as int - 4 * n, 4 * n); WrapSame(dar[y]); }
    var after := Loaded(t, m', between, list', between[y], 16)[y := dar[y]];
    forall r | 0 <= r < 16
      ensures after[r] == if r == y || Bit(list', r) then dar[r] else between[r]
    {
      LoadedAt(t, m', between, list', between[y], 16, r);
      MirrorsBit(list, r);
      if Bit(list', r) {
        SameSlot(t, list, dar[y], r);
        CountGrows(list, 16 - r, 16);
        StoreSlot(t, list, dar[y], n, 15 - r);
        SameLong(m', Stored(t, m, dar, list, dar[y], 16), top - 4 * Count(list, 16 - r));
      }
    }
  }

  lemma MirrorsBit(list: u16, r: nat)
    requires r < 16
    ensures Bit(Mirror16(list), r) == Bit(list, 15 - r)
  {
    MirrorBits(list, 16, r);
  }
}
