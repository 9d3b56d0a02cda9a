/** The memory map: a list of areas searched first match first, byte accesses with permissions, and the
multi-byte accesses built on them (memory.c). */
module AddressSpace {
  import opened Words
  import opened FlatMemory

  const MEMORY_READ := 0x01
  const MEMORY_WRITE := 0x02
  const MEMORY_SUPERREAD := 0x04
  const MEMORY_SUPERWRITE := 0x08

  /** An area backed by host memory, as add_ptr_memory_area makes it. */
  datatype Area = Area(base: u32, len: u32, flags: u8, buf: array<u8>) {
    /** The test of find_memarea; base + len wraps. */
    predicate Covers(address: u32) {
      base <= address < Wrap(base as int + len)
    }

    predicate Has(flag: nat)
      requires flag > 0
    {
      flags / flag % 2 == 1
    }

    /** (flags & mask) != 0 for the masks of tos_read and tos_write. */
    predicate Readable(supervisor: bool) {
      Has(MEMORY_READ) || (supervisor && Has(MEMORY_SUPERREAD))
    }

    predicate Writable(supervisor: bool) {
      Has(MEMORY_WRITE) || (supervisor && Has(MEMORY_SUPERWRITE))
    }
  }

  /** The address of byte j of an access; addresses wrap. */
  function Nth(a: u32, j: nat): u32 {
    Wrap(a + j)
  }

  /** b is none of the n addresses from a on. */
  predicate Outside(b: u32, a: u32, n: nat) {
    forall j: nat | j < n :: b != Nth(a, j)
  }

  lemma OutsideMeaning(b: u32, a: u32, n: nat)
    requires a + n <= 0x1_0000_0000
    ensures Outside(b, a, n) <==> !(a <= b < a + n)
  {
    if a <= b < a + n {
      assert b == Nth(a, b - a);
    }
  }

  /** i is the first area that covers the address; |areas| if none does. */
  function FirstCovering(areas: seq<Area>, address: u32): (i: nat)
    ensures i <= |areas| && (i < |areas| ==> areas[i].Covers(address))
    ensures forall j: nat | j < i :: !areas[j].Covers(address)
  {
    if |areas| == 0 || areas[0].Covers(address) then 0
    else
      var i := FirstCovering(areas[1..], address);
      assert forall j: nat | 0 < j <= i :: areas[j] == areas[1..][j - 1];
      1 + i
  }

  /** Buffers have the size of their areas and are not shared. */
  ghost predicate Unaliased(areas: seq<Area>) {
    && (forall i: nat | i < |areas| :: areas[i].buf.Length == areas[i].len)
    && forall i: nat, j: nat | i < j < |areas| :: areas[i].buf != areas[j].buf
  }

  ghost function Buffers(areas: seq<Area>): set<array<u8>> {
    set a | a in areas :: a.buf
  }

  predicate Covered(areas: seq<Area>, address: u32) {
    FirstCovering(areas, address) < |areas|
  }

  predicate CanRead(areas: seq<Area>, supervisor: bool, address: u32) {
    Covered(areas, address) && areas[FirstCovering(areas, address)].Readable(supervisor)
  }

  predicate CanWrite(areas: seq<Area>, supervisor: bool, address: u32) {
    Covered(areas, address) && areas[FirstCovering(areas, address)].Writable(supervisor)
  }

  /** The flags 1, 2, 4 and 8 permit reading, writing, and reading and writing by the supervisor. */
  lemma Permissions(areas: seq<Area>, address: u32)
    ensures Covered(areas, address) ==>
      var f := areas[FirstCovering(areas, address)].flags;
      && (CanRead(areas, false, address) <==> f % 2 == 1)
      && (CanWrite(areas, false, address) <==> f / 2 % 2 == 1)
      && (CanRead(areas, true, address) <==> f % 2 == 1 || f / 4 % 2 == 1)
      && (CanWrite(areas, true, address) <==> f / 2 % 2 == 1 || f / 8 % 2 == 1)
    ensures !Covered(areas, address) ==> forall supervisor: bool ::
      !CanRead(areas, supervisor, address) && !CanWrite(areas, supervisor, address)
  {
  }

  lemma AccessFlags(areas: seq<Area>, supervisor: bool, address: u32)
    ensures var i := FirstCovering(areas, address);
      && (CanRead(areas, supervisor, address) <==>
            i < |areas| && (areas[i].flags % 2 == 1 || (supervisor && areas[i].flags / 4 % 2 == 1)))
      && (CanWrite(areas, supervisor, address) <==>
            i < |areas| && (areas[i].flags / 2 % 2 == 1 || (supervisor && areas[i].flags / 8 % 2 == 1)))
  {
    hide FirstCovering;
  }

  /** An area that ends below the end of the address space covers its len bytes; any other covers nothing. */
  lemma CoversMeaning(a: Area, address: u32)
    ensures a.base + a.len < 0x1_0000_0000 ==> (a.Covers(address) <==> a.base <= address < a.base + a.len)
    ensures a.base + a.len >= 0x1_0000_0000 ==> !a.Covers(address)
  {
  }

  /** The byte stored for an address. */
  ghost function ByteAt(areas: seq<Area>, address: u32): u8
    requires Unaliased(areas) && Covered(areas, address)
    reads Buffers(areas)
  {
    var a := areas[FirstCovering(areas, address)];
    assert a.buf in Buffers(areas);
    a.buf[address - a.base]
  }

  ghost function Writables(areas: seq<Area>, supervisor: bool): set<u32> {
    set a: u32 | 0 <= a < TWO32 && CanWrite(areas, supervisor, a)
  }

  /** The memory that reads see: a byte at each readable address. */
  ghost function View(areas: seq<Area>, supervisor: bool): Bytes
    requires Unaliased(areas)
    reads Buffers(areas)
  {
    map a: u32 | 0 <= a < TWO32 && CanRead(areas, supervisor, a) :: ByteAt(areas, a)
  }

  lemma ViewAt(areas: seq<Area>, supervisor: bool, b: u32)
    requires Unaliased(areas)
    ensures b in View(areas, supervisor) <==> CanRead(areas, supervisor, b)
    ensures CanRead(areas, supervisor, b) ==> View(areas, supervisor)[b] == ByteAt(areas, b)
  {
    hide FirstCovering;
  }

  lemma AccessCovered(areas: seq<Area>, supervisor: bool, b: u32)
    ensures CanRead(areas, supervisor, b) || CanWrite(areas, supervisor, b) ==> Covered(areas, b)
  {
  }

  lemma InWritables(areas: seq<Area>, supervisor: bool, b: u32)
    ensures b in Writables(areas, supervisor) <==> CanWrite(areas, supervisor, b)
  {
    hide CanWrite;
  }

  lemma ReadCase(areas: seq<Area>, supervisor: bool, address: u32)
    ensures CanRead(areas, supervisor, address) <==>
            FirstCovering(areas, address) < |areas| && areas[FirstCovering(areas, address)].Readable(supervisor)
  {
  }

  // ------------------------------------------------------------------ removing an area

  /** The loop of remove_memory_area: at an area of the list, or at its end. */
  datatype Removal = Looking(ptr: nat) | Removed(areas: seq<Area>, failed: bool)

  /** One pass through the loop.  An area with another base sets prev, and leaves ptr where it is. */
  function RemovalStep(areas: seq<Area>, base: u32, state: Removal): Removal {
    match state
    case Looking(ptr) =>
      if ptr >= |areas| then Removed(areas, true)
      else if areas[ptr].base == base then Removed(areas[..ptr] + areas[ptr + 1..], false)
      else Looking(ptr)
    case Removed(_, _) => state
  }

  function RemovalRun(areas: seq<Area>, base: u32, k: nat): Removal {
    if k == 0 then Looking(0) else RemovalStep(areas, base, RemovalRun(areas, base, k - 1))
  }

  ghost predicate RemovalEnds(areas: seq<Area>, base: u32) {
    exists k: nat :: RemovalRun(areas, base, k).Removed?
  }

  /** The call ends exactly for the area at the head, or if there is none at all. */
  lemma RemovalOfHead(areas: seq<Area>, base: u32)
    ensures RemovalEnds(areas, base) <==> |areas| == 0 || areas[0].base == base
  {
    if |areas| == 0 || areas[0].base == base {
      assert RemovalRun(areas, base, 0) == Looking(0);
      assert RemovalRun(areas, base, 1).Removed?;
    } else {
      forall k: nat ensures RemovalRun(areas, base, k) == Looking(0) { RemovalStays(areas, base, k); }
    }
  }

  lemma {:induction false} RemovalStays(areas: seq<Area>, base: u32, k: nat)
    requires |areas| > 0 && areas[0].base != base
    ensures RemovalRun(areas, base, k) == Looking(0)
  {
    if k > 0 { RemovalStays(areas, base, k - 1); }
  }

  /** The older of two areas can never be removed. */
  lemma RemovalOfSecond(newer: array<u8>, older: array<u8>)
    ensures !RemovalEnds([Area(0x900, 0x100, MEMORY_READ, newer), Area(0x800, 0x100, MEMORY_READ, older)], 0x800)
  {
    RemovalOfHead([Area(0x900, 0x100, MEMORY_READ, newer), Area(0x800, 0x100, MEMORY_READ, older)], 0x800);
  }

  class Memory {
    var areas: seq<Area>       // from head on: the newest area first
    var supervisor: bool       // is_supervisor_mode_enabled()
    var keepOnGoing: bool

    constructor ()
      ensures Unaliased(areas) && areas == [] && keepOnGoing
    {
      areas, supervisor, keepOnGoing := [], false, true;
    }

    /** A new area goes in front, so that it hides what was mapped at its addresses. */
    method AddPtrMemoryArea(flags: u8, base: u32, len: u32, ptr: array<u8>)
      requires Unaliased(areas) && ptr.Length == len && ptr !in Buffers(areas)
      modifies this`areas
      ensures Unaliased(areas) && areas == [Area(base, len, flags, ptr)] + old(areas)
      ensures forall a: u32 ::
        (FirstCovering(areas, a) == if areas[0].Covers(a) then 0 else 1 + FirstCovering(old(areas), a))
    {
      areas := [Area(base, len, flags, ptr)] + areas;
    }

    /** remove_memory_area, for the calls that end. */
    method RemoveMemoryArea(base: u32) returns (failed: bool)
      requires RemovalEnds(areas, base)
      modifies this`areas
      ensures failed == (|old(areas)| == 0) && areas == if failed then old(areas) else old(areas)[1..]
      ensures exists k: nat :: RemovalRun(old(areas), base, k) == Removed(areas, failed)
    {
      RemovalOfHead(areas, base);
      if |areas| == 0 {
        assert RemovalRun(areas, base, 1) == Removed(areas, true);
        return true;
      }
      areas := areas[1..];
      assert RemovalRun(old(areas), base, 1) == Removed(areas, false);
      failed := false;
    }

    /** reset_memory only ever removes the head. */
    method ResetMemory()
      modifies this`areas
      ensures areas == []
    {
      while |areas| > 0
        decreases |areas|
      {
        RemovalOfHead(areas, areas[0].base);
        var _ := RemoveMemoryArea(areas[0].base);
      }
    }

    /** find_memarea. */
    method FindMemarea(address: u32) returns (i: nat)
      ensures i == FirstCovering(areas, address)
    {
      i := 0;
      while i < |areas| && !areas[i].Covers(address)
        invariant i <= |areas| && FirstCovering(areas, address) == i + FirstCovering(areas[i..], address)
      {
        i := i + 1;
      }
    }

    method TosRead(address: u32) returns (value: u8)
      requires Unaliased(areas)
      modifies this`keepOnGoing
      ensures value == Peek(View(areas, supervisor), address)
      ensures View(areas, supervisor) == old(View(areas, supervisor))
      ensures keepOnGoing == (old(keepOnGoing) && CanRead(areas, supervisor, address))
      ensures var i := FirstCovering(areas, address);
        i == |areas| || !(areas[i].flags % 2 == 1 || (supervisor && areas[i].flags / 4 % 2 == 1)) ==>
          value == 0 && !keepOnGoing
    {
      hide FirstCovering; hide Covered; hide View; hide CanRead;
      AccessFlags(areas, supervisor, address);
      assert forall b <- Buffers(areas) :: allocated(b);
      var i := FindMemarea(address);
      assert View(areas, supervisor) == old(View(areas, supervisor));
      ViewAt(areas, supervisor, address);
      AccessCovered(areas, supervisor, address);
      ReadCase(areas, supervisor, address);
      if i == |areas| {
        Halt();
        return 0;
      }
      if areas[i].Readable(supervisor) {
        value := areas[i].buf[address - areas[i].base];
      } else {
        Halt();
        value := 0;
      }
    }

    /** halt_execution. */
    method Halt()
      requires Unaliased(areas)
      modifies this`keepOnGoing
      ensures !keepOnGoing && View(areas, supervisor) == old(View(areas, supervisor))
    {
      hide View; hide FirstCovering; hide Unaliased;
      assert forall b <- Buffers(areas) :: (b as object) != this;
      keepOnGoing := false;
    }

    /** A permitted write changes the one byte; a refused one changes nothing and halts. */
    method TosWrite(address: u32, value: u8)
      requires Unaliased(areas)
      modifies this`keepOnGoing, Buffers(areas)
      ensures Unaliased(areas) && keepOnGoing == (old(keepOnGoing) && CanWrite(areas, supervisor, address))
      ensures CanWrite(areas, supervisor, address) ==> ByteAt(areas, address) == value
      ensures forall b: u32 | Covered(areas, b) && (b != address || !CanWrite(areas, supervisor, address)) ::
        ByteAt(areas, b) == old(ByteAt(areas, b))
      ensures View(areas, supervisor) ==
        if CanWrite(areas, supervisor, address) then Poke(old(View(areas, supervisor)), address, value)
        else old(View(areas, supervisor))
      ensures var i := FirstCovering(areas, address);
        i == |areas| || !(areas[i].flags / 2 % 2 == 1 || (supervisor && areas[i].flags / 8 % 2 == 1)) ==>
          !keepOnGoing && View(areas, supervisor) == old(View(areas, supervisor))
    {
      hide FirstCovering; hide ByteAt; hide Unaliased; hide View; hide CanRead; hide CanWrite; hide Covered;
      ghost var before := View(areas, supervisor);
      ghost var after := if CanWrite(areas, supervisor, address) then Poke(before, address, value) else before;
      forall b: u32
        ensures b in before <==> CanRead(areas, supervisor, b)
        ensures CanRead(areas, supervisor, b) ==> Covered(areas, b) && before[b] == ByteAt(areas, b)
      {
        ViewAt(areas, supervisor, b);
        AccessCovered(areas, supervisor, b);
      }
      StoreByte(address, value);
      AccessCovered(areas, supervisor, address);
      AccessFlags(areas, supervisor, address);
      forall b: u32
        ensures b in View(areas, supervisor) <==> b in after
        ensures b in View(areas, supervisor) ==> View(areas, supervisor)[b] == after[b]
      {
        ViewAt(areas, supervisor, b);
      }
    }

    method StoreByte(address: u32, value: u8)
      requires Unaliased(areas)
      modifies this`keepOnGoing, Buffers(areas)
      ensures Unaliased(areas) && keepOnGoing == (old(keepOnGoing) && CanWrite(areas, supervisor, address))
      ensures CanWrite(areas, supervisor, address) ==> ByteAt(areas, address) == value
      ensures forall b: u32 | Covered(areas, b) && (b != address || !CanWrite(areas, supervisor, address)) ::
        ByteAt(areas, b) == old(ByteAt(areas, b))
    {
      var i := FindMemarea(address);
      if i == |areas| {
        keepOnGoing := false;
        return;
      }
      if areas[i].Writable(supervisor) {
        var a := areas[i];
        a.buf[address - a.base] := value;
      } else {
        keepOnGoing := false;
      }
    }

    /** m68k_read_memory_16 and m68k_read_memory_32 read what the flat memory holds. */
    method ReadMemory16(address: u32) returns (res: u32)
      requires Unaliased(areas)
      modifies this`keepOnGoing
      ensures res == Read16(View(areas, supervisor), address)
      ensures keepOnGoing == (old(keepOnGoing) && forall j: nat | j < 2 :: CanRead(areas, supervisor, Nth(address, j)))
    {
      hide Prefix; hide Pow2; hide Nth; hide Peek; hide View; hide Unaliased; hide CanRead;
      hide FirstCovering; hide Wrap; hide Read16; hide Read32;
      ghost var view := View(areas, supervisor);
      PrefixZero(view, address);
      res := 0;
      for i := 0 to 2
        invariant View(areas, supervisor) == view && res == Prefix(view, address, i) < Pow2(8 * i)
        invariant keepOnGoing == (old(keepOnGoing) && forall j: nat | j < i :: CanRead(areas, supervisor, Nth(address, j)))
      {
        var b := TosRead(Nth(address, i));
        PrefixNext(view, address, i);
        WrapWord(res as int * 0x100);
        res := Wrap(res as int * 0x100) + b;
      }
      PrefixIsRead(view, address);
    }

    method ReadMemory32(address: u32) returns (res: u32)
      requires Unaliased(areas)
      modifies this`keepOnGoing
      ensures res == Read32(View(areas, supervisor), address)
      ensures keepOnGoing == (old(keepOnGoing) && forall j: nat | j < 4 :: CanRead(areas, supervisor, Nth(address, j)))
    {
      hide Prefix; hide Pow2; hide Nth; hide Peek; hide View; hide Unaliased; hide CanRead;
      hide FirstCovering; hide Wrap; hide Read16; hide Read32;
      ghost var view := View(areas, supervisor);
      PrefixZero(view, address);
      res := 0;
      for i := 0 to 4
        invariant View(areas, supervisor) == view && res == Prefix(view, address, i) < Pow2(8 * i)
        invariant keepOnGoing == (old(keepOnGoing) && forall j: nat | j < i :: CanRead(areas, supervisor, Nth(address, j)))
      {
        var b := TosRead(Nth(address, i));
        PrefixNext(view, address, i);
        WrapWord(res as int * 0x100);
        res := Wrap(res as int * 0x100) + b;
      }
      PrefixIsRead(view, address);
    }

    /** m68k_write_memory_16 and m68k_write_memory_32 write the bytes one by one from the low end; the
        permitted ones arrive, and a refused one halts. */
    method WriteMemory16(address: u32, value0: u16)
      requires Unaliased(areas)
      modifies this`keepOnGoing, Buffers(areas)
      ensures Unaliased(areas)
      ensures keepOnGoing == (old(keepOnGoing) && forall j: nat | j < 2 :: CanWrite(areas, supervisor, Nth(address, j)))
      ensures View(areas, supervisor) ==
        WriteBytes(Writables(areas, supervisor), old(View(areas, supervisor)), address, 2, value0, 2)
      ensures forall b: u32 | Covered(areas, b) && Outside(b, address, 2) :: ByteAt(areas, b) == old(ByteAt(areas, b))
    {
      hide WriteBytes; hide Shifted; hide Nth; hide Poke; hide View; hide Unaliased; hide Writables;
      hide CanWrite; hide FirstCovering; hide Wrap;
      WriteNone(Writables(areas, supervisor), View(areas, supervisor), address, 2, value0);
      ShiftedNext(value0, 0);
      var value: u32 := value0;
      for i := 0 to 2
        invariant Unaliased(areas) && value == Shifted(value0, i)
        invariant keepOnGoing == (old(keepOnGoing) && forall j: nat | 2 - i <= j < 2 :: CanWrite(areas, supervisor, Nth(address, j)))
        invariant View(areas, supervisor) ==
          WriteBytes(Writables(areas, supervisor), old(View(areas, supervisor)), address, 2, value0, i)
        invariant forall b: u32 | Covered(areas, b) && Outside(b, address, 2) :: ByteAt(areas, b) == old(ByteAt(areas, b))
      {
        ShiftedNext(value0, i);
        WriteBytesNext(Writables(areas, supervisor), old(View(areas, supervisor)), address, 2, value0, i + 1);
        InWritables(areas, supervisor, Nth(address, 1 - i));
        TosWrite(Nth(address, 1 - i), value % 0x100);
        value := value / 0x100;
      }
    }

    method WriteMemory32(address: u32, value0: u32)
      requires Unaliased(areas)
      modifies this`keepOnGoing, Buffers(areas)
      ensures Unaliased(areas)
      ensures keepOnGoing == (old(keepOnGoing) && forall j: nat | j < 4 :: CanWrite(areas, supervisor, Nth(address, j)))
      ensures View(areas, supervisor) ==
        WriteBytes(Writables(areas, supervisor), old(View(areas, supervisor)), address, 4, value0, 4)
      ensures forall b: u32 | Covered(areas, b) && Outside(b, address, 4) :: ByteAt(areas, b) == old(ByteAt(areas, b))
    {
      hide WriteBytes; hide Shifted; hide Nth; hide Poke; hide View; hide Unaliased; hide Writables;
      hide CanWrite; hide FirstCovering; hide Wrap;
      WriteNone(Writables(areas, supervisor), View(areas, supervisor), address, 4, value0);
      ShiftedNext(value0, 0);
      var value := value0;
      for i := 0 to 4
        invariant Unaliased(areas) && value == Shifted(value0, i)
        invariant keepOnGoing == (old(keepOnGoing) && forall j: nat | 4 - i <= j < 4 :: CanWrite(areas, supervisor, Nth(address, j)))
        invariant View(areas, supervisor) ==
          WriteBytes(Writables(areas, supervisor), old(View(areas, supervisor)), address, 4, value0, i)
        invariant forall b: u32 | Covered(areas, b) && Outside(b, address, 4) :: ByteAt(areas, b) == old(ByteAt(areas, b))
      {
        ShiftedNext(value0, i);
        WriteBytesNext(Writables(areas, supervisor), old(View(areas, supervisor)), address, 4, value0, i + 1);
        InWritables(areas, supervisor, Nth(address, 3 - i));
        TosWrite(Nth(address, 3 - i), value % 0x100);
        value := value / 0x100;
      }
    }
  }

  /** A permitted long access is one of the flat memory: what is written is read back, across area
      boundaries and over overlapping areas, and all other addresses keep their bytes, also those that
      cannot be read in the current mode. */
  method WriteThenRead(memory: Memory, address: u32, value: u32) returns (res: u32)
    requires Unaliased(memory.areas)
    requires forall j: nat | j < 4 ::
      CanRead(memory.areas, memory.supervisor, Nth(address, j)) && CanWrite(memory.areas, memory.supervisor, Nth(address, j))
    modifies memory`keepOnGoing, Buffers(memory.areas)
    ensures res == value && memory.keepOnGoing == old(memory.keepOnGoing)
    ensures SameOutside(old(View(memory.areas, memory.supervisor)), View(memory.areas, memory.supervisor), address, 4)
    ensures forall b: u32 | Covered(memory.areas, b) && Outside(b, address, 4) ::
      ByteAt(memory.areas, b) == old(ByteAt(memory.areas, b))
  {
    hide View; hide CanRead; hide CanWrite; hide Unaliased; hide FirstCovering; hide Write32; hide Read32;
    hide WriteBytes;
    hide Writables; hide SameOutside;
    ghost var m, w := View(memory.areas, memory.supervisor), Writables(memory.areas, memory.supervisor);
    forall j: nat | j < 4
      ensures Nth(address, j) in m && Nth(address, j) in w
    {
      ViewAt(memory.areas, memory.supervisor, Nth(address, j));
      InWritables(memory.areas, memory.supervisor, Nth(address, j));
    }
    assert FlatMemory.Mapped(m, address, 4) by { SpanIsNth(m, address); }
    WriteIsFlat32(w, m, address, value);
    Write32Effect(m, address, value);
    memory.WriteMemory32(address, value);
    res := memory.ReadMemory32(address);
  }

  lemma SpanIsNth(m: Bytes, a: u32)
    requires forall j: nat | j < 4 :: Nth(a, j) in m
    ensures FlatMemory.Mapped(m, a, 4)
  {
    forall b: u32 | In(b, a, 4)
      ensures b in m
    {
      var j := Wrap(b as int - a);
      assert Nth(a, j) == b;
    }
  }

  /** Where the bytes of an access can be written if they can be read, it is the write of the flat memory. */
  lemma FlatWrites(areas: seq<Area>, supervisor: bool, a: u32, value: u32)
    requires Unaliased(areas)
    ensures (forall j: nat | j < 4 ::
               CanRead(areas, supervisor, Nth(a, j)) ==> CanWrite(areas, supervisor, Nth(a, j))) ==>
      WriteBytes(Writables(areas, supervisor), View(areas, supervisor), a, 4, value, 4)
      == Write32(View(areas, supervisor), a, value)
    ensures value < TWO16 && (forall j: nat | j < 2 ::
               CanRead(areas, supervisor, Nth(a, j)) ==> CanWrite(areas, supervisor, Nth(a, j))) ==>
      WriteBytes(Writables(areas, supervisor), View(areas, supervisor), a, 2, value, 2)
      == Write16(View(areas, supervisor), a, value)
  {
    hide View; hide Writables; hide Write32; hide Write16; hide WriteBytes; hide CanRead; hide CanWrite; hide Nth;
    forall j: nat | j < 4
      ensures Nth(a, j) in View(areas, supervisor) <==> CanRead(areas, supervisor, Nth(a, j))
      ensures Nth(a, j) in Writables(areas, supervisor) <==> CanWrite(areas, supervisor, Nth(a, j))
    {
      ViewAt(areas, supervisor, Nth(a, j));
      InWritables(areas, supervisor, Nth(a, j));
    }
    if forall j: nat | j < 4 :: CanRead(areas, supervisor, Nth(a, j)) ==> CanWrite(areas, supervisor, Nth(a, j)) {
      WriteIsFlat32(Writables(areas, supervisor), View(areas, supervisor), a, value);
    }
    if value < TWO16
       && forall j: nat | j < 2 :: CanRead(areas, supervisor, Nth(a, j)) ==> CanWrite(areas, supervisor, Nth(a, j)) {
      WriteIsFlat16(Writables(areas, supervisor), View(areas, supervisor), a, value);
    }
  }

  /** value after i shifts by a byte. */
  function Shifted(value: u32, i: nat): u32 {
    if i == 0 then value else Shifted(value, i - 1) / 0x100
  }

  /** The flat memory after the i lowest of n bytes have been written where permitted. */
  function WriteBytes(writable: set<u32>, m: Bytes, a: u32, n: nat, value: u32, i: nat): Bytes
    requires i <= n
  {
    if i == 0 then m
    else
      var m' := WriteBytes(writable, m, a, n, value, i - 1);
      var b := Nth(a, n - i);
      if b in writable then Poke(m', b, Shifted(value, i - 1) % 0x100) else m'
  }

  lemma {:induction false} WriteBytesKeys(writable: set<u32>, m: Bytes, a: u32, n: nat, value: u32, i: nat)
    requires i <= n
    ensures WriteBytes(writable, m, a, n, value, i).Keys == m.Keys
  {
    if i > 0 {
      WriteBytesKeys(writable, m, a, n, value, i - 1);
    }
  }

  lemma WriteNext(writable: set<u32>, m: Bytes, a: u32, n: nat, value: u32, i: nat)
    requires 0 < i <= n && (Nth(a, n - i) in m ==> Nth(a, n - i) in writable)
    ensures WriteBytes(writable, m, a, n, value, i)
            == Poke(WriteBytes(writable, m, a, n, value, i - 1), Nth(a, n - i), Shifted(value, i - 1) % 0x100)
  {
    WriteBytesKeys(writable, m, a, n, value, i - 1);
  }

  lemma ShiftedValues(value: u32)
    ensures Shifted(value, 0) == value && Shifted(value, 1) == value / 0x100
    ensures Shifted(value, 2) == value / 0x1_0000 && Shifted(value, 3) == value / 0x100_0000
  {
    assert Shifted(value, 1) == value / 0x100;
    assert Shifted(value, 2) == Shifted(value, 1) / 0x100;
    assert Shifted(value, 3) == Shifted(value, 2) / 0x100;
  }

  /** Where every readable byte of the access can be written, the access is one of the flat memory. */
  lemma WriteIsFlat32(writable: set<u32>, m: Bytes, a: u32, value: u32)
    requires forall j: nat | j < 4 :: Nth(a, j) in m ==> Nth(a, j) in writable
    ensures WriteBytes(writable, m, a, 4, value, 4) == Write32(m, a, value)
  {
    hide Poke; hide WriteBytes; hide Shifted; hide Wrap;
    WrapWord(a);
    ShiftedValues(value);
    WriteNone(writable, m, a, 4, value);
    WriteNext(writable, m, a, 4, value, 1);
    WriteNext(writable, m, a, 4, value, 2);
    WriteNext(writable, m, a, 4, value, 3);
    WriteNext(writable, m, a, 4, value, 4);
  }

  lemma WriteIsFlat16(writable: set<u32>, m: Bytes, a: u32, value: u16)
    requires forall j: nat | j < 2 :: Nth(a, j) in m ==> Nth(a, j) in writable
    ensures WriteBytes(writable, m, a, 2, value, 2) == Write16(m, a, value)
  {
    hide Poke; hide WriteBytes; hide Shifted; hide Wrap;
    WrapWord(a);
    ShiftedValues(value);
    WriteNone(writable, m, a, 2, value);
    WriteNext(writable, m, a, 2, value, 1);
    WriteNext(writable, m, a, 2, value, 2);
  }

  /** Byte j of a write of n bytes arrives if it can be read back and written; all other bytes stay. */
  lemma WriteBytesMeaning(writable: set<u32>, m: Bytes, a: u32, value: u32, j: nat, b: u32)
    requires j < 4
    ensures var m' := WriteBytes(writable, m, a, 4, value, 4);
      && Peek(m', Nth(a, j)) == (if Nth(a, j) in writable && Nth(a, j) in m then ByteOf(value, j) else Peek(m, Nth(a, j)))
      && m'.Keys == m.Keys && (Outside(b, a, 4) ==> Peek(m', b) == Peek(m, b))
  {
    hide Nth; hide WriteBytes; hide Shifted; hide Peek;
    FourDifferent(a);
    ShiftedFour(value);
    WriteNone(writable, m, a, 4, value);
    WriteBytesNext(writable, m, a, 4, value, 1);
    WriteBytesNext(writable, m, a, 4, value, 2);
    WriteBytesNext(writable, m, a, 4, value, 3);
    WriteBytesNext(writable, m, a, 4, value, 4);
    WriteBytesKeys(writable, m, a, 4, value, 4);
    assert Outside(b, a, 4) ==> b != Nth(a, 0) && b != Nth(a, 1) && b != Nth(a, 2) && b != Nth(a, 3);
    forall m: Bytes, c: u32, x: u8, d: u32 ensures Peek(Poke(m, c, x), d) == if d == c && c in m then x else Peek(m, d) {
      PeekPoke(m, c, x, d);
    }
  }

  lemma PeekPoke(m: Bytes, c: u32, x: u8, d: u32)
    ensures Peek(Poke(m, c, x), d) == if d == c && c in m then x else Peek(m, d)
  {
  }

  /** Byte 0 is the most significant one. */
  function ByteOf(value: u32, j: nat): u8
    requires j < 4
  {
    if j == 0 then value / 0x100_0000 else if j == 1 then value / 0x1_0000 % 0x100
    else if j == 2 then value / 0x100 % 0x100 else value % 0x100
  }

  lemma FourDifferent(a: u32)
    ensures Nth(a, 0) != Nth(a, 1) && Nth(a, 0) != Nth(a, 2) && Nth(a, 0) != Nth(a, 3)
    ensures Nth(a, 1) != Nth(a, 2) && Nth(a, 1) != Nth(a, 3) && Nth(a, 2) != Nth(a, 3)
  {
  }

  lemma ShiftedFour(value: u32)
    ensures Shifted(value, 0) % 0x100 == ByteOf(value, 3) && Shifted(value, 1) % 0x100 == ByteOf(value, 2)
    ensures Shifted(value, 2) % 0x100 == ByteOf(value, 1) && Shifted(value, 3) % 0x100 == ByteOf(value, 0)
  {
    assert Shifted(value, 1) == value / 0x100;
    assert Shifted(value, 2) == value / 0x1_0000;
    assert Shifted(value, 3) == value / 0x100_0000;
  }

  lemma WriteBytesNext(writable: set<u32>, m: Bytes, a: u32, n: nat, value: u32, i: nat)
    requires 0 < i <= n
    ensures WriteBytes(writable, m, a, n, value, i) ==
      var m' := WriteBytes(writable, m, a, n, value, i - 1);
      if Nth(a, n - i) in writable then Poke(m', Nth(a, n - i), Shifted(value, i - 1) % 0x100) else m'
  {
  }

  lemma ShiftedNext(value: u32, i: nat)
    ensures Shifted(value, 0) == value && Shifted(value, i + 1) == Shifted(value, i) / 0x100
  {
  }

  lemma WriteNone(writable: set<u32>, m: Bytes, a: u32, n: nat, value: u32)
    ensures WriteBytes(writable, m, a, n, value, 0) == m
  {
  }

  lemma WrapWord(a: u32)
    ensures Wrap(a) == a && Wrap(a + 0) == a
  {
  }

  /** The big-endian value of the first i bytes. */
  function Prefix(m: Bytes, a: u32, i: nat): nat {
    if i == 0 then 0 else Prefix(m, a, i - 1) * 0x100 + Peek(m, Nth(a, i - 1))
  }

  lemma PrefixZero(m: Bytes, a: u32)
    ensures Prefix(m, a, 0) == 0 < Pow2(8 * 0)
  {
  }

  lemma PrefixNext(m: Bytes, a: u32, i: nat)
    requires i < 4 && Prefix(m, a, i) < Pow2(8 * i)
    ensures Prefix(m, a, i) * 0x100 < TWO32
    ensures Prefix(m, a, i + 1) == Prefix(m, a, i) * 0x100 + Peek(m, Nth(a, i)) < Pow2(8 * (i + 1))
  {
    Pow2Values();
    Pow2Sum(8 * i, 8);
    Pow2Sum(8, 16);
    assert 8 * (i + 1) == 8 * i + 8;
    assert i == 0 || i == 1 || i == 2 || i == 3;
  }

  lemma PrefixIsRead(m: Bytes, a: u32)
    ensures Prefix(m, a, 2) == Read16(m, a) && Prefix(m, a, 4) == Read32(m, a)
  {
    assert Prefix(m, a, 1) == Peek(m, a);
    assert Prefix(m, a, 3) == (Peek(m, a) * 0x100 + Peek(m, Wrap(a + 1))) * 0x100 + Peek(m, Wrap(a + 2));
  }
}
