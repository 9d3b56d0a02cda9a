/** Relocation of a loaded program: the table interpreter of init_tos_environment, what it denotes, and
which lists of offsets a table can denote (tossystem.c). */
module Relocation {
  import opened Words
  import opened FlatMemory
  import opened AddressSpace

  const TEXT_BASE := 0x900

  // ------------------------------------------------------------------ what a table denotes

  /** The table ends at its first zero byte; the loop reads no further. */
  predicate Terminated(table: seq<u8>) {
    0 in table
  }

  /** The offsets after the first: byte 1 advances by 254, any other byte by its value to the next long. */
  function Offsets(table: seq<u8>, offset: nat): seq<nat>
    requires Terminated(table)
  {
    if table[0] == 0 then []
    else if table[0] == 1 then Offsets(table[1..], offset + 254)
    else [offset + table[0]] + Offsets(table[1..], offset + table[0])
  }

  /** k bytes 1 and a byte b lead 254 * k + b bytes on; a byte 0 ends the table. */
  lemma {:induction false} TableEntry(k: nat, b: u8, rest: seq<u8>, offset: nat)
    requires b != 1 && (b == 0 || Terminated(rest))
    ensures var table := seq(k, _ => 1 as u8) + [b] + rest;
      && Terminated(table)
      && Offsets(table, offset) ==
           if b == 0 then [] else [offset + 254 * k + b] + Offsets(rest, offset + 254 * k + b)
  {
    var table := seq(k, _ => 1 as u8) + [b] + rest;
    EntryEnds(k, b, rest);
    if k == 0 {
      assert table[1..] == rest;
    } else {
      TableEntry(k - 1, b, rest, offset + 254);
      assert table[1..] == seq(k - 1, _ => 1 as u8) + [b] + rest;
      hide Terminated;
    }
  }

  lemma EntryEnds(k: nat, b: u8, rest: seq<u8>)
    requires b == 0 || Terminated(rest)
    ensures Terminated(seq(k, _ => 1 as u8) + [b] + rest)
  {
    var table := seq(k, _ => 1 as u8) + [b] + rest;
    assert table[k] == b;
    assert table[|table| - |rest|..] == rest;
  }

  /** A first offset of zero means that there is nothing to relocate. */
  function AllOffsets(first: u32, table: seq<u8>): seq<nat>
    requires Terminated(table)
  {
    if first == 0 then [] else [first] + Offsets(table, first)
  }

  /** Adding the base to the long at an address; only bytes that can be written change. */
  function Adjust(w: set<u32>, m: Bytes, a: u32): Bytes {
    WriteBytes(w, m, a, 4, Wrap(Read32(m, a) as int + TEXT_BASE), 4)
  }

  function AdjustAll(w: set<u32>, m: Bytes, offsets: seq<nat>): Bytes
    decreases |offsets|
  {
    if offsets == [] then m else AdjustAll(w, Adjust(w, m, Wrap(TEXT_BASE + offsets[0])), offsets[1..])
  }

  /** b is no byte of a long at one of the offsets. */
  predicate Elsewhere(offsets: seq<nat>, b: u32) {
    forall k: nat | k < |offsets| :: Outside(b, Wrap(TEXT_BASE + offsets[k]), 4)
  }

  // ------------------------------------------------------------------ the loop

  method AdjustLong(memory: Memory, adr: u32)
    requires Unaliased(memory.areas)
    modifies memory`keepOnGoing, Buffers(memory.areas)
    ensures Unaliased(memory.areas)
    ensures View(memory.areas, memory.supervisor)
            == Adjust(Writables(memory.areas, memory.supervisor), old(View(memory.areas, memory.supervisor)), adr)
    ensures forall b: u32 | Covered(memory.areas, b) && Outside(b, adr, 4) ::
      ByteAt(memory.areas, b) == old(ByteAt(memory.areas, b))
  {
    hide View; hide Unaliased; hide WriteBytes; hide Read32; hide Writables; hide Outside; hide Covered; hide ByteAt; hide Wrap;
    var value := memory.ReadMemory32(adr);
    memory.WriteMemory32(adr, Wrap(value as int + TEXT_BASE));
  }

  /** The table decides which longs are adjusted; no byte outside them changes, whether it can be read in
      the current mode or not. */
  method Relocate(memory: Memory, first: u32, table: seq<u8>)
    requires Unaliased(memory.areas) && Terminated(table)
    modifies memory`keepOnGoing, Buffers(memory.areas)
    ensures Unaliased(memory.areas)
    ensures View(memory.areas, memory.supervisor)
            == AdjustAll(Writables(memory.areas, memory.supervisor), old(View(memory.areas, memory.supervisor)),
                         AllOffsets(first, table))
    ensures forall b: u32 | Covered(memory.areas, b) && Elsewhere(AllOffsets(first, table), b) ::
      ByteAt(memory.areas, b) == old(ByteAt(memory.areas, b))
  {
    hide View; hide Unaliased; hide Adjust; hide Wrap; hide Offsets; hide Terminated; hide Writables; hide Outside;
    hide Covered; hide ByteAt; hide Elsewhere; hide AllOffsets;
    var adr := Wrap(TEXT_BASE + first);
    FirstAddress(first);
    AtEnd(table);
    FirstOffsets(first, table);
    ghost var all := AllOffsets(first, table);
    if adr != TEXT_BASE {
      ghost var offset: nat := first;
      ghost var rest := Offsets(table, first);
      ghost var done := 1;
      ElsewhereAt(all, 0);
      AdjustLong(memory, adr);
      var ptr := 0;
      while table[ptr] != 0
        invariant ptr < |table| && Terminated(table[ptr..]) && adr == Wrap(TEXT_BASE + offset)
        invariant Unaliased(memory.areas) && rest == Offsets(table[ptr..], offset)
        invariant done <= |all| && rest == all[done..]
        invariant AdjustAll(Writables(memory.areas, memory.supervisor), View(memory.areas, memory.supervisor), rest)
                  == AdjustAll(Writables(memory.areas, memory.supervisor), old(View(memory.areas, memory.supervisor)), all)
        invariant forall b: u32 | Covered(memory.areas, b) && Elsewhere(all, b) ::
          ByteAt(memory.areas, b) == old(ByteAt(memory.areas, b))
        decreases |table| - ptr
      {
        var byte := table[ptr];
        ReadOn(table, ptr, offset);
        WrapAdd(TEXT_BASE + offset, if byte == 1 then 0xfe else byte);
        if byte == 1 {
          adr := Wrap(adr as int + 0xfe);
          offset := offset + 0xfe;
        } else {
          adr := Wrap(adr as int + byte);
          offset := offset + byte;
          assert rest[0] == offset == all[done];
          ElsewhereAt(all, done);
          AdjustLong(memory, adr);
          rest := rest[1..];
          done := done + 1;
        }
        ptr := ptr + 1;
      }
      ReadOn(table, ptr, offset);
    }
  }

  lemma FirstOffsets(first: u32, table: seq<u8>)
    requires Terminated(table)
    ensures AllOffsets(first, table) == if first == 0 then [] else [first] + Offsets(table, first)
  {
  }

  lemma ElsewhereAt(offsets: seq<nat>, k: nat)
    requires k < |offsets|
    ensures forall b: u32 | Elsewhere(offsets, b) :: Outside(b, Wrap(TEXT_BASE + offsets[k]), 4)
  {
    hide Outside;
  }

  lemma FirstAddress(first: u32)
    ensures Wrap(TEXT_BASE + first) == TEXT_BASE <==> first == 0
  {
  }

  lemma AtEnd(table: seq<u8>)
    requires Terminated(table)
    ensures |table| > 0 && table[0..] == table
  {
  }

  /** One byte of the table. */
  lemma ReadOn(table: seq<u8>, ptr: nat, offset: nat)
    requires ptr < |table| && Terminated(table[ptr..])
    ensures table[ptr] != 0 ==> ptr + 1 < |table| && Terminated(table[ptr + 1..])
    ensures Offsets(table[ptr..], offset)
            == if table[ptr] == 0 then []
               else if table[ptr] == 1 then Offsets(table[ptr + 1..], offset + 254)
               else [offset + table[ptr]] + Offsets(table[ptr + 1..], offset + table[ptr])
  {
    assert table[ptr..] == [table[ptr]] + table[ptr + 1..];
    assert table[ptr..][1..] == table[ptr + 1..];
  }

  // ------------------------------------------------------------------ what relocation does to memory

  /** A long that can be read and written. */
  ghost predicate Usable(w: set<u32>, m: Bytes, a: u32) {
    forall b: u32 | In(b, a, 4) :: b in m && b in w
  }

  /** Offsets whose longs lie in memory one after the other. */
  ghost predicate Spaced(w: set<u32>, m: Bytes, offsets: seq<nat>) {
    && (forall i: nat | i + 1 < |offsets| :: offsets[i] + 4 <= offsets[i + 1])
    && (|offsets| > 0 ==> TEXT_BASE + offsets[|offsets| - 1] + 4 <= TWO32)
    && forall i: nat | i < |offsets| :: Usable(w, m, Wrap(TEXT_BASE + offsets[i]))
  }

  /** b is a byte of one of the longs to relocate. */
  predicate Touched(offsets: seq<nat>, b: u32) {
    exists i: nat | i < |offsets| :: TEXT_BASE + offsets[i] <= b < TEXT_BASE + offsets[i] + 4
  }

  lemma {:induction false} SpacedOrder(w: set<u32>, m: Bytes, offsets: seq<nat>, i: nat, j: nat)
    requires Spaced(w, m, offsets) && i < j < |offsets|
    ensures offsets[i] + 4 <= offsets[j]
    decreases j
  {
    if i + 1 < j {
      SpacedOrder(w, m, offsets, i, j - 1);
    }
  }

  lemma SpacedFits(w: set<u32>, m: Bytes, offsets: seq<nat>, i: nat)
    requires Spaced(w, m, offsets) && i < |offsets|
    ensures TEXT_BASE + offsets[i] + 4 <= TWO32 && Wrap(TEXT_BASE + offsets[i]) == TEXT_BASE + offsets[i]
  {
    if i + 1 < |offsets| {
      SpacedOrder(w, m, offsets, i, |offsets| - 1);
    }
  }

  /** Adjusting one long leaves the bytes outside it. */
  lemma AdjustEffect(w: set<u32>, m: Bytes, a: u32)
    requires a + 4 <= TWO32 && Usable(w, m, a)
    ensures Adjust(w, m, a).Keys == m.Keys && Read32(Adjust(w, m, a), a) == Wrap(Read32(m, a) as int + TEXT_BASE)
    ensures forall b: u32 | !(a <= b < a + 4) :: Peek(Adjust(w, m, a), b) == Peek(m, b)
  {
    hide Write32; hide Read32; hide In; hide WriteBytes; hide Nth;
    forall j: nat | j < 4 ensures In(Nth(a, j), a, 4) { NthIn(a, j); }
    WriteIsFlat32(w, m, a, Wrap(Read32(m, a) as int + TEXT_BASE));
    Write32Effect(m, a, Wrap(Read32(m, a) as int + TEXT_BASE));
    forall b: u32 ensures In(b, a, 4) <==> a <= b < a + 4 { InRange(b, a, 4); }
  }

  lemma NthIn(a: u32, j: nat)
    requires j < 4
    ensures In(Nth(a, j), a, 4)
  {
  }

  /** With offsets at least 4 apart and longs that can be read and written, each long grows by the base
      once, and no other byte changes. */
  lemma {:induction false} RelocationEffect(w: set<u32>, m: Bytes, offsets: seq<nat>)
    requires Spaced(w, m, offsets)
    ensures var m' := AdjustAll(w, m, offsets);
      && m'.Keys == m.Keys
      && (forall i: nat | i < |offsets| ::
            Read32(m', Wrap(0x900 + offsets[i])) == Wrap(Read32(m, Wrap(0x900 + offsets[i])) as int + 0x900))
      && forall b: u32 | !Touched(offsets, b) :: Peek(m', b) == Peek(m, b)
    decreases |offsets|
  {
    hide Adjust; hide Read32; hide Touched; hide Spaced;
    if offsets != [] {
      SpacedFits(w, m, offsets, 0);
      var a := Wrap(TEXT_BASE + offsets[0]);
      SpacedHead(w, m, offsets);
      var m1 := Adjust(w, m, a);
      AdjustEffect(w, m, a);
      var rest := offsets[1..];
      SpacedTail(w, m, m1, offsets);
      RelocationEffect(w, m1, rest);
      var m' := AdjustAll(w, m1, rest);
      assert m' == AdjustAll(w, m, offsets);
      forall b: u32 ensures Touched(offsets, b) <==> a <= b < a + 4 || Touched(rest, b) { TouchedTail(offsets, b, a); }
      forall i: nat | i < |offsets|
        ensures Read32(m', Wrap(TEXT_BASE + offsets[i]))
                == Wrap(Read32(m, Wrap(TEXT_BASE + offsets[i])) as int + TEXT_BASE)
      {
        SpacedFits(w, m, offsets, i);
        if i == 0 {
          forall b: u32 | a <= b < a + 4 ensures !Touched(rest, b) { HeadUntouched(w, m, offsets, b); }
          SameLong(m1, m', a);
        } else {
          SpacedOrder(w, m, offsets, 0, i);
          assert rest[i - 1] == offsets[i];
          SameLong(m, m1, Wrap(TEXT_BASE + offsets[i]));
        }
      }
    }
  }

  lemma SpacedHead(w: set<u32>, m: Bytes, offsets: seq<nat>)
    requires Spaced(w, m, offsets) && offsets != []
    ensures Usable(w, m, Wrap(TEXT_BASE + offsets[0]))
  {
  }

  lemma SpacedTail(w: set<u32>, m: Bytes, m': Bytes, offsets: seq<nat>)
    requires Spaced(w, m, offsets) && offsets != [] && m.Keys == m'.Keys
    ensures Spaced(w, m', offsets[1..])
  {
    hide Wrap;
    var rest := offsets[1..];
    forall i: nat | i < |rest| ensures Usable(w, m', Wrap(TEXT_BASE + rest[i])) {
      assert rest[i] == offsets[i + 1];
    }
  }

  lemma TouchedTail(offsets: seq<nat>, b: u32, a: u32)
    requires offsets != [] && a == TEXT_BASE + offsets[0]
    ensures Touched(offsets, b) <==> a <= b < a + 4 || Touched(offsets[1..], b)
  {
    var rest := offsets[1..];
    if Touched(rest, b) {
      var i: nat :| i < |rest| && TEXT_BASE + rest[i] <= b < TEXT_BASE + rest[i] + 4;
      assert offsets[i + 1] == rest[i];
    }
    if Touched(offsets, b) && !(a <= b < a + 4) {
      var i: nat :| i < |offsets| && TEXT_BASE + offsets[i] <= b < TEXT_BASE + offsets[i] + 4;
      assert rest[i - 1] == offsets[i];
    }
  }

  lemma HeadUntouched(w: set<u32>, m: Bytes, offsets: seq<nat>, b: u32)
    requires Spaced(w, m, offsets) && offsets != [] && TEXT_BASE + offsets[0] <= b < TEXT_BASE + offsets[0] + 4
    ensures !Touched(offsets[1..], b)
  {
    var rest := offsets[1..];
    forall i: nat | i < |rest|
      ensures !(TEXT_BASE + rest[i] <= b < TEXT_BASE + rest[i] + 4)
    {
      SpacedOrder(w, m, offsets, 0, i + 1);
    }
  }

  // ------------------------------------------------------------------ which lists a table can denote

  /** The bytes for an advance: 254 at a time while the rest does not fit a byte. */
  function Advance(gap: nat): seq<u8>
    requires gap >= 2
  {
    if gap <= 255 then [gap] else [1] + Advance(gap - 254)
  }

  function Encode(offset: nat, offsets: seq<nat>): seq<u8>
    requires GapsFrom(offset, offsets)
    decreases |offsets|
  {
    if offsets == [] then [0]
    else Advance(offsets[0] - offset) + Encode(offsets[0], offsets[1..])
  }

  /** Increasing by at least 2 each time. */
  predicate GapsFrom(offset: nat, offsets: seq<nat>)
    decreases |offsets|
  {
    offsets == [] || (offsets[0] >= offset + 2 && GapsFrom(offsets[0], offsets[1..]))
  }

  /** The lists of offsets that have a table. */
  predicate Denotable(offsets: seq<nat>) {
    offsets == [] || (0 < offsets[0] < TWO32 && GapsFrom(offsets[0], offsets[1..]))
  }

  lemma {:induction false} EncodeTerminated(offset: nat, offsets: seq<nat>)
    requires GapsFrom(offset, offsets)
    ensures Terminated(Encode(offset, offsets))
    decreases |offsets|
  {
    if offsets != [] {
      EncodeTerminated(offsets[0], offsets[1..]);
    }
  }

  /** The interpreter walks an advance to its end and reports the offset there. */
  lemma {:induction false} OffsetsOfAdvance(gap: nat, rest: seq<u8>, offset: nat)
    requires gap >= 2 && Terminated(rest)
    ensures Terminated(Advance(gap) + rest)
    ensures Offsets(Advance(gap) + rest, offset) == [offset + gap] + Offsets(rest, offset + gap)
    decreases gap
  {
    var table := Advance(gap) + rest;
    if gap <= 255 {
      assert table[1..] == rest;
      assert table[|table| - |rest|..] == rest;
    } else {
      OffsetsOfAdvance(gap - 254, rest, offset + 254);
      assert table == [1] + (Advance(gap - 254) + rest);
      assert table[1..] == Advance(gap - 254) + rest;
      hide Advance;
    }
  }

  /** Interpreting an encoded list gives the list back. */
  lemma {:induction false} RoundTrip(offset: nat, offsets: seq<nat>)
    requires GapsFrom(offset, offsets)
    ensures Terminated(Encode(offset, offsets)) && Offsets(Encode(offset, offsets), offset) == offsets
    decreases |offsets|
  {
    if offsets != [] {
      RoundTrip(offsets[0], offsets[1..]);
      OffsetsOfAdvance(offsets[0] - offset, Encode(offsets[0], offsets[1..]), offset);
      assert offsets == [offsets[0]] + offsets[1..];
    }
  }

  /** Whatever a table says, its offsets increase by at least 2. */
  lemma {:induction false} OffsetsHaveGaps(table: seq<u8>, offset: nat, start: nat)
    requires Terminated(table) && start <= offset
    ensures GapsFrom(start, Offsets(table, offset))
    decreases |table|
  {
    if table[0] == 1 {
      OffsetsHaveGaps(table[1..], offset + 254, start);
    } else if table[0] != 0 {
      OffsetsHaveGaps(table[1..], offset + table[0], offset + table[0]);
      assert ([offset + table[0]] + Offsets(table[1..], offset + table[0]))[1..] == Offsets(table[1..], offset + table[0]);
    }
  }

  /** Exactly the denotable lists have a table. */
  lemma TableExists(offsets: seq<nat>)
    ensures Denotable(offsets) <==> exists first: u32, table: seq<u8> :: Terminated(table) && AllOffsets(first, table) == offsets
  {
    if Denotable(offsets) {
      if offsets == [] {
        assert AllOffsets(0, [0]) == [];
      } else {
        RoundTrip(offsets[0], offsets[1..]);
        var table := Encode(offsets[0], offsets[1..]);
        assert AllOffsets(offsets[0], table) == offsets by { assert offsets == [offsets[0]] + offsets[1..]; }
      }
    }
    if first: u32, table: seq<u8> :| Terminated(table) && AllOffsets(first, table) == offsets {
      if first != 0 {
        OffsetsHaveGaps(table, first, first);
        assert offsets[1..] == Offsets(table, first);
      }
    }
  }
}
