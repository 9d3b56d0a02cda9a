/** The opcode jump table: the specialised fill loops of the builder (Musashi/m68k_in.c), and the masks,
matches and order that the generator gives the handler table (Musashi/m68kmake.c). */
module OpcodeTable {
  import opened Words
  import opened Bits

  datatype Entry<H> = Entry(handler: H, mask: u16, pattern: u16)

  /** The instruction word belongs to the entry. */
  predicate Matches(w: u16, mask: u16, pattern: u16) {
    And(w, mask) == pattern
  }

  predicate WithinMask(mask: u16, pattern: u16) {
    And(pattern, mask) == pattern
  }

  // ------------------------------------------------------------------ what the table should hold

  /** The handler of the last entry that matches, else illegal. */
  function LastMatch<H>(entries: seq<Entry<H>>, w: u16, illegal: H): H {
    if entries == [] then illegal
    else
      var last := entries[|entries| - 1];
      if Matches(w, last.mask, last.pattern) then last.handler else LastMatch(entries[..|entries| - 1], w, illegal)
  }

  lemma LastMatchNext<H>(entries: seq<Entry<H>>, k: nat, w: u16, illegal: H)
    requires k < |entries|
    ensures LastMatch(entries[..k + 1], w, illegal)
            == if Matches(w, entries[k].mask, entries[k].pattern) then entries[k].handler
               else LastMatch(entries[..k], w, illegal)
  {
    assert entries[..k + 1][..k] == entries[..k];
  }

  // ------------------------------------------------------------------ the order the builder needs

  /** The fill loop that an entry with this mask needs: 0 is the general one. */
  function Phase(mask: u16): nat {
    if mask == 0xff00 then 1 else if mask == 0xf1f8 then 2 else if mask == 0xfff0 then 3
    else if mask == 0xf1ff then 4 else if mask == 0xfff8 then 5 else if mask == 0xffff then 6 else 0
  }

  /** The phases follow each other, and there is an entry that ends the general one. */
  ghost predicate Grouped<H>(entries: seq<Entry<H>>) {
    && (forall i: nat, j: nat | i < j < |entries| :: Phase(entries[i].mask) <= Phase(entries[j].mask))
    && (exists i: nat :: i < |entries| && entries[i].mask == 0xff00)
  }

  // ------------------------------------------------------------------ the builder

  /** The entry is the handler of exactly its words; the other words keep theirs. */
  ghost predicate Filled<H>(before: seq<H>, after: seq<H>, e: Entry<H>) {
    && |before| == |after| == 0x1_0000
    && forall w: u16 :: after[w] == if Matches(w, e.mask, e.pattern) then e.handler else before[w]
  }

  /** The table is what the entries ask for. */
  ghost predicate Holds<H>(table: seq<H>, entries: seq<Entry<H>>, illegal: H) {
    |table| == 0x1_0000 && forall w: u16 :: table[w] == LastMatch(entries, w, illegal)
  }

  lemma Placed<H>(before: seq<H>, after: seq<H>, entries: seq<Entry<H>>, k: nat, illegal: H)
    requires k < |entries| && Holds(before, entries[..k], illegal) && Filled(before, after, entries[k])
    ensures Holds(after, entries[..k + 1], illegal)
  {
    hide Matches; hide LastMatch;
    forall w: u16
      ensures after[w] == LastMatch(entries[..k + 1], w, illegal)
    {
      LastMatchNext(entries, k, w, illegal);
    }
  }

  lemma HoldsNone<H>(table: seq<H>, illegal: H)
    requires |table| == 0x1_0000 && forall w: u16 :: table[w] == illegal
    ensures Holds(table, [], illegal)
  {
  }

  class Builder<H(0)> {
    const illegal: H
    const table: array<H>

    constructor (illegal: H)
      ensures this.illegal == illegal && table.Length == 0x1_0000 && fresh(table)
    {
      this.illegal := illegal;
      table := new H[0x1_0000];
    }

    /** Nothing has changed but that some words of the entry have got its handler. */
    twostate predicate FilledOnly(e: Entry<H>)
      requires table.Length == 0x1_0000
      reads table
    {
      forall j: nat | j < 0x1_0000 ::
        table[j] == old(table[j]) || (Matches(j, e.mask, e.pattern) && table[j] == e.handler)
    }

    method SetAll()
      requires table.Length == 0x1_0000
      modifies table
      ensures forall w: u16 :: table[w] == illegal
    {
      for i := 0 to 0x1_0000
        invariant forall j: nat | j < i :: table[j] == illegal
      {
        table[i] := illegal;
      }
    }

    method FillGeneral(e: Entry<H>)
      requires table.Length == 0x1_0000
      modifies table
      ensures Filled(old(table[..]), table[..], e)
    {
      hide Matches;
      for i := 0 to 0x1_0000
        invariant FilledOnly(e)
        invariant forall j: nat | j < i && Matches(j, e.mask, e.pattern) :: table[j] == e.handler
      {
        if Matches(i, e.mask, e.pattern) {
          table[i] := e.handler;
        }
      }
    }

    /** Masks that leave the low bits free: the words of the entry are match | i. */
    method FillLow(e: Entry<H>, count: nat)
      requires table.Length == 0x1_0000 && WithinMask(e.mask, e.pattern)
      requires LowMask(e.mask) && count == FreeCount(e.mask)
      modifies table
      ensures Filled(old(table[..]), table[..], e)
    {
      hide Matches; hide WithinMask; hide FreeCount; hide LowMask; hide LowNth;
      for i := 0 to count
        invariant FilledOnly(e)
        invariant forall j: nat | j < i :: table[LowNth(e.pattern, j)] == e.handler
      {
        LowWord(e.mask, e.pattern, i);
        table[LowNth(e.pattern, i)] := e.handler;
      }
      forall w: u16 | Matches(w, e.mask, e.pattern)
        ensures table[w] == e.handler
      {
        FromLow(e.mask, e.pattern, w);
      }
    }

    /** Mask 0xf1ff: the words of the entry differ in a register number in bits 9 to 11. */
    method FillHigh(e: Entry<H>)
      requires table.Length == 0x1_0000 && WithinMask(e.mask, e.pattern) && e.mask == 0xf1ff
      modifies table
      ensures Filled(old(table[..]), table[..], e)
    {
      hide Matches; hide WithinMask; hide TwoNth;
      for i := 0 to 8
        invariant FilledOnly(e)
        invariant forall j: nat | j < i :: table[TwoNth(e.pattern, j, 0)] == e.handler
      {
        TwoWord(e.mask, e.pattern, i, 0);
        table[TwoNth(e.pattern, i, 0)] := e.handler;
      }
      forall w: u16 | Matches(w, e.mask, e.pattern)
        ensures table[w] == e.handler
      {
        FromHigh(e.pattern, w);
      }
    }

    /** Mask 0xf1f8: two register numbers. */
    method FillTwo(e: Entry<H>)
      requires table.Length == 0x1_0000 && WithinMask(e.mask, e.pattern) && e.mask == 0xf1f8
      modifies table
      ensures Filled(old(table[..]), table[..], e)
    {
      hide Matches; hide WithinMask; hide TwoNth;
      for i := 0 to 8
        invariant FilledOnly(e)
        invariant forall k: nat, j: nat | k < i && j < 8 :: table[TwoNth(e.pattern, k, j)] == e.handler
      {
        for j := 0 to 8
          invariant FilledOnly(e)
          invariant forall k: nat, l: nat | k < i && l < 8 :: table[TwoNth(e.pattern, k, l)] == e.handler
          invariant forall l: nat | l < j :: table[TwoNth(e.pattern, i, l)] == e.handler
        {
          TwoWord(e.mask, e.pattern, i, j);
          table[TwoNth(e.pattern, i, j)] := e.handler;
        }
      }
      forall w: u16 | Matches(w, e.mask, e.pattern)
        ensures table[w] == e.handler
      {
        FromTwo(e.pattern, w);
      }
    }

    method FillOne(e: Entry<H>)
      requires table.Length == 0x1_0000 && WithinMask(e.mask, e.pattern) && e.mask == 0xffff
      modifies table
      ensures Filled(old(table[..]), table[..], e)
    {
      hide Matches;
      WholeMask(e.pattern);
      table[e.pattern] := e.handler;
    }

    /** m68ki_build_opcode_table; the table ends with an entry of mask 0.  All the fill loops together
        amount to one rule. */
    method Build(entries: seq<Entry<H>>)
      requires table.Length == 0x1_0000 && Grouped(entries)
      requires forall i: nat | i < |entries| :: WithinMask(entries[i].mask, entries[i].pattern)
      modifies table
      ensures Holds(table[..], entries, illegal)
    {
      hide Holds; hide Filled; hide WithinMask; hide Phase; hide From; hide Grouped; hide LowMask; hide FreeCount;
      LowMasks();
      PhaseMasks();
      SetAll();
      HoldsNone(table[..], illegal);
      var k := 0;
      assert entries[..0] == [];
      ghost var general := FirstSpecial(entries);
      while MaskAt(entries, k) != 0xff00
        invariant k <= general && Holds(table[..], entries[..k], illegal)
        decreases general - k
      {
        ghost var before := table[..];
        FillGeneral(entries[k]);
        Placed(before, table[..], entries, k, illegal);
        k := k + 1;
      }
      StartFrom(entries, k);
      while MaskAt(entries, k) == 0xff00
        invariant k <= |entries| && From(entries, k, 1) && Holds(table[..], entries[..k], illegal)
        decreases |entries| - k
      {
        ghost var before := table[..];
        FillLow(entries[k], 0x100);
        Placed(before, table[..], entries, k, illegal);
        NextFrom(entries, k, 1);
        k := k + 1;
      }
      PhaseOver(entries, k, 1, 0xff00);
      while MaskAt(entries, k) == 0xf1f8
        invariant k <= |entries| && From(entries, k, 2) && Holds(table[..], entries[..k], illegal)
        decreases |entries| - k
      {
        ghost var before := table[..];
        FillTwo(entries[k]);
        Placed(before, table[..], entries, k, illegal);
        NextFrom(entries, k, 2);
        k := k + 1;
      }
      PhaseOver(entries, k, 2, 0xf1f8);
      while MaskAt(entries, k) == 0xfff0
        invariant k <= |entries| && From(entries, k, 3) && Holds(table[..], entries[..k], illegal)
        decreases |entries| - k
      {
        ghost var before := table[..];
        FillLow(entries[k], 0x10);
        Placed(before, table[..], entries, k, illegal);
        NextFrom(entries, k, 3);
        k := k + 1;
      }
      PhaseOver(entries, k, 3, 0xfff0);
      while MaskAt(entries, k) == 0xf1ff
        invariant k <= |entries| && From(entries, k, 4) && Holds(table[..], entries[..k], illegal)
        decreases |entries| - k
      {
        ghost var before := table[..];
        FillHigh(entries[k]);
        Placed(before, table[..], entries, k, illegal);
        NextFrom(entries, k, 4);
        k := k + 1;
      }
      PhaseOver(entries, k, 4, 0xf1ff);
      while MaskAt(entries, k) == 0xfff8
        invariant k <= |entries| && From(entries, k, 5) && Holds(table[..], entries[..k], illegal)
        decreases |entries| - k
      {
        ghost var before := table[..];
        FillLow(entries[k], 8);
        Placed(before, table[..], entries, k, illegal);
        NextFrom(entries, k, 5);
        k := k + 1;
      }
      PhaseOver(entries, k, 5, 0xfff8);
      while MaskAt(entries, k) == 0xffff
        invariant k <= |entries| && From(entries, k, 6) && Holds(table[..], entries[..k], illegal)
        decreases |entries| - k
      {
        ghost var before := table[..];
        FillOne(entries[k]);
        Placed(before, table[..], entries, k, illegal);
        NextFrom(entries, k, 6);
        k := k + 1;
      }
      PhaseOver(entries, k, 6, 0xffff);
      assert entries[..k] == entries;
    }
  }

  /** The mask of entry k of the table in memory, which has an end marker. */
  function MaskAt<H>(entries: seq<Entry<H>>, k: nat): u16
    requires k <= |entries|
  {
    if k < |entries| then entries[k].mask else 0
  }

  /** Entry k, if there is one, needs phase p or a later one. */
  ghost predicate From<H>(entries: seq<Entry<H>>, k: nat, p: nat) {
    k <= |entries| && (k < |entries| ==> Phase(entries[k].mask) >= p)
  }

  lemma FirstSpecial<H>(entries: seq<Entry<H>>) returns (i: nat)
    requires Grouped(entries)
    ensures i < |entries| && entries[i].mask == 0xff00
  {
    i :| i < |entries| && entries[i].mask == 0xff00;
  }

  lemma LowMasks()
    ensures forall mask: u16 :: LowMask(mask) <==> mask == 0xff00 || mask == 0xfff0 || mask == 0xfff8
    ensures FreeCount(0xff00) == 0x100 && FreeCount(0xfff0) == 0x10 && FreeCount(0xfff8) == 8
  {
  }

  lemma StartFrom<H>(entries: seq<Entry<H>>, k: nat)
    requires k < |entries| && entries[k].mask == 0xff00
    ensures From(entries, k, 1)
  {
  }

  /** Later entries do not need earlier phases. */
  lemma NextFrom<H>(entries: seq<Entry<H>>, k: nat, p: nat)
    requires Grouped(entries) && k < |entries| && From(entries, k, p)
    ensures From(entries, k + 1, p)
  {
  }

  lemma PhaseOver<H>(entries: seq<Entry<H>>, k: nat, p: nat, mask: u16)
    requires From(entries, k, p) && Phase(mask) == p >= 1 && MaskAt(entries, k) != mask
    ensures From(entries, k, p + 1) && (p == 6 ==> k == |entries|)
  {
  }

  lemma PhaseMasks()
    ensures Phase(0xff00) == 1 && Phase(0xf1f8) == 2 && Phase(0xfff0) == 3
    ensures Phase(0xf1ff) == 4 && Phase(0xfff8) == 5 && Phase(0xffff) == 6
  {
  }

  lemma WholeMask(pattern: u16)
    ensures forall w: u16 :: Matches(w, 0xffff, pattern) <==> w == pattern
  {
    hide And; hide Pow2;
    Pow2Values();
    forall w: u16 ensures And(w, 0xffff) == w { AndOnes(w, 16); }
  }

  // ------------------------------------------------------------------ the words of an entry

  /** Masks whose free bits are the low ones, and how many words that makes. */
  predicate LowMask(mask: u16) {
    mask == 0xff00 || mask == 0xfff0 || mask == 0xfff8
  }

  function FreeBits(mask: u16): nat {
    if mask == 0xff00 then 8 else if mask == 0xfff0 then 4 else 3
  }

  function FreeCount(mask: u16): (n: nat)
    ensures n <= 0x100
  {
    if mask == 0xff00 then 0x100 else if mask == 0xfff0 then 0x10 else 8
  }

  lemma FreePow(mask: u16)
    requires LowMask(mask)
    ensures FreeCount(mask) == Pow2(FreeBits(mask))
    ensures mask == Join(Pow2(16 - FreeBits(mask)) - 1, FreeBits(mask), 0)
  {
    Pow2Values();
    assert Pow2(4) == 16;
    assert Pow2(12) == 0x1000 && Pow2(13) == 0x2000 by { Pow2Sum(8, 4); Pow2Sum(12, 1); }
  }

  /** Under such a mask only the upper part of a word counts. */
  lemma AndLowMask(mask: u16, w: u16)
    requires LowMask(mask)
    ensures And(w, mask) == Join(w / FreeCount(mask), FreeBits(mask), 0)
  {
    var n := FreeBits(mask);
    FreePow(mask);
    Parts(w, n);
    hide FreeBits; hide Join; hide LowMask;
    AndJoin(w / Pow2(n), w % Pow2(n), Pow2(16 - n) - 1, 0, n);
    AndZero(w % Pow2(n));
    UpperSmall(w, n);
    AndOnes(w / Pow2(n), 16 - n);
  }

  lemma UpperSmall(w: u16, n: nat)
    requires n <= 16
    ensures w / Pow2(n) >= 0 && w / Pow2(n) % Pow2(16 - n) == w / Pow2(n)
  {
    hide Pow2;
    Parts(w, n);
    Pow2Values();
    Pow2Sum(16 - n, n);
    if w / Pow2(n) >= Pow2(16 - n) {
      MulMonotonic(Pow2(16 - n), w / Pow2(n), Pow2(n));
    }
    SmallMod(w / Pow2(n), Pow2(16 - n));
  }

  /** match | i. */
  function LowNth(pattern: u16, i: nat): u16
    requires i < TWO16
  {
    OrBound(pattern, i);
    Or(pattern, i)
  }

  lemma OrBound(a: u16, b: u16)
    ensures Or(a, b) < TWO16
  {
    Pow2Values();
    BitwiseBound(a, b, 16);
  }

  lemma LowWord(mask: u16, pattern: u16, i: nat)
    requires WithinMask(mask, pattern) && LowMask(mask) && i < FreeCount(mask)
    ensures Matches(LowNth(pattern, i), mask, pattern)
  {
    var n, high := FreeBits(mask), pattern / FreeCount(mask);
    FreePow(mask);
    AndLowMask(mask, pattern);
    OrLow(high, n, i);
    AndLowMask(mask, LowNth(pattern, i));
    PartsOf(high, n, i);
  }

  lemma FromLow(mask: u16, pattern: u16, w: u16)
    requires Matches(w, mask, pattern) && LowMask(mask)
    ensures var i := w % FreeCount(mask); 0 <= i < FreeCount(mask) && w == LowNth(pattern, i)
  {
    var n, high := FreeBits(mask), w / FreeCount(mask);
    FreePow(mask);
    AndLowMask(mask, w);
    OrLow(high, n, w % FreeCount(mask));
    Parts(w, n);
  }

  /** match | (i << 9) | j. */
  function TwoNth(pattern: u16, i: nat, j: nat): u16
    requires i < 8 && j < 8
  {
    OrBound(pattern, i * 0x200);
    OrBound(Or(pattern, i * 0x200), j);
    Or(Or(pattern, i * 0x200), j)
  }

  /** The digits of an instruction word with a register number in bits 9 to 11. */
  function Digits(a: nat, i: nat, b: nat): nat {
    a * 0x1000 + i * 0x200 + b
  }

  lemma DigitsJoin(a: nat, i: nat, b: nat)
    ensures Digits(a, i, b) == Join(Join(a, 3, i), 9, b)
  {
    Powers();
  }

  lemma AndTwo(a: nat, i: nat, b: nat)
    requires a < 16 && i < 8 && b < 0x200
    ensures And(Digits(a, i, b), 0xf1ff) == Digits(a, 0, b) && And(Digits(a, i, b), 0xf1f8) == Digits(a, 0, b / 8 * 8)
  {
    hide And; hide Join; hide Digits;
    assert Digits(0xf, 0, 0x1ff) == 0xf1ff && Digits(0xf, 0, 0x1f8) == 0xf1f8 by { LongMasks(); }
    AndDigits(a, i, b, 0x1ff);
    AndDigits(a, i, b, 0x1f8);
    AndLowDigit(b);
  }

  lemma LongMasks()
    ensures Digits(0xf, 0, 0x1ff) == 0xf1ff && Digits(0xf, 0, 0x1f8) == 0xf1f8
  {
  }

  lemma AndDigits(a: nat, i: nat, b: nat, k: nat)
    requires a < 16 && i < 8 && b < 0x200 && k < 0x200
    ensures And(Digits(a, i, b), Digits(0xf, 0, k)) == Digits(a, 0, And(b, k))
  {
    hide And; hide Pow2; hide Join; hide Digits;
    Powers();
    DigitsJoin(a, i, b);
    DigitsJoin(0xf, 0, k);
    DigitsJoin(a, 0, And(b, k));
    AndJoin(Join(a, 3, i), b, Join(0xf, 3, 0), k, 9);
    AndJoin(a, i, 0xf, 0, 3);
    AndZero(i);
    AndOnes(a, 4);
  }

  lemma Powers()
    ensures Pow2(1) == 2 && Pow2(2) == 4 && Pow2(3) == 8 && Pow2(4) == 0x10 && Pow2(6) == 0x40
    ensures Pow2(8) == 0x100 && Pow2(9) == 0x200
  {
    Pow2Values();
    Pow2Sum(3, 1);
    Pow2Sum(3, 3);
    Pow2Sum(8, 1);
    assert Pow2(1) == 2;
  }

  lemma AndLowDigit(b: nat)
    requires b < 0x200
    ensures And(b, 0x1ff) == b && And(b, 0x1f8) == b / 8 * 8
  {
    hide And; hide Pow2; hide Join;
    Powers();
    AndOnes(b, 9);
    AndOnes(b / 8, 6);
    AndZero(b % 8);
    AndJoin(b / 8, b % 8, 0x3f, 0, 3);
    JoinEight(b / 8, b % 8);
    JoinEight(0x3f, 0);
    JoinEight(b / 8, 0);
  }

  lemma JoinEight(x: nat, y: nat)
    ensures Join(x, 3, y) == x * 8 + y
  {
    Pow2Values();
  }

  lemma OrTwo(a: nat, i: nat, b: nat)
    requires i < 8 && b < 0x200
    ensures Or(Digits(a, 0, b), i * 0x200) == Digits(a, i, b)
  {
    hide Or; hide Pow2; hide Join;
    Powers();
    DigitsJoin(a, 0, b);
    DigitsJoin(0, i, 0);
    DigitsJoin(a, i, b);
    JoinEight(0, i);
    OrJoin(Join(a, 3, 0), b, i, 0, 9);
    OrLow(a, 3, i);
    AndZero(b);
  }

  lemma Splits(w: u16)
    ensures w == Digits(w / 0x1000, w / 0x200 % 8, w % 0x200) && w % 0x200 == w % 0x200 / 8 * 8 + w % 8
  {
  }

  lemma OrEight(x: nat, j: nat)
    requires j < 8
    ensures Or(x * 8, j) == x * 8 + j
  {
    Pow2Values();
    JoinEight(x, 0);
    JoinEight(x, j);
    OrLow(x, 3, j);
  }

  /** The words of an entry with one or two register numbers, from the digits of its match. */
  lemma RegisterDigits(pattern: u16, a: nat, b: nat, i: nat, j: nat)
    requires pattern == Digits(a, 0, b) && b < 0x200 && i < 8 && j < 8 && (j == 0 || b % 8 == 0)
    ensures TwoNth(pattern, i, j) == Digits(a, i, b + j)
  {
    OrTwo(a, i, b);
    if j == 0 {
      AndZero(Digits(a, i, b));
    } else {
      OrEight(a * 0x200 + i * 0x40 + b / 8, j);
    }
  }

  lemma TwoWord(mask: u16, pattern: u16, i: nat, j: nat)
    requires WithinMask(mask, pattern) && i < 8 && j < 8 && (mask == 0xf1f8 || (mask == 0xf1ff && j == 0))
    ensures Matches(TwoNth(pattern, i, j), mask, pattern)
  {
    hide And; hide Or; hide TwoNth;
    var a, b := pattern / 0x1000, pattern % 0x200;
    Splits(pattern);
    AndTwo(a, pattern / 0x200 % 8, b);
    RegisterDigits(pattern, a, b, i, j);
    AndTwo(a, i, b + j);
  }

  lemma FromTwo(pattern: u16, w: u16)
    requires Matches(w, 0xf1f8, pattern)
    ensures var i, j := w / 0x200 % 8, w % 8; i < 8 && j < 8 && w == TwoNth(pattern, i, j)
  {
    hide And; hide Or; hide TwoNth;
    Splits(w);
    AndTwo(w / 0x1000, w / 0x200 % 8, w % 0x200);
    RegisterDigits(pattern, w / 0x1000, w % 0x200 / 8 * 8, w / 0x200 % 8, w % 8);
  }

  lemma FromHigh(pattern: u16, w: u16)
    requires Matches(w, 0xf1ff, pattern)
    ensures var i := w / 0x200 % 8; i < 8 && w == TwoNth(pattern, i, 0)
  {
    hide And; hide Or; hide TwoNth;
    Splits(w);
    AndTwo(w / 0x1000, w / 0x200 % 8, w % 0x200);
    RegisterDigits(pattern, w / 0x1000, w % 0x200, w / 0x200 % 8, 0);
  }
}
