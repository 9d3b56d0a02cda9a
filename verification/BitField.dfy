/** BFINS and BFEXTU on a register and on memory (Musashi/m68k_in.c). */
module BitField {
  import opened Words
  import opened FlatMemory
  import opened Bits
  import opened M68k
  import opened Flags
  import opened Exceptions
  import opened Shifts
  import opened ShiftHandlers
  import opened Rotates

  // ------------------------------------------------------------------ fields of a word

  /** The w bits of a 32-bit word that start o bits from its top. */
  function Field(word: u32, o: nat, w: nat): nat
    requires o + w <= 32
  {
    LowPart(Shr(word, 32 - o - w), w)
  }

  /** The same word with that field replaced by the low w bits of v. */
  function WithField(word: u32, o: nat, w: nat, v: u32): nat
    requires o + w <= 32
  {
    Join(Join(Shr(word, 32 - o), w, LowPart(v, w)), 32 - o - w, LowPart(word, 32 - o - w))
  }

  /** What replacing a field means: the new field is there, and the bits on both sides stay. */
  lemma WithFieldMeaning(word: u32, o: nat, w: nat, v: u32)
    requires o + w <= 32
    ensures var word' := WithField(word, o, w, v);
      && word' < TWO32 && Field(word', o, w) == LowPart(v, w)
      && Shr(word', 32 - o) == Shr(word, 32 - o) && LowPart(word', 32 - o - w) == LowPart(word, 32 - o - w)
  {
    hide Pow2; hide Join; hide Shr; hide LowPart;
    var r, high, low, v' := 32 - o - w, Shr(word, 32 - o), LowPart(word, 32 - o - w), LowPart(v, w);
    Pow2Values();
    ShrSmall(word, 32 - o, o);
    JoinBound(high, o, w, v');
    JoinBound(Join(high, w, v'), o + w, r, low);
    JoinParts(Join(high, w, v'), r, low);
    JoinParts(high, w, v');
    JoinAssociates(high, w, v', r, low);
    JoinBound(v', w, r, low);
    JoinParts(high, w + r, Join(v', r, low));
  }

  lemma JoinParts(x: nat, n: nat, y: nat)
    requires y < Pow2(n)
    ensures Shr(Join(x, n, y), n) == x && LowPart(Join(x, n, y), n) == y
  {
    hide Pow2;
    PartsOf(x, n, y);
  }

  /** Masking a field out and putting another one in. */
  lemma InsertField(word: u32, o: nat, w: nat, v: u32)
    requires o + w <= 32
    ensures var r := 32 - o - w;
      && Join(Pow2(w) - 1, r, 0) < TWO32
      && OrWord(AndWord(word, Not(Join(Pow2(w) - 1, r, 0))), Join(LowPart(v, w), r, 0)) == WithField(word, o, w, v)
  {
    hide Pow2; hide Join; hide Shr; hide LowPart; hide And; hide Or; hide Wrap; hide Not;
    var r, high, low, v' := 32 - o - w, Shr(word, 32 - o), LowPart(word, 32 - o - w), LowPart(v, w);
    NotField(o, w);
    WordParts(word, o, w);
    WithFieldMeaning(word, o, w, v);
    Pow2Values();
    ShrSmall(word, 32 - o, o);
    // masked out
    AndJoin(Join(high, w, Field(word, o, w)), low, Join(Pow2(o) - 1, w, 0), Pow2(r) - 1, r);
    AndJoin(high, Field(word, o, w), Pow2(o) - 1, 0, w);
    AndZero(Field(word, o, w));
    AndOnes(high, o);
    AndOnes(low, r);
    SmallMod(high, Pow2(o));
    SmallMod(low, Pow2(r));
    // put in
    PowPositive(w);
    OrJoin(Join(high, w, 0), low, v', 0, r);
    OrLow(high, w, v');
    AndZero(low);
    WordFits(word, o, w);
    WrapSame(WithField(word, o, w, v));
  }

  lemma WordParts(word: u32, o: nat, w: nat)
    requires o + w <= 32
    ensures word == Join(Join(Shr(word, 32 - o), w, Field(word, o, w)), 32 - o - w, LowPart(word, 32 - o - w))
  {
    hide Pow2; hide Join; hide Shr; hide LowPart;
    ShrShr(word, 32 - o - w, w);
  }

  lemma ShrShr(a: nat, i: nat, j: nat)
    ensures Shr(Shr(a, i), j) == Shr(a, i + j)
  {
    hide Pow2;
    Pow2Sum(j, i);
    ModDiv(a, Pow2(j), Pow2(i));
  }

  lemma WordFits(word: u32, o: nat, w: nat)
    requires o + w <= 32
    ensures var x := Join(Join(Shr(word, 32 - o), w, 0), 32 - o - w, LowPart(word, 32 - o - w)); Wrap(x) == x
  {
    hide Pow2; hide Join; hide Shr; hide LowPart;
    Pow2Values();
    PowPositive(w);
    ShrSmall(word, 32 - o, o);
    JoinBound(Shr(word, 32 - o), o, w, 0);
    JoinBound(Join(Shr(word, 32 - o), w, 0), o + w, 32 - o - w, LowPart(word, 32 - o - w));
    WrapSame(Join(Join(Shr(word, 32 - o), w, 0), 32 - o - w, LowPart(word, 32 - o - w)));
  }

  lemma NotField(o: nat, w: nat)
    requires o + w <= 32
    ensures var r := 32 - o - w; var mask := Join(Pow2(w) - 1, r, 0);
      mask < TWO32 && Not(mask) == Join(Join(Pow2(o) - 1, w, 0), r, Pow2(r) - 1)
  {
    hide Pow2; hide Join;
    var r := 32 - o - w;
    Pow2Values();
    PowPositive(r);
    JoinBound(Pow2(w) - 1, w, r, 0);
    PowGrows(w + r, 32);
    JoinOnes(w, r);
    JoinAssociates(Pow2(o) - 1, w, 0, r, Pow2(r) - 1);
    JoinZeroTop(Pow2(r) - 1, r);
    JoinSum0(Pow2(o) - 1, w + r, Pow2(r) - 1);
    JoinOnes(o, w + r);
  }

  // ------------------------------------------------------------------ fields that wrap around a register

  lemma LeftsOf(k: nat, a: u32)
    requires k <= 32
    ensures a < Pow2(32) && Lefts(32, k, a) == Join(LowPart(a, 32 - k), k, Shr(a, 32 - k)) && Shr(a, 32 - k) < Pow2(k)
  {
    hide Pow2; hide Join; hide Shr; hide LowPart; hide Lefts;
    Pow2Values();
    ShrSmall(a, 32 - k, k);
    LeftsJoin(32, k, Shr(a, 32 - k), LowPart(a, 32 - k));
  }

  /** A register turned so that its field is on top. */
  function OnTop(o: nat, a: u32): u32 {
    Pow2Values();
    Lefts(32, o, a)
  }

  lemma BitwiseWords(a: u32, b: u32)
    ensures And(a, b) < TWO32 && Or(a, b) < TWO32 && AndWord(a, b) == And(a, b) && OrWord(a, b) == Or(a, b)
  {
    hide And; hide Or;
    Pow2Values();
    BitwiseBound(a, b, 32);
  }

  /** Turning goes with the bitwise operators. */
  lemma TurnedBitwise(o: nat, a: u32, b: u32)
    requires o <= 32
    ensures OnTop(o, AndWord(a, b)) == AndWord(OnTop(o, a), OnTop(o, b))
    ensures OnTop(o, OrWord(a, b)) == OrWord(OnTop(o, a), OnTop(o, b))
  {
    hide Pow2; hide Join; hide Shr; hide LowPart; hide Lefts; hide And; hide Or; hide AndWord; hide OrWord;
    Pow2Values();
    var h, l, h', l' := Shr(a, 32 - o), LowPart(a, 32 - o), Shr(b, 32 - o), LowPart(b, 32 - o);
    LeftsOf(o, a);
    LeftsOf(o, b);
    BitwiseWords(a, b);
    BitwiseWords(OnTop(o, a), OnTop(o, b));
    BitwiseBound(h, h', o);
    BitwiseBound(l, l', 32 - o);
    AndJoin(h, l, h', l', 32 - o);
    OrJoin(h, l, h', l', 32 - o);
    AndJoin(l, h, l', h', o);
    OrJoin(l, h, l', h', o);
    LeftsJoin(32, o, And(h, h'), And(l, l'));
    LeftsJoin(32, o, Or(h, h'), Or(l, l'));
  }

  lemma TurnedNot(o: nat, a: u32)
    requires o <= 32
    ensures OnTop(o, Not(a)) == Not(OnTop(o, a))
  {
    hide Pow2; hide Join; hide Shr; hide LowPart; hide Lefts;
    Pow2Values();
    LeftsOf(o, a);
    var h, l := Shr(a, 32 - o), LowPart(a, 32 - o);
    NotJoin(h, o, 32 - o, l);
    NotJoin(l, 32 - o, o, h);
    LeftsJoin(32, o, Pow2(o) - 1 - h, Pow2(32 - o) - 1 - l);
  }

  lemma NotJoin(h: nat, m: nat, n: nat, l: nat)
    requires h < Pow2(m) && l < Pow2(n)
    ensures Join(Pow2(m) - 1 - h, n, Pow2(n) - 1 - l) == Pow2(m + n) - 1 - Join(h, n, l)
  {
    hide Pow2;
    Pow2Sum(m, n);
    Subtract(Pow2(m) - 1, h, Pow2(n));
    OneLess(Pow2(m), Pow2(n));
  }

  /** Masking and inserting on turned words, turned back. */
  lemma InsertTurned(d: u32, o: nat, w: nat, v: u32)
    requires o < 32 && 0 < w <= 32
    ensures var mask, insert := Ror(32, Shl(TWO32 - 1, 32 - w), o), Ror(32, Shl(v, 32 - w), o);
      && mask < TWO32 && insert < TWO32
      && OnTop(o, OrWord(AndWord(d, Not(mask)), insert)) == WithField(OnTop(o, d), 0, w, v)
  {
    hide Pow2; hide Join; hide Shr; hide Shl; hide LowPart; hide Lefts; hide Rights; hide AndWord;
    hide OrWord; hide Not; hide Ror; hide WithField;
    Pow2Values();
    var m, i := Shl(TWO32 - 1, 32 - w), Shl(v, 32 - w);
    RorTurns(32, m, o);
    RorTurns(32, i, o);
    LeftsUndoRights(32, o, m);
    LeftsUndoRights(32, o, i);
    var mask, insert: u32 := Rights(32, o, m), Rights(32, o, i);
    TurnedNot(o, mask);
    TurnedBitwise(o, d, Not(mask));
    TurnedBitwise(o, AndWord(d, Not(mask)), insert);
    ShlJoin(TWO32 - 1, 32 - w);
    ShlJoin(v, 32 - w);
    AllOnes(w);
    InsertField(OnTop(o, d), 0, w, v);
  }

  lemma AllOnes(w: nat)
    requires w <= 32
    ensures LowPart(TWO32 - 1, w) == Pow2(w) - 1
  {
    hide Pow2;
    Pow2Values();
    JoinOnes(32 - w, w);
    JoinSum0(Pow2(32 - w) - 1, w, Pow2(w) - 1);
    PartsOf(Pow2(32 - w) - 1, w, Pow2(w) - 1);
  }

  // ------------------------------------------------------------------ register operands

  /** The register numbers and the destination in the extension word. */
  function OffsetField(word2: u16): nat { word2 / 0x40 % 32 }
  function DataRegister(word2: u16): nat { word2 / 0x1000 % 8 }

  /** The offset and the width as the register forms use them; a width of 0 stands for 32. */
  function FieldOffset(word2: u16, dar: Regs): nat {
    (if word2 / 0x800 % 2 == 1 then dar[OffsetField(word2) % 8] else OffsetField(word2)) % 32
  }

  function FieldWidth(word2: u16, dar: Regs): (w: nat)
    ensures 1 <= w <= 32
  {
    ((if word2 / 0x20 % 2 == 1 then dar[word2 % 8] else word2) as int + 31) % 32 + 1
  }

  /** The fields of the extension word: the data register, a flag and the offset or its register, a flag and
      the width or its register. */
  lemma FieldOperands(top: nat, d: nat, inRegister: bool, offset: nat, widthInRegister: bool, width: nat, dar: Regs)
    requires top <= 1 && d < 8 && offset < 32 && width < 32
    ensures var w := top * 0x8000 + d * 0x1000 + B2N(inRegister) * 0x800 + offset * 0x40 + B2N(widthInRegister) * 0x20 + width;
      && w < TWO16 && DataRegister(w) == d
      && SignedOffset(w, dar) == (if inRegister then Signed(dar[offset % 8]) else offset)
      && FieldOffset(w, dar) == (if inRegister then dar[offset % 8] else offset) % 32
      && FieldWidth(w, dar) == WidthOf(if widthInRegister then dar[width % 8] else width)
  {
    var o, r := B2N(inRegister), B2N(widthInRegister);
    FieldDigits(top, d, o, offset, r, width);
    var w: u16 := top * 0x8000 + d * 0x1000 + o * 0x800 + offset * 0x40 + r * 0x20 + width;
    WidthModulo(if widthInRegister then dar[width % 8] else w);
    WidthSame(w, width);
  }

  lemma FieldDigits(top: nat, d: nat, o: nat, offset: nat, r: nat, width: nat)
    requires top <= 1 && d < 8 && o <= 1 && offset < 32 && r <= 1 && width < 32
    ensures var w := top * 0x8000 + d * 0x1000 + o * 0x800 + offset * 0x40 + r * 0x20 + width;
      && w < TWO16 && w / 0x1000 % 8 == d && w / 0x800 % 2 == o && w / 0x40 % 32 == offset && w / 0x20 % 2 == r
      && w % 32 == width && w % 8 == width % 8
  {
    var w := top * 0x8000 + d * 0x1000 + o * 0x800 + offset * 0x40 + r * 0x20 + width;
    assert w / 0x20 == top * 0x400 + d * 0x80 + o * 0x40 + offset * 2 + r;
    assert w / 0x40 == top * 0x200 + d * 0x40 + o * 0x20 + offset;
    assert w / 0x800 == top * 0x10 + d * 2 + o;
    assert w / 0x1000 == top * 8 + d;
  }

  lemma WidthSame(w: u32, width: u32)
    requires w % 32 == width
    ensures WidthOf(w) == WidthOf(width)
  {
  }

  /** A width counts modulo 32, and 0 stands for 32. */
  function WidthOf(width: u32): nat {
    if width % 32 == 0 then 32 else width % 32
  }

  lemma WidthModulo(x: u32)
    ensures (x as int + 31) % 32 + 1 == WidthOf(x) && WidthOf(x) == if x % 32 == 0 then 32 else x % 32
  {
  }

  /** N and Z tell about the field as a number of w bits. */
  predicate FieldFlags(f: nat, w: nat, nFlag: u32, notZ: u32, v: u32, c: u32)
    requires w > 0
  {
    nFlag / 0x80 % 2 == B2N(f >= Pow2(w - 1)) && (notZ == 0 <==> f == 0) && v == 0 && c == 0
  }

  /** Only DY changes, and of it only the field, which wraps around the end of the register. */
  predicate Inserted(word2: u16, ir: u16, dar: Regs, dar': Regs, nFlag: u32, notZ: u32, v: u32, c: u32) {
    var o, w, y, value := FieldOffset(word2, dar), FieldWidth(word2, dar), ir % 8, dar[DataRegister(word2)];
    && dar' == dar[y := dar'[y]] && OnTop(o, dar'[y]) as int == WithField(OnTop(o, dar[y]), 0, w, value)
    && FieldFlags(LowPart(value, w), w, nFlag, notZ, v, c)
  }

  predicate Extracted(word2: u16, ir: u16, dar: Regs, dar': Regs, nFlag: u32, notZ: u32, v: u32, c: u32) {
    var o, w, d := FieldOffset(word2, dar), FieldWidth(word2, dar), DataRegister(word2);
    var f := Field(OnTop(o, dar[ir % 8]), 0, w);
    && dar' == dar[d := dar'[d]] && dar'[d] as int == f && FieldFlags(f, w, nFlag, notZ, v, c)
  }

  /** A word with the field on top: N and Z of the word are those of the field. */
  lemma TopField(f: nat, w: nat, low: nat)
    requires 0 < w <= 32 && f < Pow2(w) && low < Pow2(32 - w)
    ensures 0 <= Join(f, 32 - w, low) < TWO32
    ensures Join(f, 32 - w, low) / 0x100_0000 / 0x80 % 2 == B2N(f >= Pow2(w - 1))
    ensures low == 0 ==> (Join(f, 32 - w, low) == 0 <==> f == 0)
  {
    hide Pow2; hide Join;
    Pow2Values();
    JoinBound(f, w, 32 - w, low);
    JoinAtLeast(f, 32 - w, low, w - 1);
    JoinSame(f, 0, 32 - w);
    JoinNothing(32 - w);
  }

  method BfinsD(cpu: Cpu)
    modifies cpu
    ensures !Ec020Plus(cpu.cpuType) ==> Entered(cpu, old(cpu.ppc), EXCEPTION_ILLEGAL_INSTRUCTION, FrameSize(cpu.cpuType))
    ensures Ec020Plus(cpu.cpuType) ==>
      var word2 := old(Read16(cpu.mem, Addr(cpu.cpuType, cpu.pc)));
      && cpu.pc == old(Wrap(cpu.pc + 2)) && unchanged(cpu`mem, cpu`x, cpu`s, cpu`m, cpu`sp)
      && Inserted(word2, old(cpu.ir), old(cpu.dar), cpu.dar, cpu.n, cpu.notZ, cpu.v, cpu.c)
  {
    hide Pow2; hide Join; hide Shl; hide Ror; hide AndWord; hide OrWord; hide Not; hide OnTop; hide WithField;
    hide LowPart;
    hide Read16; hide Addr; hide Read32; hide RoomBelow; hide Unwind; hide SrOf;
    if !Ec020Plus(cpu.cpuType) {
      ExceptionPlain(cpu, cpu.ppc, EXCEPTION_ILLEGAL_INSTRUCTION);
      return;
    }
    var word2 := cpu.ReadImm16();
    var offset, width := FieldOffset(word2, cpu.dar), FieldWidth(word2, cpu.dar);
    var y, value := cpu.ir % 8, cpu.dar[DataRegister(word2)];
    InsertTurned(cpu.dar[y], offset, width, value);
    ShlJoin(value, 32 - width);
    PowPositive(32 - width);
    TopField(LowPart(value, width), width, 0);
    var mask: u32 := Ror(32, Shl(TWO32 - 1, 32 - width), offset);
    var insert := Shl(value, 32 - width);
    cpu.n := insert / 0x100_0000;
    cpu.notZ := insert;
    insert := Ror(32, insert, offset);
    cpu.v := 0;
    cpu.c := 0;
    cpu.dar := cpu.dar[y := AndWord(cpu.dar[y], Not(mask))];
    cpu.dar := cpu.dar[y := OrWord(cpu.dar[y], insert)];
  }

  method BfextuD(cpu: Cpu)
    modifies cpu
    ensures !Ec020Plus(cpu.cpuType) ==> Entered(cpu, old(cpu.ppc), EXCEPTION_ILLEGAL_INSTRUCTION, FrameSize(cpu.cpuType))
    ensures Ec020Plus(cpu.cpuType) ==>
      var word2 := old(Read16(cpu.mem, Addr(cpu.cpuType, cpu.pc)));
      && cpu.pc == old(Wrap(cpu.pc + 2)) && unchanged(cpu`mem, cpu`x, cpu`s, cpu`m, cpu`sp)
      && Extracted(word2, old(cpu.ir), old(cpu.dar), cpu.dar, cpu.n, cpu.notZ, cpu.v, cpu.c)
  {
    hide Pow2; hide Join; hide Shl; hide Shr; hide Rol; hide OnTop; hide Field;
    hide Read16; hide Addr; hide Read32; hide RoomBelow; hide Unwind; hide SrOf;
    if !Ec020Plus(cpu.cpuType) {
      ExceptionPlain(cpu, cpu.ppc, EXCEPTION_ILLEGAL_INSTRUCTION);
      return;
    }
    var word2 := cpu.ReadImm16();
    var offset, width := FieldOffset(word2, cpu.dar), FieldWidth(word2, cpu.dar);
    RolOnTop(cpu.dar[cpu.ir % 8], offset);
    var data: u32 := Rol(32, cpu.dar[cpu.ir % 8], offset);
    ExtractTop(data, width);
    cpu.n := data / 0x100_0000;
    data := Shr(data, 32 - width);
    cpu.notZ := data;
    cpu.v := 0;
    cpu.c := 0;
    cpu.dar := cpu.dar[DataRegister(word2) := data];
  }

  lemma RolOnTop(d: u32, o: nat)
    requires o <= 32
    ensures Rol(32, d, o) == OnTop(o, d)
  {
    hide Pow2; hide Rol; hide Lefts;
    Pow2Values();
    RolTurns(32, d, o);
  }

  lemma ExtractTop(data: u32, w: nat)
    requires 0 < w <= 32
    ensures Shr(data, 32 - w) == Field(data, 0, w) < TWO32 && Field(data, 0, w) < Pow2(w)
    ensures data / 0x100_0000 / 0x80 % 2 == B2N(Field(data, 0, w) >= Pow2(w - 1))
  {
    hide Pow2; hide Join; hide Shr; hide LowPart;
    Pow2Values();
    ShrSmall(data, 32 - w, w);
    PowGrows(w, 32);
    LowSmall(Shr(data, 32 - w), w);
    TopField(Field(data, 0, w), w, LowPart(data, 32 - w));
  }

  lemma LowSmall(x: nat, w: nat)
    requires x < Pow2(w)
    ensures LowPart(x, w) == x
  {
    hide Pow2;
    SmallMod(x, Pow2(w));
  }

  /** BFINS then BFEXTU of the same field gives the low w bits of what was inserted. */
  lemma InsertThenExtract(word2: u16, ir: u16, dar: Regs, dar1: Regs, n1: u32, z1: u32, v1: u32, c1: u32,
                          word2': u16, dar2: Regs, n2: u32, z2: u32, v2: u32, c2: u32)
    requires Inserted(word2, ir, dar, dar1, n1, z1, v1, c1) && Extracted(word2', ir, dar1, dar2, n2, z2, v2, c2)
    requires FieldOffset(word2', dar1) == FieldOffset(word2, dar) && FieldWidth(word2', dar1) == FieldWidth(word2, dar)
    ensures dar2[DataRegister(word2')] as int == dar[DataRegister(word2)] % Pow2(FieldWidth(word2, dar))
  {
    hide Pow2; hide Join; hide Shr; hide LowPart; hide OnTop; hide WithField; hide FieldOffset; hide FieldWidth;
    var o, w := FieldOffset(word2, dar), FieldWidth(word2, dar);
    WithFieldMeaning(OnTop(o, dar[ir % 8]), 0, w, dar[DataRegister(word2)]);
    LowIs(dar[DataRegister(word2)], w);
  }

  /** On the fields of the words, for a field that does not wrap: DY keeps the bits on both sides. */
  lemma InsertedMeaning(line: nat, mid: nat, y: nat, word2: u16, dar: Regs, dar': Regs, nFlag: u32, notZ: u32, v: u32, c: u32)
    requires line < 16 && mid < 512 && y < 8
    requires var ir := line * 0x1000 + mid * 8 + y; ir < TWO16 && Inserted(word2, ir, dar, dar', nFlag, notZ, v, c)
    requires FieldOffset(word2, dar) + FieldWidth(word2, dar) <= 32
    ensures forall i | 0 <= i < 16 && i != y :: dar'[i] == dar[i]
    ensures var o, w, value := FieldOffset(word2, dar), FieldWidth(word2, dar), dar[DataRegister(word2)];
      && Field(dar'[y], o, w) == LowPart(value, w) && Shr(dar'[y], 32 - o) == Shr(dar[y], 32 - o)
      && LowPart(dar'[y], 32 - o - w) == LowPart(dar[y], 32 - o - w)
      && (nFlag / 0x80 % 2 == 1 <==> LowPart(value, w) >= Pow2(w - 1)) && (notZ == 0 <==> LowPart(value, w) == 0)
  {
    hide Pow2; hide OnTop; hide WithField; hide FieldOffset; hide FieldWidth; hide Shr; hide LowPart; hide Field;
    assert (line * 0x1000 + mid * 8 + y) % 8 == y;
    TurnedBack(FieldOffset(word2, dar), FieldWidth(word2, dar), dar[y], dar'[y], dar[DataRegister(word2)]);
  }

  /** From the turned registers to the registers. */
  lemma TurnedBack(o: nat, w: nat, a: u32, a': u32, v: u32)
    requires o + w <= 32 && OnTop(o, a') as int == WithField(OnTop(o, a), 0, w, v)
    ensures Field(a', o, w) == LowPart(v, w) && Shr(a', 32 - o) == Shr(a, 32 - o)
    ensures LowPart(a', 32 - o - w) == LowPart(a, 32 - o - w)
  {
    hide Pow2; hide Lefts; hide Join; hide Shr; hide LowPart;
    var h, l, h', l' := Shr(a, 32 - o), LowPart(a, 32 - o), Shr(a', 32 - o), LowPart(a', 32 - o);
    var r := 32 - o - w;
    LeftsOf(o, a);
    LeftsOf(o, a');
    // the turned words are l and h, and l' and h'
    JoinZeroTop(LowPart(v, w), w);
    NothingAbove(OnTop(o, a));
    LowOfJoin(l, o, h, r);
    JoinAssociates(LowPart(v, w), r, LowPart(l, r), o, h);
    JoinInjectiveAt(l', h', Join(LowPart(v, w), r, LowPart(l, r)), h, o);
    JoinParts(LowPart(v, w), r, LowPart(l, r));
    LowLow(a, r, 32 - o);
    LowLow(a', r, 32 - o);
    FieldIsTop(a', o, w);
  }

  lemma NothingAbove(a: u32)
    ensures Shr(a, 32) == 0
  {
    Pow2Values();
  }

  /** The low r + o bits of two joined numbers. */
  lemma LowOfJoin(l: nat, o: nat, h: nat, r: nat)
    requires h < Pow2(o)
    ensures LowPart(Join(l, o, h), r + o) == Join(LowPart(l, r), o, h)
  {
    hide Pow2; hide Join; hide Shr; hide LowPart;
    JoinParts(l, o, h);
    LowTwoParts(Join(l, o, h), o, r);
  }

  lemma JoinInjectiveAt(x: nat, y: nat, x': nat, y': nat, n: nat)
    requires y < Pow2(n) && y' < Pow2(n) && Join(x, n, y) == Join(x', n, y')
    ensures x == x' && y == y'
  {
    hide Pow2; hide Join;
    JoinParts(x, n, y);
    JoinParts(x', n, y');
  }

  /** The field is the top of the word without the bits above it. */
  lemma FieldIsTop(a: u32, o: nat, w: nat)
    requires o + w <= 32
    ensures Field(a, o, w) == Shr(LowPart(a, 32 - o), 32 - o - w)
  {
    hide Pow2; hide Join; hide Shr; hide LowPart;
    LowTwoParts(a, 32 - o - w, w);
    JoinParts(Field(a, o, w), 32 - o - w, LowPart(a, 32 - o - w));
  }

  /** The same for BFEXTU: the field of DY, unsigned. */
  lemma ExtractedMeaning(line: nat, mid: nat, y: nat, word2: u16, dar: Regs, dar': Regs, nFlag: u32, notZ: u32, v: u32, c: u32)
    requires line < 16 && mid < 512 && y < 8
    requires var ir := line * 0x1000 + mid * 8 + y; ir < TWO16 && Extracted(word2, ir, dar, dar', nFlag, notZ, v, c)
    requires FieldOffset(word2, dar) + FieldWidth(word2, dar) <= 32
    ensures var o, w, d := FieldOffset(word2, dar), FieldWidth(word2, dar), DataRegister(word2);
      && (forall i | 0 <= i < 16 && i != d :: dar'[i] == dar[i])
      && dar'[d] as int == dar[y] / Pow2(32 - o - w) % Pow2(w)
      && (nFlag / 0x80 % 2 == 1 <==> dar'[d] >= Pow2(w - 1)) && (notZ == 0 <==> dar'[d] == 0)
  {
    hide Pow2; hide FieldOffset; hide FieldWidth; hide Shr; hide LowPart; hide Join; hide Lefts;
    assert (line * 0x1000 + mid * 8 + y) % 8 == y;
    var o, w := FieldOffset(word2, dar), FieldWidth(word2, dar);
    var h, l := Shr(dar[y], 32 - o), LowPart(dar[y], 32 - o);
    LeftsOf(o, dar[y]);
    ShrShr(Join(l, o, h), o, 32 - o - w);
    JoinParts(l, o, h);
    FieldIsTop(dar[y], o, w);
    LowWhole(OnTop(o, dar[y]), w);
    ShrIs(dar[y], 32 - o - w);
    LowIs(Shr(dar[y], 32 - o - w), w);
  }

  lemma LowWhole(a: u32, w: nat)
    requires w <= 32
    ensures LowPart(Shr(a, 32 - w), w) == Shr(a, 32 - w)
  {
    hide Pow2; hide Shr; hide LowPart;
    Pow2Values();
    ShrSmall(a, 32 - w, w);
    LowSmall(Shr(a, 32 - w), w);
  }

  // ------------------------------------------------------------------ memory operands

  /** The signed bit offset of the memory forms. */
  function SignedOffset(word2: u16, dar: Regs): int {
    if word2 / 0x800 % 2 == 1 then Signed(dar[OffsetField(word2) % 8]) else OffsetField(word2)
  }

  /** C rounds towards zero and corrects; together it is the byte that holds the bit, and the bit in it. */
  method Normalise(ea: u32, offset: int) returns (ea': u32, offset': nat)
    ensures ea' == Wrap(ea + offset / 8) && offset' == offset % 8 < 8
  {
    hide Wrap;
    var quotient := if offset < 0 then -(-offset / 8) else offset / 8;
    var remainder := offset - 8 * quotient;
    CDivision(offset, quotient);
    ea' := Wrap(ea + quotient);
    if remainder < 0 {
      remainder := remainder + 8;
      WrapAdd(ea + quotient, -1);
      ea' := Wrap(ea' as int - 1);
    }
    offset' := remainder;
  }

  lemma CDivision(offset: int, quotient: int)
    requires quotient == if offset < 0 then -(-offset / 8) else offset / 8
    ensures var r := offset - 8 * quotient;
      if r < 0 then offset / 8 == quotient - 1 && offset % 8 == r + 8 else offset / 8 == quotient && offset % 8 == r
  {
  }

  /** The long that a field starts in, and the byte after it, into which the field may run. */
  function FieldAddress(t: CpuType, ea: u32, offset: int): u32 {
    Addr(t, Wrap(ea + offset / 8))
  }

  function FifthAddress(t: CpuType, ea: u32, offset: int): u32 {
    Addr(t, Wrap(Wrap(ea + offset / 8) + 4))
  }

  /** Bit offset 8k + o is bit o of the byte k bytes on, also for a negative k. */
  lemma FieldPlace(t: CpuType, ea: u32, k: int, o: nat)
    requires o < 8
    ensures (8 * k + o) % 8 == o && FieldAddress(t, ea, 8 * k + o) == Addr(t, Wrap(ea + k))
    ensures FifthAddress(t, ea, 8 * k + o) == Addr(t, Wrap(ea + k + 4))
  {
    hide Addr; hide Wrap;
    assert (8 * k + o) / 8 == k;
    WrapAdd(ea + k, 4);
  }

  /** The w bits that start o bits from the top of five bytes. */
  function Field5(word: u32, byte: u8, o: nat, w: nat): (f: nat)
    requires o < 8 && 1 <= w <= 32
    ensures f < Pow2(w)
  {
    LowPart(Shr(Join(word, 8, byte), 40 - o - w), w)
  }

  /** A long and a byte after BFINS. */
  datatype Five = Five(word: nat, byte: nat)

  /** Five bytes with that field replaced by the low w bits of v. */
  function WithField5(word: u32, byte: u8, o: nat, w: nat, v: u32): Five
    requires o < 8 && 1 <= w <= 32
  {
    if o + w <= 32 then Five(WithField(word, o, w, v), byte)
    else
      Five(WithField(word, o, 32 - o, Spilled(v, o, w)),
           Join(LowPart(v, o + w - 32), 40 - o - w, LowPart(byte, 40 - o - w)))
  }

  /** What replacing a field of five bytes means: it is there, and the bits on both sides stay. */
  lemma FiveMeaning(word: u32, byte: u8, o: nat, w: nat, v: u32)
    requires o < 8 && 1 <= w <= 32
    ensures var f := WithField5(word, byte, o, w, v);
      && f.word < TWO32 && f.byte < 0x100 && Field5(f.word, f.byte, o, w) == LowPart(v, w)
      && Shr(Join(f.word, 8, f.byte), 40 - o) == Shr(Join(word, 8, byte), 40 - o)
      && LowPart(Join(f.word, 8, f.byte), 40 - o - w) == LowPart(Join(word, 8, byte), 40 - o - w)
  {
    hide Pow2; hide Join; hide Shr; hide LowPart; hide WithField; hide Field5; hide Spilled;
    Pow2Values();
    if o + w <= 32 {
      WithFieldMeaning(word, o, w, v);
      var word' := WithField(word, o, w, v);
      FieldInLong(word', byte, o, w);
      InLong(word, byte, o, w);
      InLong(word', byte, o, w);
    } else {
      SpilledMeaning(word, byte, o, w, v);
    }
  }

  /** The bits above and below a field within the long. */
  lemma InLong(word: u32, byte: u8, o: nat, w: nat)
    requires o < 8 && 1 <= w && o + w <= 32
    ensures Shr(Join(word, 8, byte), 40 - o) == Shr(word, 32 - o)
    ensures LowPart(Join(word, 8, byte), 40 - o - w) == Join(LowPart(word, 32 - o - w), 8, byte)
  {
    hide Pow2; hide Join; hide Shr; hide LowPart;
    Pow2Values();
    JoinParts(word, 8, byte);
    ShrShr(Join(word, 8, byte), 8, 32 - o);
    LowTwoParts(Join(word, 8, byte), 8, 32 - o - w);
  }

  lemma SpilledMeaning(word: u32, byte: u8, o: nat, w: nat, v: u32)
    requires o < 8 && w <= 32 && o + w > 32
    ensures var f := WithField5(word, byte, o, w, v);
      && f.word < TWO32 && f.byte < 0x100 && Field5(f.word, f.byte, o, w) == LowPart(v, w)
      && Shr(Join(f.word, 8, f.byte), 40 - o) == Shr(Join(word, 8, byte), 40 - o)
      && LowPart(Join(f.word, 8, f.byte), 40 - o - w) == LowPart(Join(word, 8, byte), 40 - o - w)
  {
    hide Pow2; hide Join; hide Shr; hide LowPart; hide WithField;
    Pow2Values();
    var f, c, high, low := WithField5(word, byte, o, w, v), o + w - 32, Shr(word, 32 - o), LowPart(byte, 40 - o - w);
    var s, t := Spilled(v, o, w), LowPart(v, o + w - 32);
    WithFieldMeaning(word, o, 32 - o, s);
    SpilledIs(v, o, w);
    JoinBound(t, c, 8 - c, low);
    WithFieldToEnd(word, o, s);
    // the long is high and s, the byte is t and low, and s and t are the field
    JoinAssociates(high, 32 - o, s, c, t);
    JoinAssociates(f.word, c, t, 8 - c, low);
    JoinParts(Join(high, w, LowPart(v, w)), 8 - c, low);
    JoinParts(high, w, LowPart(v, w));
    ShrShr(Join(f.word, 8, f.byte), 8 - c, w);
    JoinParts(word, 8, byte);
    ShrShr(Join(word, 8, byte), 8, 32 - o);
    LowLow(Join(word, 8, byte), 8 - c, 8);
    LowSmall(LowPart(v, w), w);
  }

  lemma SpilledIs(v: u32, o: nat, w: nat)
    requires o < 8 && w <= 32 && o + w > 32
    ensures Spilled(v, o, w) < Pow2(32 - o) && Join(Spilled(v, o, w), o + w - 32, LowPart(v, o + w - 32)) == LowPart(v, w)
  {
    hide Pow2; hide Join; hide Shr; hide LowPart;
    var c := o + w - 32;
    ShrSmall(LowPart(v, w), c, 32 - o);
    LowLow(v, c, w);
    assert LowPart(v, w) == Join(Shr(LowPart(v, w), c), c, LowPart(LowPart(v, w), c));
  }

  /** A field that reaches the end of the long. */
  lemma WithFieldToEnd(word: u32, o: nat, s: u32)
    requires o <= 32 && s < Pow2(32 - o)
    ensures WithField(word, o, 32 - o, s) == Join(Shr(word, 32 - o), 32 - o, s)
  {
    hide Pow2; hide Shr;
    LowSmall(s, 32 - o);
    LowPartNone(word);
  }

  lemma LowPartNone(word: nat)
    ensures LowPart(word, 0) == 0 && Pow2(0) == 1
  {
  }

  /** The bits of v that stay in the long when the field runs into the fifth byte. */
  function Spilled(v: u32, o: nat, w: nat): u32
    requires o + w > 32 && w <= 32
  {
    SpilledFits(v, o, w);
    Shr(LowPart(v, w), o + w - 32)
  }

  lemma SpilledFits(v: u32, o: nat, w: nat)
    requires o + w > 32 && w <= 32
    ensures LowPart(v, w) < TWO32 && Shr(LowPart(v, w), o + w - 32) < TWO32
  {
    hide Pow2; hide LowPart; hide Shr;
    Pow2Values();
    PowGrows(w, 32);
    ShrWord(LowPart(v, w), o + w - 32);
  }

  /** What the code stores: in the fifth byte it masks w - 24 bits, wherever the field starts. */
  function Stored5(word: u32, byte: u8, o: nat, w: nat, v: u32): Five
    requires o < 8 && 1 <= w <= 32
  {
    if o + w <= 32 then WithField5(word, byte, o, w, v)
    else Five(WithField(word, o, 32 - o, Spilled(v, o, w)), StoredByte(byte, w, v))
  }

  function StoredByte(byte: u8, w: nat, v: u32): nat
    requires 24 <= w <= 32
  {
    Join(LowPart(v, w - 24), 32 - w, LowPart(byte, 32 - w))
  }

  /** In the long the field is replaced, and nothing else changes in memory but the fifth byte. */
  predicate InsertedInMemory(t: CpuType, word2: u16, ea: u32, dar: Regs, m: Bytes, m': Bytes,
                             nFlag: u32, notZ: u32, v: u32, c: u32) {
    var o, w, value := SignedOffset(word2, dar), FieldWidth(word2, dar), dar[DataRegister(word2)];
    var a, a5 := FieldAddress(t, ea, o), FifthAddress(t, ea, o);
    StoredFits(Read32(m, a), 0, o % 8, w, value);
    var long: u32 := Stored5(Read32(m, a), 0, o % 8, w, value).word;
    var m1 := Write32(m, a, long);
    StoredFits(Read32(m, a), Peek(m1, a5), o % 8, w, value);
    && m' == (if o % 8 + w <= 32 then m1 else Poke(m1, a5, StoredByte(Peek(m1, a5), w, value)))
    && nFlag / 0x80 % 2 == B2N(LowPart(value, w) >= Pow2(w - 1)) && v == 0 && c == 0
    && (notZ == 0 <==> LowPart(value, w) == 0 && (o % 8 + w <= 32 || Shr(Peek(m1, a5), 32 - w) == 0))
  }

  lemma StoredFits(word: u32, byte: u8, o: nat, w: nat, v: u32)
    requires o < 8 && 1 <= w <= 32
    ensures Stored5(word, byte, o, w, v).word < TWO32 && Stored5(word, byte, o, w, v).word == Stored5(word, 0, o, w, v).word
    ensures w >= 24 ==> StoredByte(byte, w, v) < 0x100
  {
    hide Pow2; hide Join; hide LowPart; hide WithField;
    Pow2Values();
    if o + w <= 32 { WithFieldMeaning(word, o, w, v); } else { WithFieldMeaning(word, o, 32 - o, Spilled(v, o, w)); }
    if w >= 24 { JoinBound(LowPart(v, w - 24), w - 24, 32 - w, LowPart(byte, 32 - w)); }
  }

  /** The field that BFEXTU delivers, also from five bytes. */
  predicate ExtractedFromMemory(t: CpuType, word2: u16, ea: u32, m: Bytes, dar: Regs, dar': Regs,
                                nFlag: u32, notZ: u32, v: u32, c: u32) {
    var o, w, d := SignedOffset(word2, dar), FieldWidth(word2, dar), DataRegister(word2);
    var f := Field5(Read32(m, FieldAddress(t, ea, o)), Peek(m, FifthAddress(t, ea, o)), o % 8, w);
    dar' == dar[d := dar'[d]] && dar'[d] as int == f && FieldFlags(f, w, nFlag, notZ, v, c)
  }

  /** A field that ends in the long is a field of the long. */
  lemma FieldInLong(word: u32, byte: u8, o: nat, w: nat)
    requires o < 8 && 1 <= w && o + w <= 32
    ensures Field5(word, byte, o, w) == Field(word, o, w)
  {
    hide Pow2; hide Join; hide LowPart; hide Shr;
    Pow2Values();
    JoinParts(word, 8, byte);
    ShrShr(Join(word, 8, byte), 8, 32 - o - w);
  }

  /** The long shifted up with the top of the byte filled in: the field is on top. */
  lemma FillIn(word: u32, byte: u8, o: nat, w: nat)
    requires o < 8 && 1 <= w <= 32
    ensures var data := OrWord(Shl(word, o), Shr(Shl(byte, o), 8));
      && Shr(data, 32 - w) == Field5(word, byte, o, w) < TWO32
      && data / 0x100_0000 / 0x80 % 2 == B2N(Field5(word, byte, o, w) >= Pow2(w - 1))
  {
    hide Pow2; hide Join; hide LowPart; hide Shr; hide Shl; hide Or; hide OrWord; hide Field5;
    var high, low, bh, bl := Shr(word, 32 - o), LowPart(word, 32 - o), Shr(byte, 8 - o), LowPart(byte, 8 - o);
    var data := Join(low, o, bh);
    Pow2Values();
    PowGrows(w, 32);
    TopOfByte(byte, o);
    ShlJoin(word, o);
    OrLow(low, o, bh);
    JoinBound(low, 32 - o, o, bh);
    OrWordIs(Join(low, o, 0), bh);
    // the five bytes are high, data and bl
    JoinAssociates(word, o, bh, 8 - o, bl);
    JoinAssociates(high, 32 - o, low, o, bh);
    ExtractTop(data, w);
    FieldOfJoin(word, byte, o, w, high, data, bl);
  }

  lemma OrWordIs(a: nat, b: nat)
    requires Or(a, b) < TWO32
    ensures OrWord(a, b) == Or(a, b)
  {
    hide Or;
  }

  lemma TopOfByte(byte: u8, o: nat)
    requires o < 8
    ensures Shr(Shl(byte, o), 8) == Shr(byte, 8 - o) < Pow2(o)
  {
    hide Pow2;
    Pow2Values();
    ShrSmall(byte, 8 - o, o);
    ShiftBack(byte, o, 8);
    PowGrows(o, 8);
    MulMonotonic(byte, 0xff, Pow2(o));
    assert 0 <= byte * Pow2(o) < TWO32;
    WrapSame(byte * Pow2(o));
  }

  lemma FieldOfJoin(word: u32, byte: u8, o: nat, w: nat, high: nat, data: u32, bl: nat)
    requires o < 8 && 1 <= w <= 32 && bl < Pow2(8 - o) && Join(word, 8, byte) == Join(Join(high, 32, data), 8 - o, bl)
    ensures Field5(word, byte, o, w) == Shr(data, 32 - w)
  {
    hide Pow2; hide Join; hide LowPart; hide Shr;
    Pow2Values();
    JoinParts(Join(high, 32, data), 8 - o, bl);
    ShrShr(Join(word, 8, byte), 8 - o, 32 - w);
    ShrSmall(data, 32 - w, w);
    JoinAssociates(high, w, Shr(data, 32 - w), 32 - w, LowPart(data, 32 - w));
    JoinParts(Join(high, w, Shr(data, 32 - w)), 32 - w, LowPart(data, 32 - w));
    JoinParts(high, w, Shr(data, 32 - w));
  }

  // ------------------------------------------------------------------ the fifth byte of BFINS

  /** The mask and the value shifted past the end of the long. */
  lemma InsertSpilled(word: u32, o: nat, w: nat, value: u32)
    requires o < 8 && w <= 32 && o + w > 32
    ensures var mask, insert := Shr(Shl(TWO32 - 1, 32 - w), o), Shr(Shl(value, 32 - w), o);
      && mask < TWO32 && insert < TWO32
      && OrWord(AndWord(word, Not(mask)), insert) as int == WithField(word, o, 32 - o, Spilled(value, o, w))
  {
    hide Pow2; hide Join; hide Shl; hide Shr; hide AndWord; hide OrWord; hide Not; hide WithField; hide LowPart;
    var k, c := 32 - w, o + w - 32;
    Pow2Values();
    ShrWord(Shl(TWO32 - 1, k), o);
    ShrWord(Shl(value, k), o);
    ShlJoin(TWO32 - 1, k);
    ShlJoin(value, k);
    AllOnes(w);
    PowPositive(k);
    ShiftPast(Pow2(w) - 1, k, c);
    ShiftPast(LowPart(value, w), k, c);
    OnesDown(w, c);
    ShrSmall(LowPart(value, w), c, 32 - o);
    LowSmall(Spilled(value, o, w), 32 - o);
    JoinNone0(Pow2(32 - o) - 1);
    JoinNone0(Spilled(value, o, w));
    InsertField(word, o, 32 - o, Spilled(value, o, w));
  }

  lemma JoinNone0(x: nat)
    ensures Join(x, 0, 0) == x
  {
  }

  lemma ShiftPast(x: nat, k: nat, c: nat)
    ensures Shr(Join(x, k, 0), k + c) == Shr(x, c)
  {
    hide Pow2; hide Join; hide Shr;
    PowPositive(k);
    ShrShr(Join(x, k, 0), k, c);
    JoinParts(x, k, 0);
  }

  lemma OnesDown(w: nat, c: nat)
    requires c <= w
    ensures Shr(Pow2(w) - 1, c) == Pow2(w - c) - 1
  {
    hide Pow2; hide Join; hide Shr;
    PowPositive(c);
    JoinOnes(w - c, c);
    JoinSum0(Pow2(w - c) - 1, c, Pow2(c) - 1);
    JoinParts(Pow2(w - c) - 1, c, Pow2(c) - 1);
  }

  /** The low byte of the unshifted mask and value. */
  lemma InsertByte(byte: u8, w: nat, value: u32)
    requires 24 < w <= 32
    ensures var mask, insert := Shl(TWO32 - 1, 32 - w) % 0x100, Shl(value, 32 - w) % 0x100;
      && OrWord(AndWord(byte, Not(mask)), insert) % 0x100 == StoredByte(byte, w, value)
      && (AndWord(byte, mask) == 0 <==> Shr(byte, 32 - w) == 0)
  {
    hide Pow2; hide Join; hide Shl; hide Shr; hide AndWord; hide OrWord; hide Not; hide LowPart;
    var k := 32 - w;
    Pow2Values();
    LowByteOf(TWO32 - 1, k);
    LowByteOf(value, k);
    AllOnes(8 - k);
    InsertField(byte, 24, 8 - k, value);
    ByteField(byte, k, value);
    MaskTop(byte, k);
  }

  lemma LowByteOf(v: u32, k: nat)
    requires k < 8
    ensures Shl(v, k) % 0x100 == Join(LowPart(v, 8 - k), k, 0)
  {
    hide Pow2; hide Join; hide Shl; hide Shr; hide LowPart;
    Pow2Values();
    PowPositive(k);
    ShlJoin(v, k);
    LowTwoParts(v, 8 - k, 24);
    JoinAssociates(LowPart(Shr(v, 8 - k), 24), 8 - k, LowPart(v, 8 - k), k, 0);
    JoinBound(LowPart(v, 8 - k), 8 - k, k, 0);
    JoinParts(LowPart(Shr(v, 8 - k), 24), 8, Join(LowPart(v, 8 - k), k, 0));
    LowIs(Shl(v, k), 8);
  }

  lemma ByteField(byte: u8, k: nat, v: u32)
    requires k < 8
    ensures WithField(byte, 24, 8 - k, v) == StoredByte(byte, 32 - k, v) < 0x100
  {
    hide Pow2; hide Join; hide Shr; hide LowPart;
    Pow2Values();
    PowGrows(0, 8);
    NextPower(0);
    ShrSmall(byte, 8, 0);
    JoinZeroTop(LowPart(v, 8 - k), 8 - k);
    StoredFits(0, byte, 0, 32 - k, v);
  }

  lemma MaskTop(byte: u8, k: nat)
    requires k < 8
    ensures Join(Pow2(8 - k) - 1, k, 0) < 0x100
    ensures AndWord(byte, Join(Pow2(8 - k) - 1, k, 0)) == 0 <==> Shr(byte, k) == 0
  {
    hide Pow2; hide Join; hide Shr; hide LowPart; hide And;
    Pow2Values();
    PowPositive(k);
    JoinBound(Pow2(8 - k) - 1, 8 - k, k, 0);
    ShrSmall(byte, k, 8 - k);
    AndTop(Shr(byte, k), 8 - k, k, LowPart(byte, k));
    JoinSame(Shr(byte, k), 0, k);
    JoinNothing(k);
    JoinBound(Shr(byte, k), 8 - k, k, 0);
  }

  /** BFINS on memory replaces exactly the field, whatever is in memory and whatever the value, if and only
      if the field does not run into the fifth byte. */
  lemma InsertExact(o: nat, w: nat)
    requires o < 8 && 1 <= w <= 32
    ensures (forall word: u32, byte: u8, v: u32 :: Stored5(word, byte, o, w, v) == WithField5(word, byte, o, w, v)) <==> o + w <= 32
  {
    if o + w > 32 {
      SpillDiffers(o, w);
      assert Stored5(0, 0xff, o, w, 0) != WithField5(0, 0xff, o, w, 0);
    }
  }

  /** Inserting zeros over a byte of ones clears bits below the field as well. */
  lemma SpillDiffers(o: nat, w: nat)
    requires o < 8 && w <= 32 && o + w > 32
    ensures Stored5(0, 0xff, o, w, 0).byte == Pow2(32 - w) - 1 < Pow2(40 - o - w) - 1 == WithField5(0, 0xff, o, w, 0).byte
  {
    hide Pow2; hide WithField; hide Spilled; hide Join; hide LowPart;
    Pow2Values();
    ZeroLow(w - 24);
    ZeroLow(o + w - 32);
    OnesLow(32 - w);
    OnesLow(40 - o - w);
    JoinZeroTop(Pow2(32 - w) - 1, 32 - w);
    JoinZeroTop(Pow2(40 - o - w) - 1, 40 - o - w);
    NextPower(33 - w);
    PowPositive(32 - w);
    PowGrows(33 - w, 40 - o - w);
  }

  lemma ZeroLow(n: nat)
    ensures LowPart(0, n) == 0
  {
    hide Pow2;
    PowPositive(n);
    SmallMod(0, Pow2(n));
  }

  lemma OnesLow(n: nat)
    requires n <= 8
    ensures LowPart(0xff, n) == Pow2(n) - 1
  {
    hide Pow2; hide Join;
    Pow2Values();
    PowPositive(n);
    JoinOnes(8 - n, n);
    JoinSum0(Pow2(8 - n) - 1, n, Pow2(n) - 1);
    PartsOf(Pow2(8 - n) - 1, n, Pow2(n) - 1);
  }

  /** A field on top of a word, shifted down by o bits. */
  lemma ShiftDown(f: nat, w: nat, o: nat)
    requires o + w <= 32
    ensures Shr(Join(f, 32 - w, 0), o) == Join(f, 32 - o - w, 0)
  {
    hide Pow2; hide Join; hide Shr;
    PowPositive(o);
    JoinNothing(o);
    JoinAssociates(f, 32 - o - w, 0, o, 0);
    JoinParts(Join(f, 32 - o - w, 0), o, 0);
  }

  /** Shifting the long up puts the field on top, with zeros coming in below. */
  lemma ShiftUp(word: u32, o: nat, w: nat)
    requires o + w <= 32 && w > 0
    ensures Shr(Shl(word, o), 32 - w) == Field(word, o, w) < TWO32 && Field(word, o, w) < Pow2(w)
    ensures Shl(word, o) / 0x100_0000 / 0x80 % 2 == B2N(Field(word, o, w) >= Pow2(w - 1))
  {
    hide Pow2; hide Join; hide Shr; hide Shl; hide LowPart;
    var r := 32 - o - w;
    var f, low := Field(word, o, w), LowPart(word, r);
    Pow2Values();
    PowGrows(w, 32);
    PowPositive(o);
    ShlJoin(word, o);
    LowTwoParts(word, r, w);
    JoinAssociates(f, r, low, o, 0);
    JoinBound(low, r, o, 0);
    JoinParts(f, r + o, Join(low, o, 0));
    TopField(f, w, Join(low, o, 0));
  }

  /** The lower w + r bits are the field and what is below it. */
  lemma LowTwoParts(word: nat, r: nat, w: nat)
    ensures LowPart(word, w + r) == Join(LowPart(Shr(word, r), w), r, LowPart(word, r))
  {
    hide Pow2; hide Join; hide Shr;
    var u := Shr(word, r);
    JoinAssociates(Shr(u, w), w, LowPart(u, w), r, LowPart(word, r));
    JoinBound(LowPart(u, w), w, r, LowPart(word, r));
    JoinParts(Shr(u, w), w + r, Join(LowPart(u, w), r, LowPart(word, r)));
  }

  /** The addressing mode is the handler's parameter: it gives the address of bit 0. */
  method BfinsMemory(cpu: Cpu, ea: u32)
    modifies cpu
    ensures !Ec020Plus(cpu.cpuType) ==> Entered(cpu, old(cpu.ppc), EXCEPTION_ILLEGAL_INSTRUCTION, FrameSize(cpu.cpuType))
    ensures Ec020Plus(cpu.cpuType) ==>
      var word2 := old(Read16(cpu.mem, Addr(cpu.cpuType, cpu.pc)));
      && cpu.pc == old(Wrap(cpu.pc + 2)) && unchanged(cpu`dar, cpu`x, cpu`s, cpu`m, cpu`sp)
      && InsertedInMemory(cpu.cpuType, word2, ea, cpu.dar, old(cpu.mem), cpu.mem, cpu.n, cpu.notZ, cpu.v, cpu.c)
  {
    hide Pow2; hide Join; hide Shl; hide Shr; hide AndWord; hide OrWord; hide Not; hide WithField;
    hide LowPart; hide Signed;
    hide Read16; hide Addr; hide Read32; hide Write32; hide RoomBelow; hide Unwind; hide SrOf; hide And;
    hide Or; hide Wrap;
    if !Ec020Plus(cpu.cpuType) {
      ExceptionPlain(cpu, cpu.ppc, EXCEPTION_ILLEGAL_INSTRUCTION);
      return;
    }
    var word2 := cpu.ReadImm16();
    var value, width := cpu.dar[DataRegister(word2)], FieldWidth(word2, cpu.dar);
    var address, offset := Normalise(ea, SignedOffset(word2, cpu.dar));
    ghost var m0 := cpu.mem;
    var maskBase := Shl(TWO32 - 1, 32 - width);
    ShrWord(maskBase, offset);
    var maskLong: u32 := Shr(maskBase, offset);
    var insertBase := Shl(value, 32 - width);
    InsertFlags(value, width);
    cpu.n := insertBase / 0x100_0000;
    cpu.notZ := insertBase;
    ShrWord(insertBase, offset);
    var insertLong: u32 := Shr(insertBase, offset);
    var dataLong := Read32(cpu.mem, Addr(cpu.cpuType, address));
    cpu.v := 0;
    cpu.c := 0;
    if offset + width <= 32 {
      InsertShifted(dataLong, offset, width, value);
    } else {
      InsertSpilled(dataLong, offset, width, value);
    }
    cpu.mem := Write32(cpu.mem, Addr(cpu.cpuType, address), OrWord(AndWord(dataLong, Not(maskLong)), insertLong));
    if width + offset > 32 {
      var a4 := Addr(cpu.cpuType, Wrap(address as int + 4));
      var maskByte, insertByte, dataByte := maskBase % 0x100, insertBase % 0x100, Peek(cpu.mem, a4);
      InsertByte(dataByte, width, value);
      OrIsZero(cpu.notZ, AndWord(dataByte, maskByte));
      OrWordIs(cpu.notZ, AndWord(dataByte, maskByte));
      StoredFits(dataLong, dataByte, offset, width, value);
      cpu.notZ := OrWord(cpu.notZ, AndWord(dataByte, maskByte));
      cpu.mem := Poke(cpu.mem, a4, OrWord(AndWord(dataByte, Not(maskByte)), insertByte) % 0x100);
    }
  }

  lemma ShrWord(a: u32, k: nat)
    ensures Shr(a, k) < TWO32
  {
    hide Pow2;
    Pow2Values();
    PowGrows(32, 32 + k);
    ShrSmall(a, k, 32);
  }

  lemma InsertFlags(value: u32, w: nat)
    requires 0 < w <= 32
    ensures Shl(value, 32 - w) / 0x100_0000 / 0x80 % 2 == B2N(LowPart(value, w) >= Pow2(w - 1))
    ensures Shl(value, 32 - w) == 0 <==> LowPart(value, w) == 0
  {
    hide Pow2; hide Join; hide Shl; hide LowPart;
    ShlJoin(value, 32 - w);
    PowPositive(32 - w);
    TopField(LowPart(value, w), w, 0);
  }

  lemma InsertShifted(word: u32, o: nat, w: nat, value: u32)
    requires o + w <= 32 && w > 0
    ensures var mask, insert := Shr(Shl(TWO32 - 1, 32 - w), o), Shr(Shl(value, 32 - w), o);
      && mask < TWO32 && insert < TWO32 && OrWord(AndWord(word, Not(mask)), insert) as int == WithField(word, o, w, value)
  {
    hide Pow2; hide Join; hide Shl; hide Shr; hide AndWord; hide OrWord; hide Not; hide WithField; hide LowPart;
    ShrWord(Shl(TWO32 - 1, 32 - w), o);
    ShrWord(Shl(value, 32 - w), o);
    ShlJoin(TWO32 - 1, 32 - w);
    ShlJoin(value, 32 - w);
    AllOnes(w);
    ShiftDown(Pow2(w) - 1, w, o);
    ShiftDown(LowPart(value, w), w, o);
    InsertField(word, o, w, value);
  }

  method BfextuMemory(cpu: Cpu, ea: u32)
    modifies cpu
    ensures !Ec020Plus(cpu.cpuType) ==> Entered(cpu, old(cpu.ppc), EXCEPTION_ILLEGAL_INSTRUCTION, FrameSize(cpu.cpuType))
    ensures Ec020Plus(cpu.cpuType) ==>
      var word2 := old(Read16(cpu.mem, Addr(cpu.cpuType, cpu.pc)));
      && cpu.pc == old(Wrap(cpu.pc + 2)) && unchanged(cpu`mem, cpu`x, cpu`s, cpu`m, cpu`sp)
      && ExtractedFromMemory(cpu.cpuType, word2, ea, cpu.mem, old(cpu.dar), cpu.dar, cpu.n, cpu.notZ, cpu.v, cpu.c)
  {
    hide Pow2; hide Join; hide Shl; hide Shr; hide OrWord; hide Field; hide Field5; hide Signed;
    hide Read16; hide Addr; hide Read32; hide RoomBelow; hide Unwind; hide SrOf; hide Or; hide Wrap;
    if !Ec020Plus(cpu.cpuType) {
      ExceptionPlain(cpu, cpu.ppc, EXCEPTION_ILLEGAL_INSTRUCTION);
      return;
    }
    var word2 := cpu.ReadImm16();
    var width := FieldWidth(word2, cpu.dar);
    var address, offset := Normalise(ea, SignedOffset(word2, cpu.dar));
    var long := Read32(cpu.mem, Addr(cpu.cpuType, address));
    var data := Shl(long, offset);
    ghost var byte := Peek(cpu.mem, Addr(cpu.cpuType, Wrap(address as int + 4)));
    if offset + width > 32 {
      FillIn(long, byte, offset, width);
      data := OrWord(data, Shr(Shl(Peek(cpu.mem, Addr(cpu.cpuType, Wrap(address as int + 4))), offset), 8));
    } else {
      ShiftUp(long, offset, width);
      FieldInLong(long, byte, offset, width);
    }
    cpu.n := data / 0x100_0000;
    ShrWord(data, 32 - width);
    data := Shr(data, 32 - width);
    cpu.notZ := data;
    cpu.v := 0;
    cpu.c := 0;
    cpu.dar := cpu.dar[DataRegister(word2) := data];
  }

  /** In memory as well; and no byte outside the long of the field changes. */
  lemma InsertThenExtractMemory(t: CpuType, word2: u16, ea: u32, dar: Regs, m: Bytes, m': Bytes,
                                n1: u32, z1: u32, v1: u32, c1: u32,
                                word2': u16, dar1: Regs, dar2: Regs, n2: u32, z2: u32, v2: u32, c2: u32)
    requires InsertedInMemory(t, word2, ea, dar, m, m', n1, z1, v1, c1)
    requires ExtractedFromMemory(t, word2', ea, m', dar1, dar2, n2, z2, v2, c2)
    requires SignedOffset(word2', dar1) == SignedOffset(word2, dar) && FieldWidth(word2', dar1) == FieldWidth(word2, dar)
    requires SignedOffset(word2, dar) % 8 + FieldWidth(word2, dar) <= 32
    requires Mapped(m, FieldAddress(t, ea, SignedOffset(word2, dar)), 4)
    ensures dar2[DataRegister(word2')] as int == dar[DataRegister(word2)] % Pow2(FieldWidth(word2, dar))
    ensures SameOutside(m, m', FieldAddress(t, ea, SignedOffset(word2, dar)), 4)
  {
    hide Pow2; hide Join; hide Shr; hide LowPart; hide WithField; hide SignedOffset; hide FieldWidth;
    hide Read32; hide Write32; hide Addr; hide Mapped; hide SameOutside; hide FieldAddress;
    var o, w, value := SignedOffset(word2, dar), FieldWidth(word2, dar), dar[DataRegister(word2)];
    var a := FieldAddress(t, ea, o);
    WithFieldMeaning(Read32(m, a), o % 8, w, value);
    Write32Effect(m, a, WithField(Read32(m, a), o % 8, w, value));
    FieldInLong(Read32(m', a), Peek(m', FifthAddress(t, ea, o)), o % 8, w);
    LowIs(value, w);
  }
}
