/** The register forms of the shift instructions, for operands of 8, 16 and 32 bits (Musashi/m68k_in.c),
and the tables they use (Musashi/m68kcpu.c). */
module ShiftHandlers {
  import opened Words
  import opened Bits
  import opened Shifts
  import opened M68k

  /** m68ki_shift_8_table and the others: entry k has the top k bits; from the width on all bits. */
  function Shift8(k: nat): u32 {
    match k
    case 0 => 0x00 case 1 => 0x80 case 2 => 0xc0 case 3 => 0xe0
    case 4 => 0xf0 case 5 => 0xf8 case 6 => 0xfc case 7 => 0xfe
    case _ => 0xff
  }

  function Shift16(k: nat): u32 {
    match k
    case 0 => 0x0000 case 1 => 0x8000 case 2 => 0xc000 case 3 => 0xe000
    case 4 => 0xf000 case 5 => 0xf800 case 6 => 0xfc00 case 7 => 0xfe00
    case 8 => 0xff00 case 9 => 0xff80 case 10 => 0xffc0 case 11 => 0xffe0
    case 12 => 0xfff0 case 13 => 0xfff8 case 14 => 0xfffc case 15 => 0xfffe
    case _ => 0xffff
  }

  function Shift32(k: nat): u32 {
    match k
    case 0 => 0x00000000 case 1 => 0x80000000 case 2 => 0xc0000000 case 3 => 0xe0000000
    case 4 => 0xf0000000 case 5 => 0xf8000000 case 6 => 0xfc000000 case 7 => 0xfe000000
    case 8 => 0xff000000 case 9 => 0xff800000 case 10 => 0xffc00000 case 11 => 0xffe00000
    case 12 => 0xfff00000 case 13 => 0xfff80000 case 14 => 0xfffc0000 case 15 => 0xfffe0000
    case 16 => 0xffff0000 case 17 => 0xffff8000 case 18 => 0xffffc000 case 19 => 0xffffe000
    case 20 => 0xfffff000 case 21 => 0xfffff800 case 22 => 0xfffffc00 case 23 => 0xfffffe00
    case 24 => 0xffffff00 case 25 => 0xffffff80 case 26 => 0xffffffc0 case 27 => 0xffffffe0
    case 28 => 0xfffffff0 case 29 => 0xfffffff8 case 30 => 0xfffffffc case 31 => 0xfffffffe
    case _ => 0xffffffff
  }

  predicate Width(n: nat) {
    n == 8 || n == 16 || n == 32
  }

  function TableAt(n: nat, k: nat): u32
    requires Width(n) && k <= 64
  {
    if n == 8 then Shift8(k) else if n == 16 then Shift16(k) else Shift32(k)
  }

  /** Entry k has the top k bits of n. */
  lemma {:induction false} TableIs(n: nat, k: nat)
    requires Width(n) && k <= n
    ensures TableAt(n, k) + Pow2(n - k) == Pow2(n)
  {
    hide TableAt; hide Pow2;
    if k == 0 {
      TableFirst(n);
    } else {
      TableIs(n, k - 1);
      NextPower(n - k + 1);
      TableNext(n, k);
    }
  }

  lemma TableFirst(n: nat)
    requires Width(n)
    ensures TableAt(n, 0) == 0
  {
  }

  lemma TableNext(n: nat, k: nat)
    requires Width(n) && 1 <= k <= n
    ensures 2 * TableAt(n, k) as int == TableAt(n, k - 1) + Pow2(n)
  {
    hide Pow2;
    Pow2Values();
  }

  // ------------------------------------------------------------------ << and >>

  /** << on 32-bit words.  Where C leaves the shift undefined, by 32 or more, the result is not used. */
  function Shl(a: nat, k: nat): u32 {
    Wrap(a * Pow2(k))
  }

  lemma WrapBit(a: nat, j: nat)
    requires j < 32
    ensures Wrap(a) / Pow2(j) % 2 == a / Pow2(j) % 2
  {
    hide Pow2;
    Pow2Values();
    Pow2Sum(32 - j, j);
    NextPower(32 - j);
    ModDiv(a, Pow2(32 - j), Pow2(j));
    ModDiv(a / Pow2(j), Pow2(31 - j), 2);
  }

  lemma WrapMod(a: nat, n: nat)
    requires n <= 32
    ensures Wrap(a) % Pow2(n) == a % Pow2(n)
  {
    hide Pow2;
    Pow2Values();
    Pow2Sum(32 - n, n);
    ModDiv(a, Pow2(32 - n), Pow2(n));
  }

  // ------------------------------------------------------------------ what many steps come to

  /** The masked top bits are none or all of the mask exactly if they are all the same. */
  lemma AslMask(n: nat, k: nat, src: u32)
    requires Width(n) && k < n && src < Pow2(n)
    ensures var m := TableAt(n, k + 1); And(src, m) == 0 || And(src, m) == m <==> Uniform(n, k, src)
  {
    hide TableAt; hide And; hide Pow2; hide Join; hide Shr; hide Uniform;
    var r := n - 1 - k;
    TableJoin(n, k + 1);
    UniformTop(n, k, src);
    ShrSmall(src, r, k + 1);
    MaskedTop(Shr(src, r), k + 1, r, LowPart(src, r));
  }

  lemma UniformTop(n: nat, k: nat, src: nat)
    requires k < n
    ensures Uniform(n, k, src) <==> Shr(src, n - 1 - k) == 0 || Shr(src, n - 1 - k) == Pow2(k + 1) - 1
  {
    hide Pow2;
  }

  lemma MaskedTop(t: nat, m: nat, r: nat, low: nat)
    requires t < Pow2(m) && low < Pow2(r)
    ensures var mask := Join(Pow2(m) - 1, r, 0);
      && (And(Join(t, r, low), mask) == 0 <==> t == 0) && (And(Join(t, r, low), mask) == mask <==> t == Pow2(m) - 1)
  {
    hide And; hide Pow2; hide Join;
    AndTop(t, m, r, low);
    JoinSame(t, Pow2(m) - 1, r);
    JoinSame(t, 0, r);
    JoinNothing(r);
  }

  lemma JoinNothing(r: nat)
    ensures Join(0, r, 0) == 0
  {
  }

  lemma TableJoin(n: nat, k: nat)
    requires Width(n) && k <= n
    ensures TableAt(n, k) == Join(Pow2(k) - 1, n - k, 0) == Pow2(n) - Pow2(n - k)
  {
    hide TableAt; hide Pow2; hide Join;
    TableIs(n, k);
    JoinOnes(k, n - k);
  }

  lemma JoinOnes(k: nat, r: nat)
    ensures Join(Pow2(k) - 1, r, 0) == Pow2(k + r) - Pow2(r)
  {
    hide Pow2;
    Pow2Sum(k, r);
    OneLess(Pow2(k), Pow2(r));
  }

  lemma AndTop(t: nat, m: nat, r: nat, low: nat)
    requires t < Pow2(m) && low < Pow2(r)
    ensures And(Join(t, r, low), Join(Pow2(m) - 1, r, 0)) == Join(t, r, 0)
  {
    hide And; hide Pow2; hide Join;
    AndJoin(t, low, Pow2(m) - 1, 0, r);
    AndZero(low);
    AndOnes(t, m);
    DivUnique(t, Pow2(m), 0, t);
  }

  lemma JoinSame(a: nat, b: nat, r: nat)
    ensures Join(a, r, 0) == Join(b, r, 0) <==> a == b
  {
    hide Pow2;
    if a < b { MulMonotonic(a + 1, b, Pow2(r)); } else if b < a { MulMonotonic(b + 1, a, Pow2(r)); }
  }

  lemma LeftOutcome(op: Shift, n: nat, k: nat, src: u32, x: bool)
    requires Width(n) && src < Pow2(n) && k > 0 && (op == Asl || op == Lsl)
    ensures var s := Steps(op, n, k, Start(src, x));
      && s.value == Shl(src, k) % Pow2(n) && s.c == s.x == (src * Pow2(k) / Pow2(n) % 2 == 1)
      && (k >= n ==> s.value == 0 && s.c == (k == n && src % 2 == 1))
      && (op == Lsl ==> !s.v)
      && (op == Asl && k < n ==> (s.v <==> !(And(src, TableAt(n, k + 1)) == 0 || And(src, TableAt(n, k + 1)) == TableAt(n, k + 1))))
      && (op == Asl && k >= n ==> (s.v <==> src != 0))
  {
    hide Step; hide Steps; hide Pow2; hide TableAt; hide And; hide Uniform; hide Wrap;
    LeftValue(op, n, k, src, x);
    LeftCarry(op, n, k, src, x);
    WrapMod(src * Pow2(k), n);
    if k >= n { LeftEnd(n, k, src); }
    if op == Lsl { NoOverflow(op, n, k, src, x); } else { AslFlag(n, k, src, x); }
  }

  lemma LeftEnd(n: nat, k: nat, src: nat)
    requires 0 < n <= k
    ensures src * Pow2(k) % Pow2(n) == 0 && (src * Pow2(k) / Pow2(n) % 2 == 1 <==> k == n && src % 2 == 1)
  {
    hide Pow2;
    LeftGone(n, k, src);
    if k > n { EvenMultiple(src, k - n); } else { NextPower(0); }
  }

  lemma AslFlag(n: nat, k: nat, src: u32, x: bool)
    requires Width(n) && src < Pow2(n) && k > 0
    ensures var s := Steps(Asl, n, k, Start(src, x));
      s.v <==> if k < n then !(And(src, TableAt(n, k + 1)) == 0 || And(src, TableAt(n, k + 1)) == TableAt(n, k + 1)) else src != 0
  {
    hide Step; hide Steps; hide Pow2; hide TableAt; hide And; hide Uniform;
    if k < n {
      AslOverflow(n, k, src, x);
      AslMask(n, k, src);
    } else {
      AslOverflowAll(n, k, src, x);
    }
  }

  lemma NoOverflow(op: Shift, n: nat, k: nat, src: nat, x: bool)
    requires n > 0 && op != Asl
    ensures !Steps(op, n, k, Start(src, x)).v
  {
    hide Pow2;
  }

  lemma CarryLeft(n: nat, k: nat, src: u32)
    requires Width(n) && src < Pow2(n) && k <= n
    ensures n == 8 ==> Shl(src, k) / 0x100 % 2 == src * Pow2(k) / Pow2(n) % 2
    ensures n == 16 ==> Shr(Shl(src, k), 8) / 0x100 % 2 == src * Pow2(k) / Pow2(n) % 2
    ensures n == 32 ==> Shl(Shr(src, 32 - k), 8) / 0x100 % 2 == src * Pow2(k) / Pow2(n) % 2
  {
    hide Pow2; hide Shr; hide Wrap;
    Pow2Values();
    if n == 32 {
      ShiftBack(src, k, 32);
      ByteUp(Shr(src, 32 - k));
      ShrIs(src, 32 - k);
    } else {
      WrapBit(src * Pow2(k), n);
      if n == 16 { ByteDown(Shl(src, k)); }
    }
  }

  /** q << 8 has bit 0 of q where the carry flag is. */
  lemma ByteUp(q: nat)
    ensures Shl(q, 8) / 0x100 % 2 == q % 2
  {
    hide Pow2;
    Pow2Values();
    WrapBit(q * Pow2(8), 8);
    DivUnique(q * Pow2(8), Pow2(8), q, 0);
  }

  lemma ByteDown(a: u32)
    ensures Shr(a, 8) / 0x100 % 2 == a / 0x1_0000 % 2
  {
    Pow2Values();
  }

  lemma ShrSmall(src: nat, k: nat, m: nat)
    requires src < Pow2(k + m)
    ensures Shr(src, k) < Pow2(m)
  {
    hide Pow2;
    Pow2Sum(m, k);
    DivMod(src, Pow2(k));
    if src / Pow2(k) >= Pow2(m) { MulMonotonic(Pow2(m), src / Pow2(k), Pow2(k)); }
  }

  lemma LsrOutcome(n: nat, k: nat, src: u32, x: bool)
    requires Width(n) && src < Pow2(n) && k > 0
    ensures var s := Steps(Lsr, n, k, Start(src, x));
      && s.c == s.x == (Shr(src, k - 1) % 2 == 1) && s.value == Shr(src, k) < Pow2(n - 1)
      && (k > n ==> s.value == 0 && !s.c) && (k == n ==> s.value == 0 && s.c == (src >= Pow2(n - 1)))
  {
    hide Step; hide Steps; hide Pow2;
    LsrValue(n, k, src, x);
    ShrOutcome(n, k, src);
  }

  lemma ShrOutcome(n: nat, k: nat, src: nat)
    requires n > 0 && src < Pow2(n) && k > 0
    ensures 0 <= Shr(src, k) < Pow2(n - 1)
    ensures k >= n ==> Shr(src, k) == 0
    ensures k > n ==> Shr(src, k - 1) == 0
    ensures k == n ==> Shr(src, k - 1) == if src >= Pow2(n - 1) then 1 else 0
  {
    hide Pow2; hide Shr;
    NextPower(0);
    if k <= n {
      ShrSmall(src, k, n - k);
      PowGrows(n - k, n - 1);
    } else {
      PowGrows(n, k - 1);
      PowGrows(n, k);
      ShrSmall(src, k, 0);
      ShrSmall(src, k - 1, 0);
    }
    ShrIs(src, k - 1);
    if k == n { TopDigit(n, src); }
  }

  lemma TopDigit(n: nat, src: nat)
    requires n > 0 && src < Pow2(n)
    ensures src / Pow2(n - 1) == if src >= Pow2(n - 1) then 1 else 0
  {
    hide Pow2;
    NextPower(n);
    var p := Pow2(n - 1);
    if src >= p { DivUnique(src, p, 1, src - p); } else { DivUnique(src, p, 0, src); }
  }

  /** Filling in the sign bits from the table. */
  lemma OrTable(n: nat, k: nat, src: u32)
    requires Width(n) && k <= n && src < Pow2(n)
    ensures Or(Shr(src, k), TableAt(n, k)) == Shr(src, k) + Pow2(n) - Pow2(n - k)
  {
    hide Pow2; hide TableAt; hide Or; hide Join; hide Shr; hide Width;
    TableJoin(n, k);
    ShrSmall(src, k, n - k);
    OrTop(Shr(src, k), Pow2(k) - 1, n - k);
  }

  lemma OrTop(low: nat, t: nat, r: nat)
    requires low < Pow2(r)
    ensures Or(low, Join(t, r, 0)) == low + Join(t, r, 0)
  {
    hide Or; hide Pow2;
    OrJoin(0, low, t, 0, r);
    AndZero(t);
    AndZero(low);
  }

  lemma AsrOutcome(n: nat, k: nat, src: u32, x: bool)
    requires Width(n) && src < Pow2(n) && k > 0
    ensures var s := Steps(Asr, n, k, Start(src, x)); var msb := src >= Pow2(n - 1);
      && s.c == s.x && s.value < Pow2(n) && (s.value >= Pow2(n - 1) <==> msb)
      && (k < n ==> s.value == (if msb then Or(Shr(src, k), TableAt(n, k)) else Shr(src, k)) && s.c == (Shr(src, k - 1) % 2 == 1))
      && (k >= n ==> s.value == (if msb then Pow2(n) - 1 else 0) && s.c == msb)
  {
    hide Step; hide Steps; hide Pow2; hide TableAt; hide Or; hide SignedOf; hide Shr;
    AsrValue(n, k, src, x);
    AsrCarry(n, k, src, x);
    if k < n { AsrFewer(n, k, src); } else { AsrAll(n, k, src); }
  }

  lemma AsrFewer(n: nat, k: nat, src: u32)
    requires Width(n) && 0 < k < n && src < Pow2(n)
    ensures var msb := src >= Pow2(n - 1);
      && SignedOf(n, src) / Pow2(k) + (if msb then Pow2(n) else 0) == (if msb then Or(Shr(src, k), TableAt(n, k)) else Shr(src, k))
      && SignedOf(n, src) / Pow2(k - 1) % 2 == Shr(src, k - 1) % 2
  {
    hide Pow2; hide TableAt; hide Or; hide SignedOf; hide Shr;
    OrTable(n, k, src);
    NextPower(n - k + 1);
    AsrShr(n, k, src);
    AsrShr(n, k - 1, src);
    SameParity(Shr(src, k - 1), SignedOf(n, src) / Pow2(k - 1), Pow2(n - k));
  }

  lemma AsrShr(n: nat, k: nat, src: nat)
    requires k <= n && src < Pow2(n) && n > 0
    ensures SignedOf(n, src) / Pow2(k) == Shr(src, k) - (if src >= Pow2(n - 1) then Pow2(n - k) else 0)
  {
    hide Pow2; hide SignedOf; hide Shr;
    AsrShort(n, k, src);
    ShrIs(src, k);
  }

  lemma AsrAll(n: nat, k: nat, src: u32)
    requires 0 < n <= k && src < Pow2(n)
    ensures var msb := src >= Pow2(n - 1);
      && SignedOf(n, src) / Pow2(k) + (if msb then Pow2(n) else 0) == (if msb then Pow2(n) - 1 else 0)
      && (SignedOf(n, src) / Pow2(k - 1) % 2 == 1 <==> msb)
  {
    hide Pow2; hide SignedOf;
    AsrGone(n, k, src);
    AsrGone(n, k - 1, src);
  }

  lemma RightOutcome(op: Shift, n: nat, k: nat, src: u32, x: bool)
    requires Width(n) && src < Pow2(n) && k > 0 && (op == Asr || op == Lsr)
    ensures var s := Steps(op, n, k, Start(src, x)); var msb := src >= Pow2(n - 1);
      && !s.v && s.c == s.x && s.value < Pow2(n)
      && (op == Lsr ==> s.value == Shr(src, k) < Pow2(n - 1) && s.c == (Shr(src, k - 1) % 2 == 1))
      && (op == Lsr && k > n ==> s.value == 0 && !s.c)
      && (op == Lsr && k == n ==> s.value == 0 && s.c == msb)
      && (op == Asr && k < n ==>
            s.value == (if msb then Or(Shr(src, k), TableAt(n, k)) else Shr(src, k)) && s.c == (Shr(src, k - 1) % 2 == 1))
      && (op == Asr && k >= n ==> s.value == (if msb then Pow2(n) - 1 else 0) && s.c == msb)
      && (op == Asr ==> (s.value >= Pow2(n - 1) <==> msb))
  {
    hide Step; hide Steps; hide Pow2; hide TableAt; hide Or; hide Shr; hide Start;
    NoOverflow(op, n, k, src, x);
    NextPower(n);
    if op == Lsr { LsrOutcome(n, k, src, x); } else { AsrOutcome(n, k, src, x); }
  }

  lemma CarryRight(n: nat, k: nat, src: u32)
    requires Width(n) && src < Pow2(n) && 0 < k <= n
    ensures n == 8 ==> Shl(src, 9 - k) / 0x100 % 2 == Shr(src, k - 1) % 2
    ensures Shl(Shr(src, k - 1), 8) / 0x100 % 2 == Shr(src, k - 1) % 2
  {
    hide Pow2; hide Shr; hide Wrap;
    Pow2Values();
    ByteUp(Shr(src, k - 1));
    if n == 8 {
      WrapBit(src * Pow2(9 - k), 8);
      ShiftBack(src, 9 - k, 8);
      ShrIs(src, k - 1);
    }
  }

  // ------------------------------------------------------------------ the handlers

  /** The result and the flags that k steps leave; C and X are the same word. */
  predicate Good(op: Shift, n: nat, k: nat, src: nat, x: bool, res: nat, carry: u32, nFlag: u32, notZ: u32, v: u32)
    requires n > 0
  {
    var s := Steps(op, n, k, Start(src, x));
    && s.value == res && s.c == s.x && carry / 0x100 % 2 == B2N(s.c) && v / 0x80 % 2 == B2N(s.v)
    && nFlag / 0x80 % 2 == B2N(res >= Pow2(n - 1)) && (notZ == 0 <==> res == 0)
  }

  /** The n bits of a register that the operation works on, and the register without them. */
  function Operand(n: nat, dy: u32): nat {
    dy % Pow2(n)
  }

  function Above(n: nat, dy: u32): nat {
    DivMod(dy, Pow2(n));
    dy / Pow2(n) * Pow2(n)
  }

  /** The register with the n bits replaced: MASK_OUT_BELOW(dy) | res. */
  function WithLow(n: nat, dy: u32, res: nat): (r: u32)
    requires Width(n) && res < Pow2(n)
    ensures r as int == Above(n, dy) + res
  {
    WithLowFits(n, dy, res);
    Above(n, dy) + res
  }

  lemma WithLowFits(n: nat, dy: u32, res: nat)
    requires Width(n) && res < Pow2(n)
    ensures Above(n, dy) + res < TWO32
  {
    hide Pow2; hide Above;
    Pow2Values();
    Parts8(dy);
    Parts16(dy);
    Parts32(dy);
  }

  lemma Parts8(dy: u32)
    ensures Operand(8, dy) == dy % 0x100 && Above(8, dy) == dy / 0x100 * 0x100
  {
    hide Pow2;
    Pow2Values();
  }

  lemma Parts16(dy: u32)
    ensures Operand(16, dy) == dy % 0x1_0000 && Above(16, dy) == dy / 0x1_0000 * 0x1_0000
  {
    hide Pow2;
    Pow2Values();
  }

  lemma Parts32(dy: u32)
    ensures Operand(32, dy) == dy && Above(32, dy) == 0
  {
    hide Pow2;
    Pow2Values();
  }

  /** The handler has done to DY what DX single steps do, and the flags are those of the steps: X stays if
      there was no step, and C is clear then. */
  twostate predicate Shifted(cpu: Cpu, op: Shift, n: nat)
    requires Width(n)
    reads cpu
  {
    ShiftedTo(op, n, cpu.ir, old(cpu.dar), old(cpu.XBit()) == 1, cpu.dar, cpu.x, cpu.n, cpu.notZ, cpu.v, cpu.c)
  }

  predicate ShiftedTo(op: Shift, n: nat, ir: u16, dar: Regs, x: bool,
                      dar': Regs, x': u32, nFlag: u32, notZ: u32, v: u32, c: u32)
    requires Width(n)
  {
    var y, k := ir % 8, dar[ir / 0x200 % 8] % 64;
    var s := Steps(op, n, k, Start(Operand(n, dar[y]), x));
    && dar' == dar[y := dar'[y]] && dar'[y] as int == Above(n, dar[y]) + s.value
    && x' / 0x100 % 2 == B2N(s.x) && c / 0x100 % 2 == B2N(s.c) && v / 0x80 % 2 == B2N(s.v)
    && nFlag / 0x80 % 2 == B2N(s.value >= Pow2(n - 1)) && (notZ == 0 <==> s.value == 0)
  }

  /** The same on the fields of the instruction word and with the steps in closed form: DY is shifted by DX
      modulo 64, and nothing else changes. */
  lemma ShiftedMeaning(op: Shift, n: nat, line: nat, xr: nat, mid: nat, yr: nat, dar: Regs, x: bool,
                       dar': Regs, x': u32, nFlag: u32, notZ: u32, v: u32, c: u32)
    requires Width(n) && line < 16 && xr < 8 && mid < 64 && yr < 8
    requires var ir := line * 0x1000 + xr * 0x200 + mid * 8 + yr;
      ir < TWO16 && ShiftedTo(op, n, ir, dar, x, dar', x', nFlag, notZ, v, c)
    ensures var k, src, res := dar[xr] % 64, dar[yr] % Pow2(n), dar'[yr] % Pow2(n);
      && (forall i | 0 <= i < 16 && i != yr :: dar'[i] == dar[i]) && dar'[yr] / Pow2(n) == dar[yr] / Pow2(n)
      && res == ShiftedValue(op, n, k, src)
      && (c / 0x100 % 2 == 1 <==> k > 0 && LastOut(op, n, k, src))
      && (x' / 0x100 % 2 == 1 <==> if k == 0 then x else LastOut(op, n, k, src))
      && (v / 0x80 % 2 == 1 <==> op == Asl && if k < n then !Uniform(n, k, src) else src != 0)
      && (nFlag / 0x80 % 2 == 1 <==> res >= Pow2(n - 1)) && (notZ == 0 <==> res == 0)
  {
    hide Pow2; hide Steps; hide Uniform; hide LastOut; hide ShiftedValue;
    InstructionWord(line, xr, mid, yr);
    var k, src := dar[xr] % 64, dar[yr] % Pow2(n);
    DivMod(dar[yr], Pow2(n));
    StepsMeaning(op, n, k, src, x);
    ShiftedBelow(op, n, k, src);
    DivUnique(dar'[yr], Pow2(n), dar[yr] / Pow2(n), ShiftedValue(op, n, k, src));
  }

  lemma ShiftedBelow(op: Shift, n: nat, k: nat, src: nat)
    requires n > 0 && src < Pow2(n)
    ensures 0 <= ShiftedValue(op, n, k, src) < Pow2(n)
  {
    hide Pow2;
    match op
    case Asl => DivMod(src * Pow2(k), Pow2(n));
    case Lsl => DivMod(src * Pow2(k), Pow2(n));
    case Asr => AsrValue(n, k, src, false);
    case Lsr =>
      DivMod(src, Pow2(k));
      MulMonotonic(1, Pow2(k), src / Pow2(k));
  }

  /** From the values of a branch to the state: what the handler stored is what the steps leave. */
  lemma Stored(op: Shift, n: nat, ir: u16, dar: Regs, x: u32, res: nat,
               dar': Regs, x': u32, nFlag: u32, notZ: u32, v: u32, c: u32)
    requires Width(n)
    requires dar' == dar[ir % 8 := dar'[ir % 8]] && dar'[ir % 8] as int == Above(n, dar[ir % 8]) + res
    requires var k, src := dar[ir / 0x200 % 8] % 64, Operand(n, dar[ir % 8]);
      if k != 0 then
        c == x' && Good(op, n, k, src, x / 0x100 % 2 == 1, res, x', nFlag, notZ, v)
      else
        && res == src && x' == x && c == 0 && v == 0
        && nFlag / 0x80 % 2 == B2N(res >= Pow2(n - 1)) && (notZ == 0 <==> res == 0)
    ensures ShiftedTo(op, n, ir, dar, x / 0x100 % 2 == 1, dar', x', nFlag, notZ, v, c)
  {
    hide Steps; hide Pow2; hide Operand; hide Above;
    NoSteps(op, n, Operand(n, dar[ir % 8]), x / 0x100 % 2 == 1);
  }

  lemma NoSteps(op: Shift, n: nat, src: nat, x: bool)
    requires n > 0
    ensures Steps(op, n, 0, Start(src, x)) == Start(src, x)
  {
  }

  lemma AndBelow(a: u32, b: u32)
    ensures And(a, b) < TWO32
  {
    Pow2Values();
    BitwiseBound(a, b, 32);
  }

  /** NFLAG_8, NFLAG_16 and NFLAG_32. */
  function NFlag(n: nat, res: u32): u32
    requires Width(n)
  {
    if n == 8 then res else if n == 16 then res / 0x100 else res / 0x100_0000
  }

  lemma NFlagIsTop(n: nat, res: u32)
    requires Width(n) && res < Pow2(n)
    ensures NFlag(n, res) / 0x80 % 2 == B2N(res >= Pow2(n - 1))
  {
    hide Pow2;
    Pow2Values();
  }

  /** The word that ASL and LSL leave in C and X, by width. */
  function LeftCarryFlag(n: nat, src: u32, k: nat): u32
    requires Width(n) && k <= n
  {
    if n == 8 then Shl(src, k) else if n == 16 then (DownFits(Shl(src, k)); Shr(Shl(src, k), 8)) else Shl(Shr(src, 32 - k), 8)
  }

  lemma DownFits(a: u32)
    ensures Shr(a, 8) < TWO32
  {
    hide Pow2;
    Pow2Values();
  }

  /** The word that ASR and LSR leave in C and X. */
  function RightCarryFlag(n: nat, src: u32, k: nat): u32
    requires Width(n) && 0 < k <= n
  {
    if n == 8 then Shl(src, 9 - k) else Shl(Shr(src, k - 1), 8)
  }

  /** The V flag of ASL from the table. */
  function AslV(n: nat, src: u32, k: nat): u32
    requires Width(n) && k < 64
  {
    var masked := And(src, TableAt(n, k + 1));
    B2N(!(masked == 0 || masked == TableAt(n, k + 1))) * 0x80
  }

  /** ASR before the sign bits run out. */
  function AsrShifted(n: nat, src: u32, k: nat): nat
    requires Width(n) && k < 64
  {
    if src >= Pow2(n - 1) then Or(Shr(src, k), TableAt(n, k)) else Shr(src, k)
  }

  lemma LeftResult(op: Shift, n: nat, k: nat, src: u32, x: bool)
    requires Width(n) && src < Pow2(n) && 0 < k < 64 && (op == Asl || op == Lsl)
    ensures var s := Steps(op, n, k, Start(src, x));
      && s.value == Operand(n, Shl(src, k)) && s.c == s.x
      && (k <= n ==> LeftCarryFlag(n, src, k) / 0x100 % 2 == B2N(s.c))
      && (k >= n ==> s.value == 0 && s.c == (k == n && src % 2 == 1))
      && s.v == (op == Asl && if k < n then AslV(n, src, k) == 0x80 else src != 0)
    ensures AslV(n, src, k) == 0 || AslV(n, src, k) == 0x80
  {
    hide Steps; hide Step; hide Pow2; hide And; hide TableAt; hide Shl; hide Shr;
    LeftOutcome(op, n, k, src, x);
    if k <= n { CarryLeft(n, k, src); }
  }

  lemma LeftGood(op: Shift, n: nat, k: nat, src: u32, x: bool)
    requires Width(n) && src < Pow2(n) && 0 < k < 64 && (op == Asl || op == Lsl)
    ensures Operand(n, Shl(src, k)) < Pow2(n) <= TWO32
    ensures var res := Operand(n, Shl(src, k));
      && (op == Asl && k < n ==> Good(op, n, k, src, x, res, LeftCarryFlag(n, src, k), NFlag(n, res), res, AslV(n, src, k)))
      && (op == Lsl && k <= n ==> Good(op, n, k, src, x, res, LeftCarryFlag(n, src, k), NFlag(n, res), res, 0))
    ensures op == Asl && k >= n ==>
      Good(op, n, k, src, x, 0, (if k == n then src % 2 else 0) * 0x100, 0, 0, B2N(!(src == 0)) * 0x80)
    ensures op == Lsl && k >= n ==> Good(op, n, k, src, x, 0, (if k == n then src % 2 else 0) * 0x100, 0, 0, 0)
  {
    hide Steps; hide Step; hide Pow2; hide And; hide TableAt; hide Shl; hide Shr; hide NFlag; hide Operand;
    hide AslV; hide LeftCarryFlag;
    LeftResult(op, n, k, src, x);
    Pow2Values();
    OperandBelow(n, Shl(src, k));
    NFlagIsTop(n, Operand(n, Shl(src, k)));
  }

  lemma OperandBelow(n: nat, a: u32)
    ensures Operand(n, a) < Pow2(n)
  {
    DivMod(a, Pow2(n));
  }

  lemma RightGood(op: Shift, n: nat, k: nat, src: u32, x: bool)
    requires Width(n) && src < Pow2(n) && 0 < k < 64 && (op == Asr || op == Lsr)
    ensures op == Lsr && k <= n ==>
      Shr(src, k) < Pow2(n) <= TWO32 && Good(op, n, k, src, x, Shr(src, k), RightCarryFlag(n, src, k), 0, Shr(src, k), 0)
    ensures op == Lsr && k >= n ==> Good(op, n, k, src, x, 0, B2N(k == n && src >= Pow2(n - 1)) * 0x100, 0, 0, 0)
    ensures op == Asr && k < n ==>
      var res := AsrShifted(n, src, k);
      (res < Pow2(n) <= TWO32) && Good(op, n, k, src, x, res, RightCarryFlag(n, src, k), NFlag(n, res), res, 0)
    ensures op == Asr && k >= n && src >= Pow2(n - 1) ==> Good(op, n, k, src, x, Pow2(n) - 1, 0x100, 0x80, TWO32 - 1, 0)
    ensures op == Asr && k >= n && src < Pow2(n - 1) ==> Good(op, n, k, src, x, 0, 0, 0, 0, 0)
  {
    hide Steps; hide Step; hide Pow2; hide Or; hide TableAt; hide Shl; hide Shr; hide NFlag;
    RightOutcome(op, n, k, src, x);
    Pow2Values();
    NextPower(n);
    if k <= n { CarryRight(n, k, src); }
    if op == Asr && k < n { NFlagIsTop(n, AsrShifted(n, src, k)); }
  }

  method Asl8(cpu: Cpu)
    modifies cpu`dar, cpu`x, cpu`n, cpu`notZ, cpu`v, cpu`c
    ensures Shifted(cpu, Asl, 8)
  {
    hide Steps; hide Step; hide Pow2; hide And; hide Or; hide TableAt; hide Shl; hide Shr; hide Good;
    hide ShiftedTo; hide Operand; hide Above; hide WithLow;
    Pow2Values();
    var y, shift := cpu.ir % 8, cpu.dar[cpu.ir / 0x200 % 8] % 64;
    ghost var d, x := cpu.dar, cpu.x;
    Parts8(cpu.dar[y]);
    var src: u32 := cpu.dar[y] % 0x100;
    if shift != 0 {
      Parts8(Shl(src, shift));
      LeftGood(Asl, 8, shift, src, cpu.XBit() == 1);
      if shift < 8 {
        var res: u32 := Shl(src, shift) % 0x100;
        cpu.dar := cpu.dar[y := WithLow(8, cpu.dar[y], res)];
        cpu.x := Shl(src, shift);
        cpu.c := cpu.x;
        cpu.n := res;
        cpu.notZ := res;
        AndBelow(src, TableAt(8, shift + 1));
        src := And(src, TableAt(8, shift + 1));
        cpu.v := B2N(!(src == 0 || src == TableAt(8, shift + 1))) * 0x80;
        Stored(Asl, 8, cpu.ir, d, x, res, cpu.dar, cpu.x, cpu.n, cpu.notZ, cpu.v, cpu.c);
        return;
      }
      cpu.dar := cpu.dar[y := WithLow(8, cpu.dar[y], 0)];
      cpu.x := (if shift == 8 then src % 2 else 0) * 0x100;
      cpu.c := cpu.x;
      cpu.n, cpu.notZ, cpu.v := 0, 0, B2N(!(src == 0)) * 0x80;
      Stored(Asl, 8, cpu.ir, d, x, 0, cpu.dar, cpu.x, cpu.n, cpu.notZ, cpu.v, cpu.c);
      return;
    }
    NFlagIsTop(8, src);
    cpu.c, cpu.n, cpu.notZ, cpu.v := 0, src, src, 0;
    Stored(Asl, 8, cpu.ir, d, x, src, cpu.dar, cpu.x, cpu.n, cpu.notZ, cpu.v, cpu.c);
  }

  method Asl16(cpu: Cpu)
    modifies cpu`dar, cpu`x, cpu`n, cpu`notZ, cpu`v, cpu`c
    ensures Shifted(cpu, Asl, 16)
  {
    hide Steps; hide Step; hide Pow2; hide And; hide Or; hide TableAt; hide Shl; hide Shr; hide Good;
    hide ShiftedTo; hide Operand; hide Above; hide WithLow;
    Pow2Values();
    var y, shift := cpu.ir % 8, cpu.dar[cpu.ir / 0x200 % 8] % 64;
    ghost var d, x := cpu.dar, cpu.x;
    Parts16(cpu.dar[y]);
    var src: u32 := cpu.dar[y] % 0x1_0000;
    if shift != 0 {
      Parts16(Shl(src, shift));
      LeftGood(Asl, 16, shift, src, cpu.XBit() == 1);
      if shift < 16 {
        var res: u32 := Shl(src, shift) % 0x1_0000;
        DownFits(Shl(src, shift));
        cpu.dar := cpu.dar[y := WithLow(16, cpu.dar[y], res)];
        cpu.x := Shr(Shl(src, shift), 8);
        cpu.c := cpu.x;
        cpu.n := res / 0x100;
        cpu.notZ := res;
        AndBelow(src, TableAt(16, shift + 1));
        src := And(src, TableAt(16, shift + 1));
        cpu.v := B2N(!(src == 0 || src == TableAt(16, shift + 1))) * 0x80;
        Stored(Asl, 16, cpu.ir, d, x, res, cpu.dar, cpu.x, cpu.n, cpu.notZ, cpu.v, cpu.c);
        return;
      }
      cpu.dar := cpu.dar[y := WithLow(16, cpu.dar[y], 0)];
      cpu.x := (if shift == 16 then src % 2 else 0) * 0x100;
      cpu.c := cpu.x;
      cpu.n, cpu.notZ, cpu.v := 0, 0, B2N(!(src == 0)) * 0x80;
      Stored(Asl, 16, cpu.ir, d, x, 0, cpu.dar, cpu.x, cpu.n, cpu.notZ, cpu.v, cpu.c);
      return;
    }
    NFlagIsTop(16, src);
    cpu.c, cpu.n, cpu.notZ, cpu.v := 0, src / 0x100, src, 0;
    Stored(Asl, 16, cpu.ir, d, x, src, cpu.dar, cpu.x, cpu.n, cpu.notZ, cpu.v, cpu.c);
  }

  method Asl32(cpu: Cpu)
    modifies cpu`dar, cpu`x, cpu`n, cpu`notZ, cpu`v, cpu`c
    ensures Shifted(cpu, Asl, 32)
  {
    hide Steps; hide Step; hide Pow2; hide And; hide Or; hide TableAt; hide Shl; hide Shr; hide Good;
    hide ShiftedTo; hide Operand; hide Above; hide WithLow;
    Pow2Values();
    var y, shift := cpu.ir % 8, cpu.dar[cpu.ir / 0x200 % 8] % 64;
    ghost var d, x := cpu.dar, cpu.x;
    Parts32(cpu.dar[y]);
    var src: u32 := cpu.dar[y];
    if shift != 0 {
      Parts32(Shl(src, shift));
      LeftGood(Asl, 32, shift, src, cpu.XBit() == 1);
      if shift < 32 {
        var res: u32 := Shl(src, shift);
        cpu.dar := cpu.dar[y := res];
        cpu.x := Shl(Shr(src, 32 - shift), 8);
        cpu.c := cpu.x;
        cpu.n := res / 0x100_0000;
        cpu.notZ := res;
        AndBelow(src, TableAt(32, shift + 1));
        src := And(src, TableAt(32, shift + 1));
        cpu.v := B2N(!(src == 0 || src == TableAt(32, shift + 1))) * 0x80;
        Stored(Asl, 32, cpu.ir, d, x, res, cpu.dar, cpu.x, cpu.n, cpu.notZ, cpu.v, cpu.c);
        return;
      }
      cpu.dar := cpu.dar[y := 0];
      cpu.x := (if shift == 32 then src % 2 else 0) * 0x100;
      cpu.c := cpu.x;
      cpu.n, cpu.notZ, cpu.v := 0, 0, B2N(!(src == 0)) * 0x80;
      Stored(Asl, 32, cpu.ir, d, x, 0, cpu.dar, cpu.x, cpu.n, cpu.notZ, cpu.v, cpu.c);
      return;
    }
    NFlagIsTop(32, src);
    cpu.c, cpu.n, cpu.notZ, cpu.v := 0, src / 0x100_0000, src, 0;
    Stored(Asl, 32, cpu.ir, d, x, src, cpu.dar, cpu.x, cpu.n, cpu.notZ, cpu.v, cpu.c);
  }

  method Lsl8(cpu: Cpu)
    modifies cpu`dar, cpu`x, cpu`n, cpu`notZ, cpu`v, cpu`c
    ensures Shifted(cpu, Lsl, 8)
  {
    hide Steps; hide Step; hide Pow2; hide And; hide Or; hide TableAt; hide Shl; hide Shr; hide Good;
    hide ShiftedTo; hide Operand; hide Above; hide WithLow;
    Pow2Values();
    var y, shift := cpu.ir % 8, cpu.dar[cpu.ir / 0x200 % 8] % 64;
    ghost var d, x := cpu.dar, cpu.x;
    Parts8(cpu.dar[y]);
    var src: u32 := cpu.dar[y] % 0x100;
    if shift != 0 {
      Parts8(Shl(src, shift));
      LeftGood(Lsl, 8, shift, src, cpu.XBit() == 1);
      if shift <= 8 {
        var res: u32 := Shl(src, shift) % 0x100;
        cpu.dar := cpu.dar[y := WithLow(8, cpu.dar[y], res)];
        cpu.x := Shl(src, shift);
        cpu.c := cpu.x;
        cpu.n := res;
        cpu.notZ := res;
        cpu.v := 0;
        Stored(Lsl, 8, cpu.ir, d, x, res, cpu.dar, cpu.x, cpu.n, cpu.notZ, cpu.v, cpu.c);
        return;
      }
      cpu.dar := cpu.dar[y := WithLow(8, cpu.dar[y], 0)];
      cpu.x := 0;
      cpu.c := cpu.x;
      cpu.n, cpu.notZ, cpu.v := 0, 0, 0;
      Stored(Lsl, 8, cpu.ir, d, x, 0, cpu.dar, cpu.x, cpu.n, cpu.notZ, cpu.v, cpu.c);
      return;
    }
    NFlagIsTop(8, src);
    cpu.c, cpu.n, cpu.notZ, cpu.v := 0, src, src, 0;
    Stored(Lsl, 8, cpu.ir, d, x, src, cpu.dar, cpu.x, cpu.n, cpu.notZ, cpu.v, cpu.c);
  }

  method Lsl16(cpu: Cpu)
    modifies cpu`dar, cpu`x, cpu`n, cpu`notZ, cpu`v, cpu`c
    ensures Shifted(cpu, Lsl, 16)
  {
    hide Steps; hide Step; hide Pow2; hide And; hide Or; hide TableAt; hide Shl; hide Shr; hide Good;
    hide ShiftedTo; hide Operand; hide Above; hide WithLow;
    Pow2Values();
    var y, shift := cpu.ir % 8, cpu.dar[cpu.ir / 0x200 % 8] % 64;
    ghost var d, x := cpu.dar, cpu.x;
    Parts16(cpu.dar[y]);
    var src: u32 := cpu.dar[y] % 0x1_0000;
    if shift != 0 {
      Parts16(Shl(src, shift));
      LeftGood(Lsl, 16, shift, src, cpu.XBit() == 1);
      if shift <= 16 {
        var res: u32 := Shl(src, shift) % 0x1_0000;
        DownFits(Shl(src, shift));
        cpu.dar := cpu.dar[y := WithLow(16, cpu.dar[y], res)];
        cpu.x := Shr(Shl(src, shift), 8);
        cpu.c := cpu.x;
        cpu.n := res / 0x100;
        cpu.notZ := res;
        cpu.v := 0;
        Stored(Lsl, 16, cpu.ir, d, x, res, cpu.dar, cpu.x, cpu.n, cpu.notZ, cpu.v, cpu.c);
        return;
      }
      cpu.dar := cpu.dar[y := WithLow(16, cpu.dar[y], 0)];
      cpu.x := 0;
      cpu.c := cpu.x;
      cpu.n, cpu.notZ, cpu.v := 0, 0, 0;
      Stored(Lsl, 16, cpu.ir, d, x, 0, cpu.dar, cpu.x, cpu.n, cpu.notZ, cpu.v, cpu.c);
      return;
    }
    NFlagIsTop(16, src);
    cpu.c, cpu.n, cpu.notZ, cpu.v := 0, src / 0x100, src, 0;
    Stored(Lsl, 16, cpu.ir, d, x, src, cpu.dar, cpu.x, cpu.n, cpu.notZ, cpu.v, cpu.c);
  }

  method Lsl32(cpu: Cpu)
    modifies cpu`dar, cpu`x, cpu`n, cpu`notZ, cpu`v, cpu`c
    ensures Shifted(cpu, Lsl, 32)
  {
    hide Steps; hide Step; hide Pow2; hide And; hide Or; hide TableAt; hide Shl; hide Shr; hide Good;
    hide ShiftedTo; hide Operand; hide Above; hide WithLow;
    Pow2Values();
    var y, shift := cpu.ir % 8, cpu.dar[cpu.ir / 0x200 % 8] % 64;
    ghost var d, x := cpu.dar, cpu.x;
    Parts32(cpu.dar[y]);
    var src: u32 := cpu.dar[y];
    if shift != 0 {
      Parts32(Shl(src, shift));
      LeftGood(Lsl, 32, shift, src, cpu.XBit() == 1);
      if shift < 32 {
        var res: u32 := Shl(src, shift);
        cpu.dar := cpu.dar[y := res];
        cpu.x := Shl(Shr(src, 32 - shift), 8);
        cpu.c := cpu.x;
        cpu.n := res / 0x100_0000;
        cpu.notZ := res;
        cpu.v := 0;
        Stored(Lsl, 32, cpu.ir, d, x, res, cpu.dar, cpu.x, cpu.n, cpu.notZ, cpu.v, cpu.c);
        return;
      }
      cpu.dar := cpu.dar[y := 0];
      cpu.x := (if shift == 32 then src % 2 else 0) * 0x100;
      cpu.c := cpu.x;
      cpu.n, cpu.notZ, cpu.v := 0, 0, 0;
      Stored(Lsl, 32, cpu.ir, d, x, 0, cpu.dar, cpu.x, cpu.n, cpu.notZ, cpu.v, cpu.c);
      return;
    }
    NFlagIsTop(32, src);
    cpu.c, cpu.n, cpu.notZ, cpu.v := 0, src / 0x100_0000, src, 0;
    Stored(Lsl, 32, cpu.ir, d, x, src, cpu.dar, cpu.x, cpu.n, cpu.notZ, cpu.v, cpu.c);
  }

  method Asr8(cpu: Cpu)
    modifies cpu`dar, cpu`x, cpu`n, cpu`notZ, cpu`v, cpu`c
    ensures Shifted(cpu, Asr, 8)
  {
    hide Steps; hide Step; hide Pow2; hide And; hide Or; hide TableAt; hide Shl; hide Shr; hide Good;
    hide ShiftedTo; hide Operand; hide Above; hide WithLow;
    Pow2Values();
    var y, shift := cpu.ir % 8, cpu.dar[cpu.ir / 0x200 % 8] % 64;
    ghost var d, x := cpu.dar, cpu.x;
    Parts8(cpu.dar[y]);
    var src: u32 := cpu.dar[y] % 0x100;
    if shift != 0 {
      RightGood(Asr, 8, shift, src, cpu.XBit() == 1);
      if shift < 8 {
        var res: u32 := if src >= 0x80 then Or(Shr(src, shift), TableAt(8, shift)) else Shr(src, shift);
        cpu.dar := cpu.dar[y := WithLow(8, cpu.dar[y], res)];
        cpu.x := Shl(src, 9 - shift);
        cpu.c := cpu.x;
        cpu.n := res;
        cpu.notZ := res;
        cpu.v := 0;
        Stored(Asr, 8, cpu.ir, d, x, res, cpu.dar, cpu.x, cpu.n, cpu.notZ, cpu.v, cpu.c);
        return;
      }
      if src >= 0x80 {
        cpu.dar := cpu.dar[y := WithLow(8, cpu.dar[y], 0xff)];
        cpu.x, cpu.c, cpu.n, cpu.notZ, cpu.v := 0x100, 0x100, 0x80, TWO32 - 1, 0;
        Stored(Asr, 8, cpu.ir, d, x, 0xff, cpu.dar, cpu.x, cpu.n, cpu.notZ, cpu.v, cpu.c);
        return;
      }
      cpu.dar := cpu.dar[y := WithLow(8, cpu.dar[y], 0)];
      cpu.x, cpu.c, cpu.n, cpu.notZ, cpu.v := 0, 0, 0, 0, 0;
      Stored(Asr, 8, cpu.ir, d, x, 0, cpu.dar, cpu.x, cpu.n, cpu.notZ, cpu.v, cpu.c);
      return;
    }
    NFlagIsTop(8, src);
    cpu.c, cpu.n, cpu.notZ, cpu.v := 0, src, src, 0;
    Stored(Asr, 8, cpu.ir, d, x, src, cpu.dar, cpu.x, cpu.n, cpu.notZ, cpu.v, cpu.c);
  }

  method Asr16(cpu: Cpu)
    modifies cpu`dar, cpu`x, cpu`n, cpu`notZ, cpu`v, cpu`c
    ensures Shifted(cpu, Asr, 16)
  {
    hide Steps; hide Step; hide Pow2; hide And; hide Or; hide TableAt; hide Shl; hide Shr; hide Good;
    hide ShiftedTo; hide Operand; hide Above; hide WithLow;
    Pow2Values();
    var y, shift := cpu.ir % 8, cpu.dar[cpu.ir / 0x200 % 8] % 64;
    ghost var d, x := cpu.dar, cpu.x;
    Parts16(cpu.dar[y]);
    var src: u32 := cpu.dar[y] % 0x1_0000;
    if shift != 0 {
      RightGood(Asr, 16, shift, src, cpu.XBit() == 1);
      if shift < 16 {
        var res: u32 := if src >= 0x8000 then Or(Shr(src, shift), TableAt(16, shift)) else Shr(src, shift);
        cpu.dar := cpu.dar[y := WithLow(16, cpu.dar[y], res)];
        cpu.x := Shl(Shr(src, shift - 1), 8);
        cpu.c := cpu.x;
        cpu.n := res / 0x100;
        cpu.notZ := res;
        cpu.v := 0;
        Stored(Asr, 16, cpu.ir, d, x, res, cpu.dar, cpu.x, cpu.n, cpu.notZ, cpu.v, cpu.c);
        return;
      }
      if src >= 0x8000 {
        cpu.dar := cpu.dar[y := WithLow(16, cpu.dar[y], 0xffff)];
        cpu.x, cpu.c, cpu.n, cpu.notZ, cpu.v := 0x100, 0x100, 0x80, TWO32 - 1, 0;
        Stored(Asr, 16, cpu.ir, d, x, 0xffff, cpu.dar, cpu.x, cpu.n, cpu.notZ, cpu.v, cpu.c);
        return;
      }
      cpu.dar := cpu.dar[y := WithLow(16, cpu.dar[y], 0)];
      cpu.x, cpu.c, cpu.n, cpu.notZ, cpu.v := 0, 0, 0, 0, 0;
      Stored(Asr, 16, cpu.ir, d, x, 0, cpu.dar, cpu.x, cpu.n, cpu.notZ, cpu.v, cpu.c);
      return;
    }
    NFlagIsTop(16, src);
    cpu.c, cpu.n, cpu.notZ, cpu.v := 0, src / 0x100, src, 0;
    Stored(Asr, 16, cpu.ir, d, x, src, cpu.dar, cpu.x, cpu.n, cpu.notZ, cpu.v, cpu.c);
  }

  method Asr32(cpu: Cpu)
    modifies cpu`dar, cpu`x, cpu`n, cpu`notZ, cpu`v, cpu`c
    ensures Shifted(cpu, Asr, 32)
  {
    hide Steps; hide Step; hide Pow2; hide And; hide Or; hide TableAt; hide Shl; hide Shr; hide Good;
    hide ShiftedTo; hide Operand; hide Above; hide WithLow;
    Pow2Values();
    var y, shift := cpu.ir % 8, cpu.dar[cpu.ir / 0x200 % 8] % 64;
    ghost var d, x := cpu.dar, cpu.x;
    Parts32(cpu.dar[y]);
    var src: u32 := cpu.dar[y];
    if shift != 0 {
      RightGood(Asr, 32, shift, src, cpu.XBit() == 1);
      if shift < 32 {
        var res: u32 := if src >= TWO31 then Or(Shr(src, shift), TableAt(32, shift)) else Shr(src, shift);
        cpu.dar := cpu.dar[y := res];
        cpu.x := Shl(Shr(src, shift - 1), 8);
        cpu.c := cpu.x;
        cpu.n := res / 0x100_0000;
        cpu.notZ := res;
        cpu.v := 0;
        Stored(Asr, 32, cpu.ir, d, x, res, cpu.dar, cpu.x, cpu.n, cpu.notZ, cpu.v, cpu.c);
        return;
      }
      if src >= TWO31 {
        cpu.dar := cpu.dar[y := TWO32 - 1];
        cpu.x, cpu.c, cpu.n, cpu.notZ, cpu.v := 0x100, 0x100, 0x80, TWO32 - 1, 0;
        Stored(Asr, 32, cpu.ir, d, x, TWO32 - 1, cpu.dar, cpu.x, cpu.n, cpu.notZ, cpu.v, cpu.c);
        return;
      }
      cpu.dar := cpu.dar[y := 0];
      cpu.x, cpu.c, cpu.n, cpu.notZ, cpu.v := 0, 0, 0, 0, 0;
      Stored(Asr, 32, cpu.ir, d, x, 0, cpu.dar, cpu.x, cpu.n, cpu.notZ, cpu.v, cpu.c);
      return;
    }
    NFlagIsTop(32, src);
    cpu.c, cpu.n, cpu.notZ, cpu.v := 0, src / 0x100_0000, src, 0;
    Stored(Asr, 32, cpu.ir, d, x, src, cpu.dar, cpu.x, cpu.n, cpu.notZ, cpu.v, cpu.c);
  }

  method Lsr8(cpu: Cpu)
    modifies cpu`dar, cpu`x, cpu`n, cpu`notZ, cpu`v, cpu`c
    ensures Shifted(cpu, Lsr, 8)
  {
    hide Steps; hide Step; hide Pow2; hide And; hide Or; hide TableAt; hide Shl; hide Shr; hide Good;
    hide ShiftedTo; hide Operand; hide Above; hide WithLow;
    Pow2Values();
    var y, shift := cpu.ir % 8, cpu.dar[cpu.ir / 0x200 % 8] % 64;
    ghost var d, x := cpu.dar, cpu.x;
    Parts8(cpu.dar[y]);
    var src: u32 := cpu.dar[y] % 0x100;
    if shift != 0 {
      RightGood(Lsr, 8, shift, src, cpu.XBit() == 1);
      if shift <= 8 {
        var res: u32 := Shr(src, shift);
        cpu.dar := cpu.dar[y := WithLow(8, cpu.dar[y], res)];
        cpu.x := Shl(src, 9 - shift);
        cpu.c := cpu.x;
        cpu.n := 0;
        cpu.notZ := res;
        cpu.v := 0;
        Stored(Lsr, 8, cpu.ir, d, x, res, cpu.dar, cpu.x, cpu.n, cpu.notZ, cpu.v, cpu.c);
        return;
      }
      cpu.dar := cpu.dar[y := WithLow(8, cpu.dar[y], 0)];
      cpu.x := 0;
      cpu.c := cpu.x;
      cpu.n, cpu.notZ, cpu.v := 0, 0, 0;
      Stored(Lsr, 8, cpu.ir, d, x, 0, cpu.dar, cpu.x, cpu.n, cpu.notZ, cpu.v, cpu.c);
      return;
    }
    NFlagIsTop(8, src);
    cpu.c, cpu.n, cpu.notZ, cpu.v := 0, src, src, 0;
    Stored(Lsr, 8, cpu.ir, d, x, src, cpu.dar, cpu.x, cpu.n, cpu.notZ, cpu.v, cpu.c);
  }

  method Lsr16(cpu: Cpu)
    modifies cpu`dar, cpu`x, cpu`n, cpu`notZ, cpu`v, cpu`c
    ensures Shifted(cpu, Lsr, 16)
  {
    hide Steps; hide Step; hide Pow2; hide And; hide Or; hide TableAt; hide Shl; hide Shr; hide Good;
    hide ShiftedTo; hide Operand; hide Above; hide WithLow;
    Pow2Values();
    var y, shift := cpu.ir % 8, cpu.dar[cpu.ir / 0x200 % 8] % 64;
    ghost var d, x := cpu.dar, cpu.x;
    Parts16(cpu.dar[y]);
    var src: u32 := cpu.dar[y] % 0x1_0000;
    if shift != 0 {
      RightGood(Lsr, 16, shift, src, cpu.XBit() == 1);
      if shift <= 16 {
        var res: u32 := Shr(src, shift);
        cpu.dar := cpu.dar[y := WithLow(16, cpu.dar[y], res)];
        cpu.x := Shl(Shr(src, shift - 1), 8);
        cpu.c := cpu.x;
        cpu.n := 0;
        cpu.notZ := res;
        cpu.v := 0;
        Stored(Lsr, 16, cpu.ir, d, x, res, cpu.dar, cpu.x, cpu.n, cpu.notZ, cpu.v, cpu.c);
        return;
      }
      cpu.dar := cpu.dar[y := WithLow(16, cpu.dar[y], 0)];
      cpu.x := 0;
      cpu.c := cpu.x;
      cpu.n, cpu.notZ, cpu.v := 0, 0, 0;
      Stored(Lsr, 16, cpu.ir, d, x, 0, cpu.dar, cpu.x, cpu.n, cpu.notZ, cpu.v, cpu.c);
      return;
    }
    NFlagIsTop(16, src);
    cpu.c, cpu.n, cpu.notZ, cpu.v := 0, src / 0x100, src, 0;
    Stored(Lsr, 16, cpu.ir, d, x, src, cpu.dar, cpu.x, cpu.n, cpu.notZ, cpu.v, cpu.c);
  }

  method Lsr32(cpu: Cpu)
    modifies cpu`dar, cpu`x, cpu`n, cpu`notZ, cpu`v, cpu`c
    ensures Shifted(cpu, Lsr, 32)
  {
    hide Steps; hide Step; hide Pow2; hide And; hide Or; hide TableAt; hide Shl; hide Shr; hide Good;
    hide ShiftedTo; hide Operand; hide Above; hide WithLow;
    Pow2Values();
    var y, shift := cpu.ir % 8, cpu.dar[cpu.ir / 0x200 % 8] % 64;
    ghost var d, x := cpu.dar, cpu.x;
    Parts32(cpu.dar[y]);
    var src: u32 := cpu.dar[y];
    if shift != 0 {
      RightGood(Lsr, 32, shift, src, cpu.XBit() == 1);
      if shift < 32 {
        var res: u32 := Shr(src, shift);
        cpu.dar := cpu.dar[y := res];
        cpu.x := Shl(Shr(src, shift - 1), 8);
        cpu.c := cpu.x;
        cpu.n := 0;
        cpu.notZ := res;
        cpu.v := 0;
        Stored(Lsr, 32, cpu.ir, d, x, res, cpu.dar, cpu.x, cpu.n, cpu.notZ, cpu.v, cpu.c);
        return;
      }
      cpu.dar := cpu.dar[y := 0];
      cpu.x := if shift == 32 && src >= TWO31 then 0x100 else 0;
      cpu.c := cpu.x;
      cpu.n, cpu.notZ, cpu.v := 0, 0, 0;
      Stored(Lsr, 32, cpu.ir, d, x, 0, cpu.dar, cpu.x, cpu.n, cpu.notZ, cpu.v, cpu.c);
      return;
    }
    NFlagIsTop(32, src);
    cpu.c, cpu.n, cpu.notZ, cpu.v := 0, src / 0x100_0000, src, 0;
    Stored(Lsr, 32, cpu.ir, d, x, src, cpu.dar, cpu.x, cpu.n, cpu.notZ, cpu.v, cpu.c);
  }
}
