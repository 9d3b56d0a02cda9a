/** ROL, ROR and the 33-bit ROXL and ROXR by a register count (Musashi/m68k_in.c, Musashi/m68kcpu.h). */
module Rotates {
  import opened Words
  import opened Bits
  import opened M68k
  import opened Flags
  import opened Shifts
  import opened ShiftHandlers

  // ------------------------------------------------------------------ one bit at a time

  /** A word of w bits turned by one bit. */
  function Left1(w: nat, v: nat): nat
    requires w > 0 && v < Pow2(w)
  {
    if v >= Pow2(w - 1) then 2 * v + 1 - Pow2(w) else 2 * v
  }

  function Right1(w: nat, v: nat): nat
    requires w > 0
  {
    v / 2 + v % 2 * Pow2(w - 1)
  }

  lemma TurnBack(w: nat, v: nat)
    requires w > 0 && v < Pow2(w)
    ensures Left1(w, v) < Pow2(w) && Right1(w, v) < Pow2(w)
    ensures Right1(w, Left1(w, v)) == v && Left1(w, Right1(w, v)) == v
  {
    hide Pow2;
    NextPower(w);
    LeftThenRight(v, Pow2(w - 1));
    RightThenLeft(v, Pow2(w - 1));
  }

  lemma LeftThenRight(v: nat, p: nat)
    requires v < 2 * p
    ensures var l := if v >= p then 2 * v + 1 - 2 * p else 2 * v; l < 2 * p && l / 2 + l % 2 * p == v
  {
    var l := if v >= p then 2 * v + 1 - 2 * p else 2 * v;
    assert l % 2 == if v >= p then 1 else 0;
    BitTimes(l % 2, p);
  }

  lemma RightThenLeft(v: nat, p: nat)
    requires v < 2 * p
    ensures var r := v / 2 + v % 2 * p; 0 <= r < 2 * p && (if r >= p then 2 * r + 1 - 2 * p else 2 * r) == v
  {
    BitTimes(v % 2, p);
  }

  lemma BitTimes(b: nat, p: nat)
    requires b <= 1
    ensures b * p == if b == 1 then p else 0
  {
  }

  function Lefts(w: nat, k: nat, v: nat): (r: nat)
    requires w > 0 && v < Pow2(w)
    ensures r < Pow2(w)
  {
    if k == 0 then v else (TurnBack(w, Lefts(w, k - 1, v)); Left1(w, Lefts(w, k - 1, v)))
  }

  function Rights(w: nat, k: nat, v: nat): (r: nat)
    requires w > 0 && v < Pow2(w)
    ensures r < Pow2(w)
  {
    if k == 0 then v else (TurnBack(w, Rights(w, k - 1, v)); Right1(w, Rights(w, k - 1, v)))
  }

  lemma {:induction false} LeftsAdd(w: nat, j: nat, k: nat, v: nat)
    requires w > 0 && v < Pow2(w)
    ensures Lefts(w, j + k, v) == Lefts(w, j, Lefts(w, k, v))
    decreases j
  {
    hide Pow2; hide Left1;
    if j > 0 { LeftsAdd(w, j - 1, k, v); }
  }

  lemma {:induction false} RightsFirst(w: nat, k: nat, v: nat)
    requires w > 0 && v < Pow2(w) && k > 0
    ensures Right1(w, v) < Pow2(w) && Rights(w, k, v) == Rights(w, k - 1, Right1(w, v))
    decreases k
  {
    hide Pow2; hide Right1;
    TurnBack(w, v);
    if k > 1 { RightsFirst(w, k - 1, v); }
  }

  /** Turning k bits to the right undoes turning k bits to the left. */
  lemma {:induction false} RightsUndoLefts(w: nat, k: nat, v: nat)
    requires w > 0 && v < Pow2(w)
    ensures Rights(w, k, Lefts(w, k, v)) == v
    decreases k
  {
    hide Pow2; hide Right1; hide Left1;
    if k > 0 {
      var u := Lefts(w, k - 1, v);
      TurnBack(w, u);
      RightsFirst(w, k, Lefts(w, k, v));
      RightsUndoLefts(w, k - 1, v);
    }
  }

  // ------------------------------------------------------------------ many bits at once

  /** k turns exchange the upper k bits and the others. */
  lemma {:induction false} LeftsJoin(w: nat, k: nat, h: nat, l: nat)
    requires 0 < w && k <= w && h < Pow2(k) && l < Pow2(w - k)
    ensures Join(h, w - k, l) < Pow2(w) && Lefts(w, k, Join(h, w - k, l)) == Join(l, k, h)
    decreases k
  {
    hide Pow2;
    JoinBound(h, k, w - k, l);
    NextPower(0);
    if k > 0 {
      NextPower(k);
      // bit 0 of the upper part is the one that turns last
      var h', t := h / 2, h % 2;
      var l' := Join(t, w - k, l);
      NextPower(w - k + 1);
      NextPower(1);
      JoinBound(t, 1, w - k, l);
      JoinJoin(h', t, w - k, l);
      LeftsJoin(w, k - 1, h', l');
      Turn(w, k, t, l, h');
    }
  }

  lemma JoinBound(h: nat, k: nat, n: nat, l: nat)
    requires h < Pow2(k) && l < Pow2(n)
    ensures Join(h, n, l) < Pow2(k + n)
  {
    hide Pow2;
    Pow2Sum(k, n);
    MulMonotonic(h, Pow2(k) - 1, Pow2(n));
    OneLess(Pow2(k), Pow2(n));
  }

  lemma JoinJoin(h: nat, t: nat, n: nat, l: nat)
    ensures Join(2 * h + t, n, l) == Join(h, n + 1, Join(t, n, l))
  {
    hide Pow2;
    NextPower(n + 1);
    var p := Pow2(n);
    assert (2 * h + t) * p == h * (2 * p) + t * p;
  }

  /** The last of k turns moves the top bit t round. */
  lemma Turn(w: nat, k: nat, t: nat, l: nat, h: nat)
    requires 0 < k <= w && t <= 1 && l < Pow2(w - k) && h < Pow2(k - 1)
    ensures Join(Join(t, w - k, l), k - 1, h) < Pow2(w)
    ensures Left1(w, Join(Join(t, w - k, l), k - 1, h)) == Join(l, k, 2 * h + t)
  {
    hide Pow2;
    Pow2Sum(w - k, k - 1);
    NextPower(w);
    NextPower(k);
    JoinBound(l, w - k, k - 1, h);
    var p, q := Pow2(w - k), Pow2(k - 1);
    assert (t * p + l) * q == t * (p * q) + l * q;
    assert l * (2 * q) == 2 * (l * q);
    BitTimes(t, p * q);
  }

  /** w turns of w bits change nothing. */
  lemma {:induction false} FullTurns(w: nat, k: nat, v: nat)
    requires w > 0 && v < Pow2(w)
    ensures Lefts(w, k, v) == Lefts(w, k % w, v)
    decreases k
  {
    hide Pow2;
    if k >= w {
      LeftsAdd(w, k - w, w, v);
      FullTurn(w, v);
      FullTurns(w, k - w, v);
      assert (k - w) % w == k % w by { ModLess(k, w); }
    } else {
      assert k % w == k by { DivUnique(k, w, 0, k); }
    }
  }

  lemma ModLess(k: nat, w: nat)
    requires k >= w > 0
    ensures (k - w) % w == k % w
  {
    DivMod(k, w);
    assert k - w == (k / w - 1) * w + k % w by { OneLess(k / w, w); }
    DivUnique(k - w, w, k / w - 1, k % w);
  }

  lemma FullTurn(w: nat, v: nat)
    requires w > 0 && v < Pow2(w)
    ensures Lefts(w, w, v) == v
  {
    hide Pow2;
    NextPower(0);
    LeftsJoin(w, w, v, 0);
  }

  /** Turning right is turning left the rest of the way. */
  lemma RightsAreLefts(w: nat, k: nat, v: nat)
    requires w > 0 && v < Pow2(w) && k <= w
    ensures Rights(w, k, v) == Lefts(w, w - k, v)
  {
    hide Pow2; hide Left1; hide Right1; hide Lefts; hide Rights;
    LeftsAdd(w, k, w - k, v);
    FullTurn(w, v);
    RightsUndoLefts(w, k, Lefts(w, w - k, v));
  }

  lemma {:induction false} RightsAdd(w: nat, j: nat, k: nat, v: nat)
    requires w > 0 && v < Pow2(w)
    ensures Rights(w, j + k, v) == Rights(w, j, Rights(w, k, v))
    decreases j
  {
    hide Pow2; hide Right1;
    if j > 0 { RightsAdd(w, j - 1, k, v); }
  }

  lemma {:induction false} FullRights(w: nat, k: nat, v: nat)
    requires w > 0 && v < Pow2(w)
    ensures Rights(w, k, v) == Rights(w, k % w, v)
    decreases k
  {
    hide Pow2; hide Left1; hide Right1;
    if k >= w {
      RightsAdd(w, k - w, w, v);
      RightsAreLefts(w, w, v);
      assert Lefts(w, 0, v) == v;
      hide Lefts; hide Rights;
      FullRights(w, k - w, v);
      ModLess(k, w);
    } else {
      assert k % w == k by { DivUnique(k, w, 0, k); }
    }
  }

  // ------------------------------------------------------------------ << and >> of the rotate macros

  /** << drops the bits above 32. */
  lemma ShlJoin(src: nat, k: nat)
    requires k <= 32
    ensures Shl(src, k) == Join(LowPart(src, 32 - k), k, 0) && src * Pow2(k) / TWO32 * TWO32 + Shl(src, k) == src * Pow2(k)
  {
    hide Pow2; hide Shr; hide LowPart;
    Pow2Values();
    var a, h := LowPart(src, 32 - k), Shr(src, 32 - k);
    PowPositive(k);
    JoinBound(a, 32 - k, k, 0);
    JoinTimes(h, 32 - k, a, k);
    DivUnique(src * Pow2(k), TWO32, h, a * Pow2(k));
  }

  lemma JoinTimes(h: nat, n: nat, l: nat, k: nat)
    ensures Join(h, n, l) * Pow2(k) == h * Pow2(n + k) + l * Pow2(k)
  {
    hide Pow2;
    Pow2Sum(n, k);
    Distribute(h, Pow2(n), l, Pow2(k));
  }

  lemma Distribute(h: int, p: int, l: int, q: int)
    ensures (h * p + l) * q == h * (p * q) + l * q
  {
  }

  lemma PowPositive(k: nat)
    ensures 0 < Pow2(k)
  {
  }

  /** ROL_8, ROL_16 and ROL_32. */
  function Rol(n: nat, src: u32, k: nat): nat
    requires Width(n) && k <= n
  {
    Operand(n, OrWord(Shl(src, k), Shr(src, n - k)))
  }

  /** ROR_8, ROR_16 and ROR_32. */
  function Ror(n: nat, src: u32, k: nat): nat
    requires Width(n) && k <= n
  {
    Operand(n, OrWord(Shr(src, k), Shl(src, n - k)))
  }

  function OrWord(a: nat, b: nat): u32 {
    Wrap(Or(a, b))
  }

  lemma OrCommutes(a: nat, b: nat)
    ensures Or(a, b) == Or(b, a)
  {
    hide Or; hide Bit;
    forall i: nat ensures Bit(Or(a, b), i) == Bit(Or(b, a), i) {
      BitwiseMeaning(a, b, i);
      BitwiseMeaning(b, a, i);
    }
    SameBits(Or(a, b), Or(b, a));
  }

  lemma RolTurns(n: nat, src: u32, k: nat)
    requires Width(n) && k <= n && src < Pow2(n)
    ensures Rol(n, src, k) == Lefts(n, k, src)
  {
    hide Pow2; hide Join; hide Shl; hide Shr; hide Lefts; hide Or; hide Operand; hide Wrap; hide LowPart;
    var h, l := Shr(src, n - k), LowPart(src, n - k);
    ShrSmall(src, n - k, k);
    ShlJoin(src, k);
    OrLow(LowPart(src, 32 - k), k, h);
    LeftsJoin(n, k, h, l);
    RolSum(n, src, k, h, l);
  }

  /** The sum of the two shifted words, as a number of n bits. */
  lemma RolSum(n: nat, src: u32, k: nat, h: nat, l: nat)
    requires k <= n <= 32 && src == Join(h, n - k, l) && h < Pow2(k) && l < Pow2(n - k)
    ensures Operand(n, Wrap(Join(LowPart(src, 32 - k), k, h))) == Join(l, k, h)
  {
    hide Pow2; hide Wrap; hide LowPart; hide Shl;
    ShlJoin(src, k);
    var sum, m := Join(LowPart(src, 32 - k), k, h), src * Pow2(k) / TWO32;
    Pow2Values();
    Pow2Sum(32 - n, n);
    JoinBound(l, n - k, k, h);
    JoinTimes(h, n - k, l, k);
    Distribute(m, Pow2(32 - n), 0, Pow2(n));
    Subtract(h, m * Pow2(32 - n), Pow2(n));
    DivUnique(sum, Pow2(n), h - m * Pow2(32 - n), Join(l, k, h));
    WrapMod(sum, n);
  }

  lemma Subtract(a: int, b: int, p: int)
    ensures (a - b) * p == a * p - b * p
  {
  }

  lemma RorTurns(n: nat, src: u32, k: nat)
    requires Width(n) && k <= n && src < Pow2(n)
    ensures Ror(n, src, k) == Rights(n, k, src)
  {
    hide Pow2; hide Shl; hide Shr; hide Lefts; hide Rights; hide Or; hide Operand; hide Wrap;
    OrCommutes(Shr(src, k), Shl(src, n - k));
    RolTurns(n, src, n - k);
    RightsAreLefts(n, k, src);
  }

  // ------------------------------------------------------------------ C of the rotates

  /** The bit that goes round last is bit 0 of the result of a rotate to the left. */
  lemma RolCarry(n: nat, src: u32, k: nat)
    requires Width(n) && 0 < k <= n && src < Pow2(n)
    ensures LeftCarryFlag(n, src, k) / 0x100 % 2 == Lefts(n, k, src) % 2
  {
    hide Pow2; hide Join; hide Shl; hide Shr; hide Lefts; hide LowPart;
    var h, l := Shr(src, n - k), LowPart(src, n - k);
    ShrSmall(src, n - k, k);
    LeftsJoin(n, k, h, l);
    CarryLeft(n, k, src);
    ShiftBack(src, k, n);
    ShrIs(src, n - k);
    JoinOne(l, k, h);
  }

  /** It is the top bit of the result of a rotate to the right. */
  lemma RorCarry(n: nat, src: u32, k: nat)
    requires Width(n) && 0 < k <= n && src < Pow2(n)
    ensures RightCarryFlag(n, src, k) / 0x100 % 2 == B2N(Rights(n, k, src) >= Pow2(n - 1))
  {
    hide Pow2; hide Shl; hide Shr; hide Rights; hide Lefts; hide LowPart;
    RightsFirst(n, k, src);
    CarryRight(n, k, src);
    RightsAreLefts(n, k, src);
    ShrSmall(src, k, n - k);
    LeftsJoin(n, n - k, Shr(src, k), LowPart(src, k));
    TopOfLow(n, k, src);
  }

  /** The lower k bits end up on top. */
  lemma TopOfLow(n: nat, k: nat, src: u32)
    requires 0 < k <= n && src < Pow2(n)
    ensures Join(LowPart(src, k), n - k, Shr(src, k)) >= Pow2(n - 1) <==> Shr(src, k - 1) % 2 == 1
  {
    hide Pow2; hide Shr;
    ShrIs(src, k - 1);
    ModDiv(src, 2, Pow2(k - 1));
    NextPower(k);
    ShrSmall(src, k, n - k);
    TopDigit(k, LowPart(src, k));
    LowIs(src, k);
    JoinAtLeast(LowPart(src, k), n - k, Shr(src, k), k - 1);
  }

  lemma LowIs(src: nat, k: nat)
    ensures LowPart(src, k) == src % Pow2(k)
  {
  }

  lemma JoinAtLeast(x: nat, n: nat, y: nat, m: nat)
    requires y < Pow2(n)
    ensures Join(x, n, y) >= Pow2(m + n) <==> x >= Pow2(m)
  {
    hide Pow2;
    Pow2Sum(m, n);
    if x >= Pow2(m) {
      MulMonotonic(Pow2(m), x, Pow2(n));
    } else {
      JoinBound(x, m, n, y);
    }
  }

  // ------------------------------------------------------------------ ROL and ROR

  /** The handler has turned DY by DX one-bit turns.  C is the bit that went round last; for ROL.L by a
      multiple of 32 other than 0, C is undefined in C.  X is untouched. */
  predicate Turned(left: bool, n: nat, ir: u16, dar: Regs, dar': Regs, nFlag: u32, notZ: u32, v: u32, c: u32)
    requires Width(n)
  {
    var y, k := ir % 8, dar[ir / 0x200 % 8] % 64;
    OperandBelow(n, dar[y]);
    var r := if left then Lefts(n, k, Operand(n, dar[y])) else Rights(n, k, Operand(n, dar[y]));
    && dar' == dar[y := dar'[y]] && dar'[y] as int == Above(n, dar[y]) + r
    && nFlag / 0x80 % 2 == B2N(r >= Pow2(n - 1)) && (notZ == 0 <==> r == 0) && v == 0
    && (k == 0 ==> c == 0)
    && (k != 0 && left && !(n == 32 && k == 32) ==> c / 0x100 % 2 == r % 2)
    && (k != 0 && !left ==> c / 0x100 % 2 == B2N(r >= Pow2(n - 1)))
  }

  /** A word of n bits turned by k to the left, in closed form. */
  function TurnedValue(left: bool, n: nat, k: nat, v: nat): nat
    requires n > 0
  {
    var j := if left then k % n else n - k % n;
    LowPart(v, n - j) * Pow2(j) + Shr(v, n - j)
  }

  lemma TurnsMeaning(left: bool, n: nat, k: nat, v: nat)
    requires n > 0 && v < Pow2(n)
    ensures (if left then Lefts(n, k, v) else Rights(n, k, v)) == TurnedValue(left, n, k, v)
  {
    hide Pow2; hide Lefts; hide Rights; hide LowPart; hide Shr;
    ModBelow(k, n);
    FullTurns(n, k, v);
    FullRights(n, k, v);
    RightsAreLefts(n, k % n, v);
    var j := if left then k % n else n - k % n;
    ShrSmall(v, n - j, j);
    LeftsJoin(n, j, Shr(v, n - j), LowPart(v, n - j));
  }

  /** The handlers on the fields of the instruction word: DY is turned by DX modulo 64, and nothing else
      changes. */
  lemma TurnedMeaning(left: bool, n: nat, line: nat, xr: nat, mid: nat, yr: nat, dar: Regs, dar': Regs,
                      nFlag: u32, notZ: u32, v: u32, c: u32)
    requires Width(n) && line < 16 && xr < 8 && mid < 64 && yr < 8
    requires var ir := line * 0x1000 + xr * 0x200 + mid * 8 + yr;
      ir < TWO16 && Turned(left, n, ir, dar, dar', nFlag, notZ, v, c)
    ensures (forall i | 0 <= i < 16 && i != yr :: dar'[i] == dar[i]) && dar'[yr] / Pow2(n) == dar[yr] / Pow2(n)
    ensures dar'[yr] % Pow2(n) == TurnedValue(left, n, dar[xr] % 64, dar[yr] % Pow2(n))
  {
    hide Pow2; hide Lefts; hide Rights; hide TurnedValue;
    InstructionWord(line, xr, mid, yr);
    var k := dar[xr] % 64;
    DivMod(dar[yr], Pow2(n));
    var src := dar[yr] % Pow2(n);
    TurnsMeaning(left, n, k, src);
    DivUnique(dar'[yr], Pow2(n), dar[yr] / Pow2(n), if left then Lefts(n, k, src) else Rights(n, k, src));
  }

  /** What the count modulo the width says about all the turns. */
  lemma RolAll(n: nat, src: u32, k: nat)
    requires Width(n) && src < Pow2(n)
    ensures Lefts(n, k, src) == Rol(n, src, k % n) && Lefts(n, k, src) < Pow2(n) <= TWO32
    ensures k % n != 0 ==> LeftCarryFlag(n, src, k % n) / 0x100 % 2 == Lefts(n, k, src) % 2
    ensures k % n == 0 ==> Lefts(n, k, src) == src
  {
    hide Pow2; hide Lefts; hide LeftCarryFlag; hide Rol;
    Pow2Values();
    ModBelow(k, n);
    FullTurns(n, k, src);
    RolTurns(n, src, k % n);
    if k % n != 0 { RolCarry(n, src, k % n); } else { NoTurn(n, src); }
  }

  lemma ModBelow(k: nat, n: nat)
    requires n > 0
    ensures 0 <= k % n < n
  {
  }

  lemma NoTurn(n: nat, src: nat)
    requires n > 0 && src < Pow2(n)
    ensures Lefts(n, 0, src) == Rights(n, 0, src) == src
  {
  }

  lemma RorAll(n: nat, src: u32, k: nat)
    requires Width(n) && src < Pow2(n)
    ensures Rights(n, k, src) == Ror(n, src, k % n) && Rights(n, k, src) < Pow2(n) <= TWO32
    ensures var j := (k % n + n - 1) % n;
      0 <= j < n && RightCarryFlag(n, src, j + 1) / 0x100 % 2 == B2N(Rights(n, k, src) >= Pow2(n - 1))
  {
    hide Pow2; hide Lefts; hide Rights; hide RightCarryFlag; hide Ror;
    Pow2Values();
    ModBelow(k, n);
    FullRights(n, k, src);
    RorTurns(n, src, k % n);
    if k % n == 0 {
      DivUnique(n - 1, n, 0, n - 1);
      RightsAreLefts(n, n, src);
      NoTurn(n, src);
      RorCarry(n, src, n);
    } else {
      DivUnique(k % n + n - 1, n, 1, k % n - 1);
      RorCarry(n, src, k % n);
    }
  }

  lemma TurnedBy(left: bool, n: nat, ir: u16, dar: Regs, dar': Regs, nFlag: u32, notZ: u32, v: u32, c: u32, res: u32)
    requires Width(n) && dar' == dar[ir % 8 := dar'[ir % 8]] && dar'[ir % 8] as int == Above(n, dar[ir % 8]) + res
    requires nFlag == NFlag(n, res) && notZ == res && v == 0
    requires var k, src := dar[ir / 0x200 % 8] % 64, Operand(n, dar[ir % 8]);
      && src < Pow2(n) && res == (if left then Lefts(n, k, src) else Rights(n, k, src))
      && (k == 0 ==> c == 0)
      && (k != 0 && left && !(n == 32 && k == 32) ==> c / 0x100 % 2 == res % 2)
      && (k != 0 && !left ==> c / 0x100 % 2 == B2N(res >= Pow2(n - 1)))
    ensures Turned(left, n, ir, dar, dar', nFlag, notZ, v, c)
  {
    hide Pow2; hide Lefts; hide Rights; hide Operand; hide Above; hide NFlag;
    NFlagIsTop(n, res);
  }

  method Rol8(cpu: Cpu)
    modifies cpu`dar, cpu`n, cpu`notZ, cpu`v, cpu`c
    ensures Turned(true, 8, cpu.ir, old(cpu.dar), cpu.dar, cpu.n, cpu.notZ, cpu.v, cpu.c)
  {
    hide Pow2; hide Lefts; hide Rights; hide Operand; hide Above; hide Or; hide OrWord; hide Shl; hide Shr;
    hide Turned;
    Pow2Values();
    var y, origShift := cpu.ir % 8, cpu.dar[cpu.ir / 0x200 % 8] % 64;
    ghost var d := cpu.dar;
    var shift := origShift % 8;
    Parts8(cpu.dar[y]);
    var src: u32 := cpu.dar[y] % 0x100;
    RolAll(8, src, origShift);
    Parts8(OrWord(Shl(src, shift), Shr(src, 8 - shift)));
    var res: u32 := OrWord(Shl(src, shift), Shr(src, 8 - shift)) % 0x100;
    if origShift != 0 {
      if shift != 0 {
        cpu.dar := cpu.dar[y := WithLow(8, cpu.dar[y], res)];
        cpu.c, cpu.n, cpu.notZ, cpu.v := Shl(src, shift), res, res, 0;
        TurnedBy(true, 8, cpu.ir, d, cpu.dar, cpu.n, cpu.notZ, cpu.v, cpu.c, res);
        return;
      }
      cpu.c, cpu.n, cpu.notZ, cpu.v := src % 2 * 0x100, src, src, 0;
      TurnedBy(true, 8, cpu.ir, d, cpu.dar, cpu.n, cpu.notZ, cpu.v, cpu.c, src);
      return;
    }
    NoTurn(8, src);
    cpu.c, cpu.n, cpu.notZ, cpu.v := 0, src, src, 0;
    TurnedBy(true, 8, cpu.ir, d, cpu.dar, cpu.n, cpu.notZ, cpu.v, cpu.c, src);
  }

  method Rol16(cpu: Cpu)
    modifies cpu`dar, cpu`n, cpu`notZ, cpu`v, cpu`c
    ensures Turned(true, 16, cpu.ir, old(cpu.dar), cpu.dar, cpu.n, cpu.notZ, cpu.v, cpu.c)
  {
    hide Pow2; hide Lefts; hide Rights; hide Operand; hide Above; hide Or; hide OrWord; hide Shl; hide Shr;
    hide Turned;
    Pow2Values();
    var y, origShift := cpu.ir % 8, cpu.dar[cpu.ir / 0x200 % 8] % 64;
    ghost var d := cpu.dar;
    var shift := origShift % 16;
    Parts16(cpu.dar[y]);
    var src: u32 := cpu.dar[y] % 0x1_0000;
    RolAll(16, src, origShift);
    Parts16(OrWord(Shl(src, shift), Shr(src, 16 - shift)));
    var res: u32 := OrWord(Shl(src, shift), Shr(src, 16 - shift)) % 0x1_0000;
    if origShift != 0 {
      if shift != 0 {
        cpu.dar := cpu.dar[y := WithLow(16, cpu.dar[y], res)];
        DownFits(Shl(src, shift));
        cpu.c, cpu.n, cpu.notZ, cpu.v := Shr(Shl(src, shift), 8), res / 0x100, res, 0;
        TurnedBy(true, 16, cpu.ir, d, cpu.dar, cpu.n, cpu.notZ, cpu.v, cpu.c, res);
        return;
      }
      cpu.c, cpu.n, cpu.notZ, cpu.v := src % 2 * 0x100, src / 0x100, src, 0;
      TurnedBy(true, 16, cpu.ir, d, cpu.dar, cpu.n, cpu.notZ, cpu.v, cpu.c, src);
      return;
    }
    NoTurn(16, src);
    cpu.c, cpu.n, cpu.notZ, cpu.v := 0, src / 0x100, src, 0;
    TurnedBy(true, 16, cpu.ir, d, cpu.dar, cpu.n, cpu.notZ, cpu.v, cpu.c, src);
  }

  method Rol32(cpu: Cpu)
    modifies cpu`dar, cpu`n, cpu`notZ, cpu`v, cpu`c
    ensures Turned(true, 32, cpu.ir, old(cpu.dar), cpu.dar, cpu.n, cpu.notZ, cpu.v, cpu.c)
  {
    hide Pow2; hide Lefts; hide Rights; hide Operand; hide Above; hide Or; hide OrWord; hide Shl; hide Shr;
    hide Turned;
    Pow2Values();
    var y, origShift := cpu.ir % 8, cpu.dar[cpu.ir / 0x200 % 8] % 64;
    ghost var d := cpu.dar;
    var shift := origShift % 32;
    Parts32(cpu.dar[y]);
    var src: u32 := cpu.dar[y];
    RolAll(32, src, origShift);
    Parts32(OrWord(Shl(src, shift), Shr(src, 32 - shift)));
    var res: u32 := OrWord(Shl(src, shift), Shr(src, 32 - shift));
    if origShift != 0 {
      cpu.dar := cpu.dar[y := res];
      cpu.c, cpu.n, cpu.notZ, cpu.v := Shl(Shr(src, 32 - shift), 8), res / 0x100_0000, res, 0;
      TurnedBy(true, 32, cpu.ir, d, cpu.dar, cpu.n, cpu.notZ, cpu.v, cpu.c, res);
      return;
    }
    NoTurn(32, src);
    cpu.c, cpu.n, cpu.notZ, cpu.v := 0, src / 0x100_0000, src, 0;
    TurnedBy(true, 32, cpu.ir, d, cpu.dar, cpu.n, cpu.notZ, cpu.v, cpu.c, src);
  }

  method Ror8(cpu: Cpu)
    modifies cpu`dar, cpu`n, cpu`notZ, cpu`v, cpu`c
    ensures Turned(false, 8, cpu.ir, old(cpu.dar), cpu.dar, cpu.n, cpu.notZ, cpu.v, cpu.c)
  {
    hide Pow2; hide Lefts; hide Rights; hide Operand; hide Above; hide Or; hide OrWord; hide Shl; hide Shr;
    hide Turned;
    Pow2Values();
    var y, origShift := cpu.ir % 8, cpu.dar[cpu.ir / 0x200 % 8] % 64;
    ghost var d := cpu.dar;
    var shift := origShift % 8;
    Parts8(cpu.dar[y]);
    var src: u32 := cpu.dar[y] % 0x100;
    RorAll(8, src, origShift);
    Parts8(OrWord(Shr(src, shift), Shl(src, 8 - shift)));
    var res: u32 := OrWord(Shr(src, shift), Shl(src, 8 - shift)) % 0x100;
    if origShift != 0 {
      cpu.dar := cpu.dar[y := WithLow(8, cpu.dar[y], res)];
      cpu.c, cpu.n, cpu.notZ, cpu.v := Shl(src, 8 - (shift + 7) % 8), res, res, 0;
      TurnedBy(false, 8, cpu.ir, d, cpu.dar, cpu.n, cpu.notZ, cpu.v, cpu.c, res);
      return;
    }
    NoTurn(8, src);
    cpu.c, cpu.n, cpu.notZ, cpu.v := 0, src, src, 0;
    TurnedBy(false, 8, cpu.ir, d, cpu.dar, cpu.n, cpu.notZ, cpu.v, cpu.c, src);
  }

  method Ror16(cpu: Cpu)
    modifies cpu`dar, cpu`n, cpu`notZ, cpu`v, cpu`c
    ensures Turned(false, 16, cpu.ir, old(cpu.dar), cpu.dar, cpu.n, cpu.notZ, cpu.v, cpu.c)
  {
    hide Pow2; hide Lefts; hide Rights; hide Operand; hide Above; hide Or; hide OrWord; hide Shl; hide Shr;
    hide Turned;
    Pow2Values();
    var y, origShift := cpu.ir % 8, cpu.dar[cpu.ir / 0x200 % 8] % 64;
    ghost var d := cpu.dar;
    var shift := origShift % 16;
    Parts16(cpu.dar[y]);
    var src: u32 := cpu.dar[y] % 0x1_0000;
    RorAll(16, src, origShift);
    Parts16(OrWord(Shr(src, shift), Shl(src, 16 - shift)));
    var res: u32 := OrWord(Shr(src, shift), Shl(src, 16 - shift)) % 0x1_0000;
    if origShift != 0 {
      cpu.dar := cpu.dar[y := WithLow(16, cpu.dar[y], res)];
      cpu.c, cpu.n, cpu.notZ, cpu.v := Shl(Shr(src, (shift + 15) % 16), 8), res / 0x100, res, 0;
      TurnedBy(false, 16, cpu.ir, d, cpu.dar, cpu.n, cpu.notZ, cpu.v, cpu.c, res);
      return;
    }
    NoTurn(16, src);
    cpu.c, cpu.n, cpu.notZ, cpu.v := 0, src / 0x100, src, 0;
    TurnedBy(false, 16, cpu.ir, d, cpu.dar, cpu.n, cpu.notZ, cpu.v, cpu.c, src);
  }

  method Ror32(cpu: Cpu)
    modifies cpu`dar, cpu`n, cpu`notZ, cpu`v, cpu`c
    ensures Turned(false, 32, cpu.ir, old(cpu.dar), cpu.dar, cpu.n, cpu.notZ, cpu.v, cpu.c)
  {
    hide Pow2; hide Lefts; hide Rights; hide Operand; hide Above; hide Or; hide OrWord; hide Shl; hide Shr;
    hide Turned;
    Pow2Values();
    var y, origShift := cpu.ir % 8, cpu.dar[cpu.ir / 0x200 % 8] % 64;
    ghost var d := cpu.dar;
    var shift := origShift % 32;
    Parts32(cpu.dar[y]);
    var src: u32 := cpu.dar[y];
    RorAll(32, src, origShift);
    Parts32(OrWord(Shr(src, shift), Shl(src, 32 - shift)));
    var res: u32 := OrWord(Shr(src, shift), Shl(src, 32 - shift));
    if origShift != 0 {
      cpu.dar := cpu.dar[y := res];
      cpu.c, cpu.n, cpu.notZ, cpu.v := Shl(Shr(src, (shift + 31) % 32), 8), res / 0x100_0000, res, 0;
      TurnedBy(false, 32, cpu.ir, d, cpu.dar, cpu.n, cpu.notZ, cpu.v, cpu.c, res);
      return;
    }
    NoTurn(32, src);
    cpu.c, cpu.n, cpu.notZ, cpu.v := 0, src / 0x100_0000, src, 0;
    TurnedBy(false, 32, cpu.ir, d, cpu.dar, cpu.n, cpu.notZ, cpu.v, cpu.c, src);
  }

  lemma {:induction false} LeftsFirst(w: nat, k: nat, v: nat)
    requires w > 0 && v < Pow2(w) && k > 0
    ensures Left1(w, v) < Pow2(w) && Lefts(w, k, v) == Lefts(w, k - 1, Left1(w, v))
    decreases k
  {
    hide Pow2; hide Left1;
    TurnBack(w, v);
    if k > 1 { LeftsFirst(w, k - 1, v); }
  }

  lemma {:induction false} LeftsUndoRights(w: nat, k: nat, v: nat)
    requires w > 0 && v < Pow2(w)
    ensures Lefts(w, k, Rights(w, k, v)) == v
    decreases k
  {
    hide Pow2; hide Right1; hide Left1;
    if k > 0 {
      TurnBack(w, Rights(w, k - 1, v));
      LeftsFirst(w, k, Rights(w, k, v));
      LeftsUndoRights(w, k - 1, v);
    }
  }

  lemma OperandOfSum(n: nat, dy: u32, dy': u32, r: nat)
    requires Width(n) && dy' as int == Above(n, dy) + r && r < Pow2(n)
    ensures Operand(n, dy') == r && Above(n, dy') == Above(n, dy)
  {
    hide Pow2;
    DivMod(dy, Pow2(n));
    DivUnique(dy', Pow2(n), dy / Pow2(n), r);
  }

  lemma OperandSplits(n: nat, dy: u32)
    ensures dy == Above(n, dy) + Operand(n, dy)
  {
    hide Pow2;
    DivMod(dy, Pow2(n));
  }

  /** Rotating by the same count in the opposite direction restores the registers, unless DY is its own count. */
  lemma RotateBack(left: bool, n: nat, ir: u16, dar: Regs,
                   dar1: Regs, n1: u32, z1: u32, v1: u32, c1: u32, dar2: Regs, n2: u32, z2: u32, v2: u32, c2: u32)
    requires Width(n) && ir % 8 != ir / 0x200 % 8
    requires Turned(left, n, ir, dar, dar1, n1, z1, v1, c1) && Turned(!left, n, ir, dar1, dar2, n2, z2, v2, c2)
    ensures dar2 == dar
  {
    hide Pow2; hide Lefts; hide Rights; hide Operand; hide Above;
    var y, k := ir % 8, dar[ir / 0x200 % 8] % 64;
    OperandBelow(n, dar[y]);
    var r := if left then Lefts(n, k, Operand(n, dar[y])) else Rights(n, k, Operand(n, dar[y]));
    OperandOfSum(n, dar[y], dar1[y], r);
    RightsUndoLefts(n, k, Operand(n, dar[y]));
    LeftsUndoRights(n, k, Operand(n, dar[y]));
    OperandSplits(n, dar[y]);
    assert dar2[y] == dar[y];
  }

  // ------------------------------------------------------------------ ROXL.L and ROXR.L

  /** The 33 bits of X and DY. */
  function Extended(x: bool, dy: u32): (v: nat)
    ensures v < Pow2(33)
  {
    Pow2Values();
    NextPower(33);
    B2N(x) * TWO32 + dy
  }

  /** X and DY have been turned as one word of 33 bits; C gets the new X. */
  predicate TurnedThrough(left: bool, ir: u16, dar: Regs, x: u32,
                          dar': Regs, x': u32, nFlag: u32, notZ: u32, v: u32, c: u32) {
    var y, k := ir % 8, dar[ir / 0x200 % 8] % 64;
    var word := Extended(x / 0x100 % 2 == 1, dar[y]);
    && dar' == dar[y := dar'[y]]
    && Extended(x' / 0x100 % 2 == 1, dar'[y]) == (if left then Lefts(33, k, word) else Rights(33, k, word))
    && c == x' && nFlag / 0x80 % 2 == B2N(Msb32(dar'[y])) && notZ == dar'[y] && v == 0
  }

  /** The same for ROXL.L and ROXR.L: X and DY turned as 33 bits. */
  lemma TurnedThroughMeaning(left: bool, line: nat, xr: nat, mid: nat, yr: nat, dar: Regs, x: u32,
                             dar': Regs, x': u32, nFlag: u32, notZ: u32, v: u32, c: u32)
    requires line < 16 && xr < 8 && mid < 64 && yr < 8
    requires var ir := line * 0x1000 + xr * 0x200 + mid * 8 + yr;
      ir < TWO16 && TurnedThrough(left, ir, dar, x, dar', x', nFlag, notZ, v, c)
    ensures forall i | 0 <= i < 16 && i != yr :: dar'[i] == dar[i]
    ensures x' / 0x100 % 2 * TWO32 + dar'[yr] == TurnedValue(left, 33, dar[xr] % 64, x / 0x100 % 2 * TWO32 + dar[yr])
  {
    hide Pow2; hide Lefts; hide Rights; hide TurnedValue;
    InstructionWord(line, xr, mid, yr);
    TurnsMeaning(left, 33, dar[xr] % 64, Extended(x / 0x100 % 2 == 1, dar[yr]));
  }

  /** ROL_33, with the bit where X goes cleared and X put there. */
  function RolThrough(src: u32, x: bool, k: nat): u32
    requires 1 <= k <= 32
  {
    OrWord(AndWord(OrWord(Shl(src, k), Shr(src, 33 - k)), Not(Shl(1, k - 1))), Shl(B2N(x), k - 1))
  }

  function RorThrough(src: u32, x: bool, k: nat): u32
    requires 1 <= k <= 32
  {
    OrWord(AndWord(OrWord(Shr(src, k), Shl(src, 33 - k)), Not(Shl(1, 32 - k))), Shl(B2N(x), 32 - k))
  }

  function AndWord(a: u32, b: u32): u32 {
    Wrap(And(a, b))
  }

  /** The bit that src & (1 << j) isolates. */
  lemma BitTest(src: u32, j: nat)
    requires j < 32
    ensures AndWord(src, Shl(1, j)) != 0 <==> Shr(src, j) % 2 == 1
  {
    hide And; hide Pow2; hide Shr; hide LowPart; hide Join;
    OneBit(j);
    AndJoin(Shr(src, j), LowPart(src, j), 1, 0, j);
    AndZero(LowPart(src, j));
    LowestBit(Shr(src, j));
    JoinBit(Shr(src, j) % 2, j);
  }

  lemma OneBit(j: nat)
    requires j < 32
    ensures Shl(1, j) == Pow2(j) == Join(1, j, 0) < TWO32
  {
    hide Pow2;
    Pow2Values();
    PowGrows(j, 31);
  }

  lemma LowestBit(q: nat)
    ensures And(q, 1) == q % 2
  {
    hide And;
    NextPower(1);
    NextPower(0);
    AndOnes(q, 1);
  }

  lemma JoinBit(b: nat, j: nat)
    requires b <= 1 && j < 32
    ensures 0 <= Join(b, j, 0) < TWO32 && Wrap(Join(b, j, 0)) == Join(b, j, 0) && (Join(b, j, 0) != 0 <==> b == 1)
  {
    hide Pow2;
    Pow2Values();
    PowGrows(j, 31);
    PowPositive(j);
    BitTimes(b, Pow2(j));
  }

  /** Everything of a word but bit j. */
  lemma ClearBit(a: nat, j: nat, b: nat)
    requires j < 32 && a < Pow2(31 - j) && b < Pow2(j)
    ensures Join(a, j + 1, b) < TWO32 && AndWord(Join(a, j + 1, b), Not(Shl(1, j))) == Join(a, j + 1, b)
  {
    hide And; hide Pow2; hide Join; hide Not; hide Shl;
    Pow2Values();
    NextPower(j + 1);
    JoinBound(a, 31 - j, j + 1, b);
    NotBit(j);
    AndJoin(a, b, Pow2(31 - j) - 1, Pow2(j) - 1, j + 1);
    AndOnes(a, 31 - j);
    AndOnes(b, j);
    SmallMod(a, Pow2(31 - j));
    SmallMod(b, Pow2(j));
  }

  lemma NotBit(j: nat)
    requires j < 32
    ensures Not(Shl(1, j)) == Join(Pow2(31 - j) - 1, j + 1, Pow2(j) - 1)
  {
    hide Pow2; hide Join; hide Shl;
    Pow2Values();
    NextPower(j + 1);
    OneBit(j);
    JoinOnes(31 - j, j + 1);
    JoinSum0(Pow2(31 - j) - 1, j + 1, Pow2(j) - 1);
  }

  /** Putting X into the free bit k - 1, above b. */
  lemma PutBit(a: nat, k: nat, b: nat, x: nat)
    requires 1 <= k <= 32 && x <= 1 && b < Pow2(k - 1) && a < Pow2(32 - k)
    ensures Shl(x, k - 1) == Join(x, k - 1, 0) && Join(x, k - 1, b) < Pow2(k) && Join(a, k, Join(x, k - 1, b)) < TWO32
    ensures OrWord(Join(a, k, b), Shl(x, k - 1)) == Join(a, k, Join(x, k - 1, b))
  {
    hide Or; hide Pow2; hide Join;
    Pow2Values();
    NextPower(1);
    NextPower(0);
    NextPower(k);
    JoinBit(x, k - 1);
    ShlBit(x, k - 1);
    JoinBound(x, 1, k - 1, b);
    JoinBound(x, 1, k - 1, 0);
    JoinBound(a, 32 - k, k, Join(x, k - 1, b));
    JoinZeroTop(Join(x, k - 1, 0), k);
    OrJoin(a, b, 0, Join(x, k - 1, 0), k);
    AndZero(a);
    OrTop(b, x, k - 1);
    JoinSum0(x, k - 1, b);
  }

  lemma ShlBit(x: nat, j: nat)
    ensures Shl(x, j) == Wrap(Join(x, j, 0))
  {
    hide Pow2;
  }

  lemma JoinZeroTop(y: nat, n: nat)
    ensures Join(0, n, y) == y
  {
  }

  lemma JoinSum0(x: nat, n: nat, y: nat)
    ensures y + Join(x, n, 0) == Join(x, n, y)
  {
    hide Pow2;
  }

  lemma JoinAssociates(a: nat, n: nat, b: nat, m: nat, c: nat)
    ensures Join(Join(a, n, b), m, c) == Join(a, n + m, Join(b, m, c))
  {
    hide Pow2;
    JoinTimes(a, n, b, m);
  }

  /** The lower n + 1 bits are bit n and the lower n bits. */
  lemma LowSplit(src: nat, n: nat)
    ensures LowPart(src, n + 1) == Join(Shr(src, n) % 2, n, LowPart(src, n))
  {
    hide Pow2;
    NextPower(n + 1);
    ModDiv(src, 2, Pow2(n));
    DivMod(src % Pow2(n + 1), Pow2(n));
  }

  /** The 32-bit formula computes the low 32 bits of k turns of the 33-bit word, and the tested bit is the
      new bit 32. */
  lemma RolThroughTurns(src: u32, x: bool, k: nat)
    requires 1 <= k <= 32
    ensures Lefts(33, k, Extended(x, src)) == Extended(Shr(src, 32 - k) % 2 == 1, RolThrough(src, x, k))
  {
    hide Pow2; hide Join; hide Shl; hide Shr; hide LowPart; hide Lefts; hide And; hide Or; hide OrWord;
    hide AndWord; hide Not;
    var q, l, t, a, bx := Shr(src, 33 - k), LowPart(src, 33 - k), Shr(src, 32 - k) % 2, LowPart(src, 32 - k), B2N(x);
    var h := Join(bx, k - 1, q);
    Pow2Values();
    ShrSmall(src, 33 - k, k - 1);
    PutBit(a, k, q, bx);
    JoinAssociates(bx, k - 1, q, 33 - k, l);
    LeftsJoin(33, k, h, l);
    LowSplit(src, 32 - k);
    JoinAssociates(t, 32 - k, a, k, h);
    JoinWord(bx, src);
    JoinWord(t, Join(a, k, h));
    ThroughWord(src, x, k);
  }

  lemma JoinWord(b: nat, low: u32)
    ensures Join(b, 32, low) == b * TWO32 + low
  {
    hide Pow2;
    Pow2Values();
  }

  lemma ThroughWord(src: u32, x: bool, k: nat)
    requires 1 <= k <= 32
    ensures RolThrough(src, x, k) == Join(LowPart(src, 32 - k), k, Join(B2N(x), k - 1, Shr(src, 33 - k)))
  {
    hide Pow2; hide Join; hide Shl; hide Shr; hide LowPart; hide And; hide Or; hide AndWord; hide Not;
    var q, a := Shr(src, 33 - k), LowPart(src, 32 - k);
    Pow2Values();
    ShrSmall(src, 33 - k, k - 1);
    NextPower(k);
    ShlJoin(src, k);
    OrLow(a, k, q);
    ClearBit(a, k - 1, q);
    SmallMod(Join(a, k, q), TWO32);
    PutBit(a, k, q, B2N(x));
  }

  /** Rotating right by k is the same formula for 33 - k to the left. */
  lemma RorThroughTurns(src: u32, x: bool, k: nat)
    requires 1 <= k <= 32
    ensures Rights(33, k, Extended(x, src)) == Extended(Shr(src, k - 1) % 2 == 1, RorThrough(src, x, k))
  {
    hide Pow2; hide Shl; hide Shr; hide Lefts; hide Rights; hide And; hide Or; hide Extended; hide Not;
    OrCommutes(Shr(src, k), Shl(src, 33 - k));
    RightsAreLefts(33, k, Extended(x, src));
    RolThroughTurns(src, x, 33 - k);
  }

  lemma ThroughAll(src: u32, x: bool, k: nat)
    ensures var word := Extended(x, src);
      && (k % 33 == 0 ==> Lefts(33, k, word) == word && Rights(33, k, word) == word)
      && (k % 33 != 0 ==>
            && 1 <= k % 33 <= 32
            && Lefts(33, k, word) == Extended(Shr(src, 32 - k % 33) % 2 == 1, RolThrough(src, x, k % 33))
            && Rights(33, k, word) == Extended(Shr(src, k % 33 - 1) % 2 == 1, RorThrough(src, x, k % 33)))
  {
    hide Pow2; hide Shr; hide Lefts; hide Rights; hide Extended; hide RolThrough; hide RorThrough;
    FullTurns(33, k, Extended(x, src));
    FullRights(33, k, Extended(x, src));
    if k % 33 == 0 {
      NoTurn(33, Extended(x, src));
    } else {
      RolThroughTurns(src, x, k % 33);
      RorThroughTurns(src, x, k % 33);
    }
  }

  /** The 64-bit variants shift the 33 bits both ways in a wide word, of which they keep the low 33 bits. */
  lemma WideRotates(word: nat, k: nat)
    requires word < Pow2(33) && k <= 33
    ensures LowPart(Or(Join(word, k, 0), Shr(word, 33 - k)), 33) == Lefts(33, k, word)
    ensures LowPart(Or(Shr(word, k), Join(word, 33 - k, 0)), 33) == Rights(33, k, word)
  {
    hide Pow2; hide Lefts; hide Rights; hide Or; hide Shr; hide LowPart;
    WideLeft(word, k);
    WideLeft(word, 33 - k);
    OrCommutes(Shr(word, k), Join(word, 33 - k, 0));
    RightsAreLefts(33, k, word);
  }

  lemma WideLeft(word: nat, k: nat)
    requires word < Pow2(33) && k <= 33
    ensures LowPart(Or(Join(word, k, 0), Shr(word, 33 - k)), 33) == Lefts(33, k, word)
  {
    hide Pow2; hide Lefts; hide Or; hide Shr;
    var h, l := Shr(word, 33 - k), LowPart(word, 33 - k);
    ShrSmall(word, 33 - k, k);
    LeftsJoin(33, k, h, l);
    OrLow(word, k, h);
    JoinAssociates(h, 33 - k, l, k, h);
    PartsOf(h, 33, Join(l, k, h));
    LowIs(Join(word, k, h), 33);
  }

  /** ROL_33_64 and ROR_33_64 on 64-bit words, of which shifts to the left lose what does not fit. */
  function Wide(left: bool, word: nat, k: nat): nat
    requires k <= 33
  {
    if left then Or(LowPart(Join(word, k, 0), 64), Shr(word, 33 - k))
    else Or(Shr(word, k), LowPart(Join(word, 33 - k, 0), 64))
  }

  /** The registers and flags that the 64-bit variants of ROXL.L and ROXR.L leave, and their word for X. */
  function Through64(left: bool, ir: u16, dar: Regs, x: u32): (Outcome, u32) {
    var y, k := ir % 8, dar[ir / 0x200 % 8] % 64;
    if k == 0 then (Outcome(dar, dar[y] / 0x100_0000, dar[y], 0, x), x)
    else
      var res := Wide(left, Extended(x / 0x100 % 2 == 1, dar[y]), k % 33);
      var low, newX := Wrap(res), Wrap(res / 0x100_0000);
      (Outcome(dar[y := low], low / 0x100_0000, low, 0, newX), newX)
  }

  lemma WideMeaning(left: bool, word: nat, k: nat)
    requires word < Pow2(33) && k <= 33
    ensures LowPart(Wide(left, word, k), 33) == if left then Lefts(33, k, word) else Rights(33, k, word)
  {
    hide Pow2; hide Lefts; hide Rights; hide Or; hide Shr; hide LowPart; hide Join;
    WideRotates(word, k);
    LowOr(LowPart(Join(word, k, 0), 64), Shr(word, 33 - k), 33);
    LowOr(Join(word, k, 0), Shr(word, 33 - k), 33);
    LowLow(Join(word, k, 0), 33, 64);
    LowOr(Shr(word, k), LowPart(Join(word, 33 - k, 0), 64), 33);
    LowOr(Shr(word, k), Join(word, 33 - k, 0), 33);
    LowLow(Join(word, 33 - k, 0), 33, 64);
  }

  /** Or works on low parts. */
  lemma LowOr(a: nat, b: nat, n: nat)
    ensures LowPart(Or(a, b), n) == Or(LowPart(a, n), LowPart(b, n))
  {
    hide Pow2; hide Or; hide Join; hide And;
    OrJoin(Shr(a, n), LowPart(a, n), Shr(b, n), LowPart(b, n), n);
    BitwiseBound(LowPart(a, n), LowPart(b, n), n);
    PartsOf(Or(Shr(a, n), Shr(b, n)), n, Or(LowPart(a, n), LowPart(b, n)));
  }

  lemma LowLow(a: nat, n: nat, m: nat)
    requires n <= m
    ensures LowPart(LowPart(a, m), n) == LowPart(a, n)
  {
    hide Pow2;
    Pow2Sum(m - n, n);
    ModDiv(a, Pow2(m - n), Pow2(n));
  }

  /** The low 33 bits of a word are its low long and the bit above it. */
  lemma LongAndBit(res: nat, x: bool, low: u32)
    requires LowPart(res, 33) == Extended(x, low)
    ensures Wrap(res) == low && Wrap(res / 0x100_0000) / 0x100 % 2 == B2N(x)
  {
    hide Pow2; hide Shr; hide LowPart; hide Wrap;
    Doubled(Shr(res, 33), B2N(x), low);
    LongOf(2 * Shr(res, 33) + B2N(x), low);
  }

  lemma Doubled(h: nat, b: nat, low: nat)
    ensures Join(h, 33, b * TWO32 + low) == (2 * h + b) * TWO32 + low
    ensures b <= 1 ==> (2 * h + b) % 2 == b
  {
    hide Pow2;
    assert Pow2(33) == 2 * TWO32 by { Pow2Values(); NextPower(33); }
  }

  lemma LongOf(h: nat, low: u32)
    ensures Wrap(h * TWO32 + low) == low && Wrap((h * TWO32 + low) / 0x100_0000) / 0x100 % 2 == h % 2
  {
    DivUnique(h * TWO32 + low, TWO32, h, low);
    DivUnique(h * TWO32 + low, 0x100_0000, h * 0x100 + low / 0x100_0000, low % 0x100_0000);
    BitEight(h, low / 0x100_0000);
  }

  lemma BitEight(h: nat, top: nat)
    requires top < 0x100
    ensures Wrap(h * 0x100 + top) / 0x100 % 2 == h % 2
  {
    ModDiv(h * 0x100 + top, 0x100_0000, 0x100);
    DivUnique(h * 0x100 + top, 0x100, h, top);
    ModDiv(h, 0x80_0000, 2);
  }

  /** Both variants leave the same registers and the same X, N, Z, V and C bits. */
  lemma ThroughVariantsAgree(left: bool, ir: u16, dar: Regs, x: u32,
                             dar': Regs, x': u32, n: u32, notZ: u32, v: u32, c: u32)
    requires TurnedThrough(left, ir, dar, x, dar', x', n, notZ, v, c)
    ensures var (r, newX) := Through64(left, ir, dar, x);
      SameOutcome(r, dar', n, notZ, v, c) && x' / 0x100 % 2 == newX / 0x100 % 2
  {
    hide Pow2; hide Lefts; hide Rights; hide Extended; hide Wide; hide Wrap; hide Msb32;
    var y, k := ir % 8, dar[ir / 0x200 % 8] % 64;
    var word := Extended(x / 0x100 % 2 == 1, dar[y]);
    TopShifted(dar'[y]);
    BitEightOf(x');
    if k == 0 {
      NoTurn(33, word);
      NoRight(33, word);
      ExtendedInjective(x / 0x100 % 2 == 1, dar[y], x' / 0x100 % 2 == 1, dar'[y]);
      BitEightOf(x);
    } else {
      WideTurns(left, word, k, x' / 0x100 % 2 == 1, dar'[y]);
    }
  }

  lemma NoRight(n: nat, src: nat)
    requires n > 0 && src < Pow2(n)
    ensures Rights(n, 0, src) == src
  {
    hide Pow2;
  }

  lemma BitEightOf(x: u32)
    ensures B2N(x / 0x100 % 2 == 1) == x / 0x100 % 2
  {
  }

  lemma WideTurns(left: bool, word: nat, k: nat, x: bool, low: u32)
    requires word < Pow2(33) && Extended(x, low) == if left then Lefts(33, k, word) else Rights(33, k, word)
    ensures Wrap(Wide(left, word, k % 33)) == low
    ensures Wrap(Wide(left, word, k % 33) / 0x100_0000) / 0x100 % 2 == B2N(x)
  {
    hide Pow2; hide Lefts; hide Rights; hide Extended; hide Wide; hide Wrap;
    FullTurns(33, k, word);
    FullRights(33, k, word);
    WideMeaning(left, word, k % 33);
    LongAndBit(Wide(left, word, k % 33), x, low);
  }

  method Roxl32(cpu: Cpu)
    modifies cpu`dar, cpu`x, cpu`n, cpu`notZ, cpu`v, cpu`c
    ensures TurnedThrough(true, cpu.ir, old(cpu.dar), old(cpu.x), cpu.dar, cpu.x, cpu.n, cpu.notZ, cpu.v, cpu.c)
  {
    hide Pow2; hide Shl; hide Shr; hide Lefts; hide Rights; hide Extended; hide AndWord; hide OrWord; hide Not;
    var y, origShift := cpu.ir % 8, cpu.dar[cpu.ir / 0x200 % 8] % 64;
    var shift := origShift % 33;
    var src := cpu.dar[y];
    var res := src;
    ThroughAll(src, cpu.XBit() == 1, origShift);
    if shift != 0 {
      BitTest(src, 32 - shift);
      res := RolThrough(src, cpu.XBit() == 1, shift);
      var newX := AndWord(src, Shl(1, 32 - shift));
      cpu.dar := cpu.dar[y := res];
      cpu.x := B2N(newX != 0) * 0x100;
    }
    cpu.c := cpu.x;
    cpu.n := res / 0x100_0000;
    cpu.notZ := res;
    cpu.v := 0;
  }

  method Roxr32(cpu: Cpu)
    modifies cpu`dar, cpu`x, cpu`n, cpu`notZ, cpu`v, cpu`c
    ensures TurnedThrough(false, cpu.ir, old(cpu.dar), old(cpu.x), cpu.dar, cpu.x, cpu.n, cpu.notZ, cpu.v, cpu.c)
  {
    hide Pow2; hide Shl; hide Shr; hide Lefts; hide Rights; hide Extended; hide AndWord; hide OrWord; hide Not;
    var y, origShift := cpu.ir % 8, cpu.dar[cpu.ir / 0x200 % 8] % 64;
    var shift := origShift % 33;
    var src := cpu.dar[y];
    var res := src;
    ThroughAll(src, cpu.XBit() == 1, origShift);
    if shift != 0 {
      BitTest(src, shift - 1);
      res := RorThrough(src, cpu.XBit() == 1, shift);
      var newX := AndWord(src, Shl(1, shift - 1));
      cpu.dar := cpu.dar[y := res];
      cpu.x := B2N(newX != 0) * 0x100;
    }
    cpu.c := cpu.x;
    cpu.n := res / 0x100_0000;
    cpu.notZ := res;
    cpu.v := 0;
  }

  lemma ExtendedInjective(x: bool, dy: u32, x': bool, dy': u32)
    requires Extended(x, dy) == Extended(x', dy')
    ensures x == x' && dy == dy'
  {
  }

  /** ROXL.L and ROXR.L by the same count undo each other, X included. */
  lemma RotateThroughBack(left: bool, ir: u16, dar: Regs, x: u32,
                          dar1: Regs, x1: u32, n1: u32, z1: u32, v1: u32, c1: u32,
                          dar2: Regs, x2: u32, n2: u32, z2: u32, v2: u32, c2: u32)
    requires ir % 8 != ir / 0x200 % 8
    requires TurnedThrough(left, ir, dar, x, dar1, x1, n1, z1, v1, c1)
    requires TurnedThrough(!left, ir, dar1, x1, dar2, x2, n2, z2, v2, c2)
    ensures dar2 == dar && x2 / 0x100 % 2 == x / 0x100 % 2
  {
    hide Pow2; hide Lefts; hide Rights; hide Extended;
    var y, k := ir % 8, dar[ir / 0x200 % 8] % 64;
    var word := Extended(x / 0x100 % 2 == 1, dar[y]);
    RightsUndoLefts(33, k, word);
    LeftsUndoRights(33, k, word);
    ExtendedInjective(x / 0x100 % 2 == 1, dar[y], x2 / 0x100 % 2 == 1, dar2[y]);
    assert dar2[y] == dar[y];
  }
}
