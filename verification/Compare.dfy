/** CMP and the branch conditions that test its flags (Musashi/m68k_in.c, Musashi/m68kcpu.h). */
module Compare {
  import opened Words
  import opened Bits
  import opened Flags
  import opened M68k
  import opened Shifts

  // ------------------------------------------------------------------ conditions

  predicate CondCs(c: u32) { BitAt(c, 0x100) != 0 }
  predicate CondEq(notZ: u32) { notZ == 0 }

  predicate CondLt(n: u32, v: u32) {
    XorWord(n, v);
    BitAt(Xor(n, v), 0x80) != 0
  }

  predicate CondHi(c: u32, notZ: u32) { !CondCs(c) && !CondEq(notZ) }
  predicate CondLs(c: u32, notZ: u32) { CondCs(c) || CondEq(notZ) }
  predicate CondGt(n: u32, v: u32, notZ: u32) { !CondLt(n, v) && !CondEq(notZ) }
  predicate CondLe(n: u32, v: u32, notZ: u32) { CondLt(n, v) || CondEq(notZ) }

  lemma XorWord(a: u32, b: u32)
    ensures Xor(a, b) < TWO32
  {
    hide Xor;
    BitwiseTop32(a, b);
  }

  /** Each condition tells how dst compares with src, unsigned or as two's complement numbers of n bits. */
  predicate Tells(n: nat, dst: nat, src: nat, nFlag: u32, notZ: u32, v: u32, c: u32)
    requires n > 0
  {
    && (CondHi(c, notZ) <==> dst > src) && (CondLs(c, notZ) <==> dst <= src)
    && (!CondCs(c) <==> dst >= src) && (CondCs(c) <==> dst < src)
    && (!CondEq(notZ) <==> dst != src) && (CondEq(notZ) <==> dst == src)
    && (!CondLt(nFlag, v) <==> SignedOf(n, dst) >= SignedOf(n, src))
    && (CondLt(nFlag, v) <==> SignedOf(n, dst) < SignedOf(n, src))
    && (CondGt(nFlag, v, notZ) <==> SignedOf(n, dst) > SignedOf(n, src))
    && (CondLe(nFlag, v, notZ) <==> SignedOf(n, dst) <= SignedOf(n, src))
  }

  // ------------------------------------------------------------------ single bits

  /** The V flag before it is shifted into place, at the sign bit. */
  lemma OverflowBit(s: nat, d: nat, r: nat, i: nat)
    ensures Bit(And(Xor(s, d), Xor(r, d)), i) <==> Bit(s, i) != Bit(d, i) && Bit(r, i) != Bit(d, i)
  {
    hide And; hide Xor; hide Bit;
    BitwiseMeaning(s, d, i);
    BitwiseMeaning(r, d, i);
    BitwiseMeaning(Xor(s, d), Xor(r, d), i);
  }

  /** LT compares two flag bits. */
  lemma LtIs(n: u32, v: u32)
    ensures CondLt(n, v) <==> n / 0x80 % 2 != v / 0x80 % 2
  {
    hide Xor; hide Bit; hide Pow2;
    Pow2Values();
    XorWord(n, v);
    BitwiseMeaning(n, v, 7);
    BitIs(n, 7);
    BitIs(v, 7);
    BitIs(Xor(n, v), 7);
  }

  // ------------------------------------------------------------------ the difference of two operands

  /** The bits of a wrapped difference: with p for 2^(n-1), bit n is the borrow, and the sign bit and the
      overflow between them tell the signed order. */
  lemma Difference(d: nat, s: nat, p: nat)
    requires p > 0 && d < 2 * p && s < 2 * p
    ensures var r := (d as int - s) % (2 * p);
      && 0 <= r < 2 * p && (r == 0 <==> d == s)
      && var n, v := r >= p, ((s >= p) != (d >= p) && (r >= p) != (d >= p));
         (n != v <==> (if d >= p then d as int - 2 * p else d) < (if s >= p then s as int - 2 * p else s))
  {
    var e := if d >= s then d as int - s else d as int - s + 2 * p;
    DivUnique(d as int - s, 2 * p, if d >= s then 0 else -1, e);
  }

  lemma WrapLow(x: int, n: nat)
    requires 0 < n <= 32 && x + Pow2(n) > 0 && x < Pow2(n)
    ensures Wrap(x) % Pow2(n) == x % Pow2(n)
    ensures n < 32 ==> Wrap(x) / Pow2(n) % 2 == B2N(x < 0)
  {
    hide Pow2; hide Wrap;
    Pow2Values();
    Pow2Sum(32 - n, n);
    if n < 32 { NextPower(32 - n); }
    WrapsTo(x, Pow2(32 - n), Pow2(n));
    OddBelow(Pow2(32 - n));
  }

  lemma OddBelow(k: int)
    ensures k % 2 == 0 ==> (k - 1) % 2 == 1
  {
  }

  lemma WrapsTo(x: int, k: nat, p: nat)
    requires p > 0 && k > 0 && k * p == TWO32 && x + p > 0 && x < p
    ensures Wrap(x) % p == x % p && Wrap(x) / p == if x < 0 then k - 1 else 0
  {
    if x < 0 {
      OneLess(k, p);
      MulMonotonic(1, k, p);
      DivUnique(x, TWO32, -1, x + TWO32);
      DivUnique(x, p, -1, x + p);
      DivUnique(x + TWO32, p, k - 1, x + p);
    } else {
      MulMonotonic(1, k, p);
      DivUnique(x, TWO32, 0, x);
      DivUnique(x, p, 0, x);
    }
  }

  /** The top bit of the low n bits. */
  lemma SignBit(a: nat, n: nat)
    requires n > 0
    ensures 0 <= a % Pow2(n) && (a / Pow2(n - 1) % 2 == 1 <==> a % Pow2(n) >= Pow2(n - 1))
  {
    hide Pow2;
    NextPower(n);
    ModDiv(a, 2, Pow2(n - 1));
    DivMod(a, Pow2(n));
    TopOfValue(a % Pow2(n), Pow2(n - 1));
    DivMod(a % Pow2(n) / Pow2(n - 1), 2);
  }

  // ------------------------------------------------------------------ CMP

  /** The word that the V macros shift into place. */
  function OverflowWord(src: u32, dst: u32, res: u32): u32 {
    OverflowFits(src, dst, res);
    And(Xor(src, dst), Xor(res, dst))
  }

  lemma OverflowFits(src: u32, dst: u32, res: u32)
    ensures And(Xor(src, dst), Xor(res, dst)) < TWO32
  {
    hide And; hide Xor;
    BitwiseTop32(src, dst);
    BitwiseTop32(res, dst);
    BitwiseTop32(Xor(src, dst), Xor(res, dst));
  }

  /** From the bits that CMP puts in the flags to the conditions. */
  lemma Verdict(n: nat, dst: u32, src: u32, nFlag: u32, notZ: u32, v: u32, c: u32)
    requires 0 < n <= 32 && dst < Pow2(n) && src < Pow2(n)
    requires var r := Wrap(dst as int - src);
      && nFlag / 0x80 % 2 == r / Pow2(n - 1) % 2 && notZ as int == r % Pow2(n)
      && (v / 0x80 % 2 == 1 <==> OverflowWord(src, dst, r) / Pow2(n - 1) % 2 == 1) && c / 0x100 % 2 == B2N(dst < src)
    ensures Tells(n, dst, src, nFlag, notZ, v, c)
  {
    hide Pow2; hide Wrap; hide And; hide Xor; hide Bit; hide CondLt;
    var r, p := Wrap(dst as int - src), Pow2(n - 1);
    NextPower(n);
    Difference(dst, src, p);
    WrapLow(dst as int - src, n);
    SignBit(r, n);
    BitIs(src, n - 1);
    BitIs(dst, n - 1);
    BitIs(r, n - 1);
    BitIs(OverflowWord(src, dst, r), n - 1);
    OverflowBit(src, dst, r, n - 1);
    TopOfValue(src, p);
    TopOfValue(dst, p);
    LtIs(nFlag, v);
    TwoValued(nFlag, v);
  }

  lemma TwoValued(n: u32, v: u32)
    ensures (n / 0x80 % 2 == 0 || n / 0x80 % 2 == 1) && (v / 0x80 % 2 == 0 || v / 0x80 % 2 == 1)
  {
  }

  method Cmp8(cpu: Cpu)
    modifies cpu`n, cpu`notZ, cpu`v, cpu`c
    ensures var src, dst := cpu.dar[cpu.ir % 8] % 0x100, cpu.dar[cpu.ir / 0x200 % 8] % 0x100;
      Tells(8, dst, src, cpu.n, cpu.notZ, cpu.v, cpu.c)
  {
    hide Pow2; hide Wrap; hide OverflowWord; hide Tells; hide And; hide Xor;
    Pow2Values();
    var src: u32, dst: u32 := cpu.dar[cpu.ir % 8] % 0x100, cpu.dar[cpu.ir / 0x200 % 8] % 0x100;
    var res := Wrap(dst as int - src);
    cpu.n := res;
    cpu.notZ := res % 0x100;
    cpu.v := OverflowWord(src, dst, res);
    cpu.c := res;
    WrapLow(dst as int - src, 8);
    Verdict(8, dst, src, cpu.n, cpu.notZ, cpu.v, cpu.c);
  }

  method Cmp16(cpu: Cpu)
    modifies cpu`n, cpu`notZ, cpu`v, cpu`c
    ensures var src, dst := cpu.dar[cpu.ir % 8] % 0x1_0000, cpu.dar[cpu.ir / 0x200 % 8] % 0x1_0000;
      Tells(16, dst, src, cpu.n, cpu.notZ, cpu.v, cpu.c)
  {
    hide Pow2; hide Wrap; hide OverflowWord; hide Tells; hide And; hide Xor;
    Pow2Values();
    var src: u32, dst: u32 := cpu.dar[cpu.ir % 8] % 0x1_0000, cpu.dar[cpu.ir / 0x200 % 8] % 0x1_0000;
    var res := Wrap(dst as int - src);
    cpu.n := res / 0x100;
    cpu.notZ := res % 0x1_0000;
    cpu.v := OverflowWord(src, dst, res) / 0x100;
    cpu.c := res / 0x100;
    WrapLow(dst as int - src, 16);
    Verdict(16, dst, src, cpu.n, cpu.notZ, cpu.v, cpu.c);
  }

  method Cmp32(cpu: Cpu)
    modifies cpu`n, cpu`notZ, cpu`v, cpu`c
    ensures Tells(32, cpu.dar[cpu.ir / 0x200 % 8], cpu.dar[cpu.ir % 8], cpu.n, cpu.notZ, cpu.v, cpu.c)
  {
    hide Pow2; hide Wrap; hide OverflowWord; hide Tells; hide And; hide Xor; hide Or; hide CflagSub32;
    Pow2Values();
    var src: u32, dst: u32 := cpu.dar[cpu.ir % 8], cpu.dar[cpu.ir / 0x200 % 8];
    var res := Wrap(dst as int - src);
    BorrowOfSub(src, dst, 0);
    cpu.n := res / 0x100_0000;
    cpu.notZ := res;
    cpu.v := OverflowWord(src, dst, res) / 0x100_0000;
    cpu.c := CflagSub32(src, dst, res);
    Verdict(32, dst, src, cpu.n, cpu.notZ, cpu.v, cpu.c);
  }
}
