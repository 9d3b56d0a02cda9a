/** The carry and overflow macros of Musashi/m68kcpu.h, which recover both flags from the operands and
the wrapped result. */
module Flags {
  import opened Words
  import opened M68k

  /** The registers and the flag words that a variant of a handler leaves. */
  datatype Outcome = Outcome(dar: Regs, n: u32, notZ: u32, v: u32, c: u32)

  /** Both variants leave the same registers and the same N, Z, V and C bits. */
  predicate SameOutcome(r: Outcome, dar: Regs, n: u32, notZ: u32, v: u32, c: u32) {
    && dar == r.dar && n / 0x80 % 2 == r.n / 0x80 % 2 && (notZ == 0 <==> r.notZ == 0)
    && v / 0x80 % 2 == r.v / 0x80 % 2 && c / 0x100 % 2 == r.c / 0x100 % 2
  }

  /** CFLAG_ADD_32: bit 8 is the carry. */
  function CflagAdd32(s: u32, d: u32, r: u32): nat {
    Or(And(s, d), And(Not(r), Or(s, d))) / 0x80_0000
  }

  /** CFLAG_SUB_32: bit 8 is the borrow. */
  function CflagSub32(s: u32, d: u32, r: u32): nat {
    Or(And(s, r), And(Not(d), Or(s, r))) / 0x80_0000
  }

  /** VFLAG_ADD_32 and VFLAG_SUB_32: bit 7 is the overflow. */
  function VflagAdd32(s: u32, d: u32, r: u32): nat {
    And(Xor(s, r), Xor(d, r)) / 0x100_0000
  }

  function VflagSub32(s: u32, d: u32, r: u32): nat {
    And(Xor(s, d), Xor(r, d)) / 0x100_0000
  }

  /** The flag bits that the shifts bring down from the top bit of a word. */
  lemma TopShifted(w: u32)
    ensures w / 0x80_0000 / 0x100 % 2 == B2N(Msb32(w)) && w / 0x100_0000 / 0x80 % 2 == B2N(Msb32(w))
  {
  }

  /** The majority of the top bits of the operands and the complement of the result's is the carry. */
  lemma CarryIsMajority(s: int, d: int, x: nat)
    requires 0 <= s < TWO32 && 0 <= d < TWO32 && x <= 1
    ensures var r := Wrap(s + d + x);
      B2N((Msb32(s) && Msb32(d)) || (!Msb32(r) && (Msb32(s) || Msb32(d)))) == (s + d + x) / TWO32
      && ((Msb32(s) != Msb32(r) && Msb32(d) != Msb32(r)) <==> !(-TWO31 <= Signed(s) + Signed(d) + x < TWO31))
  {
  }

  lemma BorrowIsMajority(s: int, d: int, x: nat)
    requires 0 <= s < TWO32 && 0 <= d < TWO32 && x <= 1
    ensures var r := Wrap(d - s - x);
      ((Msb32(s) && Msb32(r)) || (!Msb32(d) && (Msb32(s) || Msb32(r))) <==> d - s - x < 0)
      && ((Msb32(s) != Msb32(d) && Msb32(r) != Msb32(d)) <==> !(-TWO31 <= Signed(d) - Signed(s) - x < TWO31))
  {
  }

  lemma CflagTop(a: u32, b: u32, e: u32)
    ensures Or(And(a, b), And(Not(e), Or(a, b))) < TWO32
    ensures Msb32(Or(And(a, b), And(Not(e), Or(a, b)))) <==> (Msb32(a) && Msb32(b)) || (!Msb32(e) && (Msb32(a) || Msb32(b)))
  {
    hide And; hide Or;
    BitwiseTop32(a, b);
    BitwiseTop32(Not(e), Or(a, b));
    BitwiseTop32(And(a, b), And(Not(e), Or(a, b)));
  }

  lemma VflagTop(a: u32, b: u32, e: u32)
    ensures And(Xor(a, e), Xor(b, e)) < TWO32
    ensures Msb32(And(Xor(a, e), Xor(b, e))) <==> Msb32(a) != Msb32(e) && Msb32(b) != Msb32(e)
  {
    hide And; hide Xor;
    BitwiseTop32(a, e);
    BitwiseTop32(b, e);
    BitwiseTop32(Xor(a, e), Xor(b, e));
  }

  /** CFLAG_ADD_32 is the carry out of an addition with carry in, VFLAG_ADD_32 its signed overflow. */
  lemma CarryOfAdd(s: int, d: int, x: nat)
    requires 0 <= s < TWO32 && 0 <= d < TWO32 && x <= 1
    ensures var r := Wrap(s + d + x);
      && CflagAdd32(s, d, r) < TWO32 && CflagAdd32(s, d, r) / 0x100 % 2 == (s + d + x) / TWO32
      && VflagAdd32(s, d, r) < TWO32
      && (VflagAdd32(s, d, r) / 0x80 % 2 == 1 <==> !(-TWO31 <= Signed(s) + Signed(d) + x < TWO31))
  {
    hide And; hide Or; hide Xor; hide Msb32; hide Wrap; hide Signed;
    var r := Wrap(s + d + x);
    CarryIsMajority(s, d, x);
    CflagTop(s, d, r);
    VflagTop(s, d, r);
    TopShifted(Or(And(s, d), And(Not(r), Or(s, d))));
    TopShifted(And(Xor(s, r), Xor(d, r)));
  }

  /** CFLAG_SUB_32 is the borrow out of a subtraction with borrow in, VFLAG_SUB_32 its signed overflow. */
  lemma BorrowOfSub(s: int, d: int, x: nat)
    requires 0 <= s < TWO32 && 0 <= d < TWO32 && x <= 1
    ensures var r := Wrap(d - s - x);
      && CflagSub32(s, d, r) < TWO32 && CflagSub32(s, d, r) / 0x100 % 2 == B2N(d - s - x < 0)
      && VflagSub32(s, d, r) < TWO32
      && (VflagSub32(s, d, r) / 0x80 % 2 == 1 <==> !(-TWO31 <= Signed(d) - Signed(s) - x < TWO31))
  {
    hide And; hide Or; hide Xor; hide Msb32; hide Wrap; hide Signed;
    var r := Wrap(d - s - x);
    BorrowIsMajority(s, d, x);
    CflagTop(s, r, d);
    VflagTop(s, r, d);
    TopShifted(Or(And(s, r), And(Not(d), Or(s, r))));
    TopShifted(And(Xor(s, d), Xor(r, d)));
  }

  lemma OrIsZero(a: u32, b: u32)
    ensures Or(a, b) < TWO32 && (Or(a, b) == 0 <==> a == 0 && b == 0)
  {
    BitwiseTop32(a, b);
  }
}
