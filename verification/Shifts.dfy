/** ASL, ASR, LSL and LSR by a register count: what one bit at a time means, and what many steps come to
(Musashi/m68k_in.c, Musashi/m68kcpu.c). */
module Shifts {
  import opened Words
  import opened Bits

  datatype Shift = Asl | Asr | Lsl | Lsr

  /** An operand of some width with the flags that shifting it sets. */
  datatype State = State(value: nat, x: bool, c: bool, v: bool)

  /** Shifting by one bit.  The bit that leaves goes to C and X; V of ASL remembers any change of the sign. */
  function Step(op: Shift, n: nat, s: State): State
    requires n > 0
  {
    var top := s.value / Pow2(n - 1) % 2;
    match op
    case Asl =>
      var value := 2 * s.value % Pow2(n);
      State(value, top == 1, top == 1, s.v || value / Pow2(n - 1) % 2 != top)
    case Lsl => State(2 * s.value % Pow2(n), top == 1, top == 1, false)
    case Asr => State(NatDiv(s.value, 2) + top * Pow2(n - 1), s.value % 2 == 1, s.value % 2 == 1, false)
    case Lsr => State(NatDiv(s.value, 2), s.value % 2 == 1, s.value % 2 == 1, false)
  }

  function Steps(op: Shift, n: nat, k: nat, s: State): State
    requires n > 0
  {
    if k == 0 then s else Step(op, n, Steps(op, n, k - 1, s))
  }

  function Start(src: nat, x: bool): State {
    State(src, x, false, false)
  }

  // ------------------------------------------------------------------ arithmetic of powers of two

  /** Doubling modulo 2^n. */
  lemma DoubleMod(a: nat, p: nat)
    requires p > 0
    ensures 2 * (a % p) % p == 2 * a % p
  {
    DivMod(a, p);
    var r := a % p;
    DivMod(2 * r, p);
    assert 2 * a == (2 * (a / p) + 2 * r / p) * p + 2 * r % p by {
      assert 2 * (a / p * p) == 2 * (a / p) * p;
      assert (2 * (a / p) + 2 * r / p) * p == 2 * (a / p) * p + 2 * r / p * p;
    }
    DivUnique(2 * a, p, 2 * (a / p) + 2 * r / p, 2 * r % p);
  }

  lemma Cancel(a: nat, p: nat, q: nat)
    requires p > 0 && q > 0
    ensures p * q > 0 && a * q / (p * q) == a / p
  {
    DivMod(a, p);
    var h, l := a / p, a % p;
    assert a * q == h * (p * q) + l * q by {
      assert (h * p + l) * q == h * p * q + l * q;
      assert h * p * q == h * (p * q);
    }
    MulMonotonic(l, p - 1, q);
    assert (p - 1) * q == p * q - q;
    DivUnique(a * q, p * q, h, l * q);
  }

  /** Shifting left and then right by more. */
  lemma ShiftBack(a: nat, i: nat, j: nat)
    requires i <= j
    ensures a * Pow2(i) / Pow2(j) == a / Pow2(j - i) >= 0
  {
    hide Pow2;
    Pow2Sum(j - i, i);
    Cancel(a, Pow2(j - i), Pow2(i));
    DivMod(a, Pow2(j - i));
  }

  // ------------------------------------------------------------------ left

  /** The value after k steps to the left, and the bit that left last. */
  lemma {:induction false} LeftValue(op: Shift, n: nat, k: nat, src: nat, x: bool)
    requires n > 0 && src < Pow2(n) && (op == Asl || op == Lsl)
    ensures Steps(op, n, k, Start(src, x)).value == src * Pow2(k) % Pow2(n)
    decreases k
  {
    hide Pow2; hide Step;
    if k > 0 {
      LeftStep(op, n, Steps(op, n, k - 1, Start(src, x)));
      LeftValue(op, n, k - 1, src, x);
      DoubleMod(src * Pow2(k - 1), Pow2(n));
      assert Pow2(k) == 2 * Pow2(k - 1) by { NextPower(k); }
      TwiceProduct(src, Pow2(k - 1));
    } else {
      assert Pow2(0) == 1 by { NextPower(0); }
      DivUnique(src, Pow2(n), 0, src);
    }
  }

  lemma LeftStep(op: Shift, n: nat, s: State)
    requires n > 0 && (op == Asl || op == Lsl)
    ensures Step(op, n, s).value == 2 * s.value % Pow2(n)
    ensures Step(op, n, s).c == Step(op, n, s).x == (s.value / Pow2(n - 1) % 2 == 1)
  {
  }

  lemma NextPower(k: nat)
    ensures if k == 0 then Pow2(k) == 1 else Pow2(k) == 2 * Pow2(k - 1)
  {
  }

  /** The sign after k steps is bit n - 1 - k of the operand. */
  lemma LeftTop(n: nat, k: nat, src: nat)
    requires n > 0 && src < Pow2(n)
    ensures src * Pow2(k) % Pow2(n) / Pow2(n - 1) % 2 == src * Pow2(k) / Pow2(n - 1) % 2
  {
    hide Pow2;
    NextPower(n);
    ModDiv(src * Pow2(k), 2, Pow2(n - 1));
    assert 2 * Pow2(n - 1) == Pow2(n);
  }

  lemma {:induction false} LeftCarry(op: Shift, n: nat, k: nat, src: nat, x: bool)
    requires n > 0 && src < Pow2(n) && (op == Asl || op == Lsl) && k > 0
    ensures var s := Steps(op, n, k, Start(src, x)); s.c == s.x == (src * Pow2(k) / Pow2(n) % 2 == 1)
  {
    hide Pow2; hide Step;
    LeftStep(op, n, Steps(op, n, k - 1, Start(src, x)));
    LeftValue(op, n, k - 1, src, x);
    LeftTop(n, k - 1, src);
    NextPower(n);
    NextPower(k);
    TwiceProduct(src, Pow2(k - 1));
    Halved(src * Pow2(k - 1), Pow2(n - 1));
  }

  lemma TwiceProduct(a: nat, p: nat)
    ensures a * (2 * p) == 2 * (a * p)
  {
  }

  lemma Halved(a: nat, p: nat)
    requires p > 0
    ensures 2 * a / (2 * p) == a / p
  {
    DivMod(a, p);
    assert 2 * a == a / p * (2 * p) + 2 * (a % p);
    DivUnique(2 * a, 2 * p, a / p, 2 * (a % p));
  }

  /** After n steps nothing is left. */
  lemma LeftGone(n: nat, k: nat, src: nat)
    requires k >= n
    ensures src * Pow2(k) % Pow2(n) == 0 && src * Pow2(k) / Pow2(n) == src * Pow2(k - n)
  {
    hide Pow2;
    Pow2Sum(k - n, n);
    assert src * (Pow2(k - n) * Pow2(n)) == src * Pow2(k - n) * Pow2(n);
    DivUnique(src * Pow2(k), Pow2(n), src * Pow2(k - n), 0);
  }

  /** The top k + 1 bits of an operand are all the same. */
  predicate Uniform(n: nat, k: nat, src: nat)
    requires k < n
  {
    src / Pow2(n - 1 - k) == 0 || src / Pow2(n - 1 - k) == Pow2(k + 1) - 1
  }

  lemma UniformNext(n: nat, k: nat, src: nat)
    requires 0 < k < n && src < Pow2(n)
    ensures Uniform(n, k, src) <==> Uniform(n, k - 1, src) && src / Pow2(n - 1 - k) % 2 == src / Pow2(n - k) % 2
  {
    hide Pow2;
    ShiftOneMore(src, n - 1 - k);
    NextPower(k + 1);
    NextPower(k);
    OnesDouble(src / Pow2(n - 1 - k), src / Pow2(n - k), Pow2(k - 1));
  }

  lemma OnesDouble(t: int, u: int, p: nat)
    requires t == 2 * u + t % 2 && p > 0
    ensures t == 0 || t == 4 * p - 1 <==> (u == 0 || u == 2 * p - 1) && t % 2 == u % 2
  {
  }

  /** The sign has changed on the way exactly if the bits that were the sign are not all the same. */
  lemma {:induction false} AslOverflow(n: nat, k: nat, src: nat, x: bool)
    requires k < n && src < Pow2(n)
    ensures Steps(Asl, n, k, Start(src, x)).v <==> !Uniform(n, k, src)
    decreases k
  {
    if k == 0 {
      FirstBit(n, src);
    } else {
      AslOverflow(n, k - 1, src, x);
      UniformNext(n, k, src);
      AslStep(n, k, src, x);
      ShiftBack(src, k, n - 1);
      ShiftBack(src, k - 1, n - 1);
      hide Step; hide Pow2; hide Uniform;
    }
  }

  lemma FirstBit(n: nat, src: nat)
    requires 0 < n && src < Pow2(n)
    ensures Uniform(n, 0, src)
  {
    NextPower(n);
    assert Pow2(1) == 2;
    hide Pow2;
    DivMod(src, Pow2(n - 1));
    if src / Pow2(n - 1) >= 2 {
      MulMonotonic(2, src / Pow2(n - 1), Pow2(n - 1));
    }
  }

  /** V changes in step k if bits n - k and n - 1 - k of the operand differ. */
  lemma AslStep(n: nat, k: nat, src: nat, x: bool)
    requires n > 0 && k > 0 && src < Pow2(n)
    ensures Steps(Asl, n, k, Start(src, x)).v <==>
      Steps(Asl, n, k - 1, Start(src, x)).v || src * Pow2(k) / Pow2(n - 1) % 2 != src * Pow2(k - 1) / Pow2(n - 1) % 2
  {
    hide Pow2;
    LeftValue(Asl, n, k, src, x);
    LeftValue(Asl, n, k - 1, src, x);
    LeftTop(n, k, src);
    LeftTop(n, k - 1, src);
  }

  lemma {:induction false} AslOverflowAll(n: nat, k: nat, src: nat, x: bool)
    requires 0 < n <= k && src < Pow2(n)
    ensures Steps(Asl, n, k, Start(src, x)).v <==> src != 0
    decreases k
  {
    hide Step; hide Steps; hide Pow2;
    AslStep(n, k, src, x);
    GoneTops(n, k, src);
    if k == n {
      AslOverflow(n, n - 1, src, x);
      LastOverflow(n, src);
    } else {
      AslOverflowAll(n, k - 1, src, x);
    }
  }

  /** The sign after n steps or more is 0; after n - 1 it is bit 0 of the operand. */
  lemma GoneTops(n: nat, k: nat, src: nat)
    requires 0 < n <= k && src < Pow2(n)
    ensures src * Pow2(k) / Pow2(n - 1) % 2 == 0
    ensures src * Pow2(k - 1) / Pow2(n - 1) % 2 == if k == n then src % 2 else 0
  {
    hide Pow2;
    LeftGone(n - 1, k, src);
    LeftGone(n - 1, k - 1, src);
    EvenMultiple(src, k - n + 1);
    if k == n {
      NextPower(0);
    } else {
      EvenMultiple(src, k - n);
    }
  }

  lemma EvenMultiple(a: nat, k: nat)
    requires k > 0
    ensures a * Pow2(k) % 2 == 0
  {
    hide Pow2;
    NextPower(k);
    TwiceProduct(a, Pow2(k - 1));
  }

  lemma LastOverflow(n: nat, src: nat)
    requires n > 0
    ensures Uniform(n, n - 1, src) <==> src == 0 || src == Pow2(n) - 1
    ensures src == Pow2(n) - 1 ==> src % 2 == 1
  {
    NextPower(n);
    assert Pow2(0) == 1;
  }

  // ------------------------------------------------------------------ right

  lemma {:induction false} LsrValue(n: nat, k: nat, src: nat, x: bool)
    requires n > 0
    ensures src / Pow2(k) >= 0 && Steps(Lsr, n, k, Start(src, x)).value == src / Pow2(k)
    ensures k > 0 ==> var s := Steps(Lsr, n, k, Start(src, x)); s.c == s.x == (src / Pow2(k - 1) % 2 == 1)
    decreases k
  {
    DivMod(src, Pow2(k));
    if k == 0 {
      NextPower(0);
    } else {
      LsrValue(n, k - 1, src, x);
      ShiftOneMore(src, k - 1);
      hide Pow2;
    }
  }

  /** An operand read as two's complement. */
  function SignedOf(n: nat, src: nat): int
    requires n > 0
  {
    if src >= Pow2(n - 1) then src - Pow2(n) else src
  }

  /** k arithmetic steps divide the signed value by 2^k, rounding down. */
  lemma {:induction false} AsrValue(n: nat, k: nat, src: nat, x: bool)
    requires n > 0 && src < Pow2(n)
    ensures var value := Steps(Asr, n, k, Start(src, x)).value;
      value == SignedOf(n, src) / Pow2(k) + (if src >= Pow2(n - 1) then Pow2(n) else 0) && value < Pow2(n)
      && (value >= Pow2(n - 1) <==> src >= Pow2(n - 1))
    decreases k
  {
    NextPower(n);
    if k == 0 {
      NextPower(0);
    } else {
      AsrValue(n, k - 1, src, x);
      var s := Steps(Asr, n, k - 1, Start(src, x));
      FloorHalf(SignedOf(n, src), k - 1);
      hide Pow2; hide SignedOf;
      TopOfValue(s.value, Pow2(n - 1));
      HalfSigned(s.value, Pow2(n - 1), SignedOf(n, src) / Pow2(k - 1));
    }
  }

  lemma TopOfValue(value: nat, p: nat)
    requires p > 0 && value < 2 * p
    ensures value / p % 2 == if value >= p then 1 else 0
  {
    if value >= p { DivUnique(value, p, 1, value - p); } else { DivUnique(value, p, 0, value); }
  }

  lemma HalfSigned(value: nat, p: nat, t: int)
    requires p > 0 && value < 2 * p && value == t + (if value >= p then 2 * p else 0)
    ensures var value' := value / 2 + (if value >= p then p else 0);
      value' == t / 2 + (if value >= p then 2 * p else 0) && value' < 2 * p && (value' >= p <==> value >= p)
  {
  }

  lemma FloorHalf(t: int, k: nat)
    ensures t / Pow2(k + 1) == t / Pow2(k) / 2
  {
    hide Pow2;
    NextPower(k + 1);
    FloorTwice(t, Pow2(k));
  }

  /** The bit that leaves last. */
  lemma AsrCarry(n: nat, k: nat, src: nat, x: bool)
    requires n > 0 && src < Pow2(n) && k > 0
    ensures var s := Steps(Asr, n, k, Start(src, x)); s.c == s.x == (SignedOf(n, src) / Pow2(k - 1) % 2 == 1)
  {
    hide Pow2; hide SignedOf; hide Step;
    AsrValue(n, k - 1, src, x);
    NextPower(n);
    var value := Steps(Asr, n, k - 1, Start(src, x)).value;
    RightCarry(n, Steps(Asr, n, k - 1, Start(src, x)));
    assert value % 2 == SignedOf(n, src) / Pow2(k - 1) % 2 by {
      SameParity(value, SignedOf(n, src) / Pow2(k - 1), Pow2(n - 1));
    }
  }

  lemma RightCarry(n: nat, s: State)
    requires n > 0
    ensures Step(Asr, n, s).c == Step(Asr, n, s).x == (s.value % 2 == 1)
  {
  }

  lemma SameParity(a: int, b: int, p: int)
    requires a == b || a == b + 2 * p
    ensures a % 2 == b % 2
  {
  }

  /** The shifted operand and the sign bits above it. */
  lemma AsrShort(n: nat, k: nat, src: nat)
    requires k <= n && src < Pow2(n) && n > 0
    ensures src / Pow2(k) >= 0
    ensures SignedOf(n, src) / Pow2(k) == src / Pow2(k) - (if src >= Pow2(n - 1) then Pow2(n - k) else 0)
  {
    hide Pow2;
    Pow2Sum(n - k, k);
    DivMod(src, Pow2(k));
    var p, q, r := Pow2(k), src / Pow2(k), src % Pow2(k);
    if src >= Pow2(n - 1) {
      assert (q - Pow2(n - k)) * p == q * p - Pow2(n - k) * p;
      DivUnique(src - Pow2(n), p, q - Pow2(n - k), r);
    }
  }

  /** After n - 1 steps only the sign is left. */
  lemma AsrGone(n: nat, k: nat, src: nat)
    requires n > 0 && k >= n - 1 && src < Pow2(n)
    ensures SignedOf(n, src) / Pow2(k) == if src >= Pow2(n - 1) then -1 else 0
  {
    hide Pow2;
    NextPower(n);
    Pow2Sum(k - (n - 1), n - 1);
    MulMonotonic(1, Pow2(k - (n - 1)), Pow2(n - 1));
    var t := SignedOf(n, src);
    if t < 0 {
      DivUnique(t, Pow2(k), -1, t + Pow2(k));
    } else {
      DivUnique(t, Pow2(k), 0, t);
    }
  }

  // ------------------------------------------------------------------ all four together

  /** The value after k steps. */
  function ShiftedValue(op: Shift, n: nat, k: nat, src: nat): int
    requires n > 0
  {
    match op
    case Asl => src * Pow2(k) % Pow2(n)
    case Lsl => src * Pow2(k) % Pow2(n)
    case Asr => SignedOf(n, src) / Pow2(k) + (if src >= Pow2(n - 1) then Pow2(n) else 0)
    case Lsr => src / Pow2(k)
  }

  /** The bit that left in step k. */
  predicate LastOut(op: Shift, n: nat, k: nat, src: nat)
    requires n > 0 && k > 0
  {
    match op
    case Asl => src * Pow2(k) / Pow2(n) % 2 == 1
    case Lsl => src * Pow2(k) / Pow2(n) % 2 == 1
    case Asr => SignedOf(n, src) / Pow2(k - 1) % 2 == 1
    case Lsr => src / Pow2(k - 1) % 2 == 1
  }

  /** What k steps leave, in closed form. */
  lemma StepsMeaning(op: Shift, n: nat, k: nat, src: nat, x: bool)
    requires n > 0 && src < Pow2(n)
    ensures var s := Steps(op, n, k, Start(src, x));
      && s.value == ShiftedValue(op, n, k, src)
      && s.c == (k > 0 && LastOut(op, n, k, src)) && s.x == (if k == 0 then x else LastOut(op, n, k, src))
      && s.v == (op == Asl && if k < n then !Uniform(n, k, src) else src != 0)
  {
    hide Pow2; hide Step; hide Steps; hide SignedOf; hide Uniform;
    NoVShift(op, n, k, src, x);
    if k == 0 { NoStep(op, n, src, x); }
    match op
    case Asl =>
      LeftValue(op, n, k, src, x);
      if k > 0 { LeftCarry(op, n, k, src, x); }
      if k < n { AslOverflow(n, k, src, x); } else { AslOverflowAll(n, k, src, x); }
    case Lsl =>
      LeftValue(op, n, k, src, x);
      if k > 0 { LeftCarry(op, n, k, src, x); }
    case Asr =>
      AsrValue(n, k, src, x);
      if k > 0 { AsrCarry(n, k, src, x); }
    case Lsr => LsrValue(n, k, src, x);
  }

  lemma NoStep(op: Shift, n: nat, src: nat, x: bool)
    requires n > 0
    ensures Steps(op, n, 0, Start(src, x)) == State(src, x, false, false)
  {
  }

  /** Only ASL can set V. */
  lemma NoVShift(op: Shift, n: nat, k: nat, src: nat, x: bool)
    requires n > 0
    ensures op != Asl ==> !Steps(op, n, k, Start(src, x)).v
  {
    hide Pow2;
  }
}
