/** What the generator puts in the handler table: masks and matches from bit patterns, their variants for
addressing modes and conditions, and the order of the entries (Musashi/m68kmake.c). */
module OpcodeGenerator {
  import opened Words
  import opened Bits
  import opened OpcodeTable

  // ------------------------------------------------------------------ bit patterns

  /** A pattern has one character per bit: a dot for any bit, else '1' or another character for 0. */
  predicate Fits(pattern: string, w: nat) {
    pattern == "" ||
    (var c := pattern[|pattern| - 1];
     (c == '.' || (w % 2 == 1) == (c == '1')) && Fits(pattern[..|pattern| - 1], w / 2))
  }

  /** Character i is for bit |pattern| - 1 - i. */
  lemma {:induction false} FitsMeaning(pattern: string, w: nat)
    ensures Fits(pattern, w) <==> forall i: nat | i < |pattern| :: FitsAt(pattern, w, i)
  {
    if pattern != "" {
      var init := pattern[..|pattern| - 1];
      FitsMeaning(init, w / 2);
      CharacterFits(pattern, w);
    }
  }

  /** The last character, and all the others. */
  lemma CharacterFits(pattern: string, w: nat)
    requires pattern != ""
    ensures var init := pattern[..|pattern| - 1];
      (forall i: nat | i < |pattern| :: FitsAt(pattern, w, i)) <==>
      FitsAt(pattern, w, 0) && forall i: nat | i < |init| :: FitsAt(init, w / 2, i)
  {
    var init := pattern[..|pattern| - 1];
    forall i: nat | i < |init| ensures FitsAt(init, w / 2, i) <==> FitsAt(pattern, w, i + 1) {
      assert init[|init| - 1 - i] == pattern[|pattern| - 1 - (i + 1)];
    }
    hide FitsAt;
    if forall i: nat | i < |init| :: FitsAt(init, w / 2, i) {
      forall i: nat | 0 < i < |pattern| ensures FitsAt(pattern, w, i) { assert FitsAt(init, w / 2, i - 1); }
    }
  }

  predicate FitsAt(pattern: string, w: nat, i: nat)
    requires i < |pattern|
  {
    var c := pattern[|pattern| - 1 - i];
    c == '.' || (c == '1' <==> Bit(w, i))
  }

  /** The mask and the match of the characters, read as binary digits. */
  function MaskOf(pattern: string): nat {
    if pattern == "" then 0 else 2 * MaskOf(pattern[..|pattern| - 1]) + B2N(pattern[|pattern| - 1] != '.')
  }

  function MatchOf(pattern: string): nat {
    if pattern == "" then 0 else 2 * MatchOf(pattern[..|pattern| - 1]) + B2N(pattern[|pattern| - 1] == '1')
  }

  /** The end of populate_table: the words that match are those that fit the pattern. */
  method Populate(pattern: string) returns (mask: u16, match_: u16)
    requires |pattern| == 16
    ensures WithinMask(mask, match_)
    ensures forall w: u16 :: Matches(w, mask, match_) <==> Fits(pattern, w)
  {
    hide MaskOf; hide MatchOf; hide And; hide Or; hide Fits; hide Join; hide Pow2;
    var mask', match' := 0, 0;
    JoinZero(16);
    assert MaskOf(pattern[..0]) == MatchOf(pattern[..0]) == 0 by { Empty(pattern); }
    for i := 0 to 16
      invariant mask' == Join(MaskOf(pattern[..i]), 16 - i, 0) && match' == Join(MatchOf(pattern[..i]), 16 - i, 0)
    {
      NextCharacter(pattern, i);
      PlaceBit(MaskOf(pattern[..i]), B2N(pattern[i] != '.'), 15 - i);
      PlaceBit(MatchOf(pattern[..i]), B2N(pattern[i] == '1'), 15 - i);
      mask' := Or(mask', B2N(pattern[i] != '.') * Pow2(15 - i));
      match' := Or(match', B2N(pattern[i] == '1') * Pow2(15 - i));
    }
    assert pattern[..16] == pattern;
    PatternBound(pattern);
    Pow2Values();
    mask, match_ := mask', match';
    forall w: u16 ensures Matches(w, mask, match_) <==> Fits(pattern, w) { PatternMeaning(pattern, w); }
    PatternMeaning(pattern, 0);
  }

  lemma JoinZero(n: nat)
    ensures Join(0, n, 0) == 0 && forall x: nat :: Join(x, 0, 0) == x
  {
  }

  lemma Empty(pattern: string)
    ensures MaskOf(pattern[..0]) == MatchOf(pattern[..0]) == 0
  {
  }

  lemma NextCharacter(pattern: string, i: nat)
    requires i < |pattern|
    ensures MaskOf(pattern[..i + 1]) == 2 * MaskOf(pattern[..i]) + B2N(pattern[i] != '.')
    ensures MatchOf(pattern[..i + 1]) == 2 * MatchOf(pattern[..i]) + B2N(pattern[i] == '1')
  {
    assert pattern[..i + 1][..i] == pattern[..i];
  }

  /** The next bit goes into its place with |. */
  lemma PlaceBit(value: nat, flag: nat, n: nat)
    requires flag <= 1
    ensures Or(Join(value, n + 1, 0), flag * Pow2(n)) == Join(2 * value + flag, n, 0)
  {
    hide Or; hide Pow2; hide Join;
    JoinDouble(value, n);
    JoinZeros(flag, n);
    OrFlag(value, flag);
    AndZero(0);
    PowOne(n);
    OrJoin(2 * value, 0, flag, 0, n);
  }

  lemma JoinDouble(value: nat, n: nat)
    ensures Join(value, n + 1, 0) == Join(2 * value, n, 0)
  {
    assert Pow2(n + 1) == 2 * Pow2(n);
    hide Pow2;
    assert value * (2 * Pow2(n)) == 2 * value * Pow2(n);
  }

  lemma JoinZeros(flag: nat, n: nat)
    ensures Join(flag, n, 0) == flag * Pow2(n)
  {
  }

  lemma OrFlag(value: nat, flag: nat)
    requires flag <= 1
    ensures Or(2 * value, flag) == 2 * value + flag
  {
    hide Or;
    OrUnfolds(2 * value, flag);
    assert flag / 2 == 0;
    AndZero(value);
  }

  lemma PowOne(n: nat)
    ensures 0 < Pow2(n)
  {
  }

  lemma {:induction false} PatternBound(pattern: string)
    ensures MaskOf(pattern) < Pow2(|pattern|) && MatchOf(pattern) < Pow2(|pattern|)
  {
    if pattern != "" { PatternBound(pattern[..|pattern| - 1]); }
  }

  /** The masked word is the match exactly if every character fits its bit. */
  lemma {:induction false} PatternMeaning(pattern: string, w: nat)
    ensures And(MatchOf(pattern), MaskOf(pattern)) == MatchOf(pattern)
    ensures And(w, MaskOf(pattern)) == MatchOf(pattern) <==> Fits(pattern, w)
  {
    AndZero(w);
    if pattern != "" {
      AndStep(w, MaskOf(pattern));
      AndStep(MatchOf(pattern), MaskOf(pattern));
      hide And;
      PatternMeaning(pattern[..|pattern| - 1], w / 2);
    }
  }

  // ------------------------------------------------------------------ addressing modes

  /** g_ea_info_table: what each mode adds to mask and match. */
  const EA_INFO: seq<(u16, u16)> :=
    [(0x00, 0x00), (0x38, 0x10), (0x38, 0x18), (0x3f, 0x1f), (0x38, 0x20), (0x3f, 0x27), (0x38, 0x28), (0x38, 0x30),
     (0x3f, 0x38), (0x3f, 0x39), (0x3f, 0x3a), (0x3f, 0x3b), (0x3f, 0x3c)]

  /** The masks and matches of two requirements on a word agree where they overlap. */
  predicate Agree(mask: u16, match_: u16, mask': u16, match': u16) {
    And(match_, mask') == And(match', mask)
  }

  /** set_opcode_struct: the variant of an entry for an addressing mode. */
  method SetOpcodeStruct(mask: u16, match_: u16, mode: nat) returns (mask': u16, match': u16)
    requires mode < |EA_INFO| && WithinMask(mask, match_)
    ensures WithinMask(mask', match') && mask' as int == Or(mask, EA_INFO[mode].0) && match' as int == Or(match_, EA_INFO[mode].1)
    ensures Agree(mask, match_, EA_INFO[mode].0, EA_INFO[mode].1) ==>
      forall w: u16 :: Matches(w, mask', match') <==> Matches(w, mask, match_) && Matches(w, EA_INFO[mode].0, EA_INFO[mode].1)
  {
    OrBound(mask, EA_INFO[mode].0);
    OrBound(match_, EA_INFO[mode].1);
    mask', match' := Or(mask, EA_INFO[mode].0), Or(match_, EA_INFO[mode].1);
    ModeWithin(mode);
    hide And; hide Or; hide *;
    BothWithin(mask, match_, EA_INFO[mode].0, EA_INFO[mode].1);
    if Agree(mask, match_, EA_INFO[mode].0, EA_INFO[mode].1) {
      forall w: u16
        ensures Matches(w, mask', match') <==> Matches(w, mask, match_) && Matches(w, EA_INFO[mode].0, EA_INFO[mode].1)
      {
        BothMatch(w, mask, match_, EA_INFO[mode].0, EA_INFO[mode].1);
      }
    }
  }

  lemma ModeWithin(mode: nat)
    requires mode < |EA_INFO|
    ensures WithinMask(EA_INFO[mode].0, EA_INFO[mode].1)
  {
    hide And; hide WithinMask;
    var (mask, match_) := EA_INFO[mode];
    assert (mask == 0 && match_ == 0) || (mask == 0x38 && match_ in {0x10, 0x18, 0x20, 0x28, 0x30})
      || (mask == 0x3f && 0 <= match_ <= 0x3f);
    EaWithin(mask, match_);
  }

  lemma EaWithin(mask: u16, match_: u16)
    requires (mask == 0 && match_ == 0) || (mask == 0x38 && match_ <= 0x38 && match_ % 8 == 0) || (mask == 0x3f && match_ <= 0x3f)
    ensures WithinMask(mask, match_)
  {
    hide And; hide Pow2; hide Join;
    Powers();
    AndZero(0);
    if mask == 0x3f {
      AndOnes(match_, 6);
    } else if mask == 0x38 {
      JoinEight(match_ / 8, 0);
      JoinEight(7, 0);
      AndJoin(match_ / 8, 0, 7, 0, 3);
      AndOnes(match_ / 8, 3);
    }
  }

  lemma BothWithin(mask: nat, match_: nat, mask': nat, match': nat)
    requires And(match_, mask) == match_ && And(match', mask') == match'
    ensures And(Or(match_, match'), Or(mask, mask')) == Or(match_, match')
  {
    hide And; hide Or; hide Bit;
    forall i: nat ensures Bit(And(Or(match_, match'), Or(mask, mask')), i) == Bit(Or(match_, match'), i) {
      BitwiseMeaning(match_, mask, i);
      BitwiseMeaning(match', mask', i);
      BitwiseMeaning(match_, match', i);
      BitwiseMeaning(mask, mask', i);
      BitwiseMeaning(Or(match_, match'), Or(mask, mask'), i);
    }
    SameBits(And(Or(match_, match'), Or(mask, mask')), Or(match_, match'));
  }

  /** A word has both properties exactly if it matches the joined mask and match. */
  lemma BothMatch(w: nat, mask: nat, match_: nat, mask': nat, match': nat)
    requires And(match_, mask) == match_ && And(match', mask') == match' && And(match_, mask') == And(match', mask)
    ensures And(w, Or(mask, mask')) == Or(match_, match') <==> And(w, mask) == match_ && And(w, mask') == match'
  {
    hide And; hide Or; hide Bit;
    forall i: nat
      ensures Bit(And(w, Or(mask, mask')), i) == Bit(Or(match_, match'), i)
              <==> Bit(And(w, mask), i) == Bit(match_, i) && Bit(And(w, mask'), i) == Bit(match', i)
    {
      BitwiseMeaning(match_, mask, i);
      BitwiseMeaning(match', mask', i);
      BitwiseMeaning(match_, mask', i);
      BitwiseMeaning(match', mask, i);
      BitwiseMeaning(match_, match', i);
      BitwiseMeaning(mask, mask', i);
      BitwiseMeaning(w, Or(mask, mask'), i);
      BitwiseMeaning(w, mask, i);
      BitwiseMeaning(w, mask', i);
    }
    if And(w, mask) == match_ && And(w, mask') == match' {
      SameBits(And(w, Or(mask, mask')), Or(match_, match'));
    }
    if And(w, Or(mask, mask')) == Or(match_, match') {
      SameBits(And(w, mask), match_);
      SameBits(And(w, mask'), match');
    }
  }

  // ------------------------------------------------------------------ conditions

  /** The condition field of an instruction word, and the word without it. */
  function Condition(w: u16): nat {
    w / 0x100 % 16
  }

  function Fixed(x: u16): u16 {
    AndBound(x, 0xf0ff);
    And(x, 0xf0ff)
  }

  /** The word without bits 8 to 11. */
  lemma FixedMeaning(line: nat, condition: nat, low: nat)
    requires line < 16 && condition < 16 && low < 0x100
    ensures var w: u16 := line * 0x1000 + condition * 0x100 + low;
      Condition(w) == condition && Fixed(w) as int == line * 0x1000 + low
  {
    hide And; hide Join; hide Pow2;
    Powers();
    JoinEight8(line * 16 + condition, low);
    JoinEight8(0xf0, 0xff);
    AndJoin(line * 16 + condition, low, 0xf0, 0xff, 8);
    AndOnes(low, 8);
    JoinFour(line, condition);
    JoinFour(15, 0);
    AndJoin(line, condition, 15, 0, 4);
    AndOnes(line, 4);
    AndZero(condition);
    JoinFour(line, 0);
    JoinEight8(line * 16, low);
  }

  lemma JoinEight8(high: nat, low: nat)
    ensures Join(high, 8, low) == high * 0x100 + low
  {
    Powers();
  }

  lemma JoinFour(high: nat, low: nat)
    ensures Join(high, 4, low) == high * 16 + low
  {
    Powers();
  }

  lemma FixedIs(x: u16)
    ensures Fixed(x) == And(x, 0xf0ff)
  {
  }

  lemma AndBound(a: u16, b: u16)
    ensures And(a, b) < TWO16
  {
    Pow2Values();
    BitwiseBound(a, b, 16);
  }

  /** generate_opcode_cc_variants: one variant for each condition but T and F, which asks for that number
      in the condition field and for the rest of the entry's match. */
  method GenerateCcVariants(mask: u16, match_: u16) returns (mask': u16, matches: seq<u16>)
    requires WithinMask(mask, match_)
    ensures |matches| == 14 && mask' as int == Or(mask, 0x0f00)
    ensures forall k: nat | k < 14 :: WithinMask(mask', matches[k])
    ensures forall k: nat, w: u16 | k < 14 ::
      Matches(w, mask', matches[k]) <==> Condition(w) == k + 2 && Matches(w, Fixed(mask), Fixed(match_))
  {
    hide And; hide Or; hide Fixed; hide Condition; hide FieldOf;
    OrBound(mask, 0x0f00);
    mask', matches := Or(mask, 0x0f00), [];
    var m: u16 := match_;
    for i := 2 to 16
      invariant Fixed(m) == Fixed(match_) && |matches| == i - 2
      invariant forall k: nat | k < |matches| :: matches[k] == Or(Fixed(match_), FieldOf(k + 2))
    {
      OrBound(Fixed(m), FieldOf(i));
      FieldReplaced(match_, i);
      FixedIs(Or(Fixed(m), FieldOf(i)));
      m := Or(Fixed(m), FieldOf(i));
      matches := matches + [m];
    }
    forall k: nat | k < 14 ensures WithinMask(mask', matches[k]) { VariantMeaning(mask, match_, k + 2, 0); }
    forall k: nat, w: u16 | k < 14
      ensures Matches(w, mask', matches[k]) <==> Condition(w) == k + 2 && Matches(w, Fixed(mask), Fixed(match_))
    {
      VariantMeaning(mask, match_, k + 2, w);
    }
  }

  /** i << 8. */
  function FieldOf(i: nat): u16
    requires i < 16
  {
    i * 0x100
  }

  lemma FieldWithin(i: nat)
    requires i < 16
    ensures And(FieldOf(i), 0x0f00) == FieldOf(i)
  {
    hide And; hide Pow2;
    Powers();
    Pow2Values();
    AndJoin(i, 0, 0xf, 0, 8);
    AndZero(0);
    AndOnes(i, 4);
  }

  lemma FieldAt(w: u16)
    ensures And(w, 0x0f00) == FieldOf(Condition(w))
  {
    hide And; hide Pow2;
    Powers();
    Pow2Values();
    AndJoin(w / 0x100, w % 0x100, 0xf, 0, 8);
    AndZero(w % 0x100);
    AndOnes(w / 0x100, 4);
  }

  lemma WholeWord()
    ensures Or(0xf0ff, 0x0f00) == 0xffff
  {
    hide Or; hide Pow2;
    Powers();
    Pow2Values();
    OrJoin(0xf0, 0xff, 0x0f, 0, 8);
    OrLow(0xf, 4, 0xf);
    AndZero(0xff);
  }

  /** The two masks share no bit, and together they cover a word. */
  lemma FieldBits(x: u16, i: nat)
    ensures !(Bit(0xf0ff, i) && Bit(0x0f00, i)) && (Bit(x, i) ==> Bit(0xf0ff, i) || Bit(0x0f00, i))
  {
    hide And; hide Or; hide Bit;
    assert And(0xf0ff, 0x0f00) == 0 by { FieldAt(0xf0ff); }
    WholeWord();
    assert And(x, 0xffff) == x by { Pow2Values(); AndOnes(x, 16); }
    BitwiseMeaning(0xf0ff, 0x0f00, i);
    BitwiseMeaning(x, 0xffff, i);
    ZeroHasNoBits(i);
  }

  lemma FieldReplaced(match_: u16, field: nat)
    requires field < 16
    ensures And(Or(Fixed(match_), FieldOf(field)), 0xf0ff) == Fixed(match_)
  {
    hide And; hide Or; hide Bit; hide FieldOf;
    FieldWithin(field);
    var fixed, f := Fixed(match_), FieldOf(field);
    forall i: nat ensures Bit(And(Or(fixed, f), 0xf0ff), i) == Bit(fixed, i) {
      FieldBits(match_, i);
      BitwiseMeaning(match_, 0xf0ff, i);
      BitwiseMeaning(f, 0x0f00, i);
      BitwiseMeaning(fixed, f, i);
      BitwiseMeaning(Or(fixed, f), 0xf0ff, i);
    }
    SameBits(And(Or(fixed, f), 0xf0ff), fixed);
  }

  /** What joining the fixed part and the condition field needs. */
  lemma VariantParts(mask: u16, match_: u16, field: nat)
    requires WithinMask(mask, match_) && field < 16
    ensures And(Fixed(match_), Fixed(mask)) == Fixed(match_) && And(FieldOf(field), 0x0f00) == FieldOf(field)
    ensures And(Fixed(match_), 0x0f00) == And(FieldOf(field), Fixed(mask))
    ensures Or(Fixed(mask), 0x0f00) == Or(mask, 0x0f00)
  {
    hide And; hide Or; hide Bit; hide FieldOf;
    FieldWithin(field);
    var fixed, kept, f := Fixed(match_), Fixed(mask), FieldOf(field);
    forall i: nat
      ensures Bit(And(fixed, kept), i) == Bit(fixed, i) && Bit(And(fixed, 0x0f00), i) == Bit(And(f, kept), i)
      ensures Bit(Or(kept, 0x0f00), i) == Bit(Or(mask, 0x0f00), i)
    {
      FieldBits(mask, i);
      BitwiseMeaning(match_, 0xf0ff, i);
      BitwiseMeaning(mask, 0xf0ff, i);
      BitwiseMeaning(match_, mask, i);
      BitwiseMeaning(f, 0x0f00, i);
      BitwiseMeaning(fixed, kept, i);
      BitwiseMeaning(fixed, 0x0f00, i);
      BitwiseMeaning(f, kept, i);
      BitwiseMeaning(kept, 0x0f00, i);
      BitwiseMeaning(mask, 0x0f00, i);
    }
    SameBits(And(fixed, kept), fixed);
    SameBits(And(fixed, 0x0f00), And(f, kept));
    SameBits(Or(kept, 0x0f00), Or(mask, 0x0f00));
  }

  lemma VariantMeaning(mask: u16, match_: u16, field: nat, w: u16)
    requires WithinMask(mask, match_) && field < 16
    ensures var variant := Or(Fixed(match_), FieldOf(field));
      && And(variant, Or(mask, 0x0f00)) == variant
      && (And(w, Or(mask, 0x0f00)) == variant <==> Condition(w) == field && Matches(w, Fixed(mask), Fixed(match_)))
  {
    hide And; hide Or; hide Fixed;
    VariantParts(mask, match_, field);
    FieldAt(w);
    BothWithin(Fixed(mask), Fixed(match_), 0x0f00, FieldOf(field));
    BothMatch(w, Fixed(mask), Fixed(match_), 0x0f00, FieldOf(field));
  }

  // ------------------------------------------------------------------ counting bits

  /** num_bits: neighbouring fields are added in parallel, in four rounds. */
  function NumBits(value: u16): nat {
    var v1 := And(value, 0xaaaa) / 2 + And(value, 0x5555);
    var v2 := And(v1, 0xcccc) / 4 + And(v1, 0x3333);
    var v3 := And(v2, 0xf0f0) / 0x10 + And(v2, 0x0f0f);
    And(v3, 0xff00) / 0x100 + And(v3, 0x00ff)
  }

  /** The sum of the n lowest digits in base b; in base 2 the number of bits set. */
  function DigitSum(v: nat, b: nat, n: nat): nat
    requires b >= 2
  {
    if n == 0 then 0 else v % b + DigitSum(v / b, b, n - 1)
  }

  /** The even ones of the 2n lowest fields of k bits, in place; and the mask that selects them. */
  function Evens(v: nat, k: nat, n: nat): nat
    decreases n
  {
    hide Pow2; hide Shr; hide LowPart; hide Join;
    if n == 0 then 0 else Join(Evens(Shr(v, 2 * k), k, n - 1), 2 * k, LowPart(v, k))
  }

  function EvenMask(k: nat, n: nat): nat {
    if n == 0 then 0 else Join(EvenMask(k, n - 1), 2 * k, Pow2(k) - 1)
  }

  lemma {:induction false} AndEvenMask(v: nat, k: nat, n: nat)
    ensures And(v, EvenMask(k, n)) == Evens(v, k, n)
    decreases n
  {
    hide And; hide Join; hide Pow2; hide Shr; hide LowPart;
    if n == 0 {
      AndZero(v);
    } else {
      AndEvenMask(Shr(v, 2 * k), k, n - 1);
      FieldPowers(k);
      AndJoin(Shr(v, 2 * k), LowPart(v, 2 * k), EvenMask(k, n - 1), Pow2(k) - 1, 2 * k);
      LowerTwice(v, k);
    }
  }

  lemma LowerTwice(v: nat, k: nat)
    ensures And(LowPart(v, 2 * k), Pow2(k) - 1) == LowPart(v, k)
  {
    hide And; hide Pow2;
    FieldPowers(k);
    AndOnes(LowPart(v, 2 * k), k);
    ModDiv(v, Pow2(k), Pow2(k));
  }

  lemma FieldPowers(k: nat)
    ensures Pow2(2 * k) == Pow2(k) * Pow2(k) && Pow2(k) <= Pow2(2 * k)
  {
    hide Pow2;
    Pow2Sum(k, k);
    MulMonotonic(1, Pow2(k), Pow2(k));
  }

  /** One round on fields of k bits. */
  lemma Round(v: nat, k: nat, n: nat)
    ensures And(v, Join(EvenMask(k, n), k, 0)) / Pow2(k) + And(v, EvenMask(k, n)) == Evens(Shr(v, k), k, n) + Evens(v, k, n)
  {
    hide And; hide Join; hide Pow2; hide Shr; hide LowPart;
    AndEvenMask(v, k, n);
    AndEvenMask(Shr(v, k), k, n);
    AndZero(LowPart(v, k));
    AndJoin(Shr(v, k), LowPart(v, k), EvenMask(k, n), 0, k);
    PartsOf(Evens(Shr(v, k), k, n), k, 0);
  }

  /** A round keeps the sum of the fields, which are twice as wide and half as many. */
  lemma {:induction false} RoundSum(v: nat, k: nat, n: nat)
    requires k > 0
    ensures Pow2(k) >= 2 && Pow2(2 * k) >= 2
    ensures DigitSum(Evens(Shr(v, k), k, n) + Evens(v, k, n), Pow2(2 * k), n) == DigitSum(v, Pow2(k), 2 * n)
    decreases n
  {
    FieldPowers(k);
    assert Pow2(k) == 2 * Pow2(k - 1);
    hide Pow2; hide Shr; hide LowPart; hide Join;
    if n > 0 {
      var high, low := Evens(Shr(Shr(v, k), 2 * k), k, n - 1), Evens(Shr(v, 2 * k), k, n - 1);
      RoundSum(Shr(v, 2 * k), k, n - 1);
      UpperOrder(v, k);
      var a, b := LowPart(Shr(v, k), k), LowPart(v, k);
      JoinSum(high, a, low, b, k);
      assert Evens(Shr(v, k), k, n) == Join(high, 2 * k, a);
      assert Evens(v, k, n) == Join(low, 2 * k, b);
      hide Evens;
      TwoDigits(v, k, n);
    }
  }

  lemma UpperOrder(v: nat, k: nat)
    ensures Shr(Shr(v, k), 2 * k) == Shr(Shr(v, 2 * k), k)
    ensures Shr(v, 2 * k) == Shr(Shr(v, k), k)
  {
    hide Pow2;
    FieldPowers(k);
    ModDiv(v, Pow2(k), Pow2(k));
    ModDiv(v / Pow2(k), Pow2(k), Pow2(k));
  }

  lemma TwoDigits(v: nat, k: nat, n: nat)
    requires Pow2(k) >= 2 && n > 0
    ensures DigitSum(v, Pow2(k), 2 * n)
            == LowPart(v, k) + LowPart(Shr(v, k), k) + DigitSum(Shr(Shr(v, k), k), Pow2(k), 2 * n - 2)
  {
    hide Pow2;
    DivMod(v, Pow2(k));
    assert DigitSum(v, Pow2(k), 2 * n) == LowPart(v, k) + DigitSum(Shr(v, k), Pow2(k), 2 * n - 1);
  }

  /** Two columns of fields added: the lowest fields make one digit of twice the width. */
  lemma JoinSum(high: nat, a: nat, low: nat, b: nat, k: nat)
    requires a < Pow2(k) && b < Pow2(k) && Pow2(k) >= 2
    ensures var sum := Join(high, 2 * k, a) + Join(low, 2 * k, b);
      sum % Pow2(2 * k) == a + b && sum / Pow2(2 * k) == high + low
  {
    hide Pow2;
    FieldPowers(k);
    var p, d := Pow2(k), Pow2(2 * k);
    assert a + b < d by { MulMonotonic(2, p, p); }
    assert high * d + low * d == (high + low) * d;
    DivUnique(high * d + a + (low * d + b), d, high + low, a + b);
  }

  lemma Masks()
    ensures EvenMask(1, 8) == 0x5555 && EvenMask(2, 4) == 0x3333 && EvenMask(4, 2) == 0x0f0f && EvenMask(8, 1) == 0xff
    ensures Join(0x5555, 1, 0) == 0xaaaa && Join(0x3333, 2, 0) == 0xcccc
    ensures Join(0x0f0f, 4, 0) == 0xf0f0 && Join(0xff, 8, 0) == 0xff00
  {
    Pow2Values();
    Powers();
    assert Pow2(1) == 2 && Pow2(2) == 4;
    hide Pow2;
    assert EvenMask(1, 4) == 0x55;
    assert EvenMask(1, 8) == 0x5555;
  }

  /** The parallel count is the number of bits set. */
  lemma CountsBits(value: u16)
    ensures NumBits(value) == DigitSum(value, 2, 16)
  {
    hide And; hide Join; hide Pow2; hide Shr; hide LowPart; hide DigitSum; hide Evens; hide EvenMask;
    assert Pow2(1) == 2 && Pow2(2) == 4 && Pow2(4) == 0x10 && Pow2(8) == 0x100 by {
      Pow2Values();
      Powers();
    }
    Masks();
    Round(value, 1, 8);
    RoundSum(value, 1, 8);
    var v1 := And(value, 0xaaaa) / 2 + And(value, 0x5555);
    Round(v1, 2, 4);
    RoundSum(v1, 2, 4);
    var v2 := And(v1, 0xcccc) / 4 + And(v1, 0x3333);
    Round(v2, 4, 2);
    RoundSum(v2, 4, 2);
    var v3 := And(v2, 0xf0f0) / 0x10 + And(v2, 0x0f0f);
    Round(v3, 8, 1);
    RoundSum(v3, 8, 1);
    LastRound(v3);
  }

  lemma LastRound(v: nat)
    ensures Pow2(16) == TWO16
    ensures DigitSum(Evens(Shr(v, 8), 8, 1) + Evens(v, 8, 1), TWO16, 1) == Evens(Shr(v, 8), 8, 1) + Evens(v, 8, 1)
  {
    hide Pow2; hide Shr; hide LowPart; hide Evens; hide DigitSum;
    Pow2Values();
    assert Evens(v, 8, 1) == LowPart(v, 8) && Evens(Shr(v, 8), 8, 1) == LowPart(Shr(v, 8), 8) by {
      OneField(v);
      OneField(Shr(v, 8));
    }
    var sum := LowPart(Shr(v, 8), 8) + LowPart(v, 8);
    OneDigit(sum);
  }

  lemma OneDigit(v: nat)
    requires v < TWO16
    ensures DigitSum(v, TWO16, 1) == v
  {
  }

  lemma OneField(v: nat)
    ensures Evens(v, 8, 1) == LowPart(v, 8)
  {
    hide LowPart; hide Shr; hide Pow2;
    assert Evens(Shr(v, 16), 8, 0) == 0;
    assert Join(0, 16, LowPart(v, 8)) == LowPart(v, 8);
  }

  /** A mask inside another has fewer bits. */
  lemma {:induction false} FewerBits(a: nat, b: nat, n: nat)
    requires And(a, b) == a && a < Pow2(n) && b < Pow2(n)
    ensures DigitSum(a, 2, n) <= DigitSum(b, 2, n) && (a != b ==> DigitSum(a, 2, n) < DigitSum(b, 2, n))
  {
    if n > 0 {
      AndStep(a, b);
      FewerBits(a / 2, b / 2, n - 1);
    }
  }

  // ------------------------------------------------------------------ the order of the table

  /** compare_nof_true_bits: by bits in the mask, then by mask, then by match. */
  function Compare<H>(a: Entry<H>, b: Entry<H>): int {
    if NumBits(a.mask) != NumBits(b.mask) then NumBits(a.mask) - NumBits(b.mask)
    else if a.mask != b.mask then a.mask as int - b.mask
    else a.pattern as int - b.pattern
  }

  /** What qsort leaves. */
  ghost predicate Sorted<H>(entries: seq<Entry<H>>) {
    forall i: nat, j: nat | i < j < |entries| :: Compare(entries[i], entries[j]) <= 0
  }

  /** Two entries are in order if the first has fewer mask bits, or as many and a smaller mask, or the same mask
      and a match that is not larger. */
  lemma SortedPair<H>(a: Entry<H>, b: Entry<H>)
    ensures var m, n := NumBits(a.mask), NumBits(b.mask);
      Sorted([a, b]) <==> m < n || (m == n && (a.mask < b.mask || (a.mask == b.mask && a.pattern <= b.pattern)))
  {
    hide NumBits;
    assert Sorted([a, b]) <==> Compare([a, b][0], [a, b][1]) <= 0;
  }

  /** Masks that come after 0xff00 are among those that the builder has a fill loop for. */
  ghost predicate KnownMasks<H>(entries: seq<Entry<H>>) {
    && (forall i: nat | i < |entries| :: ComesBefore(entries[i].mask, 0xff00) || Phase(entries[i].mask) >= 1)
    && (exists i: nat :: i < |entries| && entries[i].mask == 0xff00)
  }

  predicate ComesBefore(mask: u16, mask': u16) {
    NumBits(mask) < NumBits(mask') || (NumBits(mask) == NumBits(mask') && mask < mask')
  }

  lemma PhaseBits()
    ensures NumBits(0xff00) == 8 && NumBits(0xf1f8) == 10 && NumBits(0xfff0) == 12
    ensures NumBits(0xf1ff) == 13 && NumBits(0xfff8) == 13 && NumBits(0xffff) == 16
  {
    hide NumBits; hide DigitSum;
    CountsBits(0xff00);
    CountsBits(0xf1f8);
    CountsBits(0xfff0);
    CountsBits(0xf1ff);
    CountsBits(0xfff8);
    CountsBits(0xffff);
    PhaseDigits();
  }

  function Nibble(x: nat): nat {
    x % 2 + x / 2 % 2 + x / 4 % 2 + x / 8 % 2
  }

  lemma FourDigits(h: nat, d: nat, n: nat)
    requires d < 16
    ensures DigitSum(h * 16 + d, 2, n + 4) == DigitSum(h, 2, n) + Nibble(d)
  {
    hide DigitSum;
    LastDigit(h * 8 + d / 2, d % 2, n + 3);
    LastDigit(h * 4 + d / 4, d / 2 % 2, n + 2);
    LastDigit(h * 2 + d / 8, d / 4 % 2, n + 1);
    LastDigit(h, d / 8, n);
    assert d == d / 2 * 2 + d % 2 && d / 2 == d / 4 * 2 + d / 2 % 2 && d / 4 == d / 8 * 2 + d / 4 % 2;
  }

  lemma LastDigit(h: nat, d: nat, n: nat)
    requires d < 2
    ensures DigitSum(2 * h + d, 2, n + 1) == d + DigitSum(h, 2, n)
  {
  }

  /** The bits of a word from those of its hexadecimal digits. */
  lemma Hexadecimal(word: nat, w1: nat, w2: nat, a: nat, b: nat, c: nat, d: nat)
    requires a < 16 && b < 16 && c < 16 && d < 16
    requires w2 == a * 16 + b && w1 == w2 * 16 + c && word == w1 * 16 + d
    ensures DigitSum(word, 2, 16) == Nibble(a) + Nibble(b) + Nibble(c) + Nibble(d)
  {
    hide Nibble; hide DigitSum;
    FourDigits(w1, d, 12);
    FourDigits(w2, c, 8);
    FourDigits(a, b, 4);
    FourDigits(0, a, 0);
    NoDigits();
  }

  lemma NoDigits()
    ensures DigitSum(0, 2, 0) == 0
  {
  }

  lemma Nibbles()
    ensures Nibble(0) == 0 && Nibble(1) == 1 && Nibble(8) == 1 && Nibble(0xf) == 4
  {
  }

  lemma PhaseDigits()
    ensures DigitSum(0xff00, 2, 16) == 8 && DigitSum(0xf1f8, 2, 16) == 10 && DigitSum(0xfff0, 2, 16) == 12
    ensures DigitSum(0xf1ff, 2, 16) == 13 && DigitSum(0xfff8, 2, 16) == 13 && DigitSum(0xffff, 2, 16) == 16
  {
    hide DigitSum; hide Nibble;
    Nibbles();
    Hexadecimal(0xff00, 0xff0, 0xff, 0xf, 0xf, 0, 0);
    Hexadecimal(0xf1f8, 0xf1f, 0xf1, 0xf, 1, 0xf, 8);
    Hexadecimal(0xfff0, 0xfff, 0xff, 0xf, 0xf, 0xf, 0);
    Hexadecimal(0xf1ff, 0xf1f, 0xf1, 0xf, 1, 0xf, 0xf);
    Hexadecimal(0xfff8, 0xfff, 0xff, 0xf, 0xf, 0xf, 8);
    Hexadecimal(0xffff, 0xfff, 0xff, 0xf, 0xf, 0xf, 0xf);
  }

  /** The sorted table is in the order that the builder needs. */
  lemma SortedIsGrouped<H>(entries: seq<Entry<H>>)
    requires Sorted(entries) && KnownMasks(entries)
    ensures Grouped(entries)
  {
    hide NumBits;
    PhaseBits();
    forall i: nat, j: nat | i < j < |entries|
      ensures Phase(entries[i].mask) <= Phase(entries[j].mask)
    {
      assert Compare(entries[i], entries[j]) <= 0;
    }
  }

  /** Entry i gives word w its handler: no later entry matches. */
  predicate Wins<H>(entries: seq<Entry<H>>, w: u16, i: nat) {
    && i < |entries| && Matches(w, entries[i].mask, entries[i].pattern)
    && forall j: nat | i < j < |entries| :: !Matches(w, entries[j].mask, entries[j].pattern)
  }

  /** A word that some entry matches has a winner. */
  lemma {:induction false} WinnerExists<H>(entries: seq<Entry<H>>, w: u16, j: nat)
    requires j < |entries| && Matches(w, entries[j].mask, entries[j].pattern)
    ensures exists i: nat :: j <= i && Wins(entries, w, i)
    decreases |entries| - j
  {
    hide Matches;
    if !Wins(entries, w, j) {
      var k: nat :| j < k < |entries| && Matches(w, entries[k].mask, entries[k].pattern);
      WinnerExists(entries, w, k);
    }
  }

  lemma {:induction false} Winner<H>(entries: seq<Entry<H>>, w: u16, illegal: H)
    ensures (forall j: nat | j < |entries| :: !Matches(w, entries[j].mask, entries[j].pattern)) ==>
      LastMatch(entries, w, illegal) == illegal
    ensures forall i: nat | Wins(entries, w, i) :: LastMatch(entries, w, illegal) == entries[i].handler
  {
    hide Matches;
    if entries != [] {
      Winner(entries[..|entries| - 1], w, illegal);
      forall i: nat | Wins(entries, w, i) ensures LastMatch(entries, w, illegal) == entries[i].handler {
        assert i < |entries| - 1 ==> Wins(entries[..|entries| - 1], w, i);
      }
    }
  }

  /** In a built table made of a sorted one, the winner has the most bits of all entries that match, and
      no entry that matches is more specific. */
  lemma MostSpecific<H>(table: seq<H>, entries: seq<Entry<H>>, illegal: H, w: u16, i: nat)
    requires Holds(table, entries, illegal) && Sorted(entries) && Wins(entries, w, i)
    ensures table[w] == entries[i].handler
    ensures forall j: nat | j < |entries| && Matches(w, entries[j].mask, entries[j].pattern) ::
      && NumBits(entries[j].mask) <= NumBits(entries[i].mask)
      && (And(entries[i].mask, entries[j].mask) == entries[i].mask ==> entries[j].mask == entries[i].mask)
  {
    hide NumBits; hide And; hide LastMatch;
    Winner(entries, w, illegal);
    forall j: nat | j < |entries| && Matches(w, entries[j].mask, entries[j].pattern)
      ensures NumBits(entries[j].mask) <= NumBits(entries[i].mask)
      ensures And(entries[i].mask, entries[j].mask) == entries[i].mask ==> entries[j].mask == entries[i].mask
    {
      assert j < i ==> Compare(entries[j], entries[i]) <= 0;
      CountsBits(entries[i].mask);
      CountsBits(entries[j].mask);
      if And(entries[i].mask, entries[j].mask) == entries[i].mask {
        Pow2Values();
        FewerBits(entries[i].mask, entries[j].mask, 16);
      }
    }
  }
}
