/** From the lines of the opcode list (Musashi/m68k_in.c) to the entries of the handler table: the variants
that the generator makes of a line, the words they cover, and the masks they have (Musashi/m68kmake.c). */
module OpcodeList {
  import opened Words
  import opened Bits
  import opened OpcodeTable
  import opened OpcodeGenerator

  /** A line as far as masks go: its bit pattern, whether its size is 8, whether it stands for all
      conditions, and its column of allowed addressing modes. */
  datatype Line = Line(mask: u16, match_: u16, eight: bool, conditions: bool, allowed: string)

  predicate WellFormed(l: Line) {
    WithinMask(l.mask, l.match_) && |l.allowed| == 10
  }

  // ------------------------------------------------------------------ addressing modes

  const NO_MODES: string := ".........."

  /** The column and its letter for each mode of EA_INFO but the first. */
  const LETTERS: seq<(nat, char)> :=
    [(0, 'A'), (1, '+'), (1, '+'), (2, '-'), (2, '-'), (3, 'D'), (4, 'X'), (5, 'W'), (6, 'L'), (7, 'd'), (8, 'x'), (9, 'I')]

  predicate HasMode(allowed: string, mode: nat)
    requires |allowed| == 10 && 1 <= mode <= 12
  {
    allowed[LETTERS[mode - 1].0] == LETTERS[mode - 1].1
  }

  /** The generator makes a variant for this mode: modes 3 and 5, for A7, are for size 8 only. */
  predicate Given(l: Line, mode: nat)
    requires |l.allowed| == 10
  {
    if l.allowed == NO_MODES then mode == 0
    else 1 <= mode <= 12 && HasMode(l.allowed, mode) && (mode == 3 || mode == 5 ==> l.eight)
  }

  /** Mask and match of the variant for a mode. */
  function Variant(l: Line, mode: nat): (nat, nat)
    requires mode <= 12
  {
    (Or(l.mask, EA_INFO[mode].0), Or(l.match_, EA_INFO[mode].1))
  }

  predicate Is(l: Line, mode: nat, variant: (u16, u16))
    requires mode <= 12
  {
    Variant(l, mode) == (variant.0 as int, variant.1 as int)
  }

  /** generate_opcode_handler: the variant joins the table. */
  method GenerateHandler(l: Line, mode: nat, variants: seq<(u16, u16)>) returns (variants': seq<(u16, u16)>)
    requires WellFormed(l) && mode <= 12
    ensures |variants'| == |variants| + 1 && variants'[..|variants|] == variants
    ensures Is(l, mode, variants'[|variants|])
  {
    hide Or; hide And;
    var mask, match_ := SetOpcodeStruct(l.mask, l.match_, mode);
    variants' := variants + [(mask, match_)];
  }

  /** A word matches one of the variants. */
  ghost predicate Covered(variants: seq<(u16, u16)>, w: u16) {
    exists k: nat :: k < |variants| && Matches(w, variants[k].0, variants[k].1)
  }

  ghost predicate Wanted(l: Line, variant: (u16, u16), n: nat)
    requires |l.allowed| == 10 && n <= 12
  {
    exists mode: nat :: mode <= n && Given(l, mode) && Is(l, mode, variant)
  }

  ghost predicate Made(l: Line, mode: nat, variants: seq<(u16, u16)>)
    requires mode <= 12
  {
    exists k: nat :: k < |variants| && Is(l, mode, variants[k])
  }

  /** The variants are those for modes up to a number. */
  ghost predicate VariantsUpTo(l: Line, variants: seq<(u16, u16)>, n: nat)
    requires |l.allowed| == 10 && n <= 12
  {
    && (forall k: nat | k < |variants| :: Wanted(l, variants[k], n))
    && (forall mode: nat | mode <= n && Given(l, mode) :: Made(l, mode, variants))
  }

  lemma NextMode(l: Line, before: seq<(u16, u16)>, after: seq<(u16, u16)>, mode: nat)
    requires |l.allowed| == 10 && 1 <= mode <= 12 && VariantsUpTo(l, before, mode - 1)
    requires if Given(l, mode)
             then |after| == |before| + 1 && after[..|before|] == before && Is(l, mode, after[|before|])
             else after == before
    ensures VariantsUpTo(l, after, mode)
  {
    hide Given; hide Is;
    forall k: nat | k < |after| ensures Wanted(l, after[k], mode) {
      if k < |before| {
        assert after[k] == before[k];
        var m: nat :| m <= mode - 1 && Given(l, m) && Is(l, m, before[k]);
      }
    }
    forall m: nat | m <= mode && Given(l, m) ensures Made(l, m, after) {
      if m < mode {
        var k: nat :| k < |before| && Is(l, m, before[k]);
        assert after[k] == before[k];
      }
    }
  }

  method GenerateIf(present: bool, l: Line, mode: nat, variants: seq<(u16, u16)>) returns (variants': seq<(u16, u16)>)
    requires WellFormed(l) && 1 <= mode <= 12 && present == Given(l, mode) && VariantsUpTo(l, variants, mode - 1)
    ensures VariantsUpTo(l, variants', mode)
  {
    hide Given; hide Is;
    variants' := variants;
    if present { variants' := GenerateHandler(l, mode, variants); }
    NextMode(l, variants, variants', mode);
  }

  /** generate_opcode_ea_variants: the variants of a line cover exactly the words that match it and whose
      low six bits are an addressing mode of the column. */
  method GenerateEaVariants(l: Line) returns (variants: seq<(u16, u16)>)
    requires WellFormed(l)
    ensures VariantsUpTo(l, variants, 12)
    ensures l.allowed == NO_MODES || l.mask % 64 == 0 ==>
      forall w: u16 :: Covered(variants, w) <==> Matches(w, l.mask, l.match_) && Allowed(l.allowed, w)
    ensures l.allowed == NO_MODES ==> variants == [(l.mask, l.match_)]
    ensures l.allowed != NO_MODES && l.mask % 64 == 0 ==>
      var c := l.allowed;
      && (Joined(l, variants, 0x38, 0x10) <==> c[0] == 'A') && (Joined(l, variants, 0x38, 0x18) <==> c[1] == '+')
      && (Joined(l, variants, 0x3f, 0x1f) <==> c[1] == '+' && l.eight)
      && (Joined(l, variants, 0x38, 0x20) <==> c[2] == '-')
      && (Joined(l, variants, 0x3f, 0x27) <==> c[2] == '-' && l.eight)
      && (Joined(l, variants, 0x38, 0x28) <==> c[3] == 'D') && (Joined(l, variants, 0x38, 0x30) <==> c[4] == 'X')
      && (Joined(l, variants, 0x3f, 0x38) <==> c[5] == 'W') && (Joined(l, variants, 0x3f, 0x39) <==> c[6] == 'L')
      && (Joined(l, variants, 0x3f, 0x3a) <==> c[7] == 'd') && (Joined(l, variants, 0x3f, 0x3b) <==> c[8] == 'x')
      && (Joined(l, variants, 0x3f, 0x3c) <==> c[9] == 'I')
  {
    hide Variant; hide Matches; hide Allowed; hide Covered; hide WithinMask; hide VariantsUpTo;
    if l.allowed == NO_MODES {
      variants := GenerateHandler(l, 0, []);
      OneVariant(l, variants);
      PlainVariant(l);
      assert variants == [(l.mask, l.match_)];
    } else {
      NoVariants(l);
      variants := GenerateIf(l.allowed[0] == 'A', l, 1, []);
      variants := GenerateIf(l.allowed[1] == '+', l, 2, variants);
      variants := GenerateIf(l.allowed[1] == '+' && l.eight, l, 3, variants);
      variants := GenerateIf(l.allowed[2] == '-', l, 4, variants);
      variants := GenerateIf(l.allowed[2] == '-' && l.eight, l, 5, variants);
      variants := GenerateIf(l.allowed[3] == 'D', l, 6, variants);
      variants := GenerateIf(l.allowed[4] == 'X', l, 7, variants);
      variants := GenerateIf(l.allowed[5] == 'W', l, 8, variants);
      variants := GenerateIf(l.allowed[6] == 'L', l, 9, variants);
      variants := GenerateIf(l.allowed[7] == 'd', l, 10, variants);
      variants := GenerateIf(l.allowed[8] == 'x', l, 11, variants);
      variants := GenerateIf(l.allowed[9] == 'I', l, 12, variants);
    }
    if l.allowed == NO_MODES || l.mask % 64 == 0 {
      forall w: u16 ensures Covered(variants, w) <==> Matches(w, l.mask, l.match_) && Allowed(l.allowed, w) {
        VariantsCover(l, variants, w);
      }
    }
    if l.allowed != NO_MODES && l.mask % 64 == 0 {
      forall mode: nat | 1 <= mode <= 12
        ensures Joined(l, variants, EA_INFO[mode].0, EA_INFO[mode].1) <==> Given(l, mode)
      {
        ModeJoined(l, variants, mode);
      }
      ModesListed(l, variants);
    }
  }

  /** There is a variant that adds these bits to the mask and to the match of the line. */
  ghost predicate Joined(l: Line, variants: seq<(u16, u16)>, mask: u16, match_: u16) {
    exists k: nat :: k < |variants| && variants[k].0 as int == Or(l.mask, mask) && variants[k].1 as int == Or(l.match_, match_)
  }

  lemma PlainVariant(l: Line)
    ensures Variant(l, 0) == (l.mask as int, l.match_ as int)
  {
    AndZero(l.mask);
    AndZero(l.match_);
  }

  /** For a line without bits in the mode field the modes can be told apart. */
  lemma ModeJoined(l: Line, variants: seq<(u16, u16)>, mode: nat)
    requires WellFormed(l) && l.allowed != NO_MODES && l.mask % 64 == 0 && 1 <= mode <= 12 && VariantsUpTo(l, variants, 12)
    ensures Joined(l, variants, EA_INFO[mode].0, EA_INFO[mode].1) <==> Given(l, mode)
  {
    hide Or; hide And; hide HasMode; hide WithinMask;
    if Joined(l, variants, EA_INFO[mode].0, EA_INFO[mode].1) {
      var k: nat :| k < |variants| && Is(l, mode, variants[k]);
      assert Wanted(l, variants[k], 12);
      var mode': nat :| mode' <= 12 && Given(l, mode') && Is(l, mode', variants[k]);
      IsVariant(l, mode, variants[k]);
      IsVariant(l, mode', variants[k]);
      SameMode(l, mode, mode');
    }
    if Given(l, mode) {
      var k: nat :| k < |variants| && Is(l, mode, variants[k]);
    }
  }

  lemma IsVariant(l: Line, mode: nat, variant: (u16, u16))
    requires mode <= 12
    ensures Is(l, mode, variant) <==>
      variant.0 as int == Or(l.mask, EA_INFO[mode].0) && variant.1 as int == Or(l.match_, EA_INFO[mode].1)
  {
  }

  lemma SameMode(l: Line, mode: nat, mode': nat)
    requires WellFormed(l) && l.mask % 64 == 0 && 1 <= mode <= 12 && 1 <= mode' <= 12
    requires Or(l.mask, EA_INFO[mode].0) == Or(l.mask, EA_INFO[mode'].0)
    requires Or(l.match_, EA_INFO[mode].1) == Or(l.match_, EA_INFO[mode'].1)
    ensures mode == mode'
  {
    hide Or; hide And; hide WithinMask;
    MatchLow(l.mask, l.match_);
    assert EA_INFO[mode].0 < 64 && EA_INFO[mode].1 < 64 && EA_INFO[mode'].0 < 64 && EA_INFO[mode'].1 < 64;
    WithMode(l.mask / 64, EA_INFO[mode].0);
    WithMode(l.mask / 64, EA_INFO[mode'].0);
    WithMode(l.match_ / 64, EA_INFO[mode].1);
    WithMode(l.match_ / 64, EA_INFO[mode'].1);
    assert EA_INFO[mode] == EA_INFO[mode'];
    DifferentModes(mode, mode');
  }

  lemma DifferentModes(mode: nat, mode': nat)
    requires 1 <= mode <= 12 && 1 <= mode' <= 12 && EA_INFO[mode] == EA_INFO[mode']
    ensures mode == mode'
  {
  }

  lemma MatchLow(mask: u16, match_: u16)
    requires WithinMask(mask, match_) && mask % 64 == 0
    ensures match_ % 64 == 0
  {
    hide And; hide Join; hide Pow2;
    Powers();
    Parts(mask, 6);
    Parts(match_, 6);
    AndZero(match_ % 64);
    AndJoin(match_ / 64, match_ % 64, mask / 64, 0, 6);
    JoinInjective(match_ / 64, match_ % 64, And(match_ / 64, mask / 64), 0);
  }

  /** The modes with the column and the letter that permit each. */
  lemma ModesListed(l: Line, variants: seq<(u16, u16)>)
    requires |l.allowed| == 10 && l.allowed != NO_MODES
    requires forall mode: nat | 1 <= mode <= 12 ::
      Joined(l, variants, EA_INFO[mode].0, EA_INFO[mode].1) <==> Given(l, mode)
    ensures var c := l.allowed;
      && (Joined(l, variants, 0x38, 0x10) <==> c[0] == 'A') && (Joined(l, variants, 0x38, 0x18) <==> c[1] == '+')
      && (Joined(l, variants, 0x3f, 0x1f) <==> c[1] == '+' && l.eight)
      && (Joined(l, variants, 0x38, 0x20) <==> c[2] == '-')
      && (Joined(l, variants, 0x3f, 0x27) <==> c[2] == '-' && l.eight)
      && (Joined(l, variants, 0x38, 0x28) <==> c[3] == 'D') && (Joined(l, variants, 0x38, 0x30) <==> c[4] == 'X')
      && (Joined(l, variants, 0x3f, 0x38) <==> c[5] == 'W') && (Joined(l, variants, 0x3f, 0x39) <==> c[6] == 'L')
      && (Joined(l, variants, 0x3f, 0x3a) <==> c[7] == 'd') && (Joined(l, variants, 0x3f, 0x3b) <==> c[8] == 'x')
      && (Joined(l, variants, 0x3f, 0x3c) <==> c[9] == 'I')
  {
    hide Joined;
    assert Given(l, 1) <==> l.allowed[0] == 'A';
    assert Given(l, 2) <==> l.allowed[1] == '+';
    assert Given(l, 3) <==> l.allowed[1] == '+' && l.eight;
    assert Given(l, 4) <==> l.allowed[2] == '-';
    assert Given(l, 5) <==> l.allowed[2] == '-' && l.eight;
    assert Given(l, 6) <==> l.allowed[3] == 'D';
    assert Given(l, 7) <==> l.allowed[4] == 'X';
    assert Given(l, 8) <==> l.allowed[5] == 'W';
    assert Given(l, 9) <==> l.allowed[6] == 'L';
    assert Given(l, 10) <==> l.allowed[7] == 'd';
    assert Given(l, 11) <==> l.allowed[8] == 'x';
    assert Given(l, 12) <==> l.allowed[9] == 'I';
  }

  lemma OneVariant(l: Line, variants: seq<(u16, u16)>)
    requires |l.allowed| == 10 && l.allowed == NO_MODES && |variants| == 1 && Is(l, 0, variants[0])
    ensures VariantsUpTo(l, variants, 12)
  {
    hide Is;
  }

  lemma NoVariants(l: Line)
    requires |l.allowed| == 10 && l.allowed != NO_MODES
    ensures VariantsUpTo(l, [], 0)
  {
  }

  /** The low six bits of an instruction word are an effective address that the column allows. */
  predicate Allowed(allowed: string, w: u16)
    requires |allowed| == 10
  {
    var m, r := w / 8 % 8, w % 8;
    || allowed == NO_MODES
    || (m == 2 && allowed[0] == 'A') || (m == 3 && allowed[1] == '+') || (m == 4 && allowed[2] == '-')
    || (m == 5 && allowed[3] == 'D') || (m == 6 && allowed[4] == 'X')
    || (m == 7 && ((r == 0 && allowed[5] == 'W') || (r == 1 && allowed[6] == 'L') || (r == 2 && allowed[7] == 'd')
                   || (r == 3 && allowed[8] == 'x') || (r == 4 && allowed[9] == 'I')))
  }

  lemma EaBits(w: u16)
    ensures And(w, 0x38) == w / 8 % 8 * 8 && And(w, 0x3f) == w % 64 == w / 8 % 8 * 8 + w % 8
  {
    hide And; hide Join; hide Pow2;
    assert Pow2(3) == 8 && Pow2(6) == 64 by { Powers(); }
    Parts(w, 3);
    JoinEight(7, 0);
    JoinEight(w / 8 % 8, 0);
    AndJoin(w / 8, w % 8, 7, 0, 3);
    AndZero(w % 8);
    AndOnes(w / 8, 3);
    AndOnes(w, 6);
    LowSix(w);
  }

  lemma LowSix(w: u16)
    ensures w / 8 >= 0 && w % 64 == w / 8 % 8 * 8 + w % 8
  {
  }

  /** The words of a mode. */
  lemma ModeWords(mode: nat, w: u16)
    requires 1 <= mode <= 12
    ensures Matches(w, EA_INFO[mode].0, EA_INFO[mode].1) <==>
      if EA_INFO[mode].0 == 0x38 then w / 8 % 8 * 8 == EA_INFO[mode].1
      else w / 8 % 8 == EA_INFO[mode].1 / 8 && w % 8 == EA_INFO[mode].1 % 8
  {
    hide And;
    EaBits(w);
    assert EA_INFO[mode].0 == 0x38 || EA_INFO[mode].0 == 0x3f;
  }

  lemma SomeMode(l: Line, w: u16)
    requires |l.allowed| == 10
    ensures Allowed(l.allowed, w) <==>
      exists mode: nat :: mode <= 12 && Given(l, mode) && Matches(w, EA_INFO[mode].0, EA_INFO[mode].1)
  {
    hide Matches;
    if l.allowed == NO_MODES {
      AnyWord(w);
      assert Given(l, 0);
    } else {
      forall mode: nat | 1 <= mode <= 12
        ensures Matches(w, EA_INFO[mode].0, EA_INFO[mode].1) <==>
          if EA_INFO[mode].0 == 0x38 then w / 8 % 8 * 8 == EA_INFO[mode].1
          else w / 8 % 8 == EA_INFO[mode].1 / 8 && w % 8 == EA_INFO[mode].1 % 8
      {
        ModeWords(mode, w);
      }
      if Allowed(l.allowed, w) {
        var m := w / 8 % 8;
        var mode := if m < 4 then m - 1 else if m == 4 then 4 else if m < 7 then m + 1 else 8 + w % 8;
        assert Given(l, mode) && Matches(w, EA_INFO[mode].0, EA_INFO[mode].1);
      }
    }
  }

  lemma AnyWord(w: u16)
    ensures Matches(w, 0, 0)
  {
    AndZero(w);
  }

  /** A mask without the low six bits agrees with every mode. */
  lemma ModeAgrees(mask: u16, match_: u16, mode: nat)
    requires WithinMask(mask, match_) && mode <= 12 && (mode == 0 || mask % 64 == 0)
    ensures Agree(mask, match_, EA_INFO[mode].0, EA_INFO[mode].1)
  {
    hide And; hide Join; hide Pow2;
    AndZero(match_);
    AndZero(mask);
    if mode > 0 {
      var em, e := EA_INFO[mode].0, EA_INFO[mode].1;
      assert em < 64 && e < 64;
      Powers();
      Parts(mask, 6);
      Parts(match_, 6);
      JoinTop(em);
      JoinTop(e);
      AndZero(mask / 64);
      AndZero(match_ / 64);
      AndZero(match_ % 64);
      AndZero(em);
      AndZero(e);
      AndJoin(match_ / 64, match_ % 64, mask / 64, 0, 6);
      JoinInjective(match_ / 64, match_ % 64, And(match_ / 64, mask / 64), 0);
      AndJoin(match_ / 64, 0, 0, em, 6);
      AndJoin(0, e, mask / 64, 0, 6);
    }
  }

  lemma JoinTop(x: nat)
    ensures Join(0, 6, x) == x
  {
  }

  lemma JoinInjective(x: nat, y: nat, x': nat, y': nat)
    requires y < 64 && y' < 64 && Join(x, 6, y) == Join(x', 6, y')
    ensures x == x' && y == y'
  {
    hide Pow2;
    Powers();
  }

  lemma VariantMatches(l: Line, mode: nat, w: u16)
    requires WellFormed(l) && mode <= 12 && (mode == 0 || l.mask % 64 == 0)
    ensures And(w, Variant(l, mode).0) == Variant(l, mode).1 <==>
      Matches(w, l.mask, l.match_) && Matches(w, EA_INFO[mode].0, EA_INFO[mode].1)
  {
    hide And; hide Or;
    ModeWithin(mode);
    ModeAgrees(l.mask, l.match_, mode);
    BothMatch(w, l.mask, l.match_, EA_INFO[mode].0, EA_INFO[mode].1);
  }

  lemma VariantsCover(l: Line, variants: seq<(u16, u16)>, w: u16)
    requires WellFormed(l) && VariantsUpTo(l, variants, 12) && (l.allowed == NO_MODES || l.mask % 64 == 0)
    ensures Covered(variants, w) <==> Matches(w, l.mask, l.match_) && Allowed(l.allowed, w)
  {
    hide And; hide Or; hide Variant; hide Allowed; hide HasMode; hide WithinMask;
    SomeMode(l, w);
    forall mode: nat | mode <= 12 && Given(l, mode)
      ensures And(w, Variant(l, mode).0) == Variant(l, mode).1 <==>
        Matches(w, l.mask, l.match_) && Matches(w, EA_INFO[mode].0, EA_INFO[mode].1)
    {
      VariantMatches(l, mode, w);
    }
    if Matches(w, l.mask, l.match_) && Allowed(l.allowed, w) {
      var mode: nat :| mode <= 12 && Given(l, mode) && Matches(w, EA_INFO[mode].0, EA_INFO[mode].1);
      var k: nat :| k < |variants| && Is(l, mode, variants[k]);
      assert Matches(w, variants[k].0, variants[k].1);
    }
  }

  // ------------------------------------------------------------------ conditions

  /** The line for one condition; the line itself if it does not stand for all of them. */
  function Expanded(l: Line, match_: u16): Line {
    OrBound(l.mask, 0x0f00);
    if l.conditions then Line(Or(l.mask, 0x0f00), match_, l.eight, false, l.allowed) else l
  }

  /** The generator makes this variant of the line. */
  ghost predicate Generated(l: Line, variant: (u16, u16)) {
    |l.allowed| == 10 && exists match_: u16 :: WellFormed(Expanded(l, match_)) && Wanted(Expanded(l, match_), variant, 12)
  }

  /** What a line stands for: its pattern, its addressing modes and all conditions but T and F. */
  ghost predicate Meant(l: Line, w: u16)
    requires |l.allowed| == 10
  {
    && Allowed(l.allowed, w)
    && if l.conditions then Condition(w) >= 2 && Matches(w, Fixed(l.mask), Fixed(l.match_)) else Matches(w, l.mask, l.match_)
  }

  /** generate_opcode_cc_variants around generate_opcode_ea_variants: the entries made of a line match
      exactly the words that the line stands for. */
  method GenerateVariants(l: Line) returns (variants: seq<(u16, u16)>)
    requires WellFormed(l)
    ensures forall k: nat | k < |variants| :: Generated(l, variants[k])
    ensures l.allowed == NO_MODES || l.mask % 64 == 0 ==> forall w: u16 :: Covered(variants, w) <==> Meant(l, w)
  {
    hide Matches; hide Allowed; hide Covered; hide WithinMask; hide Wanted; hide Given; hide Fixed; hide Or; hide Condition;
    if !l.conditions {
      variants := GenerateEaVariants(l);
      forall k: nat | k < |variants| ensures Generated(l, variants[k]) {
        assert Expanded(l, 0) == l;
      }
    } else {
      var mask, matches := GenerateCcVariants(l.mask, l.match_);
      ConditionMask(l.mask);
      variants := [];
      forall w: u16 ensures !Covered(variants, w) { NoneCovered(w); }
      for i := 0 to 14
        invariant forall k: nat | k < |variants| :: Generated(l, variants[k])
        invariant l.allowed == NO_MODES || l.mask % 64 == 0 ==>
          forall w: u16 :: Covered(variants, w) <==> Allowed(l.allowed, w) && SomeOf(mask, matches[..i], w)
      {
        var more := GenerateEaVariants(Line(mask, matches[i], l.eight, false, l.allowed));
        assert Expanded(l, matches[i]) == Line(mask, matches[i], l.eight, false, l.allowed);
        forall w: u16
          ensures Covered(variants + more, w) <==> Covered(variants, w) || Covered(more, w)
          ensures SomeOf(mask, matches[..i + 1], w) <==> SomeOf(mask, matches[..i], w) || Matches(w, mask, matches[i])
        {
          CoveredBoth(variants, more, w);
          NextOf(mask, matches, i, w);
        }
        variants := variants + more;
      }
      assert matches[..14] == matches;
      forall w: u16 ensures SomeOf(mask, matches, w) <==> Condition(w) >= 2 && Matches(w, Fixed(l.mask), Fixed(l.match_)) {
        AllConditions(l, mask, matches, w);
      }
    }
  }

  lemma NoneCovered(w: u16)
    ensures !Covered([], w)
  {
  }

  lemma AllConditions(l: Line, mask: u16, matches: seq<u16>, w: u16)
    requires |matches| == 14 && forall k: nat | k < 14 ::
      Matches(w, mask, matches[k]) <==> Condition(w) == k + 2 && Matches(w, Fixed(l.mask), Fixed(l.match_))
    ensures SomeOf(mask, matches, w) <==> Condition(w) >= 2 && Matches(w, Fixed(l.mask), Fixed(l.match_))
  {
    hide Matches; hide Fixed;
    var k := Condition(w) - 2;
    assert k < 14;
    assert k >= 0 ==> (Matches(w, mask, matches[k]) <==> Matches(w, Fixed(l.mask), Fixed(l.match_)));
  }

  ghost predicate SomeOf(mask: u16, matches: seq<u16>, w: u16) {
    exists k: nat :: k < |matches| && Matches(w, mask, matches[k])
  }

  lemma NextOf(mask: u16, matches: seq<u16>, i: nat, w: u16)
    requires i < |matches|
    ensures SomeOf(mask, matches[..i + 1], w) <==> SomeOf(mask, matches[..i], w) || Matches(w, mask, matches[i])
  {
    hide Matches;
    if SomeOf(mask, matches[..i], w) {
      var k: nat :| k < i && Matches(w, mask, matches[..i][k]);
      assert matches[..i + 1][k] == matches[..i][k];
    }
    assert matches[..i + 1][i] == matches[i];
    if SomeOf(mask, matches[..i + 1], w) && !Matches(w, mask, matches[i]) {
      var k: nat :| k < i + 1 && Matches(w, mask, matches[..i + 1][k]);
      assert matches[..i][k] == matches[..i + 1][k];
    }
  }

  lemma CoveredBoth(a: seq<(u16, u16)>, b: seq<(u16, u16)>, w: u16)
    ensures Covered(a + b, w) <==> Covered(a, w) || Covered(b, w)
  {
    hide Matches;
    if Covered(a, w) {
      var k: nat :| k < |a| && Matches(w, a[k].0, a[k].1);
      assert (a + b)[k] == a[k];
    }
    if Covered(b, w) {
      var k: nat :| k < |b| && Matches(w, b[k].0, b[k].1);
      assert (a + b)[|a| + k] == b[k];
    }
    if Covered(a + b, w) {
      var k: nat :| k < |a + b| && Matches(w, (a + b)[k].0, (a + b)[k].1);
      assert (a + b)[k] == if k < |a| then a[k] else b[k - |a|];
    }
  }

  lemma ConditionMask(mask: u16)
    ensures Or(mask, 0x0f00) % 64 == mask % 64
  {
    hide Or; hide Pow2; hide Join;
    Powers();
    Parts(mask, 6);
    Parts(0x0f00, 6);
    OrJoin(mask / 64, mask % 64, 60, 0, 6);
    AndZero(mask % 64);
    PartsOf(Or(mask / 64, 60), 6, mask % 64);
  }

  // ------------------------------------------------------------------ the masks of the list

  /** The kinds of lines in the opcode list. */
  predicate Listed(l: Line) {
    && WellFormed(l)
    && if l.conditions then
         if l.allowed == NO_MODES then l.mask in {0xf000, 0xf0f8, 0xf0ff} else l.mask == 0xf0c0
       else if l.allowed == NO_MODES then
         l.mask in {0xf000, 0xf100, 0xf180, 0xf1c0, 0xff00, 0xf1f8, 0xfff0, 0xf1ff, 0xfff8, 0xffff}
       else l.mask in {0xf1c0, 0xffc0}
  }

  /** The sixteen kinds, in turn: bit patterns without modes, with modes, and the two with conditions. */
  lemma SixteenKinds(eight: bool, modes: string)
    requires |modes| == 10 && modes != NO_MODES
    ensures forall mask <- [0xf000, 0xf100, 0xf180, 0xf1c0, 0xff00, 0xf1f8, 0xfff0, 0xf1ff, 0xfff8, 0xffff] ::
      Listed(Line(mask, 0, eight, false, NO_MODES))
    ensures forall mask <- [0xf1c0, 0xffc0] :: Listed(Line(mask, 0, eight, false, modes))
    ensures forall mask <- [0xf000, 0xf0f8, 0xf0ff] :: Listed(Line(mask, 0, eight, true, NO_MODES))
    ensures Listed(Line(0xf0c0, 0, eight, true, modes))
  {
    forall mask: nat ensures And(0, mask) == 0 { AndZero(mask); }
    hide And;
  }

  /** For lines of the list every variant has a mask before 0xff00 or one that has a fill loop. */
  lemma ListedMasks(l: Line, variant: (u16, u16))
    requires Listed(l) && Generated(l, variant)
    ensures variant.0 in {0xf000, 0xf100, 0xf180, 0xf1c0, 0xff00, 0xf1f8, 0xfff0, 0xf1ff, 0xfff8, 0xffff}
    ensures WithinMask(variant.0, variant.1)
  {
    hide And; hide Or; hide HasMode; hide Join;
    var match_: u16 :| WellFormed(Expanded(l, match_)) && Wanted(Expanded(l, match_), variant, 12);
    var l' := Expanded(l, match_);
    var mode: nat :| mode <= 12 && Given(l', mode) && Is(l', mode, variant);
    ModeWithin(mode);
    BothWithin(l'.mask, l'.match_, EA_INFO[mode].0, EA_INFO[mode].1);
    WithConditions(0);
    WithConditions(0xf8);
    WithConditions(0xff);
    WithConditions(0xc0);
    AndZero(l'.mask);
    if l.allowed != NO_MODES {
      assert EA_INFO[mode].0 == 0x38 || EA_INFO[mode].0 == 0x3f;
      WithMode(0x3c7, EA_INFO[mode].0);
      WithMode(0x3ff, EA_INFO[mode].0);
    }
  }

  lemma WithConditions(low: u16)
    requires low < 0x100
    ensures Or(0xf000 + low, 0x0f00) == 0xff00 + low
  {
    hide Or; hide Pow2;
    Powers();
    OrJoin(0xf0, low, 0x0f, 0, 8);
    OrLow(0xf, 4, 0xf);
    AndZero(low);
  }

  lemma WithMode(high: nat, low: nat)
    requires low < 64
    ensures Or(high * 64, low) == high * 64 + low
  {
    hide Or; hide Pow2;
    Powers();
    OrLow(high, 6, low);
  }

  lemma GeneralBits()
    ensures NumBits(0xf000) == 4 && NumBits(0xf100) == 5 && NumBits(0xf180) == 6 && NumBits(0xf1c0) == 7
  {
    hide NumBits; hide DigitSum; hide Nibble;
    CountsBits(0xf000);
    CountsBits(0xf100);
    CountsBits(0xf180);
    CountsBits(0xf1c0);
    Nibbles();
    assert Nibble(0xc) == 2 by { TwelveBits(); }
    Hexadecimal(0xf000, 0xf00, 0xf0, 0xf, 0, 0, 0);
    Hexadecimal(0xf100, 0xf10, 0xf1, 0xf, 1, 0, 0);
    Hexadecimal(0xf180, 0xf18, 0xf1, 0xf, 1, 8, 0);
    Hexadecimal(0xf1c0, 0xf1c, 0xf1, 0xf, 1, 0xc, 0);
  }

  lemma TwelveBits()
    ensures Nibble(0xc) == 2
  {
  }

  /** The entry is a variant of some line of the list. */
  ghost predicate FromList(variant: (u16, u16)) {
    exists l: Line :: Listed(l) && Generated(l, variant)
  }

  /** Sorting the variants of listed lines gives a table that the builder can work on, so long as one of
      them is there whose mask ends the general loop. */
  lemma TableIsGrouped<H>(entries: seq<Entry<H>>)
    requires Sorted(entries) && forall i: nat | i < |entries| :: FromList((entries[i].mask, entries[i].pattern))
    requires exists i: nat :: i < |entries| && entries[i].mask == 0xff00
    ensures Grouped(entries) && forall i: nat | i < |entries| :: WithinMask(entries[i].mask, entries[i].pattern)
  {
    hide NumBits; hide Listed; hide Generated; hide WithinMask;
    PhaseBits();
    GeneralBits();
    forall i: nat | i < |entries|
      ensures WithinMask(entries[i].mask, entries[i].pattern)
      ensures ComesBefore(entries[i].mask, 0xff00) || Phase(entries[i].mask) >= 1
    {
      var l: Line :| Listed(l) && Generated(l, (entries[i].mask, entries[i].pattern));
      ListedMasks(l, (entries[i].mask, entries[i].pattern));
    }
    SortedIsGrouped(entries);
  }
}
