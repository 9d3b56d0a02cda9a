/** What the GEMDOS memory functions do to the list of memory areas, as functions on sequences, and the
properties of that (gemdosmem.c). */
module Allocation {
  import opened Words

  datatype Area = Area(base: u32, len: u32) {
    /** base + len on 32-bit words. */
    function Top(): u32 {
      Wrap(base as int + len)
    }
  }

  const USER_BASE: u32 := 0x900
  const EIMBA: u32 := TWO32 - 40
  const EGSBF: u32 := TWO32 - 67

  // ------------------------------------------------------------------ gaps

  /** There is a gap after every area, the last one up to the allocatable top.  Only an empty list has a
      gap that follows no area. */
  function GapCount(areas: seq<Area>): nat {
    if |areas| == 0 then 1 else |areas|
  }

  function GapBase(areas: seq<Area>, i: nat): u32
    requires i < GapCount(areas)
  {
    if |areas| == 0 then USER_BASE else areas[i].Top()
  }

  /** Gap sizes are differences of 32-bit words. */
  function GapSize(areas: seq<Area>, top: u32, i: nat): u32
    requires i < GapCount(areas)
  {
    Wrap((if i + 1 < |areas| then areas[i + 1].base else top) as int - GapBase(areas, i))
  }

  predicate Fits(areas: seq<Area>, top: u32, i: nat, n: u32)
    requires i < GapCount(areas)
  {
    GapSize(areas, top, i) > n
  }

  /** i is the lowest gap larger than n. */
  predicate FirstFit(areas: seq<Area>, top: u32, i: nat, n: u32) {
    i < GapCount(areas) && Fits(areas, top, i, n) && forall j: nat | j < i :: !Fits(areas, top, j, n)
  }

  predicate NoFit(areas: seq<Area>, top: u32, n: u32) {
    forall j: nat | j < GapCount(areas) :: !Fits(areas, top, j, n)
  }

  /** The list with a new area at the start of gap i. */
  function Insert(areas: seq<Area>, i: nat, n: u32): seq<Area>
    requires i < GapCount(areas)
  {
    if |areas| == 0 then [Area(GapBase(areas, i), n)]
    else areas[..i + 1] + [Area(GapBase(areas, i), n)] + areas[i + 1..]
  }

  /** m is the size of the largest gap. */
  predicate IsLargestGap(areas: seq<Area>, top: u32, m: u32) {
    (forall i: nat | i < GapCount(areas) :: GapSize(areas, top, i) <= m)
    && exists i: nat :: i < GapCount(areas) && GapSize(areas, top, i) == m
  }

  /** i is the first area with the given base; |areas| if there is none. */
  predicate FirstAt(areas: seq<Area>, base: u32, i: nat) {
    i <= |areas| && (i < |areas| ==> areas[i].base == base) && forall j: nat | j < i :: areas[j].base != base
  }

  // ------------------------------------------------------------------ the calls

  /** Requests are read as unsigned words, but for -1, which asks for the largest gap. */
  datatype Call = Malloc(n: u32) | Mfree(base: u32) | Mshrink(base: u32, n: u32)

  /** One call takes the list from areas to areas' and returns r. */
  ghost predicate Step(areas: seq<Area>, top: u32, call: Call, areas': seq<Area>, r: u32) {
    match call
    case Malloc(n) =>
      if n == TWO32 - 1 then
        areas' == areas && IsLargestGap(areas, top, r)
      else if NoFit(areas, top, n) then
        areas' == areas && r == 0
      else
        exists i: nat :: FirstFit(areas, top, i, n) && areas' == Insert(areas, i, n) && r == GapBase(areas, i)
    case Mfree(base) =>
      exists i: nat :: FirstAt(areas, base, i) &&
        if i == |areas| then areas' == areas && r == EIMBA
        else areas' == areas[..i] + areas[i + 1..] && r == 0
    case Mshrink(base, n) =>
      exists i: nat :: FirstAt(areas, base, i) &&
        if i == |areas| then areas' == areas && r == EIMBA
        else if areas[i].len < n then areas' == areas && r == EGSBF
        else areas' == areas[i := areas[i].(len := n)] && r == 0
  }

  // ------------------------------------------------------------------ the invariant

  /** Sorted, without overlap or wrap, and below the allocatable top. */
  ghost predicate Laid(areas: seq<Area>, top: u32) {
    (forall i: nat | i + 1 < |areas| :: areas[i].base + areas[i].len <= areas[i + 1].base)
    && (|areas| > 0 ==> areas[|areas| - 1].base + areas[|areas| - 1].len <= top)
    && (|areas| == 0 ==> USER_BASE <= top)
  }

  predicate Apart(a: Area, b: Area) {
    a.base as int + a.len <= b.base || b.base as int + b.len <= a.base
  }

  /** Areas that are apart have no address in common; and if neither is empty, those that have none are apart. */
  lemma ApartMeaning(a: Area, b: Area, x: int)
    ensures Apart(a, b) ==> !(a.base <= x < a.base as int + a.len && b.base <= x < b.base as int + b.len)
    ensures a.len > 0 && b.len > 0 && !Apart(a, b) ==>
      var y := if a.base < b.base then b.base else a.base;
      a.base <= y < a.base as int + a.len && b.base <= y < b.base as int + b.len
  {
  }

  lemma {:induction false} LaidOrder(areas: seq<Area>, top: u32, i: nat, j: nat)
    requires Laid(areas, top) && i < j < |areas|
    ensures areas[i].base + areas[i].len <= areas[j].base
    decreases j
  {
    if i + 1 < j {
      LaidOrder(areas, top, i, j - 1);
    }
  }

  lemma {:induction false} LaidBelowTop(areas: seq<Area>, top: u32, i: nat)
    requires Laid(areas, top) && i < |areas|
    ensures areas[i].base + areas[i].len <= top
  {
    if i < |areas| - 1 {
      LaidOrder(areas, top, i, |areas| - 1);
    }
  }

  /** In a laid-out list gap sizes are true differences. */
  lemma TrueGap(areas: seq<Area>, top: u32, i: nat)
    requires Laid(areas, top) && i < GapCount(areas)
    ensures |areas| > 0 ==> GapBase(areas, i) == areas[i].base + areas[i].len
    ensures GapBase(areas, i) + GapSize(areas, top, i) == (if i + 1 < |areas| then areas[i + 1].base else top)
  {
    if |areas| > 0 {
      LaidBelowTop(areas, top, i);
    }
  }

  lemma InsertKeepsLaid(areas: seq<Area>, top: u32, i: nat, n: u32)
    requires Laid(areas, top) && i < GapCount(areas) && Fits(areas, top, i, n)
    ensures Laid(Insert(areas, i, n), top)
  {
    hide GapSize; hide GapBase;
    TrueGap(areas, top, i);
    var added := Area(GapBase(areas, i), n);
    var areas' := Insert(areas, i, n);
    if |areas| > 0 {
      forall k: nat | k + 1 < |areas'|
        ensures areas'[k].base + areas'[k].len <= areas'[k + 1].base
      {
        if k < i {
        } else if k == i {
          assert areas'[k] == areas[i] && areas'[k + 1] == added;
        } else if k == i + 1 {
          assert areas'[k] == added && areas'[k + 1] == areas[i + 1];
        } else {
          assert areas'[k] == areas[k - 1] && areas'[k + 1] == areas[k];
        }
      }
    }
  }

  lemma RemoveKeepsLaid(areas: seq<Area>, top: u32, i: nat)
    requires Laid(areas, top) && i < |areas| && USER_BASE <= top
    ensures Laid(areas[..i] + areas[i + 1..], top)
  {
    var areas' := areas[..i] + areas[i + 1..];
    forall k: nat | k + 1 < |areas'|
      ensures areas'[k].base + areas'[k].len <= areas'[k + 1].base
    {
      if k + 1 == i {
        LaidOrder(areas, top, k, i + 1);
      }
    }
    if |areas'| > 0 {
      LaidBelowTop(areas, top, if i == |areas| - 1 then i - 1 else |areas| - 1);
    }
  }

  lemma ShrinkKeepsLaid(areas: seq<Area>, top: u32, i: nat, n: u32)
    requires Laid(areas, top) && i < |areas| && n <= areas[i].len
    ensures Laid(areas[i := areas[i].(len := n)], top)
  {
  }

  /** Every call keeps the list laid out. */
  lemma StepKeepsLaid(areas: seq<Area>, top: u32, call: Call, areas': seq<Area>, r: u32)
    requires Laid(areas, top) && USER_BASE <= top && Step(areas, top, call, areas', r)
    ensures Laid(areas', top)
  {
    hide Laid; hide NoFit; hide GapBase; hide Insert;
    match call
    case Malloc(n) =>
      if n != TWO32 - 1 && !NoFit(areas, top, n) {
        var i: nat :| FirstFit(areas, top, i, n) && areas' == Insert(areas, i, n) && r == GapBase(areas, i);
        InsertKeepsLaid(areas, top, i, n);
      }
    case Mfree(base) =>
      var i: nat :| FirstAt(areas, base, i) &&
        if i == |areas| then areas' == areas && r == EIMBA
        else areas' == areas[..i] + areas[i + 1..] && r == 0;
      if i < |areas| {
        RemoveKeepsLaid(areas, top, i);
      }
    case Mshrink(base, n) =>
      var i: nat :| FirstAt(areas, base, i) &&
        if i == |areas| then areas' == areas && r == EIMBA
        else if areas[i].len < n then areas' == areas && r == EGSBF
        else areas' == areas[i := areas[i].(len := n)] && r == 0;
      if i < |areas| && areas[i].len >= n {
        ShrinkKeepsLaid(areas, top, i, n);
      }
  }

  /** A run: every state follows from the one before by a call. */
  ghost predicate Run(top: u32, states: seq<seq<Area>>, calls: seq<Call>, results: seq<u32>) {
    |states| == |calls| + 1 && |results| == |calls|
    && forall k: nat | k < |calls| :: Step(states[k], top, calls[k], states[k + 1], results[k])
  }

  /** Over any run from a laid-out list, every state is laid out. */
  lemma {:induction false} RunKeepsLaid(top: u32, states: seq<seq<Area>>, calls: seq<Call>, results: seq<u32>, k: nat)
    requires Run(top, states, calls, results) && Laid(states[0], top) && USER_BASE <= top && k < |states|
    ensures Laid(states[k], top)
  {
    if k > 0 {
      RunKeepsLaid(top, states, calls, results, k - 1);
      StepKeepsLaid(states[k - 1], top, calls[k - 1], states[k], results[k - 1]);
    }
  }

  /** A new region overlaps no live area, ends below the top, and is all that changed. */
  lemma MallocDisjoint(areas: seq<Area>, top: u32, n: u32, i: nat)
    requires Laid(areas, top) && FirstFit(areas, top, i, n)
    ensures var added := Area(GapBase(areas, i), n);
      && (forall a <- areas :: Apart(a, added)) && added.base + n < top
      && multiset(Insert(areas, i, n)) == multiset(areas) + multiset{added}
  {
    InGap(areas, top, i, n);
    InsertMultiset(areas, i, n);
    hide GapSize; hide GapBase; hide Insert; hide Laid; hide FirstFit; hide Apart;
    forall j: nat | j < |areas|
      ensures Apart(areas[j], Area(GapBase(areas, i), n))
    {
      ApartFromArea(areas, top, i, n, j);
    }
    if i + 1 < |areas| {
      LaidBelowTop(areas, top, i + 1);
    }
  }

  lemma ApartFromArea(areas: seq<Area>, top: u32, i: nat, n: u32, j: nat)
    requires Laid(areas, top) && i < |areas| && j < |areas| && Fits(areas, top, i, n)
    ensures Apart(areas[j], Area(GapBase(areas, i), n))
  {
    hide GapSize; hide GapBase; hide Laid;
    InGap(areas, top, i, n);
    if j < i {
      LaidOrder(areas, top, j, i);
    } else if j > i + 1 {
      LaidOrder(areas, top, i + 1, j);
    }
  }

  lemma InGap(areas: seq<Area>, top: u32, i: nat, n: u32)
    requires Laid(areas, top) && i < GapCount(areas) && Fits(areas, top, i, n)
    ensures |areas| > 0 ==> GapBase(areas, i) == areas[i].base + areas[i].len
    ensures GapBase(areas, i) + n < if i + 1 < |areas| then areas[i + 1].base else top
  {
    hide GapBase; hide GapSize; hide Laid;
    TrueGap(areas, top, i);
  }

  lemma InsertMultiset(areas: seq<Area>, i: nat, n: u32)
    requires i < GapCount(areas)
    ensures multiset(Insert(areas, i, n)) == multiset(areas) + multiset{Area(GapBase(areas, i), n)}
  {
    hide GapBase;
    if |areas| > 0 {
      assert areas == areas[..i + 1] + areas[i + 1..];
    }
  }

  /** The two searches agree in every state, laid out or not: a request succeeds exactly if it is smaller
      than the largest gap. */
  lemma MallocAgreesWithLargest(areas: seq<Area>, top: u32, n: u32, largest: u32)
    requires IsLargestGap(areas, top, largest)
    ensures n < largest <==> !NoFit(areas, top, n)
  {
    var i: nat :| i < GapCount(areas) && GapSize(areas, top, i) == largest;
    if n < largest {
      assert Fits(areas, top, i, n);
    }
  }

  // ------------------------------------------------------------------ Mfree undoes Malloc

  /** The list after freeing the first area at base. */
  function Freed(areas: seq<Area>, base: u32): seq<Area> {
    if |areas| == 0 then [] else if areas[0].base == base then areas[1..] else [areas[0]] + Freed(areas[1..], base)
  }

  lemma {:induction false} FreedAt(areas: seq<Area>, base: u32, i: nat)
    requires FirstAt(areas, base, i) && i < |areas|
    ensures Freed(areas, base) == areas[..i] + areas[i + 1..]
  {
    if i > 0 {
      assert FirstAt(areas[1..], base, i - 1) by {
        forall j: nat | j < i - 1 ensures areas[1..][j].base != base { assert areas[j + 1].base != base; }
      }
      FreedAt(areas[1..], base, i - 1);
      hide Freed; hide FirstAt;
      assert areas[..i] == [areas[0]] + areas[1..][..i - 1];
    }
  }

  /** In a laid-out list, an earlier area with the base of area i is empty, and so are all between. */
  lemma EmptyRun(areas: seq<Area>, top: u32, j: nat, i: nat)
    requires Laid(areas, top) && j < i < |areas| && areas[j].base == areas[i].Top() && areas[i].base + areas[i].len < TWO32
    ensures areas[i].len == 0 && forall k: nat | j <= k <= i :: areas[k] == Area(areas[j].base, 0)
  {
    LaidOrder(areas, top, j, i);
    forall k: nat | j <= k < i
      ensures areas[k] == Area(areas[j].base, 0)
    {
      LaidOrder(areas, top, k, i);
      if k > j {
        LaidOrder(areas, top, j, k);
      }
    }
  }

  /** Freeing what Malloc returned restores the list, unless the block before the gap is empty and the
      request is not: then Mfree finds the empty block first. */
  lemma FreeAfterMalloc(areas: seq<Area>, top: u32, n: u32, i: nat)
    requires Laid(areas, top) && FirstFit(areas, top, i, n)
    ensures Freed(Insert(areas, i, n), GapBase(areas, i)) == areas <==>
            |areas| == 0 || areas[i].len > 0 || n == 0
  {
    if |areas| == 0 {
      assert Freed([Area(GapBase(areas, i), n)], GapBase(areas, i)) == [];
    } else if areas[i].len > 0 {
      FreeAfterBlock(areas, top, n, i);
    } else {
      FreeAfterEmpty(areas, top, n, i);
    }
  }

  /** The same for the two calls: Mfree of what Malloc returned succeeds, and it restores the list exactly if
      the request was empty or there was no empty block at that base. */
  lemma MfreeAfterMalloc(areas: seq<Area>, top: u32, n: u32, a1: seq<Area>, r: u32, a2: seq<Area>, r2: u32)
    requires Laid(areas, top) && n != TWO32 - 1 && !NoFit(areas, top, n)
    requires Step(areas, top, Malloc(n), a1, r) && Step(a1, top, Mfree(r), a2, r2)
    ensures r2 == 0 && (a2 == areas <==> n == 0 || Area(r, 0) !in areas)
  {
    hide Laid; hide Freed; hide NoFit; hide GapSize;
    var i: nat :| FirstFit(areas, top, i, n) && a1 == Insert(areas, i, n) && r == GapBase(areas, i);
    var j: nat :| FirstAt(a1, r, j) && if j == |a1| then a2 == a1 && r2 == EIMBA else a2 == a1[..j] + a1[j + 1..] && r2 == 0;
    assert a1[if |areas| == 0 then 0 else i + 1].base == r;
    FreedAt(a1, r, j);
    FreeAfterMalloc(areas, top, n, i);
    if Area(r, 0) in areas {
      var k: nat :| k < |areas| && areas[k] == Area(r, 0);
      EmptyAtGap(areas, top, n, i, k);
    }
    assert |areas| > 0 && areas[i].len == 0 ==> areas[i] == Area(r, 0);
  }

  /** An empty block at the base of the gap that was found is the one before it, or just as empty a one. */
  lemma EmptyAtGap(areas: seq<Area>, top: u32, n: u32, i: nat, k: nat)
    requires Laid(areas, top) && FirstFit(areas, top, i, n) && k < |areas| && areas[k] == Area(GapBase(areas, i), 0)
    ensures areas[i].len == 0
  {
    hide Laid;
    InGap(areas, top, i, n);
    if k < i {
      LaidOrder(areas, top, k, i);
    } else if k > i + 1 {
      LaidOrder(areas, top, i + 1, k);
    }
  }

  /** A list with an empty block: what Malloc puts behind it at the same base is not what Mfree takes. */
  lemma EmptyBlockFreed()
    ensures var areas := [Area(0x800, 0x200), Area(0xa00, 0)];
      && Laid(areas, 0x1_0000) && FirstFit(areas, 0x1_0000, 1, 4) && GapBase(areas, 1) == 0xa00
      && Freed(Insert(areas, 1, 4), 0xa00) == [Area(0x800, 0x200), Area(0xa00, 4)] != areas
  {
    var areas := [Area(0x800, 0x200), Area(0xa00, 0)];
    assert Insert(areas, 1, 4) == [Area(0x800, 0x200), Area(0xa00, 0), Area(0xa00, 4)];
    FreedAt(Insert(areas, 1, 4), 0xa00, 1);
    assert areas[1] != Area(0xa00, 4);
  }

  lemma FreeAfterBlock(areas: seq<Area>, top: u32, n: u32, i: nat)
    requires Laid(areas, top) && i < |areas| && Fits(areas, top, i, n) && areas[i].len > 0
    ensures Freed(Insert(areas, i, n), GapBase(areas, i)) == areas
  {
    hide Laid; hide Freed; hide GapBase; hide GapSize;
    InGap(areas, top, i, n);
    var base, areas' := GapBase(areas, i), Insert(areas, i, n);
    forall j: nat | j <= i ensures areas'[j].base != base {
      assert areas'[j] == areas[j];
      if j < i { LaidOrder(areas, top, j, i); }
    }
    FreedAt(areas', base, i + 1);
    assert areas == areas'[..i + 1] + areas'[i + 2..];
  }

  lemma FreeAfterEmpty(areas: seq<Area>, top: u32, n: u32, i: nat)
    requires Laid(areas, top) && i < |areas| && Fits(areas, top, i, n) && areas[i].len == 0
    ensures Freed(Insert(areas, i, n), GapBase(areas, i)) == areas <==> n == 0
  {
    hide Laid; hide Freed; hide GapBase; hide GapSize;
    InGap(areas, top, i, n);
    var base, areas' := GapBase(areas, i), Insert(areas, i, n);
    var j := FirstIndex(areas, base, i);
    assert FirstAt(areas', base, j) by {
      forall k: nat | k < j ensures areas'[k].base != base { assert areas'[k] == areas[k]; }
    }
    FreedAt(areas', base, j);
    if j < i {
      EmptyRun(areas, top, j, i);
    }
    FreedEmpty(areas, areas', Area(base, n), j, i);
  }

  lemma FirstIndex(areas: seq<Area>, base: u32, i: nat) returns (j: nat)
    requires i < |areas| && areas[i].base == base
    ensures j <= i && FirstAt(areas, base, j)
  {
    j := 0;
    while areas[j].base != base
      invariant j <= i && forall k: nat | k < j :: areas[k].base != base
      decreases i - j
    {
      j := j + 1;
    }
  }

  /** Removing one of several equal areas in front of the new one leaves the new one in their place. */
  lemma FreedEmpty(areas: seq<Area>, areas': seq<Area>, added: Area, j: nat, i: nat)
    requires j <= i < |areas| && areas' == areas[..i + 1] + [added] + areas[i + 1..]
    requires forall k: nat | j <= k <= i :: areas[k] == Area(added.base, 0)
    ensures areas'[..j] + areas'[j + 1..] == areas <==> added.len == 0
  {
    var left := areas'[..j] + areas'[j + 1..];
    assert |left| == |areas|;
    assert left[i] == added;
    forall k: nat | k < |areas| && k != i
      ensures left[k] == areas[k]
    {
      if k < j {
      } else if k < i {
        assert left[k] == areas'[k + 1] == areas[k + 1];
      } else {
        assert left[k] == areas'[k + 1] == areas[k];
      }
    }
    if added.len == 0 {
      assert left == areas;
    }
  }

  // ------------------------------------------------------------------ the calls, area by area

  /** Mshrink sets the length of the first area with the base, if it does not grow; -67 and -40 are errors. */
  lemma MshrinkMeaning(areas: seq<Area>, top: u32, base: u32, n: u32, areas': seq<Area>, r: u32)
    requires Step(areas, top, Mshrink(base, n), areas', r)
    ensures forall i: nat | i < |areas| && areas[i].base == base && (forall j: nat | j < i :: areas[j].base != base) ::
      if n <= areas[i].len then r == 0 && areas' == areas[i := Area(base, n)]
      else r == 0xffff_ffbd && areas' == areas
    ensures (forall i: nat | i < |areas| :: areas[i].base != base) ==> r == 0xffff_ffd8 && areas' == areas
  {
    var i: nat :| FirstAt(areas, base, i) &&
      if i == |areas| then areas' == areas && r == EIMBA
      else if areas[i].len < n then areas' == areas && r == EGSBF
      else areas' == areas[i := areas[i].(len := n)] && r == 0;
  }

  /** Mfree takes out the first area with the base. */
  lemma MfreeMeaning(areas: seq<Area>, top: u32, base: u32, areas': seq<Area>, r: u32)
    requires Step(areas, top, Mfree(base), areas', r)
    ensures forall i: nat | i < |areas| && areas[i].base == base && (forall j: nat | j < i :: areas[j].base != base) ::
      r == 0 && areas' == areas[..i] + areas[i + 1..]
    ensures (forall i: nat | i < |areas| :: areas[i].base != base) ==> r == 0xffff_ffd8 && areas' == areas
  {
    var i: nat :| FirstAt(areas, base, i) &&
      if i == |areas| then areas' == areas && r == EIMBA
      else areas' == areas[..i] + areas[i + 1..] && r == 0;
  }

  /** The bytes between area i and the next one, or the top. */
  function SpaceAfter(areas: seq<Area>, top: u32, i: nat): int
    requires i < |areas|
  {
    (if i + 1 < |areas| then areas[i + 1].base else top) as int - areas[i].base - areas[i].len
  }

  lemma SpaceIsGap(areas: seq<Area>, top: u32, i: nat)
    requires i < |areas|
    ensures GapBase(areas, i) as int == (areas[i].base + areas[i].len) % 0x1_0000_0000
    ensures GapSize(areas, top, i) as int == SpaceAfter(areas, top, i) % 0x1_0000_0000
    ensures Laid(areas, top) ==> GapSize(areas, top, i) as int == SpaceAfter(areas, top, i)
                                 && GapBase(areas, i) as int == areas[i].base + areas[i].len
  {
    var end: int := areas[i].base + areas[i].len;
    var next: int := if i + 1 < |areas| then areas[i + 1].base else top;
    WrapAdd(-end, next);
    assert GapSize(areas, top, i) == Wrap(next - end) by { WrapMinus(next, end); }
    if Laid(areas, top) {
      LaidBelowTop(areas, top, i);
      TrueGap(areas, top, i);
    }
  }

  lemma WrapMinus(a: int, b: int)
    ensures Wrap(a - Wrap(b)) == Wrap(a - b)
  {
  }

  /** Malloc on a list that is laid out: at the end of the first area with more than n bytes after it; a
      list without areas counts from 0x900. */
  lemma MallocMeaning(areas: seq<Area>, top: u32, n: u32, areas': seq<Area>, r: u32)
    requires Laid(areas, top) && n != 0xffff_ffff && Step(areas, top, Malloc(n), areas', r)
    ensures forall i: nat | i < |areas| && SpaceAfter(areas, top, i) > n
                            && (forall j: nat | j < i :: SpaceAfter(areas, top, j) <= n) ::
      r as int == areas[i].base + areas[i].len && areas' == areas[..i + 1] + [Area(r, n)] + areas[i + 1..]
    ensures |areas| > 0 && (forall i: nat | i < |areas| :: SpaceAfter(areas, top, i) <= n) ==> r == 0 && areas' == areas
    ensures |areas| == 0 ==> if top as int - 0x900 > n then r == 0x900 && areas' == [Area(0x900, n)] else r == 0 && areas' == []
  {
    hide Laid; hide Step;
    if |areas| == 0 {
      assert areas == [];
      MallocEmpty(top, n, areas', r);
    } else {
      MallocGaps(areas, top, n, areas', r);
    }
  }

  lemma MallocGaps(areas: seq<Area>, top: u32, n: u32, areas': seq<Area>, r: u32)
    requires |areas| > 0 && Laid(areas, top) && n != 0xffff_ffff && Step(areas, top, Malloc(n), areas', r)
    ensures forall i: nat | i < |areas| && SpaceAfter(areas, top, i) > n
                            && (forall j: nat | j < i :: SpaceAfter(areas, top, j) <= n) ::
      r as int == areas[i].base + areas[i].len && areas' == areas[..i + 1] + [Area(r, n)] + areas[i + 1..]
    ensures (forall i: nat | i < |areas| :: SpaceAfter(areas, top, i) <= n) ==> r == 0 && areas' == areas
  {
    hide GapBase; hide GapSize; hide Laid; hide SpaceAfter;
    forall i: nat | i < |areas|
      ensures GapSize(areas, top, i) as int == SpaceAfter(areas, top, i)
      ensures GapBase(areas, i) as int == areas[i].base + areas[i].len
    {
      SpaceIsGap(areas, top, i);
    }
    if !NoFit(areas, top, n) {
      var k: nat :| FirstFit(areas, top, k, n) && areas' == Insert(areas, k, n) && r == GapBase(areas, k);
      forall i: nat | i < |areas| && SpaceAfter(areas, top, i) > n && (forall j: nat | j < i :: SpaceAfter(areas, top, j) <= n)
        ensures i == k
      {
        assert Fits(areas, top, i, n);
      }
    } else {
      forall i: nat | i < |areas| ensures SpaceAfter(areas, top, i) <= n { assert !Fits(areas, top, i, n); }
    }
  }

  lemma MallocEmpty(top: u32, n: u32, areas': seq<Area>, r: u32)
    requires Laid([], top) && n != 0xffff_ffff && Step([], top, Malloc(n), areas', r)
    ensures if top as int - 0x900 > n then r == 0x900 && areas' == [Area(0x900, n)] else r == 0 && areas' == []
  {
    hide GapBase; hide GapSize; hide Laid;
    EmptyGap(top);
    EmptyLaid(top);
    SmallMod(top as int - 0x900, 0x1_0000_0000);
    assert Fits([], top, 0, n) <==> top as int - 0x900 > n;
    if NoFit([], top, n) {
      assert !Fits([], top, 0, n);
    }
  }

  lemma EmptyGap(top: u32)
    ensures GapBase([], 0) == 0x900 && GapSize([], top, 0) as int == (top as int - 0x900) % 0x1_0000_0000
  {
  }

  lemma EmptyLaid(top: u32)
    ensures Laid([], top) ==> top >= 0x900
  {
  }

  /** Malloc(-1) on such a list: the most bytes after any area. */
  lemma LargestMeaning(areas: seq<Area>, top: u32, areas': seq<Area>, r: u32)
    requires Laid(areas, top) && Step(areas, top, Malloc(0xffff_ffff), areas', r)
    ensures areas' == areas && forall i: nat | i < |areas| :: SpaceAfter(areas, top, i) <= r
    ensures if |areas| == 0 then r as int == top as int - 0x900
            else exists i: nat :: i < |areas| && SpaceAfter(areas, top, i) == r
  {
    hide GapBase; hide GapSize; hide Laid; hide SpaceAfter;
    EmptyGap(top);
    forall i: nat | i < |areas| ensures GapSize(areas, top, i) as int == SpaceAfter(areas, top, i) {
      SpaceIsGap(areas, top, i);
    }
    if |areas| == 0 {
      EmptyLaid(top);
      SmallMod(top as int - 0x900, 0x1_0000_0000);
    }
  }

  // ------------------------------------------------------------------ the initial list

  /** gemdos_mem_init for an environment of the given size. */
  function InitialTop(size: u32): u32
    requires size + 0x100 < TWO32
  {
    size + 0x100
  }

  function InitialAreas(size: u32): seq<Area>
    requires size + 0x100 < TWO32
  {
    [Area(0x800, size + 0x100)]
  }

  /** The initial area reaches 0x800 above the allocatable top, so that the gap at the end wraps: a
      request far larger than memory succeeds, at an address above the top. */
  lemma InitialOvercommits(size: u32, n: u32)
    requires size + 0x900 < TWO32
    ensures !Laid(InitialAreas(size), InitialTop(size))
    ensures FirstFit(InitialAreas(size), InitialTop(size), 0, n) <==> n < TWO32 - 0x800
    ensures GapBase(InitialAreas(size), 0) == InitialTop(size) + 0x800
  {
    var areas := InitialAreas(size);
    assert GapSize(areas, InitialTop(size), 0) == TWO32 - 0x800;
  }

  /** The calls that establish the invariant: freeing the program's area, or giving back the 0x800 bytes. */
  predicate Establishes(size: u32, call: Call)
    requires size + 0x100 < TWO32
  {
    match call
    case Malloc(_) => false
    case Mfree(base) => base == 0x800 && USER_BASE <= InitialTop(size)
    case Mshrink(base, n) => base == 0x800 && n as int <= size - 0x700
  }

  /** From the initial list exactly those calls lead to a list that is laid out. */
  lemma FirstCall(size: u32, call: Call, areas': seq<Area>, r: u32)
    requires size + 0x900 < TWO32 && Step(InitialAreas(size), InitialTop(size), call, areas', r)
    ensures Laid(areas', InitialTop(size)) <==> Establishes(size, call)
  {
    var areas := InitialAreas(size);
    assert areas[0] == Area(0x800, size + 0x100);
    match call
    case Malloc(n) =>
      if n != TWO32 - 1 && !NoFit(areas, InitialTop(size), n) {
        var i: nat :| FirstFit(areas, InitialTop(size), i, n) && areas' == Insert(areas, i, n) && r == GapBase(areas, i);
        assert areas' == areas + [Area(GapBase(areas, 0), n)];
        InitialOvercommits(size, n);
        assert areas'[1].base == InitialTop(size) + 0x800;
      }
    case Mfree(base) =>
      var i: nat :| FirstAt(areas, base, i) &&
        if i == |areas| then areas' == areas && r == EIMBA
        else areas' == areas[..i] + areas[i + 1..] && r == 0;
    case Mshrink(base, n) =>
      var i: nat :| FirstAt(areas, base, i) &&
        if i == |areas| then areas' == areas && r == EIMBA
        else if areas[i].len < n then areas' == areas && r == EGSBF
        else areas' == areas[i := areas[i].(len := n)] && r == 0;
  }
}
