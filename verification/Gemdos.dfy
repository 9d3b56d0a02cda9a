/** GEMDOS memory management on its linked list of memory areas (gemdosmem.c). */
module Gemdos {
  import opened Words
  import opened Allocation

  class MemArea {
    var base: u32
    var len: u32
    var next: MemArea?

    constructor (base: u32, len: u32)
      ensures this.base == base && this.len == len && next == null
    {
      this.base, this.len, next := base, len, null;
    }
  }

  class MemoryManager {
    var memList: MemArea?
    var memAllocatableTop: u32
    ghost var nodes: seq<MemArea>   // the list from memList on
    ghost var areas: seq<Area>      // what the nodes hold

    ghost predicate Valid()
      reads this, nodes
    {
      && Distinct(nodes)
      && memList == NodeAt(nodes, 0)
      && |areas| == |nodes|
      && forall i: nat | i < |nodes| :: nodes[i].next == NodeAt(nodes, i + 1) && areas[i] == Area(nodes[i].base, nodes[i].len)
    }

    static ghost predicate Distinct(nodes: seq<MemArea>) {
      forall i: nat, j: nat | i < j < |nodes| :: nodes[i] != nodes[j]
    }

    static ghost function NodeAt(nodes: seq<MemArea>, i: nat): MemArea? {
      if i < |nodes| then nodes[i] else null
    }

    /** gemdos_mem_init: one area for the program and its base page. */
    constructor (size: u32)
      requires size + 0x100 < TWO32
      ensures Valid() && areas == InitialAreas(size) == [Area(0x800, size as int + 0x100)]
      ensures memAllocatableTop as int == InitialTop(size) == size as int + 0x100
      ensures fresh(nodes)
    {
      var ma := new MemArea(0x800, size + 0x100);
      memAllocatableTop := size + 0x100;
      memList := ma;
      nodes := [ma];
      areas := InitialAreas(size);
    }

    /** Area i is the first one with the base; ptr and prev are its node and the one before. */
    ghost predicate Found(base: u32, ptr: MemArea?, prev: MemArea?, i: nat)
      requires Valid()
      reads this, nodes
    {
      FirstAt(areas, base, i) && ptr == NodeAt(nodes, i) && prev == if i == 0 then null else nodes[i - 1]
    }

    /** find_mem_area: the first area with the base, and its predecessor. */
    method FindMemArea(base: u32) returns (ptr: MemArea?, prev: MemArea?)
      requires Valid()
      ensures exists i: nat :: Found(base, ptr, prev, i)
    {
      ptr, prev := memList, null;
      ghost var i := 0;
      while ptr != null && ptr.base != base
        invariant i <= |nodes| && ptr == NodeAt(nodes, i)
        invariant prev == if i == 0 then null else nodes[i - 1]
        invariant forall j: nat | j < i :: areas[j].base != base
        decreases |nodes| - i
      {
        prev := ptr;
        ptr := ptr.next;
        i := i + 1;
      }
      assert Found(base, ptr, prev, i);
    }

    method Mshrink(block: u32, newsiz: u32) returns (r: u32)
      requires Valid()
      modifies nodes, this`areas
      ensures Valid() && nodes == old(nodes)
      ensures Step(old(areas), memAllocatableTop, Call.Mshrink(block, newsiz), areas, r)
    {
      var ma, prev := FindMemArea(block);
      ghost var i: nat :| Found(block, ma, prev, i);
      if ma == null {
        return EIMBA;
      }
      if ma.len < newsiz {
        return EGSBF;
      }
      ma.len := newsiz;
      areas := areas[i := areas[i].(len := newsiz)];
      r := 0;
    }

    /** Where a search through the list stands: prev is area k, ptr the one after it. */
    ghost predicate At(prev: MemArea?, ptr: MemArea?, k: nat)
      requires Valid()
      reads this, nodes
    {
      && (|areas| == 0 ==> prev == null && ptr == null && k == 0)
      && (|areas| > 0 ==> k < |areas| && prev == nodes[k] && ptr == NodeAt(nodes, k + 1))
    }

    lemma AtStart()
      requires Valid()
      ensures At(memList, if memList == null then null else memList.next, 0)
    {
    }

    lemma AtNext(prev: MemArea?, ptr: MemArea?, k: nat)
      requires Valid() && At(prev, ptr, k) && ptr != null
      ensures At(ptr, ptr.next, k + 1) && k + 1 < |nodes|
    {
    }

    lemma AtNode(prev: MemArea?, ptr: MemArea?, k: nat)
      requires Valid() && At(prev, ptr, k)
      ensures prev != null ==> k < |nodes| && prev == nodes[k] && prev in nodes
      ensures prev == null ==> |nodes| == 0 && k == 0
    {
    }

    /** The sizes that the searches compute are those of gap k. */
    lemma GapAt(prev: MemArea?, ptr: MemArea?, k: nat)
      requires Valid() && At(prev, ptr, k)
      ensures k < GapCount(areas) && (ptr == null ==> k == GapCount(areas) - 1)
      ensures (ptr != null ==> k + 1 < |areas| && prev != null)
      ensures GapBase(areas, k) == if prev == null then USER_BASE else Wrap(prev.base as int + prev.len)
      ensures GapSize(areas, memAllocatableTop, k)
              == Wrap((if ptr == null then memAllocatableTop else ptr.base) as int - GapBase(areas, k))
    {
    }

    /** The largest of the first k gaps, 0 if there is none. */
    static ghost predicate LargestOf(areas: seq<Area>, top: u32, k: nat, m: u32) {
      k <= GapCount(areas)
      && (forall j: nat | j < k :: GapSize(areas, top, j) <= m)
      && (m > 0 ==> exists j: nat | j < k :: GapSize(areas, top, j) == m)
    }

    static lemma LargestOfNext(areas: seq<Area>, top: u32, k: nat, m: u32)
      requires LargestOf(areas, top, k, m) && k < GapCount(areas)
      ensures LargestOf(areas, top, k + 1, if m < GapSize(areas, top, k) then GapSize(areas, top, k) else m)
    {
      hide GapSize;
    }

    lemma LargestOfScan(prev: MemArea?, ptr: MemArea?, k: nat, m: u32)
      requires Valid() && At(prev, ptr, k) && LargestOf(areas, memAllocatableTop, k, m)
      ensures
        var base := if prev == null then USER_BASE else Wrap(prev.base as int + prev.len);
        var size := Wrap((if ptr == null then memAllocatableTop else ptr.base) as int - base);
        && LargestOf(areas, memAllocatableTop, k + 1, if m < size then size else m)
        && (ptr == null ==> k + 1 == GapCount(areas))
        && (ptr != null ==> prev != null && At(ptr, ptr.next, k + 1) && k + 1 < |nodes|)
    {
      hide GapSize; hide GapBase; hide LargestOf; hide Wrap; hide Valid; hide GapCount; hide At;
      GapAt(prev, ptr, k);
      LargestOfNext(areas, memAllocatableTop, k, m);
      if ptr != null {
        AtNext(prev, ptr, k);
      }
    }

    static lemma LargestOfAll(areas: seq<Area>, top: u32, m: u32)
      requires LargestOf(areas, top, GapCount(areas), m)
      ensures IsLargestGap(areas, top, m)
    {
      hide GapSize;
      assert GapSize(areas, top, 0) <= m;
    }

    /** The search for the largest gap. */
    method LargestGap() returns (maxFree: u32)
      requires Valid()
      ensures IsLargestGap(areas, memAllocatableTop, maxFree)
    {
      hide GapSize; hide GapBase; hide LargestOf; hide Wrap; hide IsLargestGap; hide Valid; hide GapCount; hide At;
      maxFree := 0;
      var prev, ptr := memList, null;
      if prev != null {
        ptr := prev.next;
      }
      ghost var k := 0;
      AtStart();
      assert LargestOf(areas, memAllocatableTop, 0, 0) by { LargestOfNone(areas, memAllocatableTop); }
      while ptr != null
        invariant At(prev, ptr, k) && LargestOf(areas, memAllocatableTop, k, maxFree)
        decreases |nodes| - k
      {
        LargestOfScan(prev, ptr, k, maxFree);
        var prevTop := Wrap(prev.base as int + prev.len);
        if maxFree < Wrap(ptr.base as int - prevTop) {
          maxFree := Wrap(ptr.base as int - prevTop);
        }
        prev := ptr;
        ptr := ptr.next;
        k := k + 1;
      }
      LargestOfScan(prev, ptr, k, maxFree);
      var prevTop := USER_BASE;
      if prev != null {
        prevTop := Wrap(prev.base as int + prev.len);
      }
      if maxFree < Wrap(memAllocatableTop as int - prevTop) {
        maxFree := Wrap(memAllocatableTop as int - prevTop);
      }
      LargestOfAll(areas, memAllocatableTop, maxFree);
    }

    static lemma LargestOfNone(areas: seq<Area>, top: u32)
      ensures LargestOf(areas, top, 0, 0)
    {
    }

    /** Malloc: -1 asks for the largest gap, anything else for the first gap that is larger. */
    method Malloc(newsiz: u32) returns (r: u32)
      requires Valid()
      modifies this`memList, this`nodes, this`areas, nodes
      ensures Valid() && forall x <- nodes :: x in old(nodes) || fresh(x)
      ensures Step(old(areas), memAllocatableTop, Call.Malloc(newsiz), areas, r)
    {
      hide GapSize; hide GapBase; hide Insert; hide Wrap; hide IsLargestGap; hide Valid; hide GapCount;
      hide Step; hide At; hide NoneFits;
      AtStart();
      NoneFitsStart(areas, memAllocatableTop, newsiz);
      if newsiz == TWO32 - 1 {
        r := LargestGap();
        StepLargest(areas, memAllocatableTop, r);
        return;
      }
      var prev, ptr := memList, null;
      if prev != null {
        ptr := prev.next;
      }
      ghost var k := 0;
      while ptr != null
        invariant Valid() && At(prev, ptr, k)
        invariant NoneFits(areas, memAllocatableTop, k, newsiz)
        invariant nodes == old(nodes) && areas == old(areas)
        decreases |nodes| - k
      {
        GapAt(prev, ptr, k);
        var prevTop := Wrap(prev.base as int + prev.len);
        if Wrap(ptr.base as int - prevTop) > newsiz {
          StepFit(areas, memAllocatableTop, newsiz, k);
          AtNode(prev, ptr, k);
          var n := InsertAfter(prev, prevTop, newsiz, k);
          return n.base;
        }
        NoneFitsNext(areas, memAllocatableTop, k, newsiz);
        AtNext(prev, ptr, k);
        prev := ptr;
        ptr := ptr.next;
        k := k + 1;
      }
      GapAt(prev, ptr, k);
      var prevTop := USER_BASE;
      if prev != null {
        prevTop := Wrap(prev.base as int + prev.len);
      }
      if newsiz < Wrap(memAllocatableTop as int - prevTop) {
        StepFit(areas, memAllocatableTop, newsiz, k);
        AtNode(prev, ptr, k);
        if prev != null {
          var n := InsertAfter(prev, prevTop, newsiz, k);
          return n.base;
        }
        var n := InsertFirst(prevTop, newsiz);
        return n.base;
      }
      NoneFitsNext(areas, memAllocatableTop, k, newsiz);
      StepNoFit(areas, memAllocatableTop, newsiz);
      return 0;
    }

    /** None of the first k gaps is larger than n. */
    static ghost predicate NoneFits(areas: seq<Area>, top: u32, k: nat, n: u32) {
      k <= GapCount(areas) && forall j: nat | j < k :: !Fits(areas, top, j, n)
    }

    static lemma NoneFitsStart(areas: seq<Area>, top: u32, n: u32)
      ensures NoneFits(areas, top, 0, n)
    {
    }

    static lemma NoneFitsNext(areas: seq<Area>, top: u32, k: nat, n: u32)
      requires NoneFits(areas, top, k, n) && k < GapCount(areas) && !Fits(areas, top, k, n)
      ensures NoneFits(areas, top, k + 1, n)
    {
      hide GapSize;
    }

    static lemma StepLargest(areas: seq<Area>, top: u32, r: u32)
      requires IsLargestGap(areas, top, r)
      ensures Step(areas, top, Call.Malloc(TWO32 - 1), areas, r)
    {
    }

    static lemma StepFit(areas: seq<Area>, top: u32, n: u32, k: nat)
      requires k < GapCount(areas) && n != TWO32 - 1 && Fits(areas, top, k, n)
      requires NoneFits(areas, top, k, n)
      ensures Step(areas, top, Call.Malloc(n), Insert(areas, k, n), GapBase(areas, k))
    {
      hide GapSize;
      assert FirstFit(areas, top, k, n);
    }

    static lemma StepNoFit(areas: seq<Area>, top: u32, n: u32)
      requires n != TWO32 - 1 && NoneFits(areas, top, GapCount(areas), n)
      ensures Step(areas, top, Call.Malloc(n), areas, 0)
    {
      hide GapSize;
    }

    /** Link a new area in behind prev. */
    method InsertAfter(prev: MemArea, base: u32, len: u32, ghost k: nat) returns (n: MemArea)
      requires Valid() && k < |nodes| && prev == nodes[k]
      requires base == GapBase(areas, k)
      modifies this`nodes, this`areas, prev`next
      ensures Valid() && fresh(n) && n.base == base
      ensures nodes == old(nodes)[..k + 1] + [n] + old(nodes)[k + 1..]
      ensures areas == Insert(old(areas), k, len)
    {
      hide GapBase;
      ghost var before := nodes;
      n := new MemArea(base, len);
      n.next := prev.next;
      prev.next := n;
      nodes := before[..k + 1] + [n] + before[k + 1..];
      areas := areas[..k + 1] + [Area(base, len)] + areas[k + 1..];
      Linked(before, old(areas), n, k);
    }

    /** A list with a node linked in behind node k is in order again. */
    lemma Linked(before: seq<MemArea>, areas0: seq<Area>, n: MemArea, k: nat)
      requires k < |before| == |areas0| && n !in before && Distinct(before) && memList == before[0]
      requires nodes == before[..k + 1] + [n] + before[k + 1..]
      requires areas == areas0[..k + 1] + [Area(n.base, n.len)] + areas0[k + 1..]
      requires forall i: nat | i < |before| ::
        before[i].next == (if i == k then n else NodeAt(before, i + 1)) && areas0[i] == Area(before[i].base, before[i].len)
      requires n.next == NodeAt(before, k + 1)
      ensures Valid()
    {
      forall i: nat | i < |nodes|
        ensures nodes[i].next == NodeAt(nodes, i + 1) && areas[i] == Area(nodes[i].base, nodes[i].len)
      {
        if i <= k {
          assert nodes[i] == before[i];
        } else if i > k + 1 {
          assert nodes[i] == before[i - 1];
        }
      }
    }

    /** A list without node i is in order again. */
    lemma Unlinked(before: seq<MemArea>, areas0: seq<Area>, i: nat)
      requires i < |before| == |areas0| && Distinct(before)
      requires nodes == before[..i] + before[i + 1..] && areas == areas0[..i] + areas0[i + 1..]
      requires memList == if i == 0 then NodeAt(before, 1) else before[0]
      requires forall j: nat | j < |before| ::
        before[j].next == NodeAt(before, if j + 1 == i then i + 1 else j + 1) && areas0[j] == Area(before[j].base, before[j].len)
      ensures Valid()
    {
      forall j: nat | j < |nodes|
        ensures nodes[j].next == NodeAt(nodes, j + 1) && areas[j] == Area(nodes[j].base, nodes[j].len)
      {
        if j < i {
          assert nodes[j] == before[j];
        } else {
          assert nodes[j] == before[j + 1];
        }
      }
    }

    /** Start an empty list. */
    method InsertFirst(base: u32, len: u32) returns (n: MemArea)
      requires Valid() && |nodes| == 0 && base == GapBase(areas, 0)
      modifies this`nodes, this`areas, this`memList
      ensures Valid() && fresh(n) && n.base == base
      ensures nodes == [n] && areas == Insert(old(areas), 0, len)
    {
      n := new MemArea(base, len);
      memList := n;
      nodes := [n];
      areas := [Area(base, len)];
    }

    method Mfree(block: u32) returns (r: u32)
      requires Valid()
      modifies this`memList, this`nodes, this`areas, nodes
      ensures Valid() && forall x <- nodes :: x in old(nodes)
      ensures Step(old(areas), memAllocatableTop, Call.Mfree(block), areas, r)
    {
      ghost var before := nodes;
      var ma, prev := FindMemArea(block);
      ghost var i: nat :| Found(block, ma, prev, i);
      if ma == null {
        return EIMBA;
      }
      if prev != null {
        prev.next := ma.next;
      } else {
        memList := ma.next;
      }
      nodes := before[..i] + before[i + 1..];
      areas := areas[..i] + areas[i + 1..];
      Unlinked(before, old(areas), i);
      r := 0;
    }

    // ------------------------------------------------------------------ runs of calls

    method Do(call: Call) returns (r: u32)
      requires Valid()
      modifies this`memList, this`nodes, this`areas, nodes
      ensures Valid() && forall x <- nodes :: x in old(nodes) || fresh(x)
      ensures Step(old(areas), memAllocatableTop, call, areas, r)
    {
      hide Valid; hide Step;
      match call {
        case Malloc(n) => r := Malloc(n);
        case Mfree(base) => r := Mfree(base);
        case Mshrink(base, n) => r := Mshrink(base, n);
      }
    }

    /** Any calls one after the other make a run of the specification.  If the list was laid out at the
        start, it is after every call. */
    method DoAll(calls: seq<Call>) returns (results: seq<u32>, ghost states: seq<seq<Area>>)
      requires Valid()
      modifies this`memList, this`nodes, this`areas, nodes
      ensures Valid() && forall x <- nodes :: x in old(nodes) || fresh(x)
      ensures Run(memAllocatableTop, states, calls, results) && states[0] == old(areas) && states[|calls|] == areas
      ensures Laid(old(areas), memAllocatableTop) && USER_BASE <= memAllocatableTop ==>
        forall k: nat | k < |states| :: Laid(states[k], memAllocatableTop)
    {
      hide Valid; hide Step; hide Laid;
      results, states := [], [areas];
      for i := 0 to |calls|
        invariant Valid() && forall x <- nodes :: x in old(nodes) || fresh(x)
        invariant Run(memAllocatableTop, states, calls[..i], results) && states[0] == old(areas) && states[i] == areas
      {
        assert forall j | 0 <= j < |nodes| :: nodes[j] in old(nodes) || fresh(nodes[j]);
        var r := Do(calls[i]);
        RunOn(memAllocatableTop, states, calls[..i], results, calls[i], areas, r);
        assert calls[..i] + [calls[i]] == calls[..i + 1];
        results, states := results + [r], states + [areas];
      }
      assert calls[..|calls|] == calls;
      if Laid(old(areas), memAllocatableTop) && USER_BASE <= memAllocatableTop {
        forall k: nat | k < |states| ensures Laid(states[k], memAllocatableTop) {
          RunKeepsLaid(memAllocatableTop, states, calls, results, k);
        }
      }
    }

    static lemma RunOn(top: u32, states: seq<seq<Area>>, calls: seq<Call>, results: seq<u32>, call: Call, areas: seq<Area>, r: u32)
      requires Run(top, states, calls, results) && Step(states[|calls|], top, call, areas, r)
      ensures Run(top, states + [areas], calls + [call], results + [r])
    {
      hide Step;
    }
  }
}
