/** Traps and interrupts inside handlers of traps and interrupts: every RTE undoes the entry it belongs to
(Musashi/m68kcpu.h, Musashi/m68k_in.c). */
module Nesting {
  import opened Words
  import opened FlatMemory
  import opened M68k
  import opened Exceptions

  datatype Entry = Trap | Interrupt

  // ------------------------------------------------------------------ entry and return

  predicate InEntryFrames(t: CpuType, e: Entry, st: Stacks, m: MFlag, b: u32) {
    match e
    case Trap => In(b, Addr(t, Wrap(st.Active(4, m) as int - TrapSize(t))), TrapSize(t))
    case Interrupt => InFrames(t, st, m, b)
  }

  ghost predicate EntryRoom(t: CpuType, e: Entry, mem: Bytes, st: Stacks, m: MFlag) {
    match e
    case Trap => RoomBelow(t, mem, st.Active(4, m), TrapSize(t))
    case Interrupt => InterruptRoom(t, mem, st, m)
  }

  function EntryStacks(t: CpuType, e: Entry, st: Stacks, m: MFlag): Stacks {
    match e
    case Trap => st.WithActive(4, m, Wrap(st.Active(4, m) as int - TrapSize(t)))
    case Interrupt => InterruptStacks(t, st, m)
  }

  function EntryM(t: CpuType, e: Entry, m: MFlag): MFlag {
    if e == Interrupt then InterruptM(t, m) else m
  }

  function EntryFuel(t: CpuType, e: Entry, m: MFlag): nat {
    if e == Interrupt then Throwaways(t, m) else 0
  }

  /** From a to b: frames are stacked that say how to go back to a, and no other byte changes. */
  ghost predicate Enters(t: CpuType, e: Entry, a: Machine, b: Machine) {
    && EntryRoom(t, e, a.mem, a.stacks, a.m) && MaskSr(t, a.sr) == a.sr
    && b.s == 4 && b.m == EntryM(t, e, a.m) && b.stacks == EntryStacks(t, e, a.stacks, a.m)
    && (forall x: u32 | !InEntryFrames(t, e, a.stacks, a.m, x) :: Peek(b.mem, x) == Peek(a.mem, x))
    && Unwind(t, b.mem, b.stacks, 4, b.m, EntryFuel(t, e, a.m)) == Some(Return(a.pc, a.sr, a.stacks))
    && (e == Interrupt && TwoStacks(t, a.m) ==> SelectsMaster(t, b.mem, Wrap(a.stacks.isp as int - 8)))
  }

  /** From a to b: execution goes on where the frames say, with the stacks and the status register they say. */
  ghost predicate Returns(t: CpuType, fuel: nat, a: Machine, b: Machine) {
    && a.s == 4 && b.mem == a.mem
    && match Unwind(t, a.mem, a.stacks, 4, a.m, fuel)
       case Some(Return(pc, sr, st)) => b.pc == pc && b.sr == MaskSr(t, sr) && b.stacks == st
       case _ => false
  }

  method TakeTrap(cpu: Cpu, vector: Vector)
    requires cpu.Implemented()
    modifies cpu
    ensures old(EntryRoom(cpu.cpuType, Trap, cpu.mem, cpu.StackPointers(), cpu.m)) ==>
      Enters(cpu.cpuType, Trap, old(Of(cpu)), Of(cpu))
  {
    hide MaskSr; hide SrOf; hide Unwind; hide Addr; hide Wrap; hide RoomBelow; hide FrameAt; hide In; hide Read32;
    MaskSrOfSr(cpu);
    ExceptionTrap(cpu, vector);
  }

  method TakeInterrupt(cpu: Cpu, level: nat)
    requires cpu.Implemented() && level <= 7 && cpu.stopped < 2
    modifies cpu
    ensures old(EntryRoom(cpu.cpuType, Interrupt, cpu.mem, cpu.StackPointers(), cpu.m)) ==>
      Enters(cpu.cpuType, Interrupt, old(Of(cpu)), Of(cpu))
  {
    hide MaskSr; hide SrOf; hide Unwind; hide Addr; hide Wrap; hide InterruptRoom; hide InFrames; hide Read32;
    hide SelectsMaster; hide InterruptStacks;
    MaskSrOfSr(cpu);
    ExceptionInterrupt(cpu, level);
  }

  /** RTE goes back; if an interrupt above the restored mask is pending, it enters its handler from there. */
  method ReturnFromException(cpu: Cpu, ghost fuel: nat) returns (ghost back: Machine)
    requires cpu.s == 4 && Pending(cpu, fuel).Some? && Pending(cpu, fuel).value.Return?
    modifies cpu
    ensures Returns(cpu.cpuType, fuel, old(Of(cpu)), back)
    ensures if !Pends(back.sr, old(cpu.intLevel), old(cpu.stopped)) then Of(cpu) == back
            else EntryRoom(cpu.cpuType, Interrupt, back.mem, back.stacks, back.m) ==>
              Enters(cpu.cpuType, Interrupt, back, Of(cpu))
  {
    hide MaskSr; hide SrOf; hide Unwind; hide Addr; hide Wrap; hide InterruptRoom; hide InFrames; hide Read32;
    hide SelectsMaster; hide InterruptStacks; hide SrS; hide SrM;
    ghost var landing := Pending(cpu, fuel).value;
    back := Landed(cpu.cpuType, cpu.mem, landing);
    MaskTwice(cpu.cpuType, landing.sr);
    Rte(cpu, fuel);
  }

  lemma MaskTwice(t: CpuType, sr: u16)
    ensures MaskSr(t, MaskSr(t, sr)) == MaskSr(t, sr)
  {
  }

  // ------------------------------------------------------------------ runs

  /** Entries, returns, and in between anything that handlers do. */
  datatype Event = Enter(e: Entry) | Work | Leave

  /** An entry whose RTE is still to come. */
  datatype Open = Open(e: Entry, before: Machine, after: Machine)

  predicate InOpen(t: CpuType, o: Open, b: u32) {
    InEntryFrames(t, o.e, o.before.stacks, o.before.m, b)
  }

  /** The frames of the open entries hold the same in both memories. */
  ghost predicate FramesKept(t: CpuType, open: seq<Open>, m0: Bytes, m1: Bytes) {
    forall o <- open, b: u32 | InOpen(t, o, b) :: Peek(m0, b) == Peek(m1, b)
  }

  /** One event.  Handlers leave open frames alone, entries do not stack over them, and at its RTE a handler
      has its stack pointers where they were at its start. */
  ghost predicate Happens(t: CpuType, event: Event, a: Machine, open: seq<Open>, b: Machine, open': seq<Open>) {
    match event
    case Enter(e) =>
      && Enters(t, e, a, b) && open' == open + [Open(e, a, b)]
      && forall o <- open, x: u32 | InOpen(t, o, x) :: !InEntryFrames(t, e, a.stacks, a.m, x)
    case Work => open' == open && FramesKept(t, open, a.mem, b.mem)
    case Leave =>
      && open != []
      && var o := open[|open| - 1];
         && a.stacks == o.after.stacks && a.m == o.after.m
         && Returns(t, EntryFuel(t, o.e, o.before.m), a, b) && open' == open[..|open| - 1]
  }

  ghost predicate Run(t: CpuType, states: seq<Machine>, opens: seq<seq<Open>>, events: seq<Event>) {
    && |states| == |opens| == |events| + 1 && opens[0] == []
    && forall k: nat | k < |events| :: Happens(t, events[k], states[k], opens[k], states[k + 1], opens[k + 1])
  }

  /** Every open entry was made, and its frames are still what it stacked. */
  ghost predicate Intact(t: CpuType, a: Machine, open: seq<Open>) {
    forall o <- open ::
      Enters(t, o.e, o.before, o.after) && forall b: u32 | InOpen(t, o, b) :: Peek(o.after.mem, b) == Peek(a.mem, b)
  }

  lemma StaysIntact(t: CpuType, event: Event, a: Machine, open: seq<Open>, b: Machine, open': seq<Open>)
    requires Intact(t, a, open) && Happens(t, event, a, open, b, open')
    ensures Intact(t, b, open')
  {
    hide Enters; hide Returns; hide InOpen; hide InEntryFrames; hide Peek;
    if event.Enter? {
      EntersKeeps(t, event.e, a, b, open);
    } else if event.Leave? {
      assert b.mem == a.mem by { ReturnsKeeps(t, EntryFuel(t, open[|open| - 1].e, open[|open| - 1].before.m), a, b); }
    }
  }

  lemma ReturnsKeeps(t: CpuType, fuel: nat, a: Machine, b: Machine)
    requires Returns(t, fuel, a, b)
    ensures b.mem == a.mem
  {
  }

  lemma EntersKeeps(t: CpuType, e: Entry, a: Machine, b: Machine, open: seq<Open>)
    requires Enters(t, e, a, b)
    requires forall o <- open, x: u32 | InOpen(t, o, x) :: !InEntryFrames(t, e, a.stacks, a.m, x)
    ensures FramesKept(t, open, a.mem, b.mem)
  {
    hide Unwind; hide InEntryFrames; hide InOpen; hide EntryRoom; hide Peek;
  }

  lemma {:induction false} RunIntact(t: CpuType, states: seq<Machine>, opens: seq<seq<Open>>, events: seq<Event>, k: nat)
    requires Run(t, states, opens, events) && k < |states|
    ensures Intact(t, states[k], opens[k])
  {
    hide Happens; hide Intact;
    if k == 0 {
      NoneOpen(t, states[0]);
    } else {
      RunIntact(t, states, opens, events, k - 1);
      StaysIntact(t, events[k - 1], states[k - 1], opens[k - 1], states[k], opens[k]);
    }
  }

  lemma NoneOpen(t: CpuType, a: Machine)
    ensures Intact(t, a, [])
  {
  }

  /** RTE on intact frames goes back to the state before the entry. */
  lemma ReturnRestores(t: CpuType, o: Open, a: Machine, b: Machine)
    requires Enters(t, o.e, o.before, o.after) && forall x: u32 | InOpen(t, o, x) :: Peek(o.after.mem, x) == Peek(a.mem, x)
    requires a.stacks == o.after.stacks && a.m == o.after.m && Returns(t, EntryFuel(t, o.e, o.before.m), a, b)
    ensures b.pc == o.before.pc && b.sr == o.before.sr && b.stacks == o.before.stacks
  {
    hide Unwind; hide MaskSr; hide EntryRoom; hide EntryStacks; hide EntryFuel; hide EntryM; hide InOpen; hide Peek;
    hide SelectsMaster;
    SameLanding(t, o, a.mem);
  }

  /** What RTE finds in intact frames is what it would have found right after the entry. */
  lemma SameLanding(t: CpuType, o: Open, mem: Bytes)
    requires Enters(t, o.e, o.before, o.after) && forall x: u32 | InOpen(t, o, x) :: Peek(o.after.mem, x) == Peek(mem, x)
    ensures Unwind(t, mem, o.after.stacks, 4, o.after.m, EntryFuel(t, o.e, o.before.m))
            == Unwind(t, o.after.mem, o.after.stacks, 4, o.after.m, EntryFuel(t, o.e, o.before.m))
  {
    hide Unwind; hide MaskSr; hide Addr; hide Wrap; hide Peek; hide In; hide Mapped; hide Apart; hide SelectsMaster;
    var st, m := o.before.stacks, o.before.m;
    if o.e == Trap {
      var top := st.Active(4, m);
      assert SameOn(o.after.mem, mem, Addr(t, Wrap(top as int - TrapSize(t))), TrapSize(t));
      TrapReads(t, o.after.stacks, m, top, o.after.mem, mem);
    } else {
      assert SameFrames(t, st, m, o.after.mem, mem);
      InterruptReads(t, o.before.mem, st, m, o.after.mem, mem);
    }
  }

  /** Event k is the RTE of the entry j: the depth is back where it was, for the first time. */
  ghost predicate Matching(opens: seq<seq<Open>>, events: seq<Event>, j: nat, k: nat) {
    && j < k < |events| && |opens| == |events| + 1 && events[j].Enter? && events[k].Leave?
    && |opens[k + 1]| == |opens[j]| && forall i: nat | j < i <= k :: |opens[i]| > |opens[j]|
  }

  /** Every RTE of a run belongs to an entry. */
  lemma ReturnsMatch(t: CpuType, states: seq<Machine>, opens: seq<seq<Open>>, events: seq<Event>, k: nat)
    requires Run(t, states, opens, events) && k < |events| && events[k].Leave?
    ensures exists j: nat :: Matching(opens, events, j, k)
  {
    hide Enters; hide Returns; hide FramesKept; hide InOpen;
    assert Happens(t, events[k], states[k], opens[k], states[k + 1], opens[k + 1]);
    var j := LastBelow(opens, |opens[k]|, k);
    assert Happens(t, events[j], states[j], opens[j], states[j + 1], opens[j + 1]);
    assert Matching(opens, events, j, k);
  }

  /** The last place before k where fewer than d entries are open. */
  lemma LastBelow(opens: seq<seq<Open>>, d: nat, k: nat) returns (j: nat)
    requires k < |opens| && opens[0] == [] && d > 0 && |opens[k]| >= d
    ensures j < k && |opens[j]| < d && forall i: nat | j < i <= k :: |opens[i]| >= d
  {
    j := k;
    while |opens[j]| >= d
      invariant j <= k && forall i: nat | j < i <= k :: |opens[i]| >= d
      decreases j
    {
      j := j - 1;
    }
  }

  /** While an entry is open, it stays where it is among the open ones. */
  lemma {:induction false} StaysOpen(t: CpuType, states: seq<Machine>, opens: seq<seq<Open>>, events: seq<Event>,
                                     j: nat, k: nat, i: nat)
    requires Run(t, states, opens, events) && Matching(opens, events, j, k) && j < i <= k
    ensures |opens[i]| > |opens[j]| && opens[i][|opens[j]|] == Open(events[j].e, states[j], states[j + 1])
    decreases i
  {
    hide Enters; hide Returns; hide FramesKept; hide InOpen;
    if i > j + 1 {
      StaysOpen(t, states, opens, events, j, k, i - 1);
      assert Happens(t, events[i - 1], states[i - 1], opens[i - 1], states[i], opens[i]);
    } else {
      assert Happens(t, events[j], states[j], opens[j], states[j + 1], opens[j + 1]);
    }
  }

  /** However traps and interrupts nest, each RTE restores the PC, the SR and the three stack pointers from
      before its own entry. */
  lemma NestedReturn(t: CpuType, states: seq<Machine>, opens: seq<seq<Open>>, events: seq<Event>, j: nat, k: nat)
    requires Run(t, states, opens, events) && Matching(opens, events, j, k)
    ensures states[k + 1].pc == states[j].pc && states[k + 1].sr == states[j].sr && states[k + 1].stacks == states[j].stacks
  {
    hide Enters; hide Returns; hide InOpen; hide InEntryFrames; hide FramesKept; hide Peek;
    StaysOpen(t, states, opens, events, j, k, k);
    RunIntact(t, states, opens, events, k);
    assert Happens(t, events[k], states[k], opens[k], states[k + 1], opens[k + 1]);
    ReturnRestores(t, opens[k][|opens[j]|], states[k], states[k + 1]);
  }
}
