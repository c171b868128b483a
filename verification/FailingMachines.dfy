/** Machines on which the memory manager falls short of what it is meant to do: boot states, states a run
    reaches from one, and in one case a state that satisfies the invariant of every run. */
module FailingMachines {
  import opened Entries
  import opened Pages
  import opened PageTree
  import opened RunTables
  import opened FreeRuns
  import opened Bitmaps
  import opened Machines
  import opened PageRuns
  import opened Allocation
  import opened AllocatorRuns
  import opened AllocationRoundTrip
  import opened LargePages
  import opened RawKernel
  import opened Exhaustion
  import opened ZeroPages

  // ----- an empty boot table and a pool of k frames -----

  const ROOT_FRAME: Frame := 100

  function SmallMachine(k: nat): Machine {
    Machine(map[], ROOT_FRAME, seq(k, _ => false), 1, 1)
  }

  function SmallLedger(): Ledger {
    Ledger(map[ROOT := ROOT_FRAME], map[], map[ROOT_FRAME := TableFrame(ROOT)])
  }

  lemma SmallBoots(k: nat)
    requires k < ROOT_FRAME
    ensures Boot(Sys(SmallMachine(k), {}), SmallLedger())
  {
  }

  lemma {:induction false} AllFree(k: nat)
    ensures FreeCount(seq(k, _ => false)) == k
  {
    var bits: seq<bool> := seq(k, _ => false);
    if k == 0 {
      assert FreeSet(bits) == {};
    } else {
      var fewer: seq<bool> := seq(k - 1, _ => false);
      AllFree(k - 1);
      assert FreeSet(bits) == FreeSet(fewer) + {k - 1};
    }
  }

  lemma NothingPresent(k: nat, c: nat)
    requires c < MAX_PAGE
    ensures var m := SmallMachine(k); !IsPresent(m.mem, m.root, c) && Walk(m.mem, m.root, c) == Unmapped
  {
  }

  /** The first page needs its three tables. */
  lemma FirstPageCost()
    ensures |RunNodes(1, 1) - {ROOT}| == 3
  {
    RunNodesStep(1, 1);
    MissingIsCardinality({ROOT}, 1);
    assert RunNodes(1, 1) == PathSet(1);
  }

  /** Four frames are enough for the first page. */
  lemma FirstPageFits(k: nat, s: State)
    requires 4 <= k < ROOT_FRAME && s.m == SmallMachine(k) && s.l == SmallLedger()
    ensures CanAllocate(s, 1, 1, 1)
  {
    hide FreeCount, RunNodes;
    AllFree(k);
    FirstPageCost();
    FreeAtOne(k);
    assert s.l.tables.Keys == {ROOT};
  }

  /** After the first allocation from `k` frames. */
  ghost predicate AfterFirst(k: nat, s: State, y: Sys) {
    && Explains(s, y) && y.live == {Alloc(1, 1)} && y.m.cursor == 1 && FreeCount(y.m.bits) + 4 == k
    && 1 in s.l.pages
    && forall c: nat | 2 <= c < 512 ::
         c !in s.l.pages && c in s.view && s.view[c] == Unmapped && NodeOf(c, 1) in s.l.tables
  }

  /** `alloc_pages(1)` is a step of a run; it hands out page 1 and uses up four frames. */
  lemma FirstAllocation(k: nat) returns (y1: Sys, s1: Sound)
    requires 4 <= k < ROOT_FRAME
    ensures Step(TheKernel(), Sys(SmallMachine(k), {}), AllocDone(1, Alloc(1, 1)), y1)
    ensures AfterFirst(k, s1, y1)
  {
    hide Core, AllocPages, MapBody, FreeCount, RunNodes, CanAllocate, AllocAchieved;
    hide Priced, KernelOk, Explains, AfterFirst;
    var y := Sys(SmallMachine(k), {});
    SmallBoots(k);
    var s := BootExplained(y, SmallLedger());
    ExplainsMachine(s, y);
    FirstPageFits(k, s);
    var r, s' := AllocPrice(s, 1);
    y1 := Sys(r.m, {r.a});
    TheKernelIsOk();
    assert {} + {r.a} == {r.a};
    s1 := AllocKeeps(TheKernel(), s, y, 1, r.a, y1);
    FirstIsPageOne(k, s, r.a, r.m, s1);
    FirstFacts(k, s, y1, s1);
  }

  lemma ExplainsMachine(s: State, y: Sys)
    requires Explains(s, y)
    ensures s.m == y.m && y.m.cursor < MAX_PAGE
  {
  }

  lemma FirstIsPageOne(k: nat, s: State, a: Alloc, m1: Machine, s1: State)
    requires 4 <= k < ROOT_FRAME && s.m == SmallMachine(k) && AllocAchieved(s, 1, Allocated(m1, a), s1)
    ensures a == Alloc(1, 1) && m1.cursor == 1
  {
    EarliestIsOne(k, a.first);
  }

  lemma FirstFacts(k: nat, s: Sound, y1: Sys, s1: Sound)
    requires 4 <= k < ROOT_FRAME && s.m == SmallMachine(k) && s.l == SmallLedger()
    requires AllocAchieved(s, 1, Allocated(y1.m, Alloc(1, 1)), s1) && Explains(s1, y1)
    requires y1.live == {Alloc(1, 1)} && y1.m.cursor == 1
    ensures AfterFirst(k, s1, y1)
  {
    hide Core, FreeCount, RunNodes, Need, CanAllocate, UsesKept, TablesGained, SameOutside, Walk, Earliest;
    AllocatedIsPriced(s, 1, Alloc(1, 1), y1.m, 1, s1);
    FirstPageCost();
    AllFree(k);
    assert s.l.tables.Keys == {ROOT};
    assert PageGained(s.l, s1.l, 1, 1, 1);
    forall c: nat | 2 <= c < 512
      ensures c !in s1.l.pages && c in s1.view && s1.view[c] == Unmapped && NodeOf(c, 1) in s1.l.tables
    {
      NothingPresent(k, c);
      ViewAt(s, c);
      ViewAt(s1, c);
      NextPages(s, s1, y1.m, c);
    }
  }

  /** The other pages of the first table after page 1 has been mapped. */
  lemma NextPages(s: State, s1: State, m1: Machine, c: nat)
    requires MappingDone(Started(s, 1), s1, 1, 1, Fresh, m1) && 2 <= c < 512
    requires s.l == SmallLedger() && c in s.view && s.view[c] == Unmapped && c in s1.view
    ensures c !in s1.l.pages && s1.view[c] == Unmapped && NodeOf(c, 1) in s1.l.tables
  {
    hide FreeCount, Need, RunNodes;
    assert PageGained(s.l, s1.l, 1, 1, c);
    assert Prefix(c, 1) == c / 512 && Prefix(1, 1) == 1 / 512;
    assert OnRun(1, 1, NodeOf(c, 1));
    assert TableGained(s.l, s1.l, 1, 1, NodeOf(c, 1));
  }

  // ----- out of frames -----

  lemma NotPresent(s: Sound, c: nat)
    requires c in s.view && s.view[c] == Unmapped && NodeOf(c, 1) in s.l.tables
    ensures c < MAX_PAGE && !IsPresent(s.m.mem, s.m.root, c)
  {
    assert s.view[c] == Walk(s.m.mem, s.m.root, c);
    WalkIsShapeWalk(s.m.mem, s.m.root, s.l, c);
    LookupsFollowShape(s.m.mem, s.m.root, s.l, c);
  }

  /** With a pool of four frames, the second `alloc_pages(1)` answers an allocation although no frame is
      free, and pages mapped then share frame 0. */
  lemma SecondAllocationUnbacked() returns (y1: Sys, s1: Sound)
    ensures Step(TheKernel(), Sys(SmallMachine(4), {}), AllocDone(1, Alloc(1, 1)), y1) && s1.m == y1.m
    ensures y1.m.cursor < MAX_PAGE && FreeCount(y1.m.bits) == 0
    ensures RawAlloc(y1.m, 1).1.Some? && !AllocPages(MapBody, y1.m, 1).Allocated?
    ensures var m' := RawBody(RawBody(Mapper(y1.m, Fresh), 2), 3).m;
            Walk(m'.mem, m'.root, 2) == Walk(m'.mem, m'.root, 3) == Leaf(1, Entry(0, RW))
  {
    hide Core, AllocPages, MapBody, RawAlloc, RawBody, FreeCount, CanAllocate, Walk, FreeRunAt;
    y1, s1 := FirstAllocation(4);
    NotPresent(s1, 2);
    FreeAt(s1.m, 2);
    NoFramesNoRoom(s1);
    OutOfFramesUnreported(s1, 1);
    TablesThere(s1, 2);
    TablesThere(s1, 3);
    FrameZeroIsShared(s1, 2, 3);
  }

  lemma TablesThere(s: Sound, c: nat)
    requires c in s.view && s.view[c] == Unmapped && NodeOf(c, 1) in s.l.tables
    ensures Missing(s.l, c) == 0 && Mappable(s.view, c)
  {
    NothingMissingBelow(s, c);
  }

  lemma FreeAt(m: Machine, c: nat)
    requires m.cursor <= c < 512 && !IsPresent(m.mem, m.root, c)
    ensures !NoFreeRun(m, 1) && forall g: nat :: !TouchesEnd(m, 1, g)
  {
    assert FreeRunAt(m.mem, m.root, m.cursor, 1, c);
  }

  lemma NoFramesNoRoom(s: State)
    requires FreeCount(s.m.bits) == 0
    ensures forall first: nat, last: nat :: !CanAllocate(s, 1, first, last)
  {
  }

  /** With a pool of one frame, mapping that frame answers an allocation although its tables cannot be made. */
  lemma PhysicalUnbacked()
    ensures RawPhysical(SmallMachine(1), PAGE_SIZE, 1).1.Some?
    ensures !MapPhysical(MapBody, SmallMachine(1), PAGE_SIZE, 1).PhysMapped?
  {
    hide Core, MapPhysical, MapBody, RawPhysical, FreeCount, FreeRunAt, CanAllocate;
    SmallBoots(1);
    var s := BootExplained(Sys(SmallMachine(1), {}), SmallLedger());
    NothingPresent(1, 1);
    FreeAt(s.m, 1);
    forall first: nat, last: nat
      ensures !CanAllocate(s, 1, first, last)
    {
      OneFrameTooFew(s, first, last);
    }
    PhysOutOfFramesUnreported(s, PAGE_SIZE, 1);
  }

  lemma OneFrameTooFew(s: State, first: nat, last: nat)
    requires s.m == SmallMachine(1) && s.l == SmallLedger()
    ensures !CanAllocate(s, 1, first, last)
  {
    hide FreeCount, RunNodes, Earliest;
    AllFree(1);
    FirstPageCost();
    EarliestIsOne(1, first);
    assert s.l.tables.Keys == {ROOT};
  }

  lemma EarliestIsOne(k: nat, first: nat)
    ensures Earliest(SmallMachine(k), 1, first) ==> first == 1
  {
    hide RunFree;
    var m := SmallMachine(k);
    FreeAtOne(k);
  }

  lemma FreeAtOne(k: nat)
    ensures var m := SmallMachine(k); FreeRunAt(m.mem, m.root, m.cursor, 1, 1)
  {
    NothingPresent(k, 1);
  }

  // ----- no pages asked for -----

  /** With a pool of five frames, `alloc_pages(0)` after `alloc_pages(1)` succeeds and makes page 1, which is
      allocated, lead elsewhere. */
  lemma ZeroPagesTakesPageOne() returns (y1: Sys, m2: Machine)
    ensures Step(TheKernel(), Sys(SmallMachine(5), {}), AllocDone(1, Alloc(1, 1)), y1)
    ensures y1.m.cursor < MAX_PAGE && AllocPages(MapBody, y1.m, 0) == Allocated(m2, Alloc(1, 0))
    ensures Alloc(1, 1) in y1.live && Walk(m2.mem, m2.root, 1) != Walk(y1.m.mem, y1.m.root, 1)
  {
    hide Core, AllocPages, MapBody, FreeCount, Walk, Remapped;
    var s1: Sound;
    y1, s1 := FirstAllocation(5);
    OwnedIsPresent(s1, 1);
    LastPageOwned(s1, 1);
    OwnedPathThere(s1, 1);
    CoveredOrMappable(s1, 1);
    var r, s2 := RemapPage(s1, 1);
    m2 := s2.m;
    ZeroFolds(s1.m, m2);
    RemappedLeadsElsewhere(s1, 1, s2);
  }

  lemma SomeFree(s: Sound) returns (f: Frame)
    requires FreeCount(s.m.bits) > 0
    ensures s.m.base <= f < FRAME_LIMIT && !Marked(s.m, f)
  {
    NoneFree(s.m.bits);
    f := s.m.base + FirstFree(s.m.bits).value;
  }

  /** With a pool of five frames, mapping no pages of physical memory at the last free frame after
      `alloc_pages(1)` succeeds and leads page 1 to that frame; freeing the allocation then panics. */
  lemma PhysicalZeroBreaksFree() returns (y1: Sys, addr: nat, m2: Machine)
    ensures Step(TheKernel(), Sys(SmallMachine(5), {}), AllocDone(1, Alloc(1, 1)), y1)
    ensures y1.m.cursor < MAX_PAGE && MapPhysical(MapBody, y1.m, addr, 0) == PhysMapped(m2, Alloc(1, 0), PAGE_SIZE)
    ensures Alloc(1, 1) in y1.live && DeallocPages(UnmapBody, m2, Alloc(1, 1)).Panic?
  {
    hide Core, MapPhysical, MapBody, FreeCount, Walk, UnmapPage, Marked;
    var s1: Sound;
    y1, s1 := FirstAllocation(5);
    var f := SomeFree(s1);
    addr := f * PAGE_SIZE;
    assert addr / PAGE_SIZE == f && PhysCount(addr, 0) == 0;
    m2 := PhysicalZeroTakesPage(s1, addr, 0);
  }

  lemma OwnedPathThere(s: Sound, c: nat)
    requires c in s.l.pages
    ensures c in s.view && Missing(s.l, c) == 0
  {
    OwnedSlot(s, c);
    NothingMissingBelow(s, c);
  }

  // ----- HUGE_PAGE among the flags -----

  const HUGE_RW := Flags(true, true, true, 0)

  /** On the empty boot table with three free frames, mapping page 1 with HUGE_PAGE set makes it lead to a
      large page at level 3. */
  lemma HugeFlagsMisplace() returns (m': Machine)
    ensures MapPage(SmallMachine(3), 1, 9, HUGE_RW) == Some(m')
    ensures Walk(m'.mem, m'.root, 1).Leaf? && Walk(m'.mem, m'.root, 1).level == 3
  {
    var m := SmallMachine(3);
    var t := ThreeTables(m, 1, HUGE_RW);
    m' := SetSlot(t.m, t.frame, 1, Entry(9, HUGE_RW));
    SmallBoots(3);
    var s := BootExplained(Sys(m, {}), SmallLedger());
    NothingPresent(3, 1);
    ViewAt(s, 1);
    HugeFlagsMakeLargePage(s, 1, 9, HUGE_RW, m');
  }

  lemma ThreeTables(m: Machine, c: nat, flags: Flags) returns (t: Taken)
    requires m == SmallMachine(3) && c < MAX_PAGE
    ensures t.Took? && t == EnsurePath(m, c, flags)
  {
    t := EnsurePath(m, c, flags);
    assert FirstFree(m.bits) == Some(0);
    var bits1 := m.bits[0 := true];
    assert FirstFreeFrom(bits1, 1) == Some(1);
    var bits2 := bits1[1 := true];
    assert FirstFreeFrom(bits2, 2) == Some(2) && FirstFreeFrom(bits2, 1) == Some(2);
  }

  // ----- a boot table with a large page -----

  const T3: Frame := 101
  const T2: Frame := 512

  /** A table whose only entry is in its first slot. */
  function FirstSlot(e: Entry): (t: Table)
    ensures t[0] == e && forall i | 1 <= i < 512 :: t[i] == EMPTY
  {
    ClearedTable()[0 := e]
  }

  /** The first 2 MiB are a large page at frame `f`; frame 9 holds data that reads as entries. */
  function LargeMachine(f: Frame): Machine {
    Machine(map[ROOT_FRAME := FirstSlot(Entry(T3, RW)), T3 := FirstSlot(Entry(T2, RW)),
                T2 := FirstSlot(Entry(f, HUGE_RW)), 9 := FirstSlot(Entry(7, RW))],
            ROOT_FRAME, [false, false, false, false], 1, 1)
  }

  function LargeLedger(): Ledger {
    Ledger(map[ROOT := ROOT_FRAME, Node(3, 0) := T3, Node(2, 0) := T2], map[],
           map[ROOT_FRAME := TableFrame(ROOT), T3 := TableFrame(Node(3, 0)), T2 := TableFrame(Node(2, 0))])
  }

  /** A table whose only entry links to its only child. */
  lemma SingleLink(mem: Memory, l: Ledger, n: Node, f: Frame)
    requires n in l.tables && n.level >= 1 && Row(mem, l.tables[n]) == FirstSlot(Entry(f, RW))
    requires Child(n, 0) in l.tables && l.tables[Child(n, 0)] == f
    requires forall i: nat | 1 <= i < 512 :: Child(n, i) !in l.tables
    ensures forall i: nat | i < 512 :: LinkOk(mem, l, n, i)
  {
  }

  lemma LargeIsTree(f: Frame)
    ensures IsTree(LargeMachine(f).mem, ROOT_FRAME, LargeLedger())
  {
    var mem, l := LargeMachine(f).mem, LargeLedger();
    SingleLink(mem, l, ROOT, T3);
    SingleLink(mem, l, Node(3, 0), T2);
  }

  lemma LargeBoots(f: Frame)
    ensures Boot(Sys(LargeMachine(f), {}), LargeLedger())
  {
    LargeIsTree(f);
  }

  lemma LargeWalks(f: Frame)
    ensures var m := LargeMachine(f);
            Walk(m.mem, m.root, 5) == Leaf(2, Entry(f, HUGE_RW)) && Walk(m.mem, m.root, 2560) == Unmapped
  {
    var mem := LargeMachine(f).mem;
    IndicesAsComputed(5);
    IndicesAsComputed(2560);
    assert WalkFrom(mem, T2, 2, 5) == Leaf(2, Entry(f, HUGE_RW)) && WalkFrom(mem, T2, 2, 2560) == Unmapped;
    assert WalkFrom(mem, T3, 3, 5) == WalkFrom(mem, T2, 2, 5);
    assert WalkFrom(mem, T3, 3, 2560) == WalkFrom(mem, T2, 2, 2560);
  }

  lemma LargeSound(f: Frame) returns (s: Sound)
    ensures s.m == LargeMachine(f) && s.l == LargeLedger() && Covered(s.view, 5) && s.view[5].entry.frame == f
  {
    LargeBoots(f);
    s := BootExplained(Sys(LargeMachine(f), {}), LargeLedger());
    LargeWalks(f);
    assert s.view[5] == Walk(s.m.mem, s.m.root, 5);
  }

  /** Over data, the entry is written into the large page, and the page does not lead where it was told. */
  lemma LargePageSwallowsEntry() returns (m': Machine)
    ensures MapPage(LargeMachine(1024), 5, 9, RW) == Some(m') && Read(m'.mem, 1024, 5) == Entry(9, RW)
    ensures Walk(m'.mem, m'.root, 5) == Leaf(2, Entry(1024, HUGE_RW))
  {
    hide Core, MapPage, Walk;
    var s := LargeSound(1024);
    LargePageOverwritten(s, 5, 9, RW);
    IndicesAsComputed(5);
    m' := SetSlot(s.m, 1024, 5, Entry(9, RW));
    var s' := LargePageOfData(s, 5, 9, RW);
    ViewAt(s, 5);
    ViewAt(s', 5);
    LargeWalks(1024);
  }

  /** Over a table, another page starts to lead somewhere: the large page at frame 512 covers the level-2
      table itself, and page 2560 goes through the slot that mapping page 5 writes. */
  lemma LargePageOverItsTable() returns (m': Machine)
    ensures MapPage(LargeMachine(T2), 5, 9, RW) == Some(m')
    ensures var m := LargeMachine(T2); Walk(m.mem, m.root, 2560) == Unmapped
    ensures Walk(m'.mem, m'.root, 2560) == Leaf(1, Entry(7, RW))
  {
    hide Core, MapPage;
    var s := LargeSound(T2);
    LargePageOverwritten(s, 5, 9, RW);
    IndicesAsComputed(5);
    IndicesAsComputed(2560);
    m' := SetSlot(s.m, T2, 5, Entry(9, RW));
    LargeWalks(T2);
    assert WalkFrom(m'.mem, 9, 1, 2560) == Leaf(1, Entry(7, RW));
    assert WalkFrom(m'.mem, T2, 2, 2560) == WalkFrom(m'.mem, 9, 1, 2560);
    assert WalkFrom(m'.mem, T3, 3, 2560) == WalkFrom(m'.mem, T2, 2, 2560);
  }

  // ----- one frame left -----

  /** The first page that shares no table with page 1 but the root. */
  const FAR: nat := 0x800_0000

  lemma FarIndices()
    ensures Index(FAR, 4) == 1 && Index(FAR, 3) == Index(FAR, 2) == Index(FAR, 1) == 0
    ensures Index(FAR + 1, 4) == 1 && Index(FAR + 1, 3) == Index(FAR + 1, 2) == 0 && Index(FAR + 1, 1) == 1
    ensures Index(1, 4) == Index(1, 3) == Index(1, 2) == 0 && Index(1, 1) == 1
    ensures NodeOf(FAR, 3) == NodeOf(FAR + 1, 3) == Node(3, 1) == Child(ROOT, 1) && NodeOf(1, 3) == Node(3, 0)
  {
    IndicesAsComputed(FAR);
    IndicesAsComputed(FAR + 1);
    IndicesAsComputed(1);
  }

  /** One free frame, whose first entry, read as a table's, leads to the table of page 1; two pages wanted that
      share no table but the root with page 1. */
  ghost predicate OneLeft(s: State, f: Frame) {
    && s.m.cursor == FAR && FAR + 1 in s.view && NodeOf(FAR, 3) !in s.l.tables && !s.l.HoldsTable(0)
    && FirstFree(s.m.bits).Some? && FirstFree(s.m.bits[FirstFree(s.m.bits).value := true]).None?
    && f == s.m.base + FirstFree(s.m.bits).value && f != 0 && !s.l.HoldsTable(f)
    && 1 in s.l.pages && NodeOf(1, 1) in s.l.tables
    && Read(s.m.mem, f, 0) == Entry(s.l.tables[NodeOf(1, 1)], RW)
  }

  lemma FarIsFree(s: Sound, f: Frame)
    requires OneLeft(s, f)
    ensures !Read(s.m.mem, s.m.root, 1).flags.present
    ensures FindFree(s.m.mem, s.m.root, FAR, 2) == Some(Run(FAR, FAR + 1))
  {
    hide Core, Index, Prefix, IsPresent, FindFree;
    FarIndices();
    NoLinkThere(s, 1);
    NothingUnderSlot(s.m.mem, s.m.root, FAR);
    NothingUnderSlot(s.m.mem, s.m.root, FAR + 1);
    RunOfTwo(s.m.mem, s.m.root, FAR);
  }

  lemma RunOfTwo(mem: Memory, root: Frame, c: nat)
    requires c + 2 <= MAX_PAGE && !IsPresent(mem, root, c) && !IsPresent(mem, root, c + 1)
    ensures FindFree(mem, root, c, 2) == Some(Run(c, c + 1))
  {
    hide IsPresent;
    assert RunFree(mem, root, c, 2);
  }

  lemma NoLinkThere(s: Sound, i: nat)
    requires i < 512 && Child(ROOT, i) !in s.l.tables
    ensures !Read(s.m.mem, s.m.root, i).flags.present
  {
    assert LinkOk(s.m.mem, s.l, ROOT, i);
  }

  lemma NothingUnderSlot(mem: Memory, root: Frame, c: nat)
    requires c < MAX_PAGE && !Read(mem, root, Index(c, 4)).flags.present
    ensures !IsPresent(mem, root, c)
  {
  }

  /** The first of the two pages links frame 0 below the root, and writes the frame taken into it. */
  lemma FirstFarPage(m: Machine, f: Frame) returns (m': Machine)
    requires FirstFree(m.bits).Some? && FirstFree(m.bits[FirstFree(m.bits).value := true]).None?
    requires f == m.base + FirstFree(m.bits).value && m.root != 0 && !Read(m.mem, m.root, 1).flags.present
    ensures RawBody(Mapper(m, Fresh), FAR) == Mapper(m', Fresh) && m'.root == m.root && FirstFree(m'.bits).None?
    ensures Row(m'.mem, m.root) == Row(m.mem, m.root)[1 := ZERO]
    ensures Row(m'.mem, 0) == ClearedTable()[0 := Entry(f, RW)]
    ensures forall g | g != 0 && g != m.root :: Row(m'.mem, g) == Row(m.mem, g)
  {
    hide Index, Prefix, RawEnsure, FirstFree;
    FarIndices();
    var m0 := RawTake(m).0;
    RawEnsureEmpty(m0, m0.root, 1, RW);
    var m3 := RawEnsure(m0, m0.root, 1, RW).0;
    RawEnsureEmpty(m3, 0, 0, RW);
    var m2 := RawEnsure(m3, 0, 0, RW).0;
    RawEnsureEmpty(m2, 0, 0, RW);
    m' := RawBody(Mapper(m, Fresh), FAR).m;
  }

  /** The second goes through frame 0 into the frame taken, and from there to whatever its data says. */
  lemma SecondFarPage(m: Machine, f: Frame, t1: Frame)
    requires FirstFree(m.bits).None? && Read(m.mem, m.root, 1) == ZERO
    requires Read(m.mem, 0, 0) == Entry(f, RW) && Read(m.mem, f, 0) == Entry(t1, RW)
    ensures RawBody(Mapper(m, Fresh), FAR + 1) == Mapper(SetSlot(m, t1, FAR + 1, ZERO), Fresh)
  {
    hide Index, Prefix, FirstFree;
    FarIndices();
    RawBodyUnfolds(m, FAR + 1);
  }

  lemma OneLeftTakesPage(s: Sound, f: Frame) returns (m': Machine)
    requires OneLeft(s, f)
    ensures RawAlloc(s.m, 2) == (m', Some(Alloc(FAR, 2))) && Walk(m'.mem, m'.root, 1) == Leaf(1, ZERO)
  {
    hide Core, RawBody, FindFree, Walk;
    FarIsFree(s, f);
    RootTable(s);
    NotFrameZero(s, ROOT);
    var m0 := s.m.(cursor := FAR + 1);
    var m1 := FirstFarPage(m0, f);
    var t1 := s.l.tables[NodeOf(1, 1)];
    RootHoldsTable(s);
    SecondFarPage(m1, f, t1);
    m' := SetSlot(m1, t1, FAR + 1, ZERO);
    assert RawRun(RawBody(RawBody(Mapper(m0, Fresh), FAR), FAR + 1), FAR + 2, FAR + 1).m == m';
    assert RawRun(Mapper(m0, Fresh), FAR, FAR + 1).m == m';
    PageOneOverwritten(s, m1, m');
  }

  lemma RootHoldsTable(s: Sound)
    ensures s.l.HoldsTable(s.m.root)
  {
  }

  lemma OwnedIsMappable(s: Sound, c: nat)
    requires c in s.l.pages
    ensures Mappable(s.view, c)
  {
  }

  lemma LastLink(s: Sound, c: nat)
    requires c < MAX_PAGE && NodeOf(c, 1) in s.l.tables && NodeOf(c, 2) in s.l.tables
    ensures var e := Read(s.m.mem, s.l.tables[NodeOf(c, 2)], Index(c, 2));
            e.flags.present && !e.flags.huge && e.frame == s.l.tables[NodeOf(c, 1)]
  {
    ChildOnPath(c, 2);
    assert LinkOk(s.m.mem, s.l, NodeOf(c, 2), Index(c, 2));
  }

  lemma PageOneOverwritten(s: Sound, m1: Machine, m': Machine)
    requires 1 in s.l.pages && NodeOf(1, 1) in s.l.tables && !s.l.HoldsTable(0)
    requires m1.root == s.m.root && Row(m1.mem, s.m.root) == Row(s.m.mem, s.m.root)[1 := ZERO]
    requires forall g | g != 0 && g != s.m.root :: Row(m1.mem, g) == Row(s.m.mem, g)
    requires m' == SetSlot(m1, s.l.tables[NodeOf(1, 1)], FAR + 1, ZERO)
    ensures Walk(m'.mem, m'.root, 1) == Leaf(1, ZERO)
  {
    hide Core, Index, Prefix, IsTree, Missing;
    FarIndices();
    OwnedPathThere(s, 1);
    ViewAt(s, 1);
    OwnedIsMappable(s, 1);
    PathSlots(s, 1);
    TablesOnPath(s, 1);
    LastLink(s, 1);
    NotFrameZero(s, NodeOf(1, 3));
    NotFrameZero(s, NodeOf(1, 2));
    var t3, t2, t1 := s.l.tables[NodeOf(1, 3)], s.l.tables[NodeOf(1, 2)], s.l.tables[NodeOf(1, 1)];
    assert WalkFrom(m'.mem, t1, 1, 1) == Leaf(1, ZERO);
    assert WalkFrom(m'.mem, t2, 2, 1) == WalkFrom(m'.mem, t1, 1, 1);
    assert WalkFrom(m'.mem, t3, 3, 1) == WalkFrom(m'.mem, t2, 2, 1);
  }

  /** Page 1 is allocated; the one free frame, 2, holds data that reads as a link to the table of page 1. */
  function LastFrameMachine(): Machine {
    Machine(map[ROOT_FRAME := FirstSlot(Entry(T3, RW)), T3 := FirstSlot(Entry(102, RW)),
                102 := FirstSlot(Entry(103, RW)), 103 := ClearedTable()[1 := Entry(1, RW)],
                2 := FirstSlot(Entry(103, RW))],
            ROOT_FRAME, [true, false], 1, FAR)
  }

  function LastFrameLedger(): Ledger {
    Ledger(map[ROOT := ROOT_FRAME, Node(3, 0) := T3, Node(2, 0) := 102, Node(1, 0) := 103], map[1 := 1],
           map[ROOT_FRAME := TableFrame(ROOT), T3 := TableFrame(Node(3, 0)), 102 := TableFrame(Node(2, 0)),
               103 := TableFrame(Node(1, 0)), 1 := PageFrame(1)])
  }

  lemma LastFrameRows()
    ensures var mem := LastFrameMachine().mem;
            && Row(mem, ROOT_FRAME) == FirstSlot(Entry(T3, RW)) && Row(mem, T3) == FirstSlot(Entry(102, RW))
            && Row(mem, 102) == Row(mem, 2) == FirstSlot(Entry(103, RW)) && Read(mem, 103, 1) == Entry(1, RW)
  {
  }

  lemma LastFrameFields()
    ensures var m := LastFrameMachine();
            m.root == ROOT_FRAME && m.bits == [true, false] && m.base == 1 && m.cursor == FAR
  {
  }

  lemma LastFrameNodes()
    ensures var l := LastFrameLedger();
            && Node(3, 1) !in l.tables && !l.HoldsTable(0) && !l.HoldsTable(2) && 1 in l.pages
            && Node(1, 0) in l.tables && l.tables[Node(1, 0)] == 103 && NodeOf(1, 1) == Node(1, 0)
  {
  }

  lemma LastFrameTables()
    ensures var l := LastFrameLedger();
            && (forall n :: n in l.tables <==> 1 <= n.level <= 4 && n.prefix == 0) && l.TablesKnown()
            && l.tables[ROOT] == ROOT_FRAME && l.tables[Node(3, 0)] == T3
            && l.tables[Node(2, 0)] == 102 && l.tables[Node(1, 0)] == 103
  {
  }

  lemma LastFrameIsTree()
    ensures IsTree(LastFrameMachine().mem, ROOT_FRAME, LastFrameLedger())
  {
    hide LastFrameMachine, LastFrameLedger, FirstSlot, LinkOk, Row, Ledger.TablesKnown;
    LastFrameRows();
    LastFrameTables();
    var mem, l := LastFrameMachine().mem, LastFrameLedger();
    SingleLink(mem, l, ROOT, T3);
    SingleLink(mem, l, Node(3, 0), 102);
    SingleLink(mem, l, Node(2, 0), 103);
  }

  lemma LastFrameBits()
    ensures var m, l := LastFrameMachine(), LastFrameLedger();
            && l.PagesKnown() && l.UsesReal() && BitsMatch(m, l)
            && forall c | c in l.pages :: c == 1 && l.pages[c] == 1
  {
    hide LastFrameMachine;
    LastFrameFields();
  }

  lemma LastFrameSound() returns (s: Sound)
    ensures s.m == LastFrameMachine() && s.l == LastFrameLedger()
  {
    hide IsTree, Walk, FirstSlot, LastFrameMachine, LastFrameLedger, BitsMatch, Ledger.PagesKnown, Ledger.UsesReal;
    var m, l := LastFrameMachine(), LastFrameLedger();
    LastFrameIsTree();
    LastFrameFields();
    LastFrameBits();
    LastFrameWalks();
    s := Account(m, l, ViewOf(m.mem, m.root));
  }

  lemma LastFrameWalks()
    ensures var m := LastFrameMachine(); Walk(m.mem, m.root, 1) == Leaf(1, Entry(1, RW))
  {
    hide Index, Prefix, LastFrameMachine, FirstSlot;
    FarIndices();
    LastFrameRows();
    LastFrameFields();
    var mem := LastFrameMachine().mem;
    assert WalkFrom(mem, 103, 1, 1) == Leaf(1, Entry(1, RW));
    assert WalkFrom(mem, 102, 2, 1) == WalkFrom(mem, 103, 1, 1);
    assert WalkFrom(mem, T3, 3, 1) == WalkFrom(mem, 102, 2, 1);
  }

  /** With one frame left, allocating two pages makes page 1, which is allocated, lead to frame 0. */
  lemma LastFrameReadAsTable() returns (s: Sound, m': Machine)
    ensures s.m == LastFrameMachine() && FreeCount(s.m.bits) == 1 && !s.l.HoldsTable(0) && 1 in s.l.pages
    ensures RawAlloc(s.m, 2) == (m', Some(Alloc(FAR, 2)))
    ensures Walk(s.m.mem, s.m.root, 1) == Leaf(1, Entry(1, RW)) && Walk(m'.mem, m'.root, 1) == Leaf(1, ZERO)
  {
    hide Walk, RawAlloc, Core, LastFrameMachine, LastFrameLedger, FirstSlot, Index, Prefix, FirstFree, FreeCount;
    s := LastFrameSound();
    LastFrameWalks();
    LastFrameRows();
    LastFrameFields();
    LastFrameNodes();
    FarIndices();
    ViewAt(s, FAR + 1);
    LastFrameIsLast();
    assert [true, false][1 := true] == [true, true];
    m' := OneLeftTakesPage(s, 2);
  }

  lemma LastFrameIsLast()
    ensures FirstFree([true, false]) == Some(1) && FirstFree([true, true]) == None && FreeCount([true, false]) == 1
  {
    assert FirstFreeFrom([true, false], 1) == Some(1);
    assert FirstFreeFrom([true, true], 2) == None && FirstFreeFrom([true, true], 1) == None;
    assert FreeSet([true, false]) == {1};
  }
}
