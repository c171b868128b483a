/** What the code does once the frame allocator has nothing left to give. */
module Exhaustion {
  import opened Entries
  import opened Pages
  import opened PageTree
  import opened RunTables
  import opened Bitmaps
  import opened Machines
  import opened FreeRuns
  import opened PageRuns
  import opened FrameRanges
  import opened Allocation
  import opened AllocationRoundTrip
  import opened LargePages
  import opened RawKernel

  // ----- failure is not reported -----

  /** `alloc_pages` reports failure for want of pages only, never for want of frames: its answer is
      right exactly when there is no free run or frames enough for the earliest one. */
  lemma OutOfFramesUnreported(s: Sound, n: nat)
    requires n >= 1 && s.m.cursor < MAX_PAGE && forall g: nat :: !TouchesEnd(s.m, n, g)
    ensures RawAlloc(s.m, n).1 == None <==> NoFreeRun(s.m, n)
    ensures (RawAlloc(s.m, n).1.Some? <==> AllocPages(MapBody, s.m, n).Allocated?)
            <==> NoFreeRun(s.m, n) || exists first: nat, last: nat :: CanAllocate(s, n, first, last)
  {
    hide MapBody, AllocPages, RawRun, ForPages, FindFree, FreeRunAt, Core, CanAllocate, Priced;
    FoundRun(s.m, n);
    RawAllocAgrees(s.m, n);
    var r, s' := AllocPrice(s, n);
    FoundMeansRun(s.m, n);
  }

  /** What a mapping that succeeds shows about the frames there were. */
  lemma PhysMappedCould(s: State, addr: nat, n: nat, m': Machine, a: Alloc, vaddr: nat, last: nat, s': State)
    requires PhysCount(addr, n) >= 1 && PhysAchieved(s, addr, n, PhysMapped(m', a, vaddr), s')
    requires last + 1 == a.first + a.count
    ensures CanAllocate(s, PhysCount(addr, n), a.first, last)
  {
    hide Earliest, RunNodes, Need, FreeCount, SameOutside, PagesGained, TablesGained, UsesKept, InOrder;
    NeedIsExact(s.l.tables.Keys, a.first, last, 1);
  }

  lemma PhysExhaustedCouldNot(s: State, addr: nat, n: nat, s': State, first: nat, last: nat)
    requires PhysCount(addr, n) >= 1 && PhysAchieved(s, addr, n, PhysExhausted, s')
    ensures !CanAllocate(s, PhysCount(addr, n), first, last) && !NoFreeRun(s.m, PhysCount(addr, n))
  {
    hide CanAllocate, FreeRunAt;
    var count := PhysCount(addr, n);
    var g: nat, h: nat :| TooFewFrames(s, count, g, h);
    if CanAllocate(s, count, first, last) {
      NeverShort(s, count, first, last, g, h);
    }
  }

  /** `map_physical` likewise: it refuses for frames that are taken or for want of pages, never for want of
      frames for tables; its answer is right exactly when it refuses or there are frames enough. */
  lemma PhysOutOfFramesUnreported(s: Sound, addr: nat, n: nat)
    requires PhysCount(addr, n) >= 1 && s.m.cursor < MAX_PAGE && s.m.base <= addr / PAGE_SIZE
    requires ScanRange(s.m.bits, addr / PAGE_SIZE - s.m.base, PhysCount(addr, n)) != OffEnd
    requires forall g: nat :: !TouchesEnd(s.m, PhysCount(addr, n), g)
    ensures var count := PhysCount(addr, n);
            var refused := ScanRange(s.m.bits, addr / PAGE_SIZE - s.m.base, count) == Busy || NoFreeRun(s.m, count);
            && (RawPhysical(s.m, addr, n).1 == None <==> refused)
            && ((RawPhysical(s.m, addr, n).1.Some? <==> MapPhysical(MapBody, s.m, addr, n).PhysMapped?)
                <==> refused || exists first: nat, last: nat :: CanAllocate(s, count, first, last))
  {
    hide MapBody, MapPhysical, RawPhysical, FindFree, FreeRunAt, Core, CanAllocate, PhysAchieved, MapsNext, MapReserved;
    hide TooFewFrames, TouchesEnd;
    var count := PhysCount(addr, n);
    MapBodyMapsNext();
    var r, s' := MapPhysicalKeeps(MapBody, s, addr, n);
    RawPhysicalAgrees(s.m, addr, n);
    MapPhysicalUnfolds(MapBody, s.m, addr, n);
    RefusedIff(s, addr, n, r, s');
    if r.PhysMapped? {
      LastOfMapped(s, addr, n, r, s');
      PhysMappedCould(s, addr, n, r.m, r.a, r.vaddr, r.a.Last(), s');
    }
    if r.PhysExhausted? {
      forall first: nat, last: nat
        ensures !CanAllocate(s, count, first, last)
      {
        PhysExhaustedCouldNot(s, addr, n, s', first, last);
      }
    }
  }

  lemma LastOfMapped(s: State, addr: nat, n: nat, r: PhysResult, s': State)
    requires PhysCount(addr, n) >= 1 && r.PhysMapped? && PhysAchieved(s, addr, n, r, s')
    ensures r.a.count >= 1
  {
  }

  /** When the range is clear the answer depends on whether a run of pages was found. */
  lemma RefusedIff(s: State, addr: nat, n: nat, r: PhysResult, s': State)
    requires PhysCount(addr, n) >= 1 && PhysAchieved(s, addr, n, r, s')
    requires s.m.cursor < MAX_PAGE && s.m.base <= addr / PAGE_SIZE
    requires ScanRange(s.m.bits, addr / PAGE_SIZE - s.m.base, PhysCount(addr, n)) != OffEnd
    requires r == MapPhysical(MapBody, s.m, addr, n)
    requires forall g: nat :: !TouchesEnd(s.m, PhysCount(addr, n), g)
    ensures !r.PhysPanic?
    ensures r.PhysRefused? <==> ScanRange(s.m.bits, addr / PAGE_SIZE - s.m.base, PhysCount(addr, n)) == Busy
    ensures r.PhysNoRun? <==> !r.PhysRefused? && NoFreeRun(s.m, PhysCount(addr, n))
  {
    hide MapBody, MapPhysical, FindFree, FreeRunAt, ScanRange, MappingDone, TooFewFrames, TouchesEnd;
    var f, count := addr / PAGE_SIZE, PhysCount(addr, n);
    MapPhysicalUnfolds(MapBody, s.m, addr, n);
    if ScanRange(s.m.bits, f - s.m.base, count) == Clear {
      ReservedResults(Reserve(s.m, f, count), addr, count);
    }
    EarliestRuns(s, count);
  }

  lemma ReservedResults(m: Machine, addr: nat, count: nat)
    requires m.cursor < MAX_PAGE
    ensures !MapReserved(MapBody, m, addr, count).PhysRefused?
  {
    hide MapBody, ForPages, FindFree, FreeRange;
  }

  lemma EarliestRuns(s: State, count: nat)
    ensures forall g: nat :: Earliest(s.m, count, g) ==> !NoFreeRun(s.m, count)
    ensures forall g: nat, h: nat :: TooFewFrames(s, count, g, h) ==> !NoFreeRun(s.m, count)
  {
  }

  // ----- frame 0 -----

  /** The entry written when frame 0 was handed out. */
  const ZERO := Entry(0, RW)

  /** Below the first missing table of its path, frame 0 serves as every table of the page at once; so the
      page's walk finds its way only if the slots it looks at there are the one slot that was written. */
  predicate SlotsCoincide(l: Ledger, c: nat) {
    && (NodeOf(c, 2) in l.tables || Index(c, 2) == Index(c, 1))
    && (NodeOf(c, 3) in l.tables || Index(c, 3) == Index(c, 1))
  }

  lemma RawEnsureEmpty(m: Machine, t: Frame, i: nat, flags: Flags)
    requires FirstFree(m.bits).None? && i < 512 && !Read(m.mem, t, i).flags.present
    ensures RawEnsure(m, t, i, flags) == (m.(mem := Write(m.mem, t, i, Entry(0, flags))[0 := ClearedTable()]), 0)
  {
  }

  /** Frame 0 with a single slot written. */
  ghost predicate OnlySlot(mem: Memory, i: nat)
    requires i < 512
  {
    forall j: nat | j < 512 :: Read(mem, 0, j) == if j == i then ZERO else EMPTY
  }

  /** Once frame 0 serves as a table, the rest of the descent stays in it. */
  lemma RawFromZero(m: Machine, c: nat)
    requires FirstFree(m.bits).None? && forall j: nat | j < 512 :: Read(m.mem, 0, j) == EMPTY
    ensures var (m2, t2) := RawEnsure(m, 0, Index(c, 3), RW);
            var (m1, t1) := RawEnsure(m2, t2, Index(c, 2), RW);
            && t2 == 0 && t1 == 0 && m1.root == m.root
            && OnlySlot(SetSlot(m1, 0, c, ZERO).mem, Index(c, 1))
            && forall g {:trigger Row(m1.mem, g)} | g != 0 :: Row(m1.mem, g) == Row(m.mem, g)
  {
  }

  /** Walking through frame 0. */
  lemma WalkThroughZero(mem: Memory, c: nat, level: nat)
    requires c < MAX_PAGE && 1 <= level <= 3 && OnlySlot(mem, Index(c, 1))
    ensures WalkFrom(mem, 0, level, c) ==
            if (level >= 2 ==> Index(c, 2) == Index(c, 1)) && (level >= 3 ==> Index(c, 3) == Index(c, 1))
            then Leaf(1, ZERO) else Unmapped
  {
    assert WalkFrom(mem, 0, 1, c) == Leaf(1, ZERO);
    if level >= 2 {
      assert WalkFrom(mem, 0, 2, c) == if Index(c, 2) == Index(c, 1) then Leaf(1, ZERO) else Unmapped;
    }
  }

  /** With no frame left, a page that no large page covers is mapped to frame 0, or leads nowhere. */
  lemma MappedWithoutFrames(s: Sound, c: nat)
    requires FreeCount(s.m.bits) == 0 && Mappable(s.view, c) && !s.l.HoldsTable(0)
    ensures c < MAX_PAGE
    ensures var m' := RawBody(Mapper(s.m, Fresh), c).m;
            Walk(m'.mem, m'.root, c) == if SlotsCoincide(s.l, c) then Leaf(1, ZERO) else Unmapped
  {
    hide Core, RawMap, FreeCount, WalkFrom;
    NoneFree(s.m.bits);
    RawBodyUnfolds(s.m, c);
    PathSlots(s, c);
    if NodeOf(c, 1) in s.l.tables {
      TablesOnPath(s, c);
      AllTablesThere(s, c);
    } else if NodeOf(c, 2) in s.l.tables {
      Level1Missing(s, c);
    } else if NodeOf(c, 3) in s.l.tables {
      Level2Missing(s, c);
    } else {
      Level3Missing(s, c);
    }
  }

  lemma TablesOnPath(s: Sound, c: nat)
    requires c < MAX_PAGE && NodeOf(c, 1) in s.l.tables
    ensures NodeOf(c, 2) in s.l.tables && NodeOf(c, 3) in s.l.tables
  {
    PathClosed(s.m.mem, s.m.root, s.l, c);
  }

  lemma AllTablesThere(s: Sound, c: nat)
    requires Mappable(s.view, c) && c < MAX_PAGE && NodeOf(c, 1) in s.l.tables
    requires FreeCount(s.m.bits) == 0
    ensures var m' := RawMap(s.m, c, 0, RW); Walk(m'.mem, m'.root, c) == Leaf(1, ZERO)
  {
    hide Core, MapPage, RawMap, FreeCount, Walk;
    NothingMissingBelow(s, c);
    var r, l' := MapPageTranslates(s, c, 0, RW);
    RawMapAgrees(s.m, c, 0, RW);
  }

  lemma NothingMissingBelow(s: Sound, c: nat)
    requires c < MAX_PAGE && NodeOf(c, 1) in s.l.tables
    ensures Missing(s.l, c) == 0
  {
    hide Core, Missing;
    TablesOnPath(s, c);
    MissingIsMissingFrom(s.l, c);
  }

  /** The walk from the root goes through links that are not large pages. */
  lemma WalkThroughLinks(mem: Memory, root: Frame, c: nat, t3: Frame, t2: Frame)
    requires c < MAX_PAGE && Read(mem, root, Index(c, 4)).flags.present && Read(mem, root, Index(c, 4)).frame == t3
    ensures Walk(mem, root, c) == WalkFrom(mem, t3, 3, c)
    ensures var e3 := Read(mem, t3, Index(c, 3));
            e3.flags.present && !e3.flags.huge && e3.frame == t2 ==> WalkFrom(mem, t3, 3, c) == WalkFrom(mem, t2, 2, c)
  {
  }

  lemma Level1Missing(s: Sound, c: nat)
    requires FirstFree(s.m.bits).None? && Mappable(s.view, c) && c < MAX_PAGE && !s.l.HoldsTable(0)
    requires NodeOf(c, 2) in s.l.tables && NodeOf(c, 1) !in s.l.tables
    ensures var m' := RawMap(s.m, c, 0, RW); Walk(m'.mem, m'.root, c) == Leaf(1, ZERO)
  {
    hide Core, Walk, WalkFrom;
    PathSlots(s, c);
    var t3, t2 := s.l.tables[NodeOf(c, 3)], s.l.tables[NodeOf(c, 2)];
    RootTable(s);
    NotFrameZero(s, ROOT);
    NotFrameZero(s, NodeOf(c, 3));
    NotFrameZero(s, NodeOf(c, 2));
    RawEnsureEmpty(s.m, t2, Index(c, 2), RW);
    var m' := RawMap(s.m, c, 0, RW);
    WalkThroughLinks(m'.mem, m'.root, c, t3, t2);
    WalkLastLevels(m'.mem, t2, c);
    WalkThroughZero(m'.mem, c, 1);
  }

  lemma WalkLastLevels(mem: Memory, t2: Frame, c: nat)
    requires c < MAX_PAGE && Read(mem, t2, Index(c, 2)) == ZERO
    ensures WalkFrom(mem, t2, 2, c) == WalkFrom(mem, 0, 1, c)
  {
  }

  lemma NotFrameZero(s: Sound, n: Node)
    requires n in s.l.tables && !s.l.HoldsTable(0)
    ensures s.l.tables[n] != 0
  {
  }

  lemma Level2Missing(s: Sound, c: nat)
    requires FirstFree(s.m.bits).None? && Mappable(s.view, c) && c < MAX_PAGE && !s.l.HoldsTable(0)
    requires NodeOf(c, 3) in s.l.tables && NodeOf(c, 2) !in s.l.tables
    ensures var m' := RawMap(s.m, c, 0, RW);
            Walk(m'.mem, m'.root, c) == if Index(c, 2) == Index(c, 1) then Leaf(1, ZERO) else Unmapped
  {
    hide Core, Walk, WalkFrom;
    PathSlots(s, c);
    var t3 := s.l.tables[NodeOf(c, 3)];
    RootTable(s);
    NotFrameZero(s, ROOT);
    NotFrameZero(s, NodeOf(c, 3));
    RawEnsureEmpty(s.m, t3, Index(c, 3), RW);
    var m2 := RawEnsure(s.m, t3, Index(c, 3), RW).0;
    RawEnsureEmpty(m2, 0, Index(c, 2), RW);
    var m' := RawMap(s.m, c, 0, RW);
    WalkThroughLinks(m'.mem, m'.root, c, t3, 0);
    WalkThroughZero(m'.mem, c, 2);
  }

  lemma Level3Missing(s: Sound, c: nat)
    requires FirstFree(s.m.bits).None? && Mappable(s.view, c) && c < MAX_PAGE && !s.l.HoldsTable(0)
    requires NodeOf(c, 3) !in s.l.tables
    ensures var m' := RawMap(s.m, c, 0, RW);
            Walk(m'.mem, m'.root, c) ==
            if Index(c, 3) == Index(c, 1) && Index(c, 2) == Index(c, 1) then Leaf(1, ZERO) else Unmapped
  {
    hide Core, Walk, WalkFrom;
    PathSlots(s, c);
    RootTable(s);
    NotFrameZero(s, ROOT);
    RawEnsureEmpty(s.m, s.m.root, Index(c, 4), RW);
    var m3 := RawEnsure(s.m, s.m.root, Index(c, 4), RW).0;
    RawFromZero(m3, c);
    var m' := RawMap(s.m, c, 0, RW);
    assert Row(m'.mem, s.m.root) == Row(m3.mem, s.m.root);
    WalkThroughLinks(m'.mem, m'.root, c, 0, 0);
    WalkThroughZero(m'.mem, c, 3);
  }

  lemma RootTable(s: Sound)
    ensures ROOT in s.l.tables && s.l.tables[ROOT] == s.m.root
  {
  }

  /** With no frame left, a page whose tables exist is mapped to frame 0. */
  lemma MappedToFrameZero(s: Sound, c: nat) returns (s': Sound)
    requires FreeCount(s.m.bits) == 0 && Missing(s.l, c) == 0 && Mappable(s.view, c) && c !in s.l.pages
    ensures RawBody(Mapper(s.m, Fresh), c) == Mapper(s'.m, Fresh)
    ensures s'.l.pages == s.l.pages && forall t | t in s.l.tables :: t in s'.l.tables
    ensures s'.view == s.view[c := Leaf(1, Entry(0, RW))] && FreeCount(s'.m.bits) == 0
  {
    hide Core, MapPage, RawMap, FreeCount, IsTree, BitsMatch, ViewIs;
    NoneFree(s.m.bits);
    RawBodyUnfolds(s.m, c);
    var r, l' := MapPageTranslates(s, c, 0, RW);
    RawMapAgrees(s.m, c, 0, RW);
    s' := UnownedMapped(s, c, r.value, l');
  }

  lemma RawBodyUnfolds(m: Machine, c: nat)
    requires FirstFree(m.bits).None?
    ensures RawBody(Mapper(m, Fresh), c) == Mapper(RawMap(m, c, 0, RW), Fresh)
  {
  }

  lemma UnownedMapped(s: Sound, c: nat, m': Machine, l': Ledger) returns (s': Sound)
    requires c !in s.l.pages && SameFrame(s.m, m')
    requires ViewIs(s.view[c := Leaf(1, Entry(0, RW))], m'.mem, m'.root)
    requires Grows(s.l, l', c, 4) && IsTree(m'.mem, m'.root, l')
    requires l'.PagesKnown() && l'.UsesReal() && BitsMatch(m', l')
    ensures s' == State(m', l', s.view[c := Leaf(1, Entry(0, RW))])
    ensures l'.pages == s.l.pages && forall t | t in s.l.tables :: t in l'.tables
  {
    forall t | t in s.l.tables
      ensures t in l'.tables
    {
      assert Gained(s.l, l', c, 4, t);
    }
    s' := Account(m', l', s.view[c := Leaf(1, Entry(0, RW))]);
  }

  lemma NothingMissing(l: Ledger, l': Ledger, c: nat)
    requires Missing(l, c) == 0 && forall t | t in l.tables :: t in l'.tables
    ensures Missing(l', c) == 0
  {
    hide Missing;
    MissingIsMissingFrom(l, c);
    MissingIsMissingFrom(l', c);
  }

  /** So two pages mapped after the frames have run out share frame 0. */
  lemma FrameZeroIsShared(s: Sound, c: nat, d: nat)
    requires FreeCount(s.m.bits) == 0 && c != d
    requires Missing(s.l, c) == 0 && Mappable(s.view, c) && c !in s.l.pages
    requires Missing(s.l, d) == 0 && Mappable(s.view, d) && d !in s.l.pages
    ensures c < MAX_PAGE && d < MAX_PAGE
    ensures var m' := RawBody(RawBody(Mapper(s.m, Fresh), c), d).m;
            Walk(m'.mem, m'.root, c) == Walk(m'.mem, m'.root, d) == Leaf(1, Entry(0, RW))
  {
    hide Core, RawBody, FreeCount, Walk;
    var s1 := MappedToFrameZero(s, c);
    NothingMissing(s.l, s1.l, d);
    var s2 := MappedToFrameZero(s1, d);
    ViewAt(s2, c);
    ViewAt(s2, d);
  }
}
