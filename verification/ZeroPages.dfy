/** Asking the page allocator for no pages at all, or for physical memory of no pages: it maps the page under
    the cursor again. */
module ZeroPages {
  import opened Entries
  import opened Pages
  import opened PageTree
  import opened Bitmaps
  import opened Machines
  import opened PageRuns
  import opened Allocation
  import opened AllocatorRuns
  import opened AllocationRoundTrip
  import opened LargePages

  /** The page leads to a frame that was in no use before; what it owned before is still marked, but
      no page owns it any more. */
  ghost predicate Remapped(s: State, c: nat, s': State) {
    && c in s'.l.pages && s'.l.pages[c] !in s.l.uses
    && s'.l.pages == s.l.pages[c := s'.l.pages[c]]
    && s'.view == s.view[c := Leaf(1, Entry(s'.l.pages[c], RW))]
    && (c in s.l.pages ==> s'.l.Holds(s.l.pages[c]))
  }

  /** The mapping loop's body on a page that may be mapped already. */
  lemma RemapPage(s: Sound, c: nat) returns (r: Option<Mapper>, s': Sound)
    requires Mappable(s.view, c)
    ensures r == MapBody(Mapper(s.m, Fresh), c)
    ensures r.Some? ==> r.value == Mapper(s'.m, Fresh) && Remapped(s, c, s')
    ensures r.None? ==> FreeCount(s.m.bits) < 1 + Missing(s.l, c)
  {
    hide MapBody, MapPage, TakeFrame, Core, FreeCount;
    FreshBodyUnfolds(s.m, c);
    s' := s;
    var t, s1 := TakeFrameHolds(s);
    if t.OutOfFrames? {
      r := None;
    } else {
      var m': Option<Machine>;
      m', s' := MapPageOwns(s1, c, t.frame);
      HeldMisses(s.l, t.frame, c);
      r := Wrap(m', Fresh);
    }
  }

  /** A large page covers the page, and its first frame holds a table. */
  ghost predicate CoveredByTable(s: State, c: nat) {
    Covered(s.view, c) && s.l.HoldsTable(s.view[c].entry.frame)
  }

  /** The loop's body on a page that a large page covers: no page leads elsewhere afterwards. */
  lemma RemapCovered(s: Sound, c: nat) returns (r: Option<Mapper>, s': Sound)
    requires Covered(s.view, c) && !CoveredByTable(s, c)
    ensures r == MapBody(Mapper(s.m, Fresh), c)
    ensures r.Some? ==> r.value == Mapper(s'.m, Fresh) && s'.view == s.view && s'.l.pages == s.l.pages
  {
    hide MapBody, MapPage, TakeFrame, Core, FreeCount;
    FreshBodyUnfolds(s.m, c);
    s' := s;
    var t, s1 := TakeFrameHolds(s);
    if t.OutOfFrames? {
      r := None;
    } else {
      s' := LargePageOfData(s1, c, t.frame, RW);
      r := Wrap(Some(s'.m), Fresh);
    }
  }

  lemma ZeroUnfolds(m: Machine, m': Machine, a: Alloc)
    requires m.cursor < MAX_PAGE && AllocPages(MapBody, m, 0) == Allocated(m', a)
    ensures IsPresent(m.mem, m.root, m.cursor) && a == Alloc(m.cursor, 0) && m.cursor + 1 < MAX_PAGE
    ensures MapBody(Mapper(m, Fresh), m.cursor).Some? && MapBody(Mapper(m, Fresh), m.cursor).value.m == m'
  {
    var next := MapBody(Mapper(m, Fresh), m.cursor);
    if next.Some? {
      assert ForPages(MapBody, next.value, m.cursor + 1, m.cursor) == Done(next.value);
    }
  }

  lemma ZeroFolds(m: Machine, m': Machine)
    requires m.cursor + 1 < MAX_PAGE && IsPresent(m.mem, m.root, m.cursor)
    requires MapBody(Mapper(m, Fresh), m.cursor) == Some(Mapper(m', Fresh))
    ensures AllocPages(MapBody, m, 0) == Allocated(m', Alloc(m.cursor, 0))
  {
    hide MapBody;
    assert ForPages(MapBody, Mapper(m', Fresh), m.cursor + 1, m.cursor) == Done(Mapper(m', Fresh));
  }

  /** `alloc_pages(0)` succeeds only on a cursor page that is present. It maps that page again, or, when a
      large page covers it, changes where no page leads. */
  lemma ZeroPagesRemap(s: Sound, m': Machine, a: Alloc) returns (s': Sound)
    requires !CoveredByTable(s, s.m.cursor)
    requires s.m.cursor < MAX_PAGE && AllocPages(MapBody, s.m, 0) == Allocated(m', a)
    ensures IsPresent(s.m.mem, s.m.root, s.m.cursor) && a == Alloc(s.m.cursor, 0) && s'.m == m'
    ensures if Covered(s.view, s.m.cursor) then s'.view == s.view && s'.l.pages == s.l.pages
            else Remapped(s, s.m.cursor, s')
  {
    hide MapBody, AllocPages, Core, Remapped;
    ZeroUnfolds(s.m, m', a);
    ViewAt(s, s.m.cursor);
    CoveredOrMappable(s, s.m.cursor);
    var r: Option<Mapper>;
    if Covered(s.view, s.m.cursor) {
      r, s' := RemapCovered(s, s.m.cursor);
    } else {
      r, s' := RemapPage(s, s.m.cursor);
    }
  }

  /** Every page owned before leads where it led. */
  ghost predicate OwnedKept(s: State, m': Machine) {
    forall c: nat | c in s.l.pages && c < MAX_PAGE ::
      Walk(m'.mem, m'.root, c) == Walk(s.m.mem, s.m.root, c)
  }

  lemma KeptUnlessOwned(s: Sound, s': Sound)
    requires Remapped(s, s.m.cursor, s')
    ensures OwnedKept(s, s'.m) <==> s.m.cursor !in s.l.pages
  {
    var cursor := s.m.cursor;
    forall c: nat | c in s.l.pages && c < MAX_PAGE
      ensures Walk(s'.m.mem, s'.m.root, c) == Walk(s.m.mem, s.m.root, c) <==> c != cursor
    {
      assert s.view[c] == Walk(s.m.mem, s.m.root, c);
      assert s'.view[c] == Walk(s'.m.mem, s'.m.root, c);
      assert s.l.pages[c] in s.l.uses;
    }
    assert cursor in s.l.pages ==> s.view[cursor] == Walk(s.m.mem, s.m.root, cursor);
  }

  lemma KeptWhenCovered(s: Sound, s': Sound)
    requires Covered(s.view, s.m.cursor) && s'.view == s.view
    ensures OwnedKept(s, s'.m) && s.m.cursor !in s.l.pages
  {
    forall c: nat | c in s.l.pages && c < MAX_PAGE
      ensures Walk(s'.m.mem, s'.m.root, c) == Walk(s.m.mem, s.m.root, c)
    {
      assert s.view[c] == Walk(s.m.mem, s.m.root, c);
      assert s'.view[c] == Walk(s'.m.mem, s'.m.root, c);
    }
  }

  lemma KeptByAllocation(s: Sound, n: nat, a: Alloc, m': Machine, s': Sound)
    requires n >= 1 && AllocAchieved(s, n, Allocated(m', a), s')
    ensures OwnedKept(s, m')
  {
    AllocationMapped(s, n, a, m', s');
    forall c: nat | c in s.l.pages && c < MAX_PAGE
      ensures Walk(m'.mem, m'.root, c) == Walk(s.m.mem, s.m.root, c)
    {
      assert s.view[c] == Walk(s.m.mem, s.m.root, c);
      assert s'.view[c] == Walk(s'.m.mem, s'.m.root, c);
    }
  }

  /** An allocation leaves all owned pages alone exactly when at least one page was asked for, or the
      page under the cursor has no owner. */
  lemma AllocationKeepsOwnedIff(s: Sound, n: nat, m': Machine, a: Alloc)
    requires n == 0 ==> !CoveredByTable(s, s.m.cursor)
    requires s.m.cursor < MAX_PAGE && AllocPages(MapBody, s.m, n) == Allocated(m', a)
    ensures OwnedKept(s, m') <==> n >= 1 || s.m.cursor !in s.l.pages
  {
    hide MapBody, AllocPages, Core, OwnedKept, AllocAchieved, MapsNext;
    if n == 0 {
      var s' := ZeroPagesRemap(s, m', a);
      if Covered(s.view, s.m.cursor) {
        KeptWhenCovered(s, s');
      } else {
        KeptUnlessOwned(s, s');
      }
    } else {
      MapBodyMapsNext();
      var r, s' := AllocPagesKeeps(MapBody, s, n);
      KeptByAllocation(s, n, a, m', s');
    }
  }

  /** So right after any real allocation, asking for no pages takes its last page away from its owner. */
  lemma ZeroPagesAfterAllocation(s: Sound, n: nat, m1: Machine, a: Alloc, m2: Machine, b: Alloc)
    requires n >= 1 && s.m.cursor < MAX_PAGE && AllocPages(MapBody, s.m, n) == Allocated(m1, a)
    requires m1.cursor < MAX_PAGE && AllocPages(MapBody, m1, 0) == Allocated(m2, b)
    ensures a.count >= 1 && a.Last() < MAX_PAGE
    ensures Walk(m2.mem, m2.root, a.Last()) != Walk(m1.mem, m1.root, a.Last())
  {
    hide MapBody, AllocPages, Core, Walk, MapsNext;
    MapBodyMapsNext();
    var r, s1 := AllocPagesKeeps(MapBody, s, n);
    assert PageGained(s.l, s1.l, a.first, m1.cursor, m1.cursor);
    LastPageOwned(s1, m1.cursor);
    var s2 := ZeroPagesRemap(s1, m2, b);
    RemappedLeadsElsewhere(s1, m1.cursor, s2);
  }

  lemma LastPageOwned(s: Sound, c: nat)
    requires c in s.l.pages
    ensures !Covered(s.view, c)
  {
  }

  lemma RemappedLeadsElsewhere(s: Sound, c: nat, s': Sound)
    requires Remapped(s, c, s') && c in s.l.pages && c < MAX_PAGE
    ensures Walk(s'.m.mem, s'.m.root, c) != Walk(s.m.mem, s.m.root, c)
  {
    assert s.view[c] == Walk(s.m.mem, s.m.root, c);
    assert s'.view[c] == Walk(s'.m.mem, s'.m.root, c);
    assert s.l.pages[c] in s.l.uses;
  }

  // ----- map_physical -----

  lemma PhysZeroUnfolds(m: Machine, addr: nat, n: nat, m': Machine, a: Alloc, vaddr: nat)
    requires m.cursor < MAX_PAGE && PhysCount(addr, n) == 0
    requires MapPhysical(MapBody, m, addr, n) == PhysMapped(m', a, vaddr)
    ensures IsPresent(m.mem, m.root, m.cursor) && a == Alloc(m.cursor, 0) && m.cursor + 1 < MAX_PAGE
    ensures MapPage(m, m.cursor, addr / PAGE_SIZE, RW) == Some(m')
  {
    hide MapPage;
    var f := addr / PAGE_SIZE;
    assert Reserve(m, f, 0) == m;
    var next := MapBody(Mapper(m, Fixed(f)), m.cursor);
    if next.Some? {
      assert ForPages(MapBody, next.value, m.cursor + 1, m.cursor) == Done(next.value);
    }
  }

  lemma PhysZeroFolds(m: Machine, addr: nat, n: nat, m': Machine)
    requires m.cursor + 1 < MAX_PAGE && PhysCount(addr, n) == 0 && m.base <= addr / PAGE_SIZE
    requires IsPresent(m.mem, m.root, m.cursor) && MapPage(m, m.cursor, addr / PAGE_SIZE, RW) == Some(m')
    ensures MapPhysical(MapBody, m, addr, n) == PhysMapped(m', Alloc(m.cursor, 0), m.cursor * PAGE_SIZE)
  {
    hide MapPage;
    var f := addr / PAGE_SIZE;
    assert Reserve(m, f, 0) == m;
    var next := Mapper(m', Fixed(f + 1));
    assert MapBody(Mapper(m, Fixed(f)), m.cursor) == Some(next);
    assert ForPages(MapBody, next, m.cursor + 1, m.cursor) == Done(next);
  }

  /** A page led elsewhere by itself: the owned pages are kept unless it is one of them, and led away from
      its frame. */
  lemma KeptUnlessLedAway(s: Sound, m': Machine, f: Frame)
    requires ViewIs(s.view[s.m.cursor := Leaf(1, Entry(f, RW))], m'.mem, m'.root)
    ensures OwnedKept(s, m') <==> s.m.cursor !in s.l.pages || s.l.pages[s.m.cursor] == f
  {
    var cursor := s.m.cursor;
    forall c: nat | c in s.l.pages && c < MAX_PAGE
      ensures Walk(m'.mem, m'.root, c) == Walk(s.m.mem, s.m.root, c) <==> c != cursor || s.l.pages[cursor] == f
    {
      assert s.view[c] == Walk(s.m.mem, s.m.root, c);
      assert s.view[cursor := Leaf(1, Entry(f, RW))][c] == Walk(m'.mem, m'.root, c);
    }
    assert cursor in s.l.pages ==> s.view[cursor] == Walk(s.m.mem, s.m.root, cursor);
  }

  lemma KeptByPhysical(s: Sound, addr: nat, n: nat, a: Alloc, m': Machine, vaddr: nat, s': Sound)
    requires PhysCount(addr, n) >= 1 && PhysAchieved(s, addr, n, PhysMapped(m', a, vaddr), s')
    ensures OwnedKept(s, m')
  {
    FreeMeansUnmapped(s, a.first, a.Last(), a.count);
    forall c: nat | c in s.l.pages && c < MAX_PAGE
      ensures Walk(m'.mem, m'.root, c) == Walk(s.m.mem, s.m.root, c)
    {
      assert s.view[c] == Walk(s.m.mem, s.m.root, c);
      assert s'.view[c] == Walk(s'.m.mem, s'.m.root, c);
    }
  }

  /** `map_physical` leaves all owned pages alone exactly when it maps at least one page, or the page under
      the cursor has no owner or owns the very frame given. */
  lemma PhysicalKeepsOwnedIff(s: Sound, addr: nat, n: nat, m': Machine, a: Alloc, vaddr: nat)
    requires PhysCount(addr, n) == 0 ==> !CoveredByTable(s, s.m.cursor) && addr / PAGE_SIZE < FRAME_LIMIT
    requires s.m.cursor < MAX_PAGE && MapPhysical(MapBody, s.m, addr, n) == PhysMapped(m', a, vaddr)
    ensures OwnedKept(s, m') <==>
            PhysCount(addr, n) >= 1 || s.m.cursor !in s.l.pages || s.l.pages[s.m.cursor] == addr / PAGE_SIZE
  {
    hide MapBody, MapPage, MapPhysical, Core, OwnedKept, PhysAchieved, MapsNext;
    if PhysCount(addr, n) == 0 {
      PhysZeroUnfolds(s.m, addr, n, m', a, vaddr);
      ViewAt(s, s.m.cursor);
      CoveredOrMappable(s, s.m.cursor);
      if Covered(s.view, s.m.cursor) {
        var s' := LargePageOfData(s, s.m.cursor, addr / PAGE_SIZE, RW);
        KeptWhenCovered(s, s');
      } else {
        var r, l' := MapPageTranslates(s, s.m.cursor, addr / PAGE_SIZE, RW);
        KeptUnlessLedAway(s, m', addr / PAGE_SIZE);
      }
    } else {
      MapBodyMapsNext();
      var r, s' := MapPhysicalKeeps(MapBody, s, addr, n);
      KeptByPhysical(s, addr, n, a, m', vaddr, s');
    }
  }

  /** The level-1 slot of an owned page is rewritten in place. */
  lemma OwnedRewritten(s: Sound, c: nat, f: Frame)
    requires c in s.l.pages
    ensures c < MAX_PAGE && NodeOf(c, 1) in s.l.tables
    ensures MapPage(s.m, c, f, RW) == Some(SetSlot(s.m, s.l.tables[NodeOf(c, 1)], c, Entry(f, RW)))
  {
    hide MapPage;
    OwnedSlot(s, c);
    PathClosed(s.m.mem, s.m.root, s.l, c);
    ChildOnPath(c, 4);
    ChildOnPath(c, 3);
    ChildOnPath(c, 2);
    assert LinkOk(s.m.mem, s.l, NodeOf(c, 4), Index(c, 4));
    assert LinkOk(s.m.mem, s.l, NodeOf(c, 3), Index(c, 3));
    assert LinkOk(s.m.mem, s.l, NodeOf(c, 2), Index(c, 2));
    var t3, t2, t1 := s.l.tables[NodeOf(c, 3)], s.l.tables[NodeOf(c, 2)], s.l.tables[NodeOf(c, 1)];
    PresentSlots(s.m, c, t3, t2, t1, f, RW);
  }

  /** Taking back a page whose slot was rewritten looks at the new frame. */
  lemma RewrittenFreed(s: Sound, c: nat, f: Frame)
    requires c in s.l.pages && c < MAX_PAGE && NodeOf(c, 1) in s.l.tables
    ensures var m' := SetSlot(s.m, s.l.tables[NodeOf(c, 1)], c, Entry(f, RW));
            UnmapPage(m', c).Panic? <==> !Marked(s.m, f)
  {
    var m' := SetSlot(s.m, s.l.tables[NodeOf(c, 1)], c, Entry(f, RW));
    SetLeaf(s.m.mem, s.m.root, s.l, s.view, c, Entry(f, RW));
    LookupsFollowShape(m'.mem, m'.root, s.l, c);
  }

  /** Asked to map no page at an aligned address, with an owned page under the cursor, `map_physical` reserves
      nothing and leads that page to the frame given; taking the page back then panics exactly when that
      frame is not marked. */
  lemma PhysicalZeroTakesPage(s: Sound, addr: nat, n: nat) returns (m': Machine)
    requires PhysCount(addr, n) == 0 && s.m.base <= addr / PAGE_SIZE < FRAME_LIMIT
    requires s.m.cursor in s.l.pages && s.m.cursor + 1 < MAX_PAGE
    ensures MapPhysical(MapBody, s.m, addr, n) == PhysMapped(m', Alloc(s.m.cursor, 0), s.m.cursor * PAGE_SIZE)
    ensures m'.bits == s.m.bits && Walk(m'.mem, m'.root, s.m.cursor) == Leaf(1, Entry(addr / PAGE_SIZE, RW))
    ensures UnmapPage(m', s.m.cursor).Panic? <==> !Marked(s.m, addr / PAGE_SIZE)
  {
    hide MapBody, MapPage, MapPhysical, UnmapPage, Core, IsPresent;
    var c, f := s.m.cursor, addr / PAGE_SIZE;
    OwnedRewritten(s, c, f);
    m' := SetSlot(s.m, s.l.tables[NodeOf(c, 1)], c, Entry(f, RW));
    OwnedIsPresent(s, c);
    PhysZeroFolds(s.m, addr, n, m');
    RewrittenFreed(s, c, f);
    RewrittenWalk(s, c, f);
  }

  lemma RewrittenWalk(s: Sound, c: nat, f: Frame)
    requires c < MAX_PAGE && NodeOf(c, 1) in s.l.tables
    ensures var m' := SetSlot(s.m, s.l.tables[NodeOf(c, 1)], c, Entry(f, RW));
            Walk(m'.mem, m'.root, c) == Leaf(1, Entry(f, RW))
  {
    SetLeaf(s.m.mem, s.m.root, s.l, s.view, c, Entry(f, RW));
  }

  /** A request that maps no page is answered with nothing exactly when the page under the cursor is free; the
      machine is then the one before the call. */
  lemma NoPagesRefusedIff(m: Machine, addr: nat)
    requires m.cursor < MAX_PAGE
    ensures AllocPages(MapBody, m, 0) == NoRun <==> !IsPresent(m.mem, m.root, m.cursor)
    ensures addr % 4096 == 0 && m.base <= addr / 4096 ==>
              (MapPhysical(MapBody, m, addr, 0) == PhysNoRun(m) <==> !IsPresent(m.mem, m.root, m.cursor))
  {
    hide IsPresent, MapBody, ForPages;
    if addr % 4096 == 0 && m.base <= addr / 4096 {
      assert Reserve(m, addr / PAGE_SIZE, 0) == m;
    }
  }
}
