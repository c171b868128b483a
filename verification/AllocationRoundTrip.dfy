/** Undoing an allocation, the exact price of one, and what a physical mapping translates to. */
module AllocationRoundTrip {
  import opened Entries
  import opened Pages
  import opened PageTree
  import opened RunTables
  import opened FreeRuns
  import opened Bitmaps
  import opened Machines
  import opened PageRuns
  import opened Allocation
  import opened AllocatorRuns
  import opened AllocatorTheorems

  // ----- alloc_pages, then dealloc_pages -----

  /** A frame put to use by mapping a run and not given up with it holds a table. */
  lemma NewUseIsTable(s: Sound, s1: Sound, first: nat, last: nat, f: Frame)
    requires UsesKept(s.l, s1.l, Fresh, Length(first, last)) && PagesGained(s.l, s1.l, first, last, Fresh)
    requires NoneHeld(s.l) && f !in s.l.uses && f in s1.l.uses && !OfRun(s1.l, first, last, f)
    ensures s1.l.uses[f].TableFrame?
  {
    assert s1.l.Holds(f) ==> s.l.Holds(f);
    assert s1.l.uses[f].PageFrame? ==> PageGained(s.l, s1.l, first, last, s1.l.uses[f].page);
  }

  /** A frame in use before is not one of those the run is given. */
  lemma OldUseStays(s: Sound, s1: Sound, first: nat, last: nat, f: Frame)
    requires AllUnmapped(s.view, first, last)
    requires UsesKept(s.l, s1.l, Fresh, Length(first, last)) && f in s.l.uses
    ensures f in s1.l.uses && !OfRun(s1.l, first, last, f)
  {
    assert KeepsUse(s.l, s1.l, f);
    if s.l.uses[f].PageFrame? {
      assert s.l.uses[f].page in s.l.pages;
    }
  }

  /** Frames in use after the round trip: those in use before, and the tables created. */
  lemma RoundTripUses(s: Sound, s1: Sound, s2: Sound, first: nat, last: nat, f: Frame)
    requires AllUnmapped(s.view, first, last)
    requires UsesKept(s.l, s1.l, Fresh, Length(first, last)) && PagesGained(s.l, s1.l, first, last, Fresh)
    requires NoneHeld(s.l) && s2.l == DisownRun(s1.l, first, last)
    ensures f in s2.l.uses <==> f in s.l.uses || (TableIn(s2.l, f) && !TableIn(s.l, f))
  {
    DisownRunLeaves(s1.l, first, last);
    TableUse(s, f);
    TableUse(s2, f);
    if f in s.l.uses {
      OldUseStays(s, s1, first, last, f);
    } else if f in s1.l.uses && !OfRun(s1.l, first, last, f) {
      NewUseIsTable(s, s1, first, last, f);
    }
  }

  lemma RoundTripView(s: Sound, s1: Sound, s2: Sound, first: nat, last: nat, c: nat)
    requires AllUnmapped(s.view, first, last) && SameOutside(s.view, s1.view, first, last)
    requires s2.view == Blank(s1.view, first, last) && c < MAX_PAGE
    ensures Walk(s2.m.mem, s2.m.root, c) == Walk(s.m.mem, s.m.root, c)
  {
    BlankAt(s1.view, first, last, c);
    assert s.view[c] == Walk(s.m.mem, s.m.root, c);
    assert s2.view[c] == Walk(s2.m.mem, s2.m.root, c);
  }

  /** The bitmap after the round trip. */
  ghost predicate OnlyTablesStay(s: State, s2: State, f: Frame) {
    Marked(s2.m, f) <==> Marked(s.m, f) || (InPool(s.m, f) && TableIn(s2.l, f) && !TableIn(s.l, f))
  }

  /** What is left after mapping a run of unmapped pages and unmapping it again. */
  lemma RoundTrip(s: Sound, s0: State, s1: Sound, s2: Sound, first: nat, last: nat, m1: Machine)
    requires AllUnmapped(s.view, first, last) && NoneHeld(s.l) && first <= last
    requires s0 == s.(m := s0.m) && SameFrame(s.m, s0.m.(cursor := s.m.cursor))
    requires MappingDone(s0, s1, first, last, Fresh, m1) && RunReleased(s1, first, last, s2)
    ensures forall c: nat | c < MAX_PAGE :: Walk(s2.m.mem, s2.m.root, c) == Walk(s.m.mem, s.m.root, c)
    ensures forall f :: OnlyTablesStay(s, s2, f)
    ensures RunNodes(first, last) <= s2.l.tables.Keys
  {
    hide FreeCount, Walk;
    forall c: nat | c < MAX_PAGE
      ensures Walk(s2.m.mem, s2.m.root, c) == Walk(s.m.mem, s.m.root, c)
    {
      RoundTripView(s, s1, s2, first, last, c);
    }
    forall f
      ensures OnlyTablesStay(s, s2, f)
    {
      RoundTripUses(s, s1, s2, first, last, f);
      assert InPool(s.m, f) ==> (Marked(s.m, f) <==> f in s.l.uses);
      assert InPool(s2.m, f) ==> (Marked(s2.m, f) <==> f in s2.l.uses);
    }
    DisownRunLeaves(s1.l, first, last);
    forall t | t in RunNodes(first, last)
      ensures t in s2.l.tables
    {
      assert TableGained(s.l, s1.l, first, last, t);
    }
  }

  /** The state the mapping loop of `alloc_pages` starts from. */
  ghost function Started(s: State, cursor: nat): State {
    s.(m := s.m.(cursor := cursor))
  }

  lemma AllocationMapped(s: Sound, n: nat, a: Alloc, m1: Machine, s1: State)
    requires n >= 1 && AllocAchieved(s, n, Allocated(m1, a), s1)
    ensures a.count >= 1 && m1.cursor == a.Last() && AllUnmapped(s.view, a.first, m1.cursor)
    ensures MappingDone(Started(s, m1.cursor), s1, a.first, m1.cursor, Fresh, m1)
  {
    FreeMeansUnmapped(s, a.first, m1.cursor, n);
  }

  /** Taking back what was just allocated restores where every page leads, and the whole bitmap but
      for the tables created, which stay marked. */
  lemma AllocThenFree(k: Kernel, s: Sound, y: Sys, n: nat, a: Alloc, y1: Sys) returns (s2: Sound)
    requires KernelOk(k) && Explains(s, y) && Step(k, y, AllocDone(n, a), y1)
    ensures DeallocPages(k.unmapping, y1.m, a) == Freed(s2.m)
    ensures forall c: nat | c < MAX_PAGE :: Walk(s2.m.mem, s2.m.root, c) == Walk(y.m.mem, y.m.root, c)
    ensures forall f :: OnlyTablesStay(s, s2, f)
    ensures RunNodes(a.first, y1.m.cursor) <= s2.l.tables.Keys
  {
    hide AllocPages, AllocAchieved, MappingDone, RunReleased, OnlyTablesStay;
    hide LiveMatches, NoneHeld, AllUnmapped, Core, Walk, KernelOk;
    var s1 := AllocKeeps(k, s, y, n, a, y1);
    AllocationMapped(s, n, a, y1.m, s1);
    s2 := FreeSucceeds(k, s1, y1, a);
    RoundTrip(s, Started(s, y1.m.cursor), s1, s2, a.first, y1.m.cursor, y1.m);
  }

  /** Exactly the pages of the allocation start to lead somewhere, from nowhere to marked frames; every other
      page leads where it led. */
  ghost predicate OnlyPagesMapped(m: Machine, a: Alloc, m1: Machine) {
    forall c: nat | c < MAX_PAGE ::
      var t, t1 := Walk(m.mem, m.root, c), Walk(m1.mem, m1.root, c);
      if a.Has(c) then t == Unmapped && t1.Leaf? && t1.level == 1 && Marked(m1, t1.entry.frame) else t1 == t
  }

  lemma AllocMapsItsPages(s: Sound, n: nat, a: Alloc, m1: Machine, s1: Sound)
    requires n >= 1 && AllocAchieved(s, n, Allocated(m1, a), s1)
    ensures a.count == n && OnlyPagesMapped(s.m, a, m1)
  {
    hide Core, Walk, Marked;
    AllocationMapped(s, n, a, m1, s1);
    forall c: nat | c < MAX_PAGE
      ensures var t, t1 := Walk(s.m.mem, s.m.root, c), Walk(m1.mem, m1.root, c);
              if a.Has(c) then t == Unmapped && t1.Leaf? && t1.level == 1 && Marked(m1, t1.entry.frame) else t1 == t
    {
      ViewAt(s, c);
      ViewAt(s1, c);
      assert PageGained(s.l, s1.l, a.first, m1.cursor, c);
      if a.Has(c) {
        OwnedSlot(s1, c);
        OwnedLeads(s1, c);
      }
    }
  }

  /** Mapping pages all of whose tables exist takes one frame per page and no table. */
  lemma RemapNeedsNoTable(s: Sound, first: nat, last: nat) returns (r: Loop<Mapper>, s': Sound)
    requires first <= last && last + 1 < MAX_PAGE && AllUnmapped(s.view, first, last)
    requires RunNodes(first, last) <= s.l.tables.Keys
    ensures r == ForPages(MapBody, Mapper(s.m, Fresh), first, last)
    ensures r.Done? <==> FreeCount(s.m.bits) >= last - first + 1
    ensures r.Done? ==> r.s.m == s'.m && FreeCount(s'.m.bits) == FreeCount(s.m.bits) - (last - first + 1)
    ensures r.Done? ==> s'.l.tables.Keys == s.l.tables.Keys
  {
    hide Core, MapBody, ForPages, MapsNext, Need, FreeCount;
    MapBodyMapsNext();
    r, s' := MapRunKeeps(MapBody, s, first, last, Fresh);
    NeedIsExact(s.l.tables.Keys, first, last, 1);
    assert RunNodes(first, last) - s.l.tables.Keys == {};
    if r.Done? {
      forall t
        ensures t in s'.l.tables <==> t in s.l.tables
      {
        assert TableGained(s.l, s'.l, first, last, t);
        assert OnRun(first, last, t) ==> t in RunNodes(first, last);
      }
    }
  }

  // ----- the exact price of alloc_pages -----

  /** The earliest free run is first..=last, it ends before the last page, and there are enough free
      frames for its pages and for those of its tables that do not exist. */
  ghost predicate CanAllocate(s: State, n: nat, first: nat, last: nat) {
    && Earliest(s.m, n, first) && last + 1 == first + n < MAX_PAGE
    && n + |RunNodes(first, last) - s.l.tables.Keys| <= FreeCount(s.m.bits)
  }

  lemma NeverShort(s: State, n: nat, first: nat, last: nat, g: nat, h: nat)
    requires n >= 1 && CanAllocate(s, n, first, last)
    ensures !TooFewFrames(s, n, g, h) && !TouchesEnd(s.m, n, g)
  {
    hide RunFree, RunNodes, Need, FreeCount;
    NeedIsExact(s.l.tables.Keys, first, last, 1);
    assert Earliest(s.m, n, g) ==> g == first;
  }

  lemma CanMeansAllocated(s: State, n: nat, first: nat, last: nat, r: AllocResult, s': State)
    requires n >= 1 && CanAllocate(s, n, first, last) && AllocAchieved(s, n, r, s')
    ensures r.Allocated?
  {
    assert FreeRunAt(s.m.mem, s.m.root, s.m.cursor, n, first);
    forall g: nat, h: nat
      ensures !TooFewFrames(s, n, g, h) && !TouchesEnd(s.m, n, g)
    {
      NeverShort(s, n, first, last, g, h);
    }
  }

  /** What a successful `alloc_pages(n)` of the run first..=last costs. */
  ghost predicate Priced(s: State, n: nat, first: nat, last: nat, s': State) {
    && FreeCount(s'.m.bits) == FreeCount(s.m.bits) - n - |RunNodes(first, last) - s.l.tables.Keys|
    && s'.l.tables.Keys == s.l.tables.Keys + RunNodes(first, last)
  }

  lemma AllocatedIsPriced(s: State, n: nat, a: Alloc, m': Machine, last: nat, s': State)
    requires n >= 1 && AllocAchieved(s, n, Allocated(m', a), s') && last == m'.cursor
    ensures CanAllocate(s, n, a.first, last) && Priced(s, n, a.first, last, s')
  {
    hide RunFree, RunNodes, Need, FreeCount;
    NeedIsExact(s.l.tables.Keys, a.first, last, 1);
    forall t
      ensures t in s'.l.tables.Keys <==> t in s.l.tables.Keys + RunNodes(a.first, last)
    {
      assert TableGained(s.l, s'.l, a.first, last, t);
    }
  }

  /** `alloc_pages(n)` succeeds exactly when it can; it then marks exactly one frame per page and one per
      missing table of the run. */
  lemma AllocPrice(s: Sound, n: nat) returns (r: AllocResult, s': Sound)
    requires n >= 1 && s.m.cursor < MAX_PAGE
    ensures r == AllocPages(MapBody, s.m, n)
    ensures r.Allocated? <==> exists first: nat, last: nat :: CanAllocate(s, n, first, last)
    ensures r.Allocated? ==> s'.m == r.m && Priced(s, n, r.a.first, r.m.cursor, s')
  {
    hide AllocPages, CanAllocate, Priced, Core, MapsNext, MapBody;
    MapBodyMapsNext();
    r, s' := AllocPagesKeeps(MapBody, s, n);
    if r.Allocated? {
      AllocatedIsPriced(s, n, r.a, r.m, r.m.cursor, s');
    }
    if exists first: nat, last: nat :: CanAllocate(s, n, first, last) {
      var first: nat, last: nat :| CanAllocate(s, n, first, last);
      CanMeansAllocated(s, n, first, last, r, s');
    }
  }

  ghost function NewTables(s: State, s': State, level: nat): set<Node> {
    set t | t in s'.l.tables.Keys && t !in s.l.tables.Keys && t.level == level
  }

  /** Such an allocation creates at most floor((n + span - 2) / span) + 1 tables at each level. */
  lemma NewTablesPerLevel(s: State, n: nat, first: nat, last: nat, s': State, level: nat)
    requires n >= 1 && last + 1 == first + n && Priced(s, n, first, last, s') && 1 <= level <= 3
    ensures |NewTables(s, s', level)| <= MostTables(n, level)
  {
    hide MostTables, FreeCount, RunNodes;
    assert last - first + 1 == n;
    TablesPerLevel(first, last, level, NewTables(s, s', level));
  }

  // ----- map_physical, byte by byte -----

  lemma ByteArithmetic(addr: nat, n: nat, first: nat, b: nat)
    requires b < n * PAGE_SIZE
    ensures var vaddr := first * PAGE_SIZE + addr % PAGE_SIZE;
            var c := (vaddr + b) / PAGE_SIZE;
            && first <= c < first + PhysCount(addr, n)
            && (addr / PAGE_SIZE + (c - first)) * PAGE_SIZE + (vaddr + b) % PAGE_SIZE == addr + b
  {
    var x := addr % PAGE_SIZE + b;
    var q := x / PAGE_SIZE;
    assert (first * PAGE_SIZE + x) / PAGE_SIZE == first + q;
    assert (first * PAGE_SIZE + x) % PAGE_SIZE == x % PAGE_SIZE;
  }

  /** Virtual address vaddr + b lies in the allocation and its walk reaches physical address addr + b. */
  ghost predicate Reaches(m: Machine, a: Alloc, vaddr: nat, addr: nat, b: nat) {
    var c := (vaddr + b) / PAGE_SIZE;
    && a.Has(c) && c < MAX_PAGE
    && var t := Walk(m.mem, m.root, c);
       t.Leaf? && t.level == 1 && t.entry.frame * PAGE_SIZE + (vaddr + b) % PAGE_SIZE == addr + b
  }

  /** On success every byte of the requested range is reachable, aligned or not, and no page outside the
      allocation leads anywhere new. */
  lemma PhysReachesEveryByte(s: Sound, addr: nat, n: nat, m': Machine, a: Alloc, vaddr: nat)
    requires PhysCount(addr, n) >= 1 && s.m.cursor < MAX_PAGE
    requires MapPhysical(MapBody, s.m, addr, n) == PhysMapped(m', a, vaddr)
    ensures a.count == PhysCount(addr, n)
    ensures forall b: nat | b < n * PAGE_SIZE :: Reaches(m', a, vaddr, addr, b)
    ensures forall c: nat | c < MAX_PAGE && !a.Has(c) :: Walk(m'.mem, m'.root, c) == Walk(s.m.mem, s.m.root, c)
  {
    hide Core, MapBody, MapPhysical, MapsNext, MappingDone;
    MapBodyMapsNext();
    var r, s' := MapPhysicalKeeps(MapBody, s, addr, n);
    PhysFacts(s, addr, n, m', a, vaddr, s');
    forall b: nat | b < n * PAGE_SIZE
      ensures Reaches(m', a, vaddr, addr, b)
    {
      ByteArithmetic(addr, n, a.first, b);
    }
  }

  lemma PhysFacts(s: Sound, addr: nat, n: nat, m': Machine, a: Alloc, vaddr: nat, s': Sound)
    requires PhysCount(addr, n) >= 1 && PhysAchieved(s, addr, n, PhysMapped(m', a, vaddr), s')
    ensures forall c: nat | a.Has(c) ::
              c < MAX_PAGE && Walk(m'.mem, m'.root, c) == Leaf(1, Entry(addr / PAGE_SIZE + (c - a.first), RW))
    ensures forall c: nat | c < MAX_PAGE && !a.Has(c) :: Walk(m'.mem, m'.root, c) == Walk(s.m.mem, s.m.root, c)
  {
    forall c: nat | a.Has(c)
      ensures c < MAX_PAGE && Walk(m'.mem, m'.root, c) == Leaf(1, Entry(addr / PAGE_SIZE + (c - a.first), RW))
    {
      assert PageGained(s.l, s'.l, a.first, a.Last(), c);
      assert s'.l.pages[c] == addr / PAGE_SIZE + (c - a.first);
      assert s'.view[c] == Walk(s'.m.mem, s'.m.root, c);
    }
    forall c: nat | c < MAX_PAGE && !a.Has(c)
      ensures Walk(m'.mem, m'.root, c) == Walk(s.m.mem, s.m.root, c)
    {
      assert s.view[c] == Walk(s.m.mem, s.m.root, c);
      assert s'.view[c] == Walk(s'.m.mem, s'.m.root, c);
    }
  }
}
