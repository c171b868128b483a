/** Whether the processor lets a page be written: WRITABLE must be set in the entry of every level on its way
    (section 4.6 of the Intel SDM, volume 3A), not only in the last. */
module WriteAccess {
  import opened Entries
  import opened Pages
  import opened PageTree
  import opened FreeRuns
  import opened Machines
  import opened PageRuns
  import opened FrameRanges
  import opened Allocation
  import opened AllocatorRuns

  /** Every entry from this table on down to the leaf of page `c` has WRITABLE set. */
  predicate WritableFrom(mem: Memory, table: Frame, level: nat, c: nat)
    requires c < MAX_PAGE && 1 <= level <= 4
    decreases level
  {
    var e := Read(mem, table, Index(c, level));
    && e.flags.present && e.flags.writable
    && (level == 1 || (e.flags.huge && level <= 3) || WritableFrom(mem, e.frame, level - 1, c))
  }

  predicate WritablePage(m: Machine, c: nat)
    requires c < MAX_PAGE
  {
    WritableFrom(m.mem, m.root, 4, c)
  }

  // ----- where links come from -----

  /** The tables there were at boot. */
  datatype Origin = Origin(mem: Memory, tables: map<Node, Frame>)

  /** Slot `i` of table `n`, if it is a link, is one from boot or has WRITABLE set. */
  ghost predicate LinkFrom(o: Origin, mem: Memory, tables: map<Node, Frame>, n: Node, i: nat)
    requires n in tables && n.level >= 2 && i < 512
  {
    var e := Read(mem, tables[n], i);
    IsLink(n.level, e) ==>
      if Child(n, i) in o.tables then n in o.tables && e == Read(o.mem, o.tables[n], i) else e.flags.writable
  }

  /** The tables from boot are still there, and every link is one from boot or has WRITABLE set. */
  ghost predicate LinksFrom(o: Origin, mem: Memory, tables: map<Node, Frame>) {
    && (forall n | n in o.tables :: n in tables)
    && (forall n, i: nat | n in tables && n.level >= 2 && i < 512 :: LinkFrom(o, mem, tables, n, i))
  }

  // ----- mapping a page -----

  lemma LinkedAnew(o: Origin, mem: Memory, l: Ledger, n: Node, i: nat, f: Frame, flags: Flags)
    requires LinksFrom(o, mem, l.tables) && l.TablesKnown()
    requires n in l.tables && n.level >= 2 && i < 512 && flags.writable
    requires Child(n, i) !in l.tables && f !in l.uses
    ensures LinksFrom(o, Write(mem, l.tables[n], i, Entry(f, flags))[f := ClearedTable()], l.tables[Child(n, i) := f])
  {
    var mem', tables' := Write(mem, l.tables[n], i, Entry(f, flags))[f := ClearedTable()], l.tables[Child(n, i) := f];
    forall k, j: nat | k in tables' && k.level >= 2 && j < 512
      ensures LinkFrom(o, mem', tables', k, j)
    {
      if k in l.tables {
        assert LinkFrom(o, mem, l.tables, k, j);
        assert l.tables[k] != f;
        assert k != n ==> l.tables[k] != l.tables[n];
      }
    }
  }

  /** Either the table was there, or an unused frame has become it. */
  lemma LevelCases(s: Sound, c: nat, level: nat, flags: Flags, r: Taken, s': State)
    requires Mappable(s.view, c) && 2 <= level <= 4 && NodeOf(c, level) in s.l.tables
    requires r == EnsureTable(s.m, s.l.tables[NodeOf(c, level)], Index(c, level), flags) && r.Took?
    requires LevelEnsured(s, c, level, r, s')
    ensures s.l.TablesKnown() && Child(NodeOf(c, level), Index(c, level)) == NodeOf(c, level - 1)
    ensures if NodeOf(c, level - 1) in s.l.tables then s'.m.mem == s.m.mem && s'.l.tables == s.l.tables
            else
              && r.frame !in s.l.uses && s'.l.tables == s.l.tables[NodeOf(c, level - 1) := r.frame]
              && s'.m.mem == Write(s.m.mem, s.l.tables[NodeOf(c, level)], Index(c, level), Entry(r.frame, flags))
                               [r.frame := ClearedTable()]
  {
    var n, i := NodeOf(c, level), Index(c, level);
    ChildOnPath(c, level);
    assert LinkOk(s.m.mem, s.l, n, i);
    if Read(s.m.mem, s.l.tables[n], i).flags.present {
      NoLargePageHere(s, c, level);
      assert s'.l.tables == s.l.tables;
    }
  }

  lemma LevelKeepsLinks(o: Origin, s: Sound, c: nat, level: nat, flags: Flags) returns (r: Taken, s': Sound)
    requires LinksFrom(o, s.m.mem, s.l.tables) && flags.writable && LinkFlags(flags) && Mappable(s.view, c)
    requires 2 <= level <= 4 && NodeOf(c, level) in s.l.tables
    ensures r == EnsureTable(s.m, s.l.tables[NodeOf(c, level)], Index(c, level), flags)
    ensures LevelEnsured(s, c, level, r, s')
    ensures r.Took? ==> LinksFrom(o, s'.m.mem, s'.l.tables)
  {
    hide LinksFrom, Core, EnsureTable, LevelEnsured, Ledger.TablesKnown;
    r, s' := EnsureLevelKeeps(s, c, level, flags);
    if r.Took? {
      LevelCases(s, c, level, flags, r, s');
      if NodeOf(c, level - 1) !in s.l.tables {
        LinkedAnew(o, s.m.mem, s.l, NodeOf(c, level), Index(c, level), r.frame, flags);
      }
    }
  }

  lemma NoLargePageHere(s: Sound, c: nat, level: nat)
    requires Mappable(s.view, c) && 2 <= level <= 4 && NodeOf(c, level) in s.l.tables
    requires Read(s.m.mem, s.l.tables[NodeOf(c, level)], Index(c, level)).flags.present
    ensures NodeOf(c, level - 1) in s.l.tables
  {
    ViewAt(s, c);
    ChildOnPath(c, level);
    NoLargePage(s.m.mem, s.m.root, s.l, c, level);
    assert LinkOk(s.m.mem, s.l, NodeOf(c, level), Index(c, level));
  }

  lemma StillMappable(s: State, c: nat, level: nat, r: Taken, s': State)
    requires level >= 2 && LevelEnsured(s, c, level, r, s') && r.Took?
    ensures s'.m == r.m && s'.m.root == s.m.root && s'.view == s.view
    ensures NodeOf(c, level - 1) in s'.l.tables && s'.l.tables[NodeOf(c, level - 1)] == r.frame
  {
  }

  lemma PathKeepsLinks(o: Origin, s: Sound, c: nat, flags: Flags) returns (s': Sound)
    requires LinksFrom(o, s.m.mem, s.l.tables) && flags.writable && LinkFlags(flags) && Mappable(s.view, c)
    requires EnsurePath(s.m, c, flags).Took?
    ensures s'.m == EnsurePath(s.m, c, flags).m && s'.view == s.view && LinksFrom(o, s'.m.mem, s'.l.tables)
    ensures NodeOf(c, 1) in s'.l.tables && s'.l.tables[NodeOf(c, 1)] == EnsurePath(s.m, c, flags).frame
  {
    hide Core, LinksFrom, EnsureTable, LevelEnsured, LinkFlags;
    ViewAt(s, c);
    RootIsTable(s, c);
    var r3, s3 := LevelKeepsLinks(o, s, c, 4, flags);
    StillMappable(s, c, 4, r3, s3);
    var r2, s2 := LevelKeepsLinks(o, s3, c, 3, flags);
    StillMappable(s3, c, 3, r2, s2);
    var r1, s1 := LevelKeepsLinks(o, s2, c, 2, flags);
    StillMappable(s2, c, 2, r1, s1);
    s' := s1;
  }

  lemma RootIsTable(s: Sound, c: nat)
    requires c < MAX_PAGE
    ensures NodeOf(c, 4) in s.l.tables && s.l.tables[NodeOf(c, 4)] == s.m.root
  {
    RootOnPath(c);
  }

  /** Mapping a page with WRITABLE among the flags: the links it creates have it too, all others stay. */
  lemma MapKeepsLinks(o: Origin, s: Sound, c: nat, frame: Frame, flags: Flags, m': Machine, l': Ledger)
    requires LinksFrom(o, s.m.mem, s.l.tables) && flags.writable && LinkFlags(flags) && Mappable(s.view, c)
    requires MapPage(s.m, c, frame, flags) == Some(m') && IsTree(m'.mem, m'.root, l')
    ensures LinksFrom(o, m'.mem, l'.tables)
  {
    hide LinksFrom, EnsurePath, LinkFlags, Mappable;
    var s1 := PathKeepsLinks(o, s, c, flags);
    MappablePage(s, c);
    SetLeaf(s1.m.mem, s1.m.root, s1.l, s1.view, c, Entry(frame, flags));
    LeafLeavesLinks(o, s1, c, Entry(frame, flags));
    TablesUnique(m'.mem, m'.root, s1.l, l');
  }

  lemma MappablePage(s: Sound, c: nat)
    requires Mappable(s.view, c)
    ensures c < MAX_PAGE
  {
  }

  lemma LeafLeavesLinks(o: Origin, s: Sound, c: nat, e: Entry)
    requires LinksFrom(o, s.m.mem, s.l.tables) && NodeOf(c, 1) in s.l.tables
    ensures LinksFrom(o, SetSlot(s.m, s.l.tables[NodeOf(c, 1)], c, e).mem, s.l.tables)
  {
    var m' := SetSlot(s.m, s.l.tables[NodeOf(c, 1)], c, e);
    forall n, i: nat | n in s.l.tables && n.level >= 2 && i < 512
      ensures LinkFrom(o, m'.mem, s.l.tables, n, i)
    {
      assert LinkFrom(o, s.m.mem, s.l.tables, n, i);
      assert s.l.tables[n] != s.l.tables[NodeOf(c, 1)];
    }
  }

  // ----- runs of pages -----

  lemma BodyKeepsLinks(o: Origin, s: Sound, c: nat, src: Source, s': Sound)
    requires LinksFrom(o, s.m.mem, s.l.tables) && c in s.view && s.view[c] == Unmapped
    requires MapBody(Mapper(s.m, src), c).Some? && MapBody(Mapper(s.m, src), c).value.m == s'.m
    ensures LinksFrom(o, s'.m.mem, s'.l.tables)
  {
    hide Core, LinksFrom, MapPage, TakeFrame;
    SoundIsTree(s');
    match src
    case Fixed(f) => MapKeepsLinks(o, s, c, f, RW, s'.m, s'.l);
    case Fresh =>
      var t, s1 := TakeFrameHolds(s);
      MapKeepsLinks(o, s1, c, t.frame, RW, s'.m, s'.l);
  }

  lemma SoundIsTree(s: Sound)
    ensures IsTree(s.m.mem, s.m.root, s.l)
  {
  }

  /** Which tables there are is determined by the memory. */
  lemma SameTables(o: Origin, s: Sound, s': Sound)
    requires LinksFrom(o, s.m.mem, s.l.tables) && s'.m.mem == s.m.mem && s'.m.root == s.m.root
    ensures LinksFrom(o, s'.m.mem, s'.l.tables)
  {
    hide LinksFrom;
    TablesUnique(s.m.mem, s.m.root, s.l, s'.l);
  }

  lemma {:induction false} LoopKeepsLinks(o: Origin, s: Sound, src: Source, c: nat, last: nat, s': Sound)
    requires LinksFrom(o, s.m.mem, s.l.tables)
    requires last < MAX_PAGE && AllUnmapped(s.view, c, last) && Supplied(s.l, src, Length(c, last))
    requires ForPages(MapBody, Mapper(s.m, src), c, last).Done?
    requires ForPages(MapBody, Mapper(s.m, src), c, last).s.m == s'.m
    ensures LinksFrom(o, s'.m.mem, s'.l.tables)
    decreases last + 1 - c
  {
    hide Core, LinksFrom, MapBody, Supplied;
    if c > last {
      SameTables(o, s, s');
    } else {
      FirstSupplied(s.l, src, Length(c, last));
      var r, s1 := MapBodyKeeps(s, c, src);
      BodyKeepsLinks(o, s, c, src, s1);
      StepLeaves(s, c, last, src, s1);
      LoopKeepsLinks(o, s1, Advance(src), c + 1, last, s');
    }
  }

  lemma AllocKeepsLinks(o: Origin, s: Sound, n: nat, a: Alloc, s': Sound)
    requires LinksFrom(o, s.m.mem, s.l.tables) && n >= 1 && s.m.cursor < MAX_PAGE
    requires AllocPages(MapBody, s.m, n) == Allocated(s'.m, a)
    ensures LinksFrom(o, s'.m.mem, s'.l.tables)
  {
    hide Core, LinksFrom, MapBody, ForPages, FindFree, FreeRunAt;
    FoundRun(s.m, n);
    var Run(first, last) := FindFree(s.m.mem, s.m.root, s.m.cursor, n).value;
    FreeOfEarliest(s, n, first, last);
    var s1 := MoveCursor(s, last);
    LoopKeepsLinks(o, s1, Fresh, first, last, s');
  }

  lemma FreeOfEarliest(s: Sound, n: nat, first: nat, last: nat)
    requires n >= 1 && Earliest(s.m, n, first) && last + 1 == first + n
    ensures AllUnmapped(s.view, first, last)
  {
    FreeMeansUnmapped(s, first, last, n);
  }

  lemma PhysKeepsLinks(o: Origin, s: Sound, addr: nat, n: nat, a: Alloc, vaddr: nat, s': Sound)
    requires LinksFrom(o, s.m.mem, s.l.tables) && PhysCount(addr, n) >= 1 && s.m.cursor < MAX_PAGE
    requires MapPhysical(MapBody, s.m, addr, n) == PhysMapped(s'.m, a, vaddr)
    ensures LinksFrom(o, s'.m.mem, s'.l.tables)
  {
    hide Core, LinksFrom, MapBody, ForPages, FindFree, FreeRunAt, RangeHeld, ScanRange;
    var f, count := addr / PAGE_SIZE, PhysCount(addr, n);
    ClearMeansClear(s.m, f, count);
    FoundRun(s.m, count);
    var Run(first, last) := FindFree(s.m.mem, s.m.root, s.m.cursor, count).value;
    FreeOfEarliest(s, count, first, last);
    var s1 := HoldRange(s, f, count);
    HeldFacts(s, f, count, s1, first, last);
    LoopKeepsLinks(o, s1, Fixed(f), first, last, s');
  }

  lemma HeldFacts(s: State, f: Frame, n: nat, s1: State, first: nat, last: nat)
    requires RangeHeld(s, f, n, s1) && last + 1 == first + n && n >= 1
    ensures s1.m == Reserve(s.m, f, n) && s1.view == s.view && s1.l.tables == s.l.tables && s1.m.mem == s.m.mem
    ensures Supplied(s1.l, Fixed(f), Length(first, last))
  {
  }

  // ----- unmapping and writing -----

  /** Every entry is as it was or cleared. */
  ghost predicate OnlyCleared(mem: Memory, mem': Memory) {
    forall f: Frame, i: nat | i < 512 :: Read(mem', f, i) == Read(mem, f, i) || Read(mem', f, i) == EMPTY
  }

  lemma UnmapClears(m: Machine, c: nat, m1: Machine)
    requires UnmapBody(m, c) == Some(m1)
    ensures OnlyCleared(m.mem, m1.mem)
  {
    hide FindEntryMut, FreeFrame;
    var t := FindEntryMut(m.mem, m.root, c).value;
    FreeingLeavesMemory(m, Read(m.mem, t, Index(c, 1)).frame);
    assert m1.mem == Write(m.mem, t, Index(c, 1), EMPTY);
  }

  lemma FreeingLeavesMemory(m: Machine, f: Frame)
    ensures FreeFrame(m, f).Freed? ==> FreeFrame(m, f).m.mem == m.mem
  {
  }

  lemma ClearedTwice(mem: Memory, mem1: Memory, mem': Memory)
    requires OnlyCleared(mem, mem1) && OnlyCleared(mem1, mem')
    ensures OnlyCleared(mem, mem')
  {
  }

  lemma {:induction false} UnmapLoopClears(m: Machine, c: nat, last: nat, m': Machine)
    requires ForPages(UnmapBody, m, c, last) == Done(m')
    ensures OnlyCleared(m.mem, m'.mem)
    decreases last + 1 - c
  {
    if c <= last {
      hide UnmapBody, OnlyCleared;
      var m1 := UnmapBody(m, c).value;
      UnmapClears(m, c, m1);
      UnmapLoopClears(m1, c + 1, last, m');
      ClearedTwice(m.mem, m1.mem, m'.mem);
    }
  }

  lemma ClearingKeepsLinks(o: Origin, mem: Memory, mem': Memory, tables: map<Node, Frame>)
    requires LinksFrom(o, mem, tables) && OnlyCleared(mem, mem')
    ensures LinksFrom(o, mem', tables)
  {
    forall n, i: nat | n in tables && n.level >= 2 && i < 512
      ensures LinkFrom(o, mem', tables, n, i)
    {
      assert LinkFrom(o, mem, tables, n, i);
    }
  }

  lemma FreeKeepsLinks(o: Origin, s: Sound, a: Alloc, s': Sound)
    requires LinksFrom(o, s.m.mem, s.l.tables) && OwnedAlloc(s.l, a)
    requires DeallocPages(UnmapBody, s.m, a) == Freed(s'.m)
    ensures LinksFrom(o, s'.m.mem, s'.l.tables)
  {
    hide Core, LinksFrom, UnmapBody, ForPages, OnlyCleared, RunReleased;
    UnmapBodyUnmapsNext();
    var s1 := DeallocPagesKeeps(UnmapBody, s, a, a.Last());
    UnmapLoopClears(s.m, a.first, a.first + a.count - 1, s'.m);
    ClearingKeepsLinks(o, s.m.mem, s'.m.mem, s.l.tables);
    TablesOfReleased(s, a, s1);
    SoundIsTree(s1);
    SoundIsTree(s');
    TablesUnique(s'.m.mem, s'.m.root, s1.l, s'.l);
  }

  lemma TablesOfReleased(s: Sound, a: Alloc, s1: State)
    requires OwnedAlloc(s.l, a) && RunReleased(s, a.first, a.Last(), s1)
    ensures s1.l.tables == s.l.tables
  {
    DisownRunLeaves(s.l, a.first, a.Last());
  }

  lemma WriteKeepsLinks(o: Origin, s: Sound, c: nat, row: Table, s': Sound)
    requires LinksFrom(o, s.m.mem, s.l.tables) && c in s.l.pages
    requires s'.m == s.m.(mem := s.m.mem[s.l.pages[c] := row])
    ensures LinksFrom(o, s'.m.mem, s'.l.tables)
  {
    var f := s.l.pages[c];
    assert !s.l.HoldsTable(f);
    forall n, i: nat | n in s.l.tables && n.level >= 2 && i < 512
      ensures LinkFrom(o, s'.m.mem, s.l.tables, n, i)
    {
      assert s.l.tables[n] != f;
      assert LinkFrom(o, s.m.mem, s.l.tables, n, i);
    }
    var s1 := ScribbleKeeps(s, f, row);
    TablesUnique(s'.m.mem, s'.m.root, s1.l, s'.l);
  }

  // ----- every run -----

  lemma StepKeepsLinks(o: Origin, s: Sound, y: Sys, e: Event, y': Sys, s': Sound)
    requires Explains(s, y) && Step(TheKernel(), y, e, y') && Explains(s', y')
    requires LinksFrom(o, y.m.mem, s.l.tables)
    ensures LinksFrom(o, y'.m.mem, s'.l.tables)
  {
    hide Core, LinksFrom, AllocPages, DeallocPages, MapPhysical, Walk, NoneHeld;
    match e
    case AllocDone(n, a) => AllocKeepsLinks(o, s, n, a, s');
    case AllocNone(_) => SameTables(o, s, s');
    case FreeDone(a) => FreeKeepsLinks(o, s, a, s');
    case PhysDone(addr, n, a, vaddr) => PhysKeepsLinks(o, s, addr, n, a, vaddr, s');
    case PhysNone(addr, n) =>
      PhysNoneKeeps(TheKernel(), y, addr, n, y');
      SameTables(o, s, s');
    case WriteDone(c, row) =>
      WrittenPage(s, y, c);
      WriteKeepsLinks(o, s, c, row, s');
  }

  lemma WrittenPage(s: Sound, y: Sys, c: nat)
    requires Explains(s, y) && c < MAX_PAGE && exists a :: a in y.live && a.Has(c)
    ensures c in s.l.pages && Walk(y.m.mem, y.m.root, c) == Leaf(1, Entry(s.l.pages[c], RW))
  {
    var a :| a in y.live && a.Has(c);
    assert OwnedAlloc(s.l, a) && c in s.l.pages;
    OwnedLeads(s, c);
    ViewAt(s, c);
  }

  lemma BootLinks(y: Sys, l: Ledger)
    requires Boot(y, l)
    ensures LinksFrom(Origin(y.m.mem, l.tables), y.m.mem, l.tables)
  {
    forall n, i: nat | n in l.tables && n.level >= 2 && i < 512
      ensures LinkFrom(Origin(y.m.mem, l.tables), y.m.mem, l.tables, n, i)
    {
      assert LinkOk(y.m.mem, l, n, i);
    }
  }

  /** In every state of every run the links are those from boot and ones that have WRITABLE set. */
  lemma {:induction false} RunKeepsLinks(l: Ledger, ys: seq<Sys>, es: seq<Event>, i: nat) returns (s: Sound)
    requires IsRun(TheKernel(), l, ys, es) && i < |ys|
    ensures Explains(s, ys[i]) && LinksFrom(Origin(ys[0].m.mem, l.tables), ys[i].m.mem, s.l.tables)
  {
    hide Core, Explains, Boot, Step, KernelOk, LinksFrom;
    TheKernelIsOk();
    if i == 0 {
      s := BootExplained(ys[0], l);
      BootLinks(ys[0], l);
    } else {
      var before := RunKeepsLinks(l, ys, es, i - 1);
      s := SoundStep(TheKernel(), l, ys, es, i - 1, before);
      StepKeepsLinks(Origin(ys[0].m.mem, l.tables), before, ys[i - 1], es[i - 1], ys[i], s);
    }
  }

  /** The links from boot that page `c` goes through have WRITABLE set from the given level down. */
  ghost predicate BootPathWritable(o: Origin, c: nat, level: nat) {
    forall k: nat | 2 <= k <= level && NodeOf(c, k - 1) in o.tables && NodeOf(c, k) in o.tables ::
      Read(o.mem, o.tables[NodeOf(c, k)], Index(c, k)).flags.writable
  }

  lemma {:induction false} WritableIffBootPath(o: Origin, s: Sound, c: nat, level: nat)
    requires LinksFrom(o, s.m.mem, s.l.tables) && c in s.l.pages && c < MAX_PAGE
    requires 1 <= level <= 4 && NodeOf(c, level) in s.l.tables
    ensures WritableFrom(s.m.mem, s.l.tables[NodeOf(c, level)], level, c) <==> BootPathWritable(o, c, level)
    decreases level
  {
    hide Core;
    if level == 1 {
      LeafWritable(s, c);
    } else {
      LinkOfOwned(s, c, level);
      WritableIffBootPath(o, s, c, level - 1);
      assert LinkFrom(o, s.m.mem, s.l.tables, NodeOf(c, level), Index(c, level));
      BootPathStep(o, c, level);
    }
  }

  lemma BootPathStep(o: Origin, c: nat, level: nat)
    requires level >= 2
    ensures BootPathWritable(o, c, level) <==>
            && BootPathWritable(o, c, level - 1)
            && (NodeOf(c, level - 1) in o.tables && NodeOf(c, level) in o.tables ==>
                  Read(o.mem, o.tables[NodeOf(c, level)], Index(c, level)).flags.writable)
  {
  }

  lemma LeafWritable(s: Sound, c: nat)
    requires c in s.l.pages && NodeOf(c, 1) in s.l.tables && c < MAX_PAGE
    ensures WritableFrom(s.m.mem, s.l.tables[NodeOf(c, 1)], 1, c)
  {
    OwnedLeads(s, c);
    ViewAt(s, c);
    WalkIsShapeWalk(s.m.mem, s.m.root, s.l, c);
  }

  lemma LinkOfOwned(s: Sound, c: nat, level: nat)
    requires c in s.l.pages && c < MAX_PAGE && 2 <= level <= 4 && NodeOf(c, level) in s.l.tables
    ensures NodeOf(c, level - 1) in s.l.tables && Child(NodeOf(c, level), Index(c, level)) == NodeOf(c, level - 1)
    ensures var e := Read(s.m.mem, s.l.tables[NodeOf(c, level)], Index(c, level));
            && IsLink(level, e) && e.flags.present && e.frame == s.l.tables[NodeOf(c, level - 1)]
            && !(e.flags.huge && level <= 3)
  {
    OwnedSlot(s, c);
    PathClosed(s.m.mem, s.m.root, s.l, c);
    ChildOnPath(c, level);
    assert LinkOk(s.m.mem, s.l, NodeOf(c, level), Index(c, level));
  }

  /** In every state of every run, the processor lets a page of a live allocation be written if and only if
      WRITABLE was set at boot in every link from boot that the page goes through. */
  lemma LivePagesWritableIff(l: Ledger, ys: seq<Sys>, es: seq<Event>, i: nat, a: Alloc, c: nat)
    requires IsRun(TheKernel(), l, ys, es) && i < |ys| && a in ys[i].live && a.Has(c)
    ensures c < MAX_PAGE
    ensures WritablePage(ys[i].m, c) <==> BootPathWritable(Origin(ys[0].m.mem, l.tables), c, 4)
  {
    hide Core, Boot, Step, LinksFrom, IsRun, NoneHeld, BootPathWritable, WritableFrom;
    var s := RunKeepsLinks(l, ys, es, i);
    assert OwnedAlloc(s.l, a) && c in s.l.pages;
    OwnedSlot(s, c);
    RootIsTable(s, c);
    WritableIffBootPath(Origin(ys[0].m.mem, l.tables), s, c, 4);
  }
}
