/** Mapping where large pages come into play: a large page that covers the page is taken for a table, and
    HUGE_PAGE among the flags makes large pages of the tables created. */
module LargePages {
  import opened Entries
  import opened Pages
  import opened PageTree
  import opened Bitmaps
  import opened Machines

  // ----- a large page in the way -----

  /** A 2 MiB page covers the page. */
  predicate Covered(view: View, c: nat) {
    c in view && view[c].Leaf? && view[c].level == 2
  }

  /** Below a 2 MiB page the tables of levels 3 and 2 exist, and the level-2 slot is the large page. */
  lemma LargePageSlots(s: Sound, c: nat)
    requires Covered(s.view, c)
    ensures c < MAX_PAGE && NodeOf(c, 3) in s.l.tables && NodeOf(c, 2) in s.l.tables
    ensures var e4 := Read(s.m.mem, s.m.root, Index(c, 4));
            e4.flags.present && e4.frame == s.l.tables[NodeOf(c, 3)]
    ensures var e3 := Read(s.m.mem, s.l.tables[NodeOf(c, 3)], Index(c, 3));
            e3.flags.present && e3.frame == s.l.tables[NodeOf(c, 2)]
    ensures Read(s.m.mem, s.l.tables[NodeOf(c, 2)], Index(c, 2)) == s.view[c].entry && s.view[c].entry.flags.present
  {
    assert s.view[c] == Walk(s.m.mem, s.m.root, c);
    WalkIsShapeWalk(s.m.mem, s.m.root, s.l, c);
    PathClosed(s.m.mem, s.m.root, s.l, c);
    ChildOnPath(c, 4);
    ChildOnPath(c, 3);
    assert LinkOk(s.m.mem, s.l, NodeOf(c, 4), Index(c, 4));
    assert LinkOk(s.m.mem, s.l, NodeOf(c, 3), Index(c, 3));
  }

  lemma PresentSlots(m: Machine, c: nat, t3: Frame, t2: Frame, t1: Frame, frame: Frame, flags: Flags)
    requires Read(m.mem, m.root, Index(c, 4)).flags.present && Read(m.mem, m.root, Index(c, 4)).frame == t3
    requires Read(m.mem, t3, Index(c, 3)).flags.present && Read(m.mem, t3, Index(c, 3)).frame == t2
    requires Read(m.mem, t2, Index(c, 2)).flags.present && Read(m.mem, t2, Index(c, 2)).frame == t1
    ensures MapPage(m, c, frame, flags) == Some(SetSlot(m, t1, c, Entry(frame, flags)))
  {
  }

  /** The new entry lands in the first frame of the large page, whatever that frame holds. */
  lemma LargePageOverwritten(s: Sound, c: nat, frame: Frame, flags: Flags)
    requires Covered(s.view, c)
    ensures MapPage(s.m, c, frame, flags) == Some(SetSlot(s.m, s.view[c].entry.frame, c, Entry(frame, flags)))
  {
    hide Core, MapPage, Walk, SetSlot;
    LargePageSlots(s, c);
    PresentSlots(s.m, c, s.l.tables[NodeOf(c, 3)], s.l.tables[NodeOf(c, 2)], s.view[c].entry.frame, frame, flags);
  }

  /** If that frame holds no table, every page leads where it led. */
  lemma LargePageOfData(s: Sound, c: nat, frame: Frame, flags: Flags) returns (s': Sound)
    requires Covered(s.view, c) && !s.l.HoldsTable(s.view[c].entry.frame)
    ensures MapPage(s.m, c, frame, flags) == Some(s'.m) && s'.l == s.l && s'.view == s.view
  {
    hide Core, MapPage, Walk;
    LargePageOverwritten(s, c, frame, flags);
    var f := s.view[c].entry.frame;
    s' := ScribbleKeeps(s, f, Row(s.m.mem, f)[Index(c, 1) := Entry(frame, flags)]);
  }

  /** The walk of page `d` looks at slot `j` of table `n`. */
  predicate GoesThrough(d: nat, n: Node, j: nat) {
    n.level >= 1 && NodeOf(d, n.level) == n && Index(d, n.level) == j
  }

  /** Overwriting any slot of any table changes nothing for pages that do not go through it. */
  lemma {:induction false} SlotElsewhere(
    mem: Memory, root: Frame, at: Ledger, n: Node, j: nat, e: Entry, d: nat, level: nat)
    requires IsTree(mem, root, at) && n in at.tables && j < 512 && d < MAX_PAGE && !GoesThrough(d, n, j)
    requires 1 <= level <= 4 && NodeOf(d, level) in at.tables
    ensures WalkFrom(Write(mem, at.tables[n], j, e), at.tables[NodeOf(d, level)], level, d) ==
            WalkFrom(mem, at.tables[NodeOf(d, level)], level, d)
    decreases level
  {
    var x := Read(mem, at.tables[NodeOf(d, level)], Index(d, level));
    assert Read(Write(mem, at.tables[n], j, e), at.tables[NodeOf(d, level)], Index(d, level)) == x;
    if level >= 2 && x.flags.present && !(x.flags.huge && level <= 3) {
      assert LinkOk(mem, at, NodeOf(d, level), Index(d, level));
      ChildOnPath(d, level);
      SlotElsewhere(mem, root, at, n, j, e, d, level - 1);
    }
  }

  /** If that frame holds a table, it is that table's slot that is overwritten; pages that do not go
      through the slot lead where they led. */
  lemma LargePageOfTable(s: Sound, c: nat, frame: Frame, flags: Flags, n: Node)
    requires Covered(s.view, c) && n in s.l.tables && s.l.tables[n] == s.view[c].entry.frame
    ensures MapPage(s.m, c, frame, flags).Some?
    ensures var m' := MapPage(s.m, c, frame, flags).value;
            && m' == s.m.(mem := Write(s.m.mem, s.l.tables[n], Index(c, 1), Entry(frame, flags)))
            && forall d: nat | d < MAX_PAGE && !GoesThrough(d, n, Index(c, 1)) ::
                 Walk(m'.mem, m'.root, d) == Walk(s.m.mem, s.m.root, d)
  {
    LargePageOverwritten(s, c, frame, flags);
    var m' := SetSlot(s.m, s.view[c].entry.frame, c, Entry(frame, flags));
    forall d: nat | d < MAX_PAGE && !GoesThrough(d, n, Index(c, 1))
      ensures Walk(m'.mem, m'.root, d) == Walk(s.m.mem, s.m.root, d)
    {
      RootOnPath(d);
      SlotElsewhere(s.m.mem, s.m.root, s.l, n, Index(c, 1), Entry(frame, flags), d, 4);
    }
  }

  /** Above an overwritten slot on its way, the walk of a page is as before. */
  lemma {:induction false} DownToSlot(
    mem: Memory, root: Frame, at: Ledger, n: Node, j: nat, e: Entry, d: nat, level: nat)
    requires IsTree(mem, root, at) && n in at.tables && j < 512 && d < MAX_PAGE && GoesThrough(d, n, j)
    requires n.level <= level <= 4 && NodeOf(d, level) in at.tables
    ensures var mem' := Write(mem, at.tables[n], j, e);
            WalkFrom(mem', at.tables[NodeOf(d, level)], level, d) == WalkFrom(mem', at.tables[n], n.level, d)
    decreases level
  {
    if n.level < level {
      ChildOnPath(d, level);
      PathClosed(mem, root, at, d);
      assert NodeOf(d, level - 1) in at.tables;
      assert LinkOk(mem, at, NodeOf(d, level), Index(d, level));
      DownToSlot(mem, root, at, n, j, e, d, level - 1);
    }
  }

  /** If the slot overwritten is one the page itself goes through, the page leads on from the new entry:
      what the given frame happens to hold is read as a table. */
  lemma OwnPathOverwritten(s: Sound, c: nat, frame: Frame, flags: Flags, n: Node, m': Machine)
    requires Covered(s.view, c) && n in s.l.tables && s.l.tables[n] == s.view[c].entry.frame
    requires GoesThrough(c, n, Index(c, 1)) && MapPage(s.m, c, frame, flags) == Some(m')
    ensures c < MAX_PAGE && 2 <= n.level <= 4
    ensures Walk(m'.mem, m'.root, c) == if !flags.present then Unmapped
              else if flags.huge && n.level <= 3 then Leaf(n.level, Entry(frame, flags))
              else WalkFrom(m'.mem, frame, n.level - 1, c)
  {
    LargePageOverwritten(s, c, frame, flags);
    LargePageSlots(s, c);
    assert s.view[c] == Walk(s.m.mem, s.m.root, c);
    WalkIsShapeWalk(s.m.mem, s.m.root, s.l, c);
    RootOnPath(c);
    DownToSlot(s.m.mem, s.m.root, s.l, n, Index(c, 1), Entry(frame, flags), c, 4);
  }

  // ----- HUGE_PAGE among the flags -----

  /** The frame allocator cannot hand out frame `f`. */
  predicate Spared(m: Machine, f: Frame) {
    InPool(m, f) ==> Marked(m, f)
  }

  /** What creating a table below an empty slot does. */
  lemma TableCreated(m: Machine, t: Frame, i: nat, flags: Flags, r: Taken)
    requires i < 512 && !Read(m.mem, t, i).flags.present && r == EnsureTable(m, t, i, flags) && r.Took?
    ensures r.m.mem == Write(m.mem, t, i, Entry(r.frame, flags))[r.frame := ClearedTable()] && r.m.root == m.root
    ensures Spared(r.m, r.frame) && forall g {:trigger Spared(m, g)} | Spared(m, g) :: g != r.frame && Spared(r.m, g)
  {
  }

  lemma TablesSpared(s: Sound, n: Node)
    requires n in s.l.tables
    ensures Spared(s.m, s.l.tables[n])
  {
    assert InPool(s.m, s.l.tables[n]) ==> (Marked(s.m, s.l.tables[n]) <==> s.l.tables[n] in s.l.uses);
  }

  /** The three levels of a descent that succeeds. */
  lemma MapPageSteps(m: Machine, c: nat, frame: Frame, flags: Flags, m': Machine)
    returns (r3: Taken, r2: Taken, r1: Taken)
    requires MapPage(m, c, frame, flags) == Some(m')
    ensures r3.Took? && r3 == EnsureTable(m, m.root, Index(c, 4), flags)
    ensures r2.Took? && r2 == EnsureTable(r3.m, r3.frame, Index(c, 3), flags)
    ensures r1.Took? && r1 == EnsureTable(r2.m, r2.frame, Index(c, 2), flags)
    ensures m' == SetSlot(r1.m, r1.frame, c, Entry(frame, flags))
  {
    hide EnsureTable, SetSlot;
    r3 := EnsureTable(m, m.root, Index(c, 4), flags);
    r2 := EnsureTable(r3.m, r3.frame, Index(c, 3), flags);
    r1 := EnsureTable(r2.m, r2.frame, Index(c, 2), flags);
  }

  /** The path of a page that no large page covers: its slots are links or empty. */
  lemma PathSlots(s: Sound, c: nat)
    requires Mappable(s.view, c)
    ensures c < MAX_PAGE
    ensures var e4 := Read(s.m.mem, s.m.root, Index(c, 4));
            if NodeOf(c, 3) in s.l.tables then e4.flags.present && e4.frame == s.l.tables[NodeOf(c, 3)]
            else !e4.flags.present
    ensures NodeOf(c, 3) in s.l.tables ==>
              var e3 := Read(s.m.mem, s.l.tables[NodeOf(c, 3)], Index(c, 3));
              if NodeOf(c, 2) in s.l.tables then
                e3.flags.present && !e3.flags.huge && e3.frame == s.l.tables[NodeOf(c, 2)]
              else !e3.flags.present
    ensures NodeOf(c, 2) in s.l.tables ==> NodeOf(c, 3) in s.l.tables
    ensures NodeOf(c, 2) in s.l.tables && NodeOf(c, 1) !in s.l.tables ==>
              !Read(s.m.mem, s.l.tables[NodeOf(c, 2)], Index(c, 2)).flags.present
    ensures Spared(s.m, s.m.root)
  {
    assert s.view[c] == Walk(s.m.mem, s.m.root, c);
    WalkIsShapeWalk(s.m.mem, s.m.root, s.l, c);
    PathClosed(s.m.mem, s.m.root, s.l, c);
    ChildOnPath(c, 4);
    ChildOnPath(c, 3);
    ChildOnPath(c, 2);
    TablesSpared(s, ROOT);
    assert LinkOk(s.m.mem, s.l, NodeOf(c, 4), Index(c, 4));
    if NodeOf(c, 3) in s.l.tables {
      assert LinkOk(s.m.mem, s.l, NodeOf(c, 3), Index(c, 3));
    }
    if NodeOf(c, 2) in s.l.tables {
      assert LinkOk(s.m.mem, s.l, NodeOf(c, 2), Index(c, 2));
    }
  }

  /** A walk that meets a large page at level 3, or at level 2. */
  lemma WalkToLargePage(mem: Memory, root: Frame, c: nat, t3: Frame, t2: Frame)
    requires c < MAX_PAGE
    requires var e4 := Read(mem, root, Index(c, 4)); e4.flags.present && e4.frame == t3
    ensures var e3 := Read(mem, t3, Index(c, 3));
            && (e3.flags.present && e3.flags.huge ==> Walk(mem, root, c) == Leaf(3, e3))
            && (e3.flags.present && !e3.flags.huge && e3.frame == t2 ==>
                  var e2 := Read(mem, t2, Index(c, 2));
                  e2.flags.present && e2.flags.huge ==> Walk(mem, root, c) == Leaf(2, e2))
  {
    assert Walk(mem, root, c) == WalkFrom(mem, t3, 3, c);
  }

  /** When the level-1 table is created with HUGE_PAGE set, the page leads to a 2 MiB page there. */
  lemma HugeAtLevel2(s: Sound, c: nat, frame: Frame, flags: Flags, m': Machine)
    requires Mappable(s.view, c) && NodeOf(c, 2) in s.l.tables && NodeOf(c, 1) !in s.l.tables
    requires flags.present && flags.huge && MapPage(s.m, c, frame, flags) == Some(m')
    ensures c < MAX_PAGE && Walk(m'.mem, m'.root, c).Leaf? && Walk(m'.mem, m'.root, c).level == 2
  {
    hide Core, MapPage, Walk, TakeFrame, Spared, Marked;
    PathSlots(s, c);
    var t3, t2 := s.l.tables[NodeOf(c, 3)], s.l.tables[NodeOf(c, 2)];
    TablesSpared(s, NodeOf(c, 3));
    TablesSpared(s, NodeOf(c, 2));
    var r3, r2, r1 := MapPageSteps(s.m, c, frame, flags, m');
    TableCreated(s.m, t2, Index(c, 2), flags, r1);
    WalkToLargePage(m'.mem, m'.root, c, t3, t2);
  }

  /** When the level-2 table is created with HUGE_PAGE set, the page leads to a 1 GiB page there. */
  lemma HugeAtLevel3(s: Sound, c: nat, frame: Frame, flags: Flags, m': Machine)
    requires Mappable(s.view, c) && NodeOf(c, 3) in s.l.tables && NodeOf(c, 2) !in s.l.tables
    requires flags.present && flags.huge && MapPage(s.m, c, frame, flags) == Some(m')
    ensures c < MAX_PAGE && Walk(m'.mem, m'.root, c).Leaf? && Walk(m'.mem, m'.root, c).level == 3
  {
    hide Core, MapPage, Walk, TakeFrame, Spared, Marked;
    PathSlots(s, c);
    var t3 := s.l.tables[NodeOf(c, 3)];
    TablesSpared(s, NodeOf(c, 3));
    var r3, r2, r1 := MapPageSteps(s.m, c, frame, flags, m');
    TableCreated(s.m, t3, Index(c, 3), flags, r2);
    TableCreated(r2.m, r2.frame, Index(c, 2), flags, r1);
    WalkToLargePage(m'.mem, m'.root, c, t3, r2.frame);
  }

  /** The same when the level-3 table is created as well. */
  lemma HugeFromLevel4(s: Sound, c: nat, frame: Frame, flags: Flags, m': Machine)
    requires Mappable(s.view, c) && NodeOf(c, 3) !in s.l.tables
    requires flags.present && flags.huge && MapPage(s.m, c, frame, flags) == Some(m')
    ensures c < MAX_PAGE && Walk(m'.mem, m'.root, c).Leaf? && Walk(m'.mem, m'.root, c).level == 3
  {
    hide Core, MapPage, Walk, TakeFrame, Spared, Marked;
    PathSlots(s, c);
    var r3, r2, r1 := MapPageSteps(s.m, c, frame, flags, m');
    TableCreated(s.m, s.m.root, Index(c, 4), flags, r3);
    TableCreated(r3.m, r3.frame, Index(c, 3), flags, r2);
    TableCreated(r2.m, r2.frame, Index(c, 2), flags, r1);
    WalkToLargePage(m'.mem, m'.root, c, r3.frame, r2.frame);
  }

  /** With HUGE_PAGE among the flags and a table missing, the page ends up under a large page. */
  lemma HugeFlagsMakeLargePage(s: Sound, c: nat, frame: Frame, flags: Flags, m': Machine)
    requires Mappable(s.view, c) && NodeOf(c, 1) !in s.l.tables
    requires flags.present && flags.huge && MapPage(s.m, c, frame, flags) == Some(m')
    ensures c < MAX_PAGE && Walk(m'.mem, m'.root, c).Leaf?
    ensures Walk(m'.mem, m'.root, c).level == if NodeOf(c, 2) in s.l.tables then 2 else 3
  {
    hide Core, MapPage, Walk;
    if NodeOf(c, 2) in s.l.tables {
      HugeAtLevel2(s, c, frame, flags, m');
    } else if NodeOf(c, 3) in s.l.tables {
      HugeAtLevel3(s, c, frame, flags, m');
    } else {
      PathSlots(s, c);
      HugeFromLevel4(s, c, frame, flags, m');
    }
  }

  // ----- the exact condition -----

  /** A large page that covers the page does not happen to be mapped to the very table whose slot the
      page's own walk looks at. */
  ghost predicate PathSpared(s: State, c: nat) {
    Covered(s.view, c) ==>
      forall n | n in s.l.tables && s.l.tables[n] == s.view[c].entry.frame :: !GoesThrough(c, n, Index(c, 1))
  }

  /** There are no leaves above level 2. */
  lemma CoveredOrMappable(s: Sound, c: nat)
    requires c in s.view
    ensures Mappable(s.view, c) <==> !Covered(s.view, c)
  {
    ViewAt(s, c);
    WalkIsShapeWalk(s.m.mem, s.m.root, s.l, c);
  }

  lemma {:induction false} LeafIsPresent(mem: Memory, table: Frame, level: nat, c: nat)
    requires c < MAX_PAGE && 1 <= level <= 4
    ensures var t := WalkFrom(mem, table, level, c); t.Leaf? ==> t.entry.flags.present
    decreases level
  {
    var e := Read(mem, table, Index(c, level));
    if level > 1 && e.flags.present && !(e.flags.huge && level <= 3) {
      LeafIsPresent(mem, e.frame, level - 1, c);
    }
  }

  /** A page under a large page stays under it. */
  lemma CoveredStays(s: Sound, c: nat, frame: Frame, flags: Flags, m': Machine)
    requires Covered(s.view, c) && PathSpared(s, c) && MapPage(s.m, c, frame, flags) == Some(m')
    ensures c < MAX_PAGE && Walk(m'.mem, m'.root, c) == s.view[c]
  {
    hide Core, MapPage, Walk;
    ViewAt(s, c);
    var f := s.view[c].entry.frame;
    if s.l.HoldsTable(f) {
      TableOfFrame(s, f);
      LargePageOfTable(s, c, frame, flags, s.l.uses[f].node);
    } else {
      var s' := LargePageOfData(s, c, frame, flags);
      ViewAt(s', c);
    }
  }

  lemma TableOfFrame(s: Sound, f: Frame)
    requires s.l.HoldsTable(f)
    ensures s.l.uses[f].node in s.l.tables && s.l.tables[s.l.uses[f].node] == f
  {
  }

  /** `map_page_unchecked` makes a page lead to exactly the given frame and flags if and only if PRESENT is
      among the flags, no large page covers the page, and HUGE_PAGE is not among the flags unless all
      tables exist. */
  lemma MapPageTranslatesIff(s: Sound, c: nat, frame: Frame, flags: Flags, m': Machine)
    requires c in s.view && frame < FRAME_LIMIT && PathSpared(s, c)
    requires MapPage(s.m, c, frame, flags) == Some(m')
    ensures c < MAX_PAGE
    ensures Walk(m'.mem, m'.root, c) == Leaf(1, Entry(frame, flags)) <==>
            flags.present && Mappable(s.view, c) && (!flags.huge || NodeOf(c, 1) in s.l.tables)
  {
    hide Core, MapPage, WalkFrom, FreeCount;
    ViewAt(s, c);
    CoveredOrMappable(s, c);
    LeafIsPresent(m'.mem, m'.root, 4, c);
    if Covered(s.view, c) {
      CoveredStays(s, c, frame, flags, m');
    } else if NodeOf(c, 1) in s.l.tables || LinkFlags(flags) {
      var r, l' := MapPageTranslates(s, c, frame, flags);
    } else if flags.present {
      HugeFlagsMakeLargePage(s, c, frame, flags, m');
    }
  }
}
