/** Allocating when no frame is left at all: frame 0 is linked and written again and again, but no page that
    led somewhere is disturbed. */
module DryRuns {
  import opened Entries
  import opened Pages
  import opened PageTree
  import opened FreeRuns
  import opened Bitmaps
  import opened Machines
  import opened PageRuns
  import opened Allocation
  import opened RawKernel
  import opened Exhaustion

  // ----- what stays while frame 0 is handed out -----

  /** Read as a table, frame 0 links to itself only. */
  ghost predicate ZeroRow(mem: Memory) {
    forall i: nat | i < 512 :: Read(mem, 0, i).flags.present ==> Read(mem, 0, i).frame == 0
  }

  /** Slot `i` of table `n` is as it was, or was unused and leads to frame 0. */
  ghost predicate SlotKept(s: State, m: Machine, n: Node, i: nat)
    requires n in s.l.tables && i < 512
  {
    var e, e' := Read(s.m.mem, s.l.tables[n], i), Read(m.mem, s.l.tables[n], i);
    e' == e || (!e.flags.present && e'.frame == 0 && (n.level >= 2 ==> ZeroRow(m.mem)))
  }

  ghost predicate Dry(s: State, m: Machine) {
    && m.root == s.m.root && m.bits == s.m.bits
    && forall n, i: nat | n in s.l.tables && i < 512 :: SlotKept(s, m, n, i)
  }

  /** The descent for page `c` has reached frame `t`: the table it had, or frame 0. */
  ghost predicate DownTo(s: State, m: Machine, c: nat, level: nat, t: Frame) {
    || (NodeOf(c, level) in s.l.tables && t == s.l.tables[NodeOf(c, level)])
    || (t == 0 && ZeroRow(m.mem))
  }

  /** The machines differ in slot `i` of frame `t` and in frame 0 only. */
  ghost predicate DiffersAt(m: Machine, m': Machine, t: Frame, i: nat) {
    && m'.root == m.root && m'.bits == m.bits
    && forall f: Frame, j: nat | f != 0 && j < 512 && (f != t || j != i) :: Read(m'.mem, f, j) == Read(m.mem, f, j)
  }

  lemma ZeroRowKept(mem: Memory, mem': Memory)
    requires ZeroRow(mem)
    requires forall i: nat | i < 512 :: Read(mem', 0, i) == Read(mem, 0, i) || Read(mem', 0, i).frame == 0
    ensures ZeroRow(mem')
  {
  }

  lemma SlotWritten(s: Sound, m: Machine, m': Machine, n: Node, i: nat)
    requires Dry(s, m) && !s.l.HoldsTable(0) && n in s.l.tables && i < 512
    requires DiffersAt(m, m', s.l.tables[n], i)
    requires !Read(s.m.mem, s.l.tables[n], i).flags.present && Read(m'.mem, s.l.tables[n], i).frame == 0
    requires ZeroRow(m'.mem) || (n.level == 1 && Row(m'.mem, 0) == Row(m.mem, 0))
    ensures Dry(s, m')
  {
    if ZeroRow(m.mem) && Row(m'.mem, 0) == Row(m.mem, 0) {
      ZeroRowKept(m.mem, m'.mem);
    }
    forall k, j: nat | k in s.l.tables && j < 512
      ensures SlotKept(s, m', k, j)
    {
      NotFrameZero(s, k);
      assert SlotKept(s, m, k, j);
      if s.l.tables[k] == s.l.tables[n] && j == i {
        assert k == n;
      }
    }
  }

  lemma ZeroWritten(s: Sound, m: Machine, m': Machine, i: nat)
    requires Dry(s, m) && !s.l.HoldsTable(0) && DiffersAt(m, m', 0, i) && ZeroRow(m'.mem)
    ensures Dry(s, m')
  {
    forall k, j: nat | k in s.l.tables && j < 512
      ensures SlotKept(s, m', k, j)
    {
      NotFrameZero(s, k);
      assert SlotKept(s, m, k, j);
    }
  }

  // ----- one page -----

  lemma LinkOfUnmapped(s: Sound, c: nat, level: nat)
    requires c in s.view && s.view[c] == Unmapped && 1 <= level <= 4 && NodeOf(c, level) in s.l.tables
    ensures c < MAX_PAGE
    ensures var e := Read(s.m.mem, s.l.tables[NodeOf(c, level)], Index(c, level));
            e.flags.present ==>
              level >= 2 && NodeOf(c, level - 1) in s.l.tables && s.l.tables[NodeOf(c, level - 1)] == e.frame
  {
    ViewAt(s, c);
    WalkIsShapeWalk(s.m.mem, s.m.root, s.l, c);
    ChildOnPath(c, level);
    if level >= 2 {
      NoLargePage(s.m.mem, s.m.root, s.l, c, level);
      assert LinkOk(s.m.mem, s.l, NodeOf(c, level), Index(c, level));
    }
  }

  lemma EnsureStaysDry(s: Sound, m: Machine, c: nat, level: nat, t: Frame)
    requires Dry(s, m) && FirstFree(s.m.bits).None? && !s.l.HoldsTable(0)
    requires c in s.view && s.view[c] == Unmapped && 2 <= level <= 4 && DownTo(s, m, c, level, t)
    ensures var (m', t') := RawEnsure(m, t, Index(c, level), RW);
            Dry(s, m') && DownTo(s, m', c, level - 1, t')
  {
    hide Core;
    var i := Index(c, level);
    var (m', t') := RawEnsure(m, t, i, RW);
    if !Read(m.mem, t, i).flags.present {
      RawEnsureEmpty(m, t, i, RW);
      assert Row(m'.mem, 0) == ClearedTable();
    }
    if NodeOf(c, level) in s.l.tables && t == s.l.tables[NodeOf(c, level)] {
      LinkOfUnmapped(s, c, level);
      NotFrameZero(s, NodeOf(c, level));
      assert SlotKept(s, m, NodeOf(c, level), i);
      if !Read(m.mem, t, i).flags.present {
        SlotWritten(s, m, m', NodeOf(c, level), i);
      }
    } else if !Read(m.mem, t, i).flags.present {
      ZeroWritten(s, m, m', i);
    }
  }

  lemma LeafStaysDry(s: Sound, m: Machine, c: nat, t: Frame)
    requires Dry(s, m) && !s.l.HoldsTable(0)
    requires c in s.view && s.view[c] == Unmapped && DownTo(s, m, c, 1, t)
    ensures Dry(s, SetSlot(m, t, c, ZERO))
  {
    hide Core;
    var m', i := SetSlot(m, t, c, ZERO), Index(c, 1);
    if NodeOf(c, 1) in s.l.tables && t == s.l.tables[NodeOf(c, 1)] {
      LinkOfUnmapped(s, c, 1);
      NotFrameZero(s, NodeOf(c, 1));
      SlotWritten(s, m, m', NodeOf(c, 1), i);
    } else {
      ZeroRowKept(m.mem, m'.mem);
      ZeroWritten(s, m, m', i);
    }
  }

  lemma PageStaysDry(s: Sound, m: Machine, c: nat)
    requires Dry(s, m) && FirstFree(s.m.bits).None? && !s.l.HoldsTable(0)
    requires c in s.view && s.view[c] == Unmapped
    ensures Dry(s, RawMap(m, c, 0, RW))
  {
    hide Core, Dry, RawEnsure, SetSlot;
    ViewAt(s, c);
    RootTable(s);
    RootOnPath(c);
    DryRoot(s, m);
    var (m3, t3) := RawEnsure(m, m.root, Index(c, 4), RW);
    EnsureStaysDry(s, m, c, 4, m.root);
    var (m2, t2) := RawEnsure(m3, t3, Index(c, 3), RW);
    EnsureStaysDry(s, m3, c, 3, t3);
    var (m1, t1) := RawEnsure(m2, t2, Index(c, 2), RW);
    EnsureStaysDry(s, m2, c, 2, t2);
    LeafStaysDry(s, m1, c, t1);
  }

  lemma DryRoot(s: State, m: Machine)
    requires Dry(s, m)
    ensures m.root == s.m.root && m.bits == s.m.bits
  {
  }

  // ----- runs of pages -----

  lemma {:induction false} RunStaysDry(s: Sound, m: Machine, c: nat, last: nat)
    requires Dry(s, m) && FirstFree(s.m.bits).None? && !s.l.HoldsTable(0) && AllUnmapped(s.view, c, last)
    ensures Dry(s, RawRun(Mapper(m, Fresh), c, last).m)
    decreases last + 1 - c
  {
    hide Core, Dry, RawMap;
    if c <= last {
      DryRoot(s, m);
      RawBodyUnfolds(m, c);
      PageStaysDry(s, m, c);
      RunStaysDry(s, RawMap(m, c, 0, RW), c + 1, last);
    }
  }

  lemma {:induction false} DryWalk(s: Sound, m: Machine, c: nat, level: nat)
    requires Dry(s, m) && c < MAX_PAGE && 1 <= level <= 4 && NodeOf(c, level) in s.l.tables
    requires WalkFrom(s.m.mem, s.l.tables[NodeOf(c, level)], level, c).Leaf?
    ensures var t := s.l.tables[NodeOf(c, level)];
            WalkFrom(m.mem, t, level, c) == WalkFrom(s.m.mem, t, level, c)
    decreases level
  {
    assert SlotKept(s, m, NodeOf(c, level), Index(c, level));
    if level > 1 {
      ChildOnPath(c, level);
      assert LinkOk(s.m.mem, s.l, NodeOf(c, level), Index(c, level));
      if NodeOf(c, level - 1) in s.l.tables {
        DryWalk(s, m, c, level - 1);
      }
    }
  }

  /** With no frame left, `alloc_pages` marks nothing, and every page that led somewhere still leads there; so
      the pages of live allocations do. */
  lemma DryAllocDisturbsNothing(s: Sound, n: nat)
    requires FreeCount(s.m.bits) == 0 && !s.l.HoldsTable(0) && s.m.cursor < MAX_PAGE && n >= 1
    ensures var m' := RawAlloc(s.m, n).0;
            && m'.bits == s.m.bits
            && forall c: nat | c < MAX_PAGE && Walk(s.m.mem, s.m.root, c).Leaf? ::
                 Walk(m'.mem, m'.root, c) == Walk(s.m.mem, s.m.root, c)
  {
    hide Core, FreeCount, RawRun, Dry, FindFree;
    NoneFree(s.m.bits);
    var found := FindFree(s.m.mem, s.m.root, s.m.cursor, n);
    if found.Some? {
      var m0 := s.m.(cursor := found.value.last);
      var m' := RawRun(Mapper(m0, Fresh), found.value.first, found.value.last).m;
      FoundIsUnmapped(s, n);
      StartsDry(s, m0);
      RunStaysDry(s, m0, found.value.first, found.value.last);
      forall c: nat | c < MAX_PAGE && Walk(s.m.mem, s.m.root, c).Leaf?
        ensures Walk(m'.mem, m'.root, c) == Walk(s.m.mem, s.m.root, c)
      {
        RootTable(s);
        RootOnPath(c);
        DryRoot(s, m');
        DryWalk(s, m', c, 4);
      }
      DryRoot(s, m');
    }
  }

  lemma StartsDry(s: Sound, m: Machine)
    requires m.root == s.m.root && m.bits == s.m.bits && m.mem == s.m.mem
    ensures Dry(s, m)
  {
  }

  lemma FoundIsUnmapped(s: Sound, n: nat)
    requires s.m.cursor < MAX_PAGE && n >= 1 && FindFree(s.m.mem, s.m.root, s.m.cursor, n).Some?
    ensures var run := FindFree(s.m.mem, s.m.root, s.m.cursor, n).value; AllUnmapped(s.view, run.first, run.last)
  {
    FirstRunIsEarliest(s.m.mem, s.m.root, s.m.cursor, n);
    var run := FindFree(s.m.mem, s.m.root, s.m.cursor, n).value;
    FreeMeansUnmapped(s, run.first, run.last, n);
  }
}
