/** `dealloc_pages` of any range of pages, owned or not: when it panics and what it leaves behind. */
module Releases {
  import opened Entries
  import opened Pages
  import opened PageTree
  import opened Machines
  import opened PageRuns
  import opened Allocation
  import opened AllocatorRuns

  /** The level-1 entry of a page. */
  ghost function SlotOf(m: Machine, l: Ledger, c: nat): Entry
    requires NodeOf(c, 1) in l.tables
  {
    Read(m.mem, l.tables[NodeOf(c, 1)], Index(c, 1))
  }

  /** Page `c` has a level-1 table, and its entry names a marked frame. */
  ghost predicate Releasable(m: Machine, l: Ledger, c: nat) {
    NodeOf(c, 1) in l.tables && Marked(m, SlotOf(m, l, c).frame)
  }

  /** Every page of c..=last can be released, and no two of them name the same frame. */
  ghost predicate AllReleasable(m: Machine, l: Ledger, c: nat, last: nat) {
    && (forall d: nat | c <= d <= last :: Releasable(m, l, d))
    && (forall d: nat, e: nat {:trigger SlotOf(m, l, d), SlotOf(m, l, e)} |
          c <= d < e <= last && NodeOf(d, 1) in l.tables && NodeOf(e, 1) in l.tables ::
          SlotOf(m, l, d).frame != SlotOf(m, l, e).frame)
  }

  /** No page of c..=last lies under a large page. */
  ghost predicate NoneLarge(m: Machine, l: Ledger, c: nat, last: nat) {
    forall d: nat | c <= d <= last && d < MAX_PAGE ::
      NodeOf(d, 1) in l.tables || FindEntryMut(m.mem, m.root, d) == None
  }

  // ----- one page -----

  ghost predicate ReleasedAt(m: Machine, l: Ledger, c: nat, m': Machine)
    requires NodeOf(c, 1) in l.tables
  {
    && m'.root == m.root && m'.base == m.base && |m'.bits| == |m.bits| && m'.cursor == m.cursor
    && IsTree(m'.mem, m'.root, l)
    && SlotOf(m', l, c) == EMPTY
    && (forall d: nat {:trigger SlotOf(m', l, d)} | d != c && NodeOf(d, 1) in l.tables ::
          SlotOf(m', l, d) == SlotOf(m, l, d))
    && (forall f {:trigger Marked(m', f)} :: Marked(m', f) <==> Marked(m, f) && f != SlotOf(m, l, c).frame)
  }

  lemma OtherSlotsStay(m: Machine, l: Ledger, c: nat, d: nat, e: Entry)
    requires l.TablesKnown() && NodeOf(c, 1) in l.tables && NodeOf(d, 1) in l.tables && d != c
    ensures SlotOf(SetSlot(m, l.tables[NodeOf(c, 1)], c, e), l, d) == SlotOf(m, l, d)
  {
    if NodeOf(d, 1) == NodeOf(c, 1) && Index(d, 1) == Index(c, 1) {
      SlotDeterminesPage(c, d);
    }
  }

  lemma ReleaseOne(m: Machine, l: Ledger, c: nat)
    requires IsTree(m.mem, m.root, l) && c < MAX_PAGE
    requires NodeOf(c, 1) in l.tables || FindEntryMut(m.mem, m.root, c) == None
    ensures UnmapBody(m, c).Some? <==> Releasable(m, l, c)
    ensures UnmapBody(m, c).Some? ==> ReleasedAt(m, l, c, UnmapBody(m, c).value)
  {
    LookupsFollowShape(m.mem, m.root, l, c);
    if Releasable(m, l, c) {
      var t, f := l.tables[NodeOf(c, 1)], SlotOf(m, l, c).frame;
      var m' := UnmapBody(m, c).value;
      SetLeaf(m.mem, m.root, l, ViewOf(m.mem, m.root), c, EMPTY);
      forall d: nat | d != c && NodeOf(d, 1) in l.tables
        ensures SlotOf(m', l, d) == SlotOf(m, l, d)
      {
        OtherSlotsStay(m, l, c, d, EMPTY);
      }
    }
  }

  /** Releasing a page leaves the lookups of pages without a level-1 table alone. */
  lemma StillNotLarge(m: Machine, l: Ledger, c: nat, m': Machine, d: nat)
    requires IsTree(m.mem, m.root, l) && c < MAX_PAGE && UnmapBody(m, c) == Some(m')
    requires NodeOf(c, 1) in l.tables && d < MAX_PAGE && NodeOf(d, 1) !in l.tables
    ensures FindEntryMut(m'.mem, m'.root, d) == FindEntryMut(m.mem, m.root, d)
  {
    LookupsFollowShape(m.mem, m.root, l, c);
    SetLeaf(m.mem, m.root, l, ViewOf(m.mem, m.root), c, EMPTY);
    LookupsFollowShape(m.mem, m.root, l, d);
    LookupsFollowShape(m'.mem, m'.root, l, d);
  }

  // ----- a run of pages -----

  /** What a run of releases leaves behind. */
  ghost predicate RunGone(m: Machine, l: Ledger, c: nat, last: nat, m': Machine) {
    && (forall d: nat {:trigger SlotOf(m', l, d)} | c <= d <= last && NodeOf(d, 1) in l.tables ::
          SlotOf(m', l, d) == EMPTY)
    && (forall d: nat {:trigger SlotOf(m', l, d)} | !(c <= d <= last) && NodeOf(d, 1) in l.tables ::
          SlotOf(m', l, d) == SlotOf(m, l, d))
    && (forall f {:trigger Marked(m', f)} :: Marked(m', f) <==>
          Marked(m, f) && !exists d: nat :: c <= d <= last && NodeOf(d, 1) in l.tables && SlotOf(m, l, d).frame == f)
  }

  lemma AllButFirst(m: Machine, l: Ledger, c: nat, last: nat, m1: Machine)
    requires c <= last && Releasable(m, l, c) && ReleasedAt(m, l, c, m1)
    ensures AllReleasable(m, l, c, last) <==> AllReleasable(m1, l, c + 1, last)
  {
    forall d: nat | c + 1 <= d <= last
      ensures Releasable(m1, l, d) <==> Releasable(m, l, d) && SlotOf(m, l, c).frame != SlotOf(m, l, d).frame
    {
      if NodeOf(d, 1) in l.tables {
        assert SlotOf(m1, l, d) == SlotOf(m, l, d);
      }
    }
    if AllReleasable(m, l, c, last) {
      forall d: nat, e: nat | c + 1 <= d < e <= last
        ensures NodeOf(d, 1) in l.tables && NodeOf(e, 1) in l.tables
        ensures SlotOf(m1, l, d).frame != SlotOf(m1, l, e).frame
      {
        assert Releasable(m, l, d) && Releasable(m, l, e);
      }
    }
    if AllReleasable(m1, l, c + 1, last) {
      forall d: nat, e: nat | c <= d < e <= last
        ensures NodeOf(d, 1) in l.tables && NodeOf(e, 1) in l.tables
        ensures SlotOf(m, l, d).frame != SlotOf(m, l, e).frame
      {
        assert Releasable(m1, l, e);
        if d > c {
          assert Releasable(m1, l, d);
          assert SlotOf(m1, l, d).frame != SlotOf(m1, l, e).frame;
        }
      }
    }
  }

  lemma GoneStep(m: Machine, l: Ledger, c: nat, last: nat, m1: Machine, m': Machine)
    requires c <= last && NodeOf(c, 1) in l.tables && ReleasedAt(m, l, c, m1) && RunGone(m1, l, c + 1, last, m')
    ensures RunGone(m, l, c, last, m')
  {
    forall f
      ensures Marked(m', f) <==>
              Marked(m, f) && !exists d: nat :: c <= d <= last && NodeOf(d, 1) in l.tables && SlotOf(m, l, d).frame == f
    {
      forall d: nat | c + 1 <= d <= last && NodeOf(d, 1) in l.tables
        ensures SlotOf(m1, l, d) == SlotOf(m, l, d)
      {
      }
    }
  }

  lemma NothingToRelease(m: Machine, l: Ledger, c: nat, last: nat)
    requires c > last
    ensures AllReleasable(m, l, c, last) && RunGone(m, l, c, last, m)
  {
  }

  lemma FirstReleasable(m: Machine, l: Ledger, c: nat, last: nat)
    requires c <= last && AllReleasable(m, l, c, last)
    ensures Releasable(m, l, c)
  {
  }

  lemma RestNotLarge(m: Machine, l: Ledger, c: nat, last: nat, m1: Machine)
    requires IsTree(m.mem, m.root, l) && c < MAX_PAGE && UnmapBody(m, c) == Some(m1) && NodeOf(c, 1) in l.tables
    requires NoneLarge(m, l, c, last)
    ensures NoneLarge(m1, l, c + 1, last)
  {
    hide IsTree, FindEntryMut, UnmapBody;
    forall d: nat | c + 1 <= d <= last && d < MAX_PAGE && NodeOf(d, 1) !in l.tables
      ensures FindEntryMut(m1.mem, m1.root, d) == None
    {
      StillNotLarge(m, l, c, m1, d);
    }
  }

  /** The loop gets through exactly when every page can be released, and then has cleared exactly the entries
      and the marks of the frames they named. */
  lemma {:induction false} ReleaseLoop(m: Machine, l: Ledger, c: nat, last: nat)
    requires IsTree(m.mem, m.root, l) && last + 1 < MAX_PAGE && NoneLarge(m, l, c, last)
    ensures ForPages(UnmapBody, m, c, last).Done? <==> AllReleasable(m, l, c, last)
    ensures ForPages(UnmapBody, m, c, last).Done? ==> RunGone(m, l, c, last, ForPages(UnmapBody, m, c, last).s)
    decreases last + 1 - c
  {
    hide IsTree, UnmapBody, Marked, SlotOf, RunGone, AllReleasable;
    if c > last {
      NothingToRelease(m, l, c, last);
    } else {
      ReleaseOne(m, l, c);
      if UnmapBody(m, c).Some? {
        var m1 := UnmapBody(m, c).value;
        RestNotLarge(m, l, c, last, m1);
        ReleaseLoop(m1, l, c + 1, last);
        AllButFirst(m, l, c, last, m1);
        if AllReleasable(m, l, c, last) {
          GoneStep(m, l, c, last, m1, ForPages(UnmapBody, m1, c + 1, last).s);
        }
      } else if AllReleasable(m, l, c, last) {
        FirstReleasable(m, l, c, last);
      }
    }
  }

  // ----- dealloc_pages -----

  lemma NotCovered(s: Sound, c: nat)
    requires Mappable(s.view, c)
    ensures c < MAX_PAGE && (NodeOf(c, 1) in s.l.tables || FindEntryMut(s.m.mem, s.m.root, c) == None)
  {
    ViewAt(s, c);
    LookupsFollowShape(s.m.mem, s.m.root, s.l, c);
    WalkIsShapeWalk(s.m.mem, s.m.root, s.l, c);
  }

  /** `dealloc_pages` of any range of pages that no large page covers: it goes through exactly when the range
      is not empty and ends before the last page, every page has a level-1 table and an entry that names a
      marked frame, and no two name the same; otherwise it panics. */
  lemma DeallocFreesIff(s: Sound, a: Alloc)
    requires forall c: nat | a.Has(c) && c < MAX_PAGE :: Mappable(s.view, c)
    ensures DeallocPages(UnmapBody, s.m, a).Freed? <==>
            a.count >= 1 && a.first + a.count < MAX_PAGE && AllReleasable(s.m, s.l, a.first, a.first + a.count - 1)
    ensures DeallocPages(UnmapBody, s.m, a).Freed? ==>
              RunGone(s.m, s.l, a.first, a.first + a.count - 1, DeallocPages(UnmapBody, s.m, a).m)
  {
    hide IsTree, UnmapBody, AllReleasable, RunGone, ForPages, Mappable;
    if a.count >= 1 && a.first + a.count < MAX_PAGE {
      var last := a.first + a.count - 1;
      forall c: nat | a.first <= c <= last && c < MAX_PAGE
        ensures NodeOf(c, 1) in s.l.tables || FindEntryMut(s.m.mem, s.m.root, c) == None
      {
        assert a.Has(c);
        NotCovered(s, c);
      }
      ReleaseLoop(s.m, s.l, a.first, last);
    } else if a.count >= 1 {
      NeverToTheEnd(UnmapBody, s.m, a.first, a.first + a.count - 1);
    }
  }

  /** A loop over pages never gets through the last one. */
  lemma {:induction false} NeverToTheEnd<S>(body: (S, nat) -> Option<S>, s: S, c: nat, last: nat)
    requires c <= last && last + 1 >= MAX_PAGE
    ensures !ForPages(body, s, c, last).Done?
    decreases last + 1 - c
  {
    if c + 1 < MAX_PAGE && body(s, c).Some? {
      NeverToTheEnd(body, body(s, c).value, c + 1, last);
    }
  }

  lemma ClearedNamesZero(s: Sound, s': Sound, a: Alloc)
    requires OwnedAlloc(s.l, a) && s'.l.tables == s.l.tables
    requires RunGone(s.m, s.l, a.first, a.first + a.count - 1, s'.m)
    ensures forall c: nat | a.Has(c) :: NodeOf(c, 1) in s'.l.tables && SlotOf(s'.m, s'.l, c) == EMPTY
  {
    hide Core, RunGone;
    forall c: nat | a.Has(c)
      ensures NodeOf(c, 1) in s'.l.tables && SlotOf(s'.m, s'.l, c) == EMPTY
    {
      OwnedSlot(s, c);
      GoneAt(s.m, s.l, a.first, a.first + a.count - 1, s'.m, c);
      assert SlotOf(s'.m, s'.l, c) == SlotOf(s'.m, s.l, c);
    }
  }

  lemma GoneAt(m: Machine, l: Ledger, c: nat, last: nat, m': Machine, d: nat)
    requires RunGone(m, l, c, last, m') && c <= d <= last && NodeOf(d, 1) in l.tables
    ensures SlotOf(m', l, d) == EMPTY
  {
  }

  /** Taking back an allocation a second time panics, unless it is a single page and frame 0 is marked. */
  lemma FreedTwice(s: Sound, y: Sys, a: Alloc, m': Machine)
    requires Explains(s, y) && a in y.live && DeallocPages(UnmapBody, y.m, a) == Freed(m')
    ensures DeallocPages(UnmapBody, m', a).Panic? <==> a.count > 1 || !Marked(m', 0)
  {
    hide Core, DeallocPages, KernelOk, AllReleasable, RunGone, Marked, LiveMatches, NoneHeld;
    TheKernelIsOk();
    var s' := FreeSucceeds(TheKernel(), s, y, a);
    OwnedAllocFacts(s, a);
    DeallocFreesIff(s, a);
    ReleasedFacts(s, a, s');
    ClearedNamesZero(s, s', a);
    DeallocFreesIff(s', a);
    EmptySlots(s', a);
  }

  lemma OwnedAllocFacts(s: Sound, a: Alloc)
    requires OwnedAlloc(s.l, a)
    ensures forall c: nat | a.Has(c) && c < MAX_PAGE :: Mappable(s.view, c)
  {
  }

  lemma ReleasedFacts(s: Sound, a: Alloc, s': Sound)
    requires OwnedAlloc(s.l, a) && RunReleased(s, a.first, a.Last(), s')
    ensures s'.l.tables == s.l.tables
    ensures forall c: nat | a.Has(c) && c < MAX_PAGE :: Mappable(s'.view, c)
  {
    hide Blank;
    DisownRunLeaves(s.l, a.first, a.Last());
    forall c: nat | a.Has(c)
      ensures Mappable(s'.view, c)
    {
      BlankAt(s.view, a.first, a.Last(), c);
    }
  }

  lemma EmptySlots(s: Sound, a: Alloc)
    requires a.count >= 1 && forall c: nat | a.Has(c) :: NodeOf(c, 1) in s.l.tables && SlotOf(s.m, s.l, c) == EMPTY
    ensures AllReleasable(s.m, s.l, a.first, a.first + a.count - 1) <==> a.count == 1 && Marked(s.m, 0)
  {
    hide Core, Marked, SlotOf;
    if a.count > 1 {
      assert a.Has(a.first) && a.Has(a.first + 1);
      assert SlotOf(s.m, s.l, a.first).frame == SlotOf(s.m, s.l, a.first + 1).frame;
    }
    assert a.Has(a.first);
    assert Releasable(s.m, s.l, a.first) <==> Marked(s.m, 0);
  }
}
