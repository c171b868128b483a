/** What the page allocator guarantees, stated in terms of the processor's walk and the bitmap. */
module AllocatorTheorems {
  import opened Entries
  import opened Pages
  import opened PageTree
  import opened Machines
  import opened PageRuns
  import opened Allocation
  import opened AllocatorRuns

  // ----- safety of every state of every run -----

  /** Page `c` of a live allocation leads to frame `f`. */
  ghost predicate PageOf(y: Sys, c: nat, f: Frame) {
    && c < MAX_PAGE && (exists a :: a in y.live && a.Has(c))
    && Walk(y.m.mem, y.m.root, c) == Leaf(1, Entry(f, RW))
  }

  /** Frame `f` holds one of the tables. */
  ghost predicate TableIn(l: Ledger, f: Frame) {
    exists n :: n in l.tables && l.tables[n] == f
  }

  /** Tables form a tree; live allocations are pairwise disjoint in pages and frames; and the marked
      frames are exactly the disjoint union of table frames and frames of live pages. */
  ghost predicate Safe(y: Sys, l: Ledger) {
    && IsTree(y.m.mem, y.m.root, l)
    && (forall a, b | a in y.live && b in y.live && a != b :: Apart(a, b))
    && (forall a, c: nat | a in y.live && a.Has(c) :: exists f :: PageOf(y, c, f))
    && (forall c, d, f | PageOf(y, c, f) && PageOf(y, d, f) :: c == d)
    && (forall c, f | PageOf(y, c, f) :: Marked(y.m, f) && !TableIn(l, f))
    && (forall f | Marked(y.m, f) :: TableIn(l, f) || exists c :: PageOf(y, c, f))
    && (forall f | TableIn(l, f) && InPool(y.m, f) :: Marked(y.m, f))
  }

  lemma OwnedPageOf(s: Sound, y: Sys, c: nat)
    requires Explains(s, y) && c in s.l.pages
    ensures PageOf(y, c, s.l.pages[c])
  {
    assert s.view[c] == Walk(y.m.mem, y.m.root, c);
  }

  lemma PageOfOwned(s: Sound, y: Sys, c: nat, f: Frame)
    requires Explains(s, y) && PageOf(y, c, f)
    ensures c in s.l.pages && s.l.pages[c] == f && f in s.l.uses && s.l.uses[f] == PageFrame(c)
  {
    var a :| a in y.live && a.Has(c);
    assert OwnedAlloc(s.l, a);
    assert s.view[c] == Walk(y.m.mem, y.m.root, c);
  }

  lemma TableUse(s: Sound, f: Frame)
    ensures TableIn(s.l, f) <==> f in s.l.uses && s.l.uses[f].TableFrame?
  {
    if f in s.l.uses && s.l.uses[f].TableFrame? {
      assert s.l.uses[f].node in s.l.tables;
    }
  }

  lemma MarkedIsUsed(s: Sound, y: Sys, f: Frame)
    requires Explains(s, y) && Marked(y.m, f)
    ensures TableIn(s.l, f) || exists c :: PageOf(y, c, f)
  {
    assert Marked(s.m, f);
    TableUse(s, f);
    if s.l.uses[f].PageFrame? {
      OwnedPageOf(s, y, s.l.uses[f].page);
    } else {
      assert !s.l.Holds(f);
    }
  }

  lemma ExplainedIsSafe(s: Sound, y: Sys)
    requires Explains(s, y)
    ensures Safe(y, s.l)
  {
    forall a, c: nat | a in y.live && a.Has(c)
      ensures exists f :: PageOf(y, c, f)
    {
      assert OwnedAlloc(s.l, a) && c in s.l.pages;
      OwnedPageOf(s, y, c);
    }
    forall c, d, f | PageOf(y, c, f) && PageOf(y, d, f)
      ensures c == d
    {
      PageOfOwned(s, y, c, f);
      PageOfOwned(s, y, d, f);
    }
    forall c, f | PageOf(y, c, f)
      ensures Marked(y.m, f) && !TableIn(s.l, f)
    {
      PageOfOwned(s, y, c, f);
      TableUse(s, f);
      assert Marked(s.m, f);
    }
    forall f | Marked(y.m, f)
      ensures TableIn(s.l, f) || exists c :: PageOf(y, c, f)
    {
      MarkedIsUsed(s, y, f);
    }
    forall f | TableIn(s.l, f) && InPool(y.m, f)
      ensures Marked(y.m, f)
    {
      TableUse(s, f);
      assert Marked(s.m, f) <==> f in s.l.uses;
    }
  }

  /** Every state of every run of the kernel as written is safe, and in it every live allocation can be
      taken back without a panic. */
  lemma RunsAreSafe(boot: Ledger, ys: seq<Sys>, es: seq<Event>, i: nat) returns (l: Ledger)
    requires IsRun(TheKernel(), boot, ys, es) && i < |ys|
    ensures Safe(ys[i], l)
    ensures forall a | a in ys[i].live :: DeallocPages(UnmapBody, ys[i].m, a).Freed?
  {
    TheKernelIsOk();
    var s := RunIsSound(TheKernel(), boot, ys, es, i);
    l := s.l;
    ExplainedIsSafe(s, ys[i]);
    forall a | a in ys[i].live
      ensures DeallocPages(UnmapBody, ys[i].m, a).Freed?
    {
      var s' := FreeSucceeds(TheKernel(), s, ys[i], a);
    }
  }
}
