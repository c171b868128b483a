/** Whole runs of the page allocator: any sequence of allocations, deallocations, physical mappings
    and writes to allocated memory. */
module AllocatorRuns {
  import opened Entries
  import opened Pages
  import opened PageTree
  import opened FreeRuns
  import opened Machines
  import opened PageRuns
  import opened Allocation

  /** The machine and the allocations handed out and not yet taken back. */
  datatype Sys = Sys(m: Machine, live: set<Alloc>)

  /** The loop bodies of the allocator. */
  datatype Kernel = Kernel(mapping: MapStep, unmapping: UnmapStep)

  ghost predicate KernelOk(k: Kernel) {
    MapsNext(k.mapping) && UnmapsNext(k.unmapping)
  }

  /** The kernel as written. */
  function TheKernel(): Kernel {
    Kernel(MapBody, UnmapBody)
  }

  lemma TheKernelIsOk()
    ensures KernelOk(TheKernel())
  {
    MapBodyMapsNext();
    UnmapBodyUnmapsNext();
  }

  // ----- steps -----

  datatype Event =
    | AllocDone(n: nat, a: Alloc)
    | AllocNone(n: nat)
    | FreeDone(a: Alloc)
    | PhysDone(addr: nat, n: nat, a: Alloc, vaddr: nat)
    | PhysNone(addr: nat, n: nat)
    | WriteDone(page: nat, row: Table)

  ghost predicate Step(k: Kernel, y: Sys, e: Event, y': Sys) {
    match e
    case AllocDone(n, a) =>
      n >= 1 && y.m.cursor < MAX_PAGE && AllocPages(k.mapping, y.m, n) == Allocated(y'.m, a) && y'.live == y.live + {a}
    case AllocNone(n) =>
      y.m.cursor < MAX_PAGE && AllocPages(k.mapping, y.m, n) == NoRun && y' == y
    case FreeDone(a) =>
      a in y.live && DeallocPages(k.unmapping, y.m, a) == Freed(y'.m) && y'.live == y.live - {a}
    case PhysDone(addr, n, a, vaddr) =>
      && PhysCount(addr, n) >= 1 && y.m.cursor < MAX_PAGE
      && MapPhysical(k.mapping, y.m, addr, n) == PhysMapped(y'.m, a, vaddr)
      && y'.live == y.live + {a}
    case PhysNone(addr, n) =>
      y.m.cursor < MAX_PAGE && y'.live == y.live
      && (MapPhysical(k.mapping, y.m, addr, n) == PhysNoRun(y'.m)
          || (MapPhysical(k.mapping, y.m, addr, n) == PhysRefused && y'.m == y.m))
    case WriteDone(c, row) =>
      // whoever holds an allocation may write anything to its frames
      c < MAX_PAGE && y'.live == y.live && (exists a :: a in y.live && a.Has(c))
      && var t := Walk(y.m.mem, y.m.root, c);
         t.Leaf? && y'.m == y.m.(mem := y.m.mem[t.entry.frame := row])
  }

  // ----- invariant -----

  /** The two ranges have no page in common. */
  predicate Apart(a: Alloc, b: Alloc) {
    a.first + a.count <= b.first || b.first + b.count <= a.first
  }

  /** The live allocations are pairwise apart and together own exactly the owned pages. */
  ghost predicate LiveMatches(l: Ledger, live: set<Alloc>) {
    && (forall a | a in live :: OwnedAlloc(l, a))
    && (forall a, b | a in live && b in live && a != b :: Apart(a, b))
    && (forall c | c in l.pages :: exists a :: a in live && a.Has(c))
  }

  ghost predicate NoneHeld(l: Ledger) {
    forall f {:trigger l.Holds(f)} :: !l.Holds(f)
  }

  ghost predicate Explains(s: State, y: Sys) {
    && s.m == y.m && y.m.cursor < MAX_PAGE
    && NoneHeld(s.l)
    && LiveMatches(s.l, y.live)
  }

  // ----- allocations -----

  lemma OwnedIsPresent(s: Sound, c: nat)
    requires c in s.l.pages
    ensures c < MAX_PAGE && IsPresent(s.m.mem, s.m.root, c)
  {
    assert s.view[c] == Walk(s.m.mem, s.m.root, c);
    IsPresentMeansMapped(s.m.mem, s.m.root, s.l, c);
  }

  /** A free run has no page in common with an owned allocation. */
  lemma FreeIsApart(s: Sound, first: nat, n: nat, b: Alloc)
    requires n >= 1 && first + n <= MAX_PAGE && RunFree(s.m.mem, s.m.root, first, n) && OwnedAlloc(s.l, b)
    ensures Apart(Alloc(first, n), b)
  {
    if !Apart(Alloc(first, n), b) {
      var c := if first <= b.first then b.first else first;
      assert b.first <= c <= b.first + b.count - 1;
      OwnedIsPresent(s, c);
      assert false;
    }
  }

  lemma LiveAfterAlloc(l: Ledger, l': Ledger, live: set<Alloc>, a: Alloc, last: nat)
    requires LiveMatches(l, live) && a.count >= 1 && last + 1 == a.first + a.count < MAX_PAGE
    requires PagesGained(l, l', a.first, last, Fresh)
    requires forall b | b in live :: Apart(a, b)
    ensures LiveMatches(l', live + {a})
  {
    forall b | b in live
      ensures OwnedAlloc(l', b)
    {
      forall d | b.first <= d <= b.first + b.count - 1
        ensures d in l'.pages
      {
        assert PageGained(l, l', a.first, last, d);
      }
    }
    forall d | a.first <= d <= a.first + a.count - 1
      ensures d in l'.pages
    {
      assert PageGained(l, l', a.first, last, d);
    }
    forall c | c in l'.pages
      ensures exists b :: b in live + {a} && b.Has(c)
    {
      assert PageGained(l, l', a.first, last, c);
      if c in l.pages {
        var b :| b in live && b.Has(c);
        assert b in live + {a};
      } else {
        assert a in live + {a} && a.Has(c);
      }
    }
  }

  lemma NoneHeldAfter(l: Ledger, l': Ledger, n: nat)
    requires NoneHeld(l) && UsesKept(l, l', Fresh, n)
    ensures NoneHeld(l')
  {
  }

  /** Mapping a new run for an allocation, whatever way the frames were obtained. */
  lemma GainAllocation(s: Sound, y: Sys, s0: State, s': Sound, a: Alloc, last: nat, m': Machine)
    requires Explains(s, y) && s0.l == s.l
    requires a.count >= 1 && last + 1 == a.first + a.count && Earliest(s.m, a.count, a.first)
    requires MappingDone(s0, s', a.first, last, Fresh, m') && m'.cursor < MAX_PAGE
    ensures Explains(s', Sys(m', y.live + {a}))
  {
    forall b | b in y.live
      ensures Apart(a, b)
    {
      FreeIsApart(s, a.first, a.count, b);
    }
    LiveAfterAlloc(s.l, s'.l, y.live, a, last);
    NoneHeldAfter(s.l, s'.l, Length(a.first, last));
  }

  lemma AllocKeeps(k: Kernel, s: Sound, y: Sys, n: nat, a: Alloc, y': Sys) returns (s': Sound)
    requires KernelOk(k) && Explains(s, y) && Step(k, y, AllocDone(n, a), y')
    ensures Explains(s', y')
    ensures AllocAchieved(s, n, Allocated(y'.m, a), s')
  {
    var r: AllocResult;
    r, s' := AllocPagesKeeps(k.mapping, s, n);
    GainAllocation(s, y, s.(m := s.m.(cursor := y'.m.cursor)), s', a, y'.m.cursor, y'.m);
  }

  lemma PhysKeeps(k: Kernel, s: Sound, y: Sys, addr: nat, n: nat, a: Alloc, vaddr: nat, y': Sys) returns (s': Sound)
    requires KernelOk(k) && Explains(s, y) && Step(k, y, PhysDone(addr, n, a, vaddr), y')
    ensures Explains(s', y')
    ensures PhysAchieved(s, addr, n, PhysMapped(y'.m, a, vaddr), s')
  {
    hide Core, LiveMatches, NoneHeld, MapPhysical;
    var r: PhysResult;
    r, s' := MapPhysicalKeeps(k.mapping, s, addr, n);
    GainAllocation(s, y, s, s', a, a.Last(), y'.m);
  }

  // ----- deallocations -----

  lemma LiveAfterFree(l: Ledger, l': Ledger, live: set<Alloc>, a: Alloc, last: nat)
    requires LiveMatches(l, live) && a in live && last + 1 == a.first + a.count
    requires forall d: nat :: d in l'.pages <==> d in l.pages && !(a.first <= d <= last)
    ensures LiveMatches(l', live - {a})
  {
    forall b | b in live - {a}
      ensures OwnedAlloc(l', b)
    {
      assert Apart(a, b) && OwnedAlloc(l, b);
    }
    forall c | c in l'.pages
      ensures exists b :: b in live - {a} && b.Has(c)
    {
      var b :| b in live && b.Has(c);
      assert b in live - {a};
    }
  }

  lemma LoseAllocation(s: Sound, y: Sys, a: Alloc, last: nat, s': Sound)
    requires Explains(s, y) && a in y.live && last + 1 == a.first + a.count
    requires RunReleased(s, a.first, last, s')
    ensures Explains(s', Sys(s'.m, y.live - {a}))
  {
    DisownRunLeaves(s.l, a.first, last);
    LiveAfterFree(s.l, s'.l, y.live, a, last);
    forall f
      ensures !s'.l.Holds(f)
    {
      assert !s.l.Holds(f);
    }
  }

  /** Taking back a live allocation never panics. */
  lemma FreeSucceeds(k: Kernel, s: Sound, y: Sys, a: Alloc) returns (s': Sound)
    requires KernelOk(k) && Explains(s, y) && a in y.live
    ensures DeallocPages(k.unmapping, y.m, a) == Freed(s'.m)
    ensures Explains(s', Sys(s'.m, y.live - {a}))
    ensures OwnedAlloc(s.l, a) && RunReleased(s, a.first, a.Last(), s')
  {
    s' := DeallocPagesKeeps(k.unmapping, s, a, a.Last());
    LoseAllocation(s, y, a, a.Last(), s');
  }

  // ----- writes by the holders of allocations -----

  lemma WriteKeeps(k: Kernel, s: Sound, y: Sys, c: nat, row: Table, y': Sys) returns (s': Sound)
    requires Explains(s, y) && Step(k, y, WriteDone(c, row), y')
    ensures Explains(s', y')
  {
    var a :| a in y.live && a.Has(c);
    assert OwnedAlloc(s.l, a) && c in s.l.pages;
    assert s.view[c] == Walk(s.m.mem, s.m.root, c);
    s' := ScribbleKeeps(s, s.l.pages[c], row);
  }

  // ----- all steps -----

  /** A request that is refused changes nothing, for any number of pages and any loop body. */
  lemma PhysNoneKeeps(k: Kernel, y: Sys, addr: nat, n: nat, y': Sys)
    requires Step(k, y, PhysNone(addr, n), y')
    ensures y' == y
  {
    PhysNothing(k.mapping, y.m, addr, n);
  }

  lemma StepKeeps(k: Kernel, s: Sound, y: Sys, e: Event, y': Sys) returns (s': Sound)
    requires KernelOk(k) && Explains(s, y) && Step(k, y, e, y')
    ensures Explains(s', y')
  {
    match e
    case AllocDone(n, a) => s' := AllocKeeps(k, s, y, n, a, y');
    case AllocNone(n) => s' := s;
    case FreeDone(a) => s' := FreeSucceeds(k, s, y, a);
    case PhysDone(addr, n, a, vaddr) => s' := PhysKeeps(k, s, y, addr, n, a, vaddr, y');
    case PhysNone(addr, n) => s' := s; PhysNoneKeeps(k, y, addr, n, y');
    case WriteDone(c, row) => s' := WriteKeeps(k, s, y, c, row, y');
  }

  // ----- runs -----

  /** The state the allocator starts in: boot tables that form a tree outside the pool, nothing
      marked, the cursor at page 1. */
  ghost predicate Boot(y: Sys, l: Ledger) {
    && y.live == {} && y.m.cursor == 1
    && y.m.base + |y.m.bits| <= FRAME_LIMIT
    && (forall i | 0 <= i < |y.m.bits| :: !y.m.bits[i])
    && IsTree(y.m.mem, y.m.root, l) && l.pages == map[] && l.UsesReal()
    && (forall f | f in l.uses :: l.uses[f].TableFrame? && !InPool(y.m, f))
  }

  ghost function ViewOf(mem: Memory, root: Frame): (v: View)
    ensures ViewIs(v, mem, root)
  {
    map c: nat | c < MAX_PAGE :: Walk(mem, root, c)
  }

  lemma BootExplained(y: Sys, l: Ledger) returns (s: Sound)
    requires Boot(y, l)
    ensures Explains(s, y) && s.l == l
  {
    s := Account(y.m, l, ViewOf(y.m.mem, y.m.root));
  }

  ghost predicate IsRun(k: Kernel, l: Ledger, ys: seq<Sys>, es: seq<Event>) {
    && |ys| == |es| + 1 && Boot(ys[0], l)
    && forall i | 0 <= i < |es| :: Step(k, ys[i], es[i], ys[i + 1])
  }

  lemma SoundStep(k: Kernel, l: Ledger, ys: seq<Sys>, es: seq<Event>, i: nat, s: Sound) returns (s': Sound)
    requires KernelOk(k) && IsRun(k, l, ys, es) && i < |es| && Explains(s, ys[i])
    ensures Explains(s', ys[i + 1])
  {
    s' := StepKeeps(k, s, ys[i], es[i], ys[i + 1]);
  }

  /** Every state of every run is explained. */
  lemma {:induction false} RunIsSound(k: Kernel, l: Ledger, ys: seq<Sys>, es: seq<Event>, i: nat) returns (s: Sound)
    requires KernelOk(k) && IsRun(k, l, ys, es) && i < |ys|
    ensures Explains(s, ys[i])
  {
    hide Core, Explains, Boot, Step, KernelOk;
    if i == 0 {
      s := BootExplained(ys[0], l);
    } else {
      s := RunIsSound(k, l, ys, es, i - 1);
      s := SoundStep(k, l, ys, es, i - 1, s);
    }
  }
}
