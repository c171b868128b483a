/** The page allocator as functions on machines: `alloc_pages`, `dealloc_pages`, `map_physical`. */
module Allocation {
  import opened Entries
  import opened Pages
  import opened PageTree
  import opened RunTables
  import opened FreeRuns
  import opened Bitmaps
  import opened Machines
  import opened PageRuns
  import opened FrameRanges

  /** `PageAllocation` */
  datatype Alloc = Alloc(first: nat, count: nat) {
    predicate Has(c: nat) {
      first <= c < first + count
    }

    function Last(): nat
      requires count >= 1
    {
      first + count - 1
    }
  }

  type MapStep = (Mapper, nat) -> Option<Mapper>
  type UnmapStep = (Machine, nat) -> Option<Machine>

  // ----- operations -----

  datatype AllocResult = Allocated(m: Machine, a: Alloc) | NoRun | Exhausted | AllocPanic

  /** `alloc_pages`, with the loop body as a parameter; the code's is `MapBody`. */
  function AllocPages(body: MapStep, m: Machine, n: nat): AllocResult
    requires m.cursor < MAX_PAGE
  {
    match FindFree(m.mem, m.root, m.cursor, n)
    case None => NoRun
    case Some(run) =>
      match ForPages(body, Mapper(m.(cursor := run.last), Fresh), run.first, run.last)
      case Done(mp) => Allocated(mp.m, Alloc(run.first, n))
      case Stopped => Exhausted
      case IterPanic => AllocPanic
  }

  /** `dealloc_pages`; the code's loop body is `UnmapBody`. */
  function DeallocPages(body: UnmapStep, m: Machine, a: Alloc): Freed {
    if a.count == 0 || NextBy(a.first, a.count - 1).None? then Panic
    else match ForPages(body, m, a.first, a.first + a.count - 1)
      case Done(m') => Freed(m')
      case Stopped => Panic
      case IterPanic => Panic
  }

  datatype PhysResult =
    | PhysMapped(m: Machine, a: Alloc, vaddr: nat)
    | PhysRefused
    | PhysNoRun(m: Machine)
    | PhysExhausted
    | PhysPanic

  const PAGE_SIZE: nat := 4096

  /** Pages `map_physical` maps: one more than asked for when the address is not aligned. */
  function PhysCount(addr: nat, n: nat): nat {
    n + if addr % PAGE_SIZE == 0 then 0 else 1
  }

  /** `map_physical` */
  function MapPhysical(body: MapStep, m: Machine, addr: nat, n: nat): PhysResult
    requires m.cursor < MAX_PAGE
  {
    var f := addr / PAGE_SIZE;
    var count := PhysCount(addr, n);
    if f < m.base then PhysPanic
    else match ScanRange(m.bits, f - m.base, count)
      case OffEnd => PhysPanic
      case Busy => PhysRefused
      case Clear => MapReserved(body, Reserve(m, f, count), addr, count)
  }

  /** The part of `map_physical` after the frames have been reserved. */
  function MapReserved(body: MapStep, m: Machine, addr: nat, count: nat): PhysResult
    requires m.cursor < MAX_PAGE
  {
    match FindFree(m.mem, m.root, m.cursor, count)
    case None =>
      (match FreeRange(m, addr / PAGE_SIZE, count)
       case Panic => PhysPanic
       case Freed(m') => PhysNoRun(m'))
    case Some(run) =>
      match ForPages(body, Mapper(m, Fixed(addr / PAGE_SIZE)), run.first, run.last)
      case Done(mp) => PhysMapped(mp.m, Alloc(run.first, count), run.first * PAGE_SIZE + addr % PAGE_SIZE)
      case Stopped => PhysExhausted
      case IterPanic => PhysPanic
  }

  // ----- finding pages -----

  /** The earliest run of `n` free pages at or after the cursor starts at `first`. */
  ghost predicate Earliest(m: Machine, n: nat, first: nat) {
    && FreeRunAt(m.mem, m.root, m.cursor, n, first)
    && forall g: nat | FreeRunAt(m.mem, m.root, m.cursor, n, g) :: first <= g
  }

  ghost predicate NoFreeRun(m: Machine, n: nat) {
    forall g: nat :: !FreeRunAt(m.mem, m.root, m.cursor, n, g)
  }

  lemma FoundRun(m: Machine, n: nat)
    requires m.cursor < MAX_PAGE && n >= 1
    ensures match FindFree(m.mem, m.root, m.cursor, n)
            case None => NoFreeRun(m, n)
            case Some(run) => Earliest(m, n, run.first) && run.last == run.first + n - 1 && run.last < MAX_PAGE
  {
    FirstRunIsEarliest(m.mem, m.root, m.cursor, n);
  }

  lemma FreeMeansUnmapped(s: Sound, first: nat, last: nat, n: nat)
    requires last + 1 == first + n <= MAX_PAGE && RunFree(s.m.mem, s.m.root, first, n)
    ensures AllUnmapped(s.view, first, last)
  {
    forall c | first <= c <= last
      ensures c in s.view && s.view[c] == Unmapped
    {
      IsPresentMeansMapped(s.m.mem, s.m.root, s.l, c);
    }
  }

  lemma MoveCursor(s: Sound, cursor: nat) returns (s': Sound)
    ensures s' == State(s.m.(cursor := cursor), s.l, s.view)
  {
    var m' := s.m.(cursor := cursor);
    SameBits(s.m, m', s.l);
    s' := Account(m', s.l, s.view);
  }

  // ----- alloc_pages -----

  /** The earliest free run is first..=last, and there are too few free frames to map it. */
  ghost predicate TooFewFrames(s: State, n: nat, first: nat, last: nat) {
    && Earliest(s.m, n, first) && last + 1 == first + n
    && FreeCount(s.m.bits) < Need(s.l.tables.Keys, first, last, 1)
  }

  /** The earliest free run ends with the very last page. */
  ghost predicate TouchesEnd(m: Machine, n: nat, first: nat) {
    Earliest(m, n, first) && first + n == MAX_PAGE
  }

  /** What `alloc_pages(n)` achieves. */
  ghost predicate AllocAchieved(s: State, n: nat, r: AllocResult, s': State)
    requires n >= 1
  {
    match r
    case NoRun => NoFreeRun(s.m, n)
    case Exhausted => exists first: nat, last: nat :: TooFewFrames(s, n, first, last)
    case AllocPanic => exists first: nat :: TouchesEnd(s.m, n, first)
    case Allocated(m', a) =>
      && a.count == n && Earliest(s.m, n, a.first) && m'.cursor + 1 == a.first + n
      && MappingDone(s.(m := s.m.(cursor := m'.cursor)), s', a.first, m'.cursor, Fresh, m')
  }

  function AfterLoop(loop: Loop<Mapper>, first: nat, n: nat): AllocResult {
    match loop
    case Done(mp) => Allocated(mp.m, Alloc(first, n))
    case Stopped => Exhausted
    case IterPanic => AllocPanic
  }

  lemma AllocOutcome(s: State, n: nat, first: nat, last: nat, s1: State, loop: Loop<Mapper>, s': State)
    requires n >= 1 && Earliest(s.m, n, first) && last + 1 == first + n
    requires s1 == s.(m := s.m.(cursor := last))
    requires RunMapped(s1, first, last, Fresh, loop, s')
    ensures AllocAchieved(s, n, AfterLoop(loop, first, n), s')
  {
    match loop
    case Done(mp) =>
    case Stopped => assert TooFewFrames(s, n, first, last);
    case IterPanic => assert TouchesEnd(s.m, n, first);
  }

  lemma AllocUnfolds(body: MapStep, m: Machine, n: nat, first: nat, last: nat, loop: Loop<Mapper>)
    requires m.cursor < MAX_PAGE && FindFree(m.mem, m.root, m.cursor, n) == Some(Run(first, last))
    requires loop == ForPages(body, Mapper(m.(cursor := last), Fresh), first, last)
    ensures AllocPages(body, m, n) == AfterLoop(loop, first, n)
  {
  }

  /** Mapping a free run found for `n` pages. */
  lemma MapFoundRun(body: MapStep, s: Sound, n: nat, first: nat, last: nat) returns (loop: Loop<Mapper>, s': Sound)
    requires MapsNext(body) && n >= 1 && Earliest(s.m, n, first) && last + 1 == first + n
    ensures loop == ForPages(body, Mapper(s.m.(cursor := last), Fresh), first, last)
    ensures AllocAchieved(s, n, AfterLoop(loop, first, n), s')
  {
    FreeMeansUnmapped(s, first, last, n);
    var s1 := MoveCursor(s, last);
    loop, s' := MapRunKeeps(body, s1, first, last, Fresh);
    AllocOutcome(s, n, first, last, s1, loop, s');
  }

  lemma AllocPagesKeeps(body: MapStep, s: Sound, n: nat) returns (r: AllocResult, s': Sound)
    requires MapsNext(body) && n >= 1 && s.m.cursor < MAX_PAGE
    ensures r == AllocPages(body, s.m, n)
    ensures AllocAchieved(s, n, r, s')
  {
    FoundRun(s.m, n);
    var found := FindFree(s.m.mem, s.m.root, s.m.cursor, n);
    if found.None? {
      r, s' := NoRun, s;
    } else {
      var Run(first, last) := found.value;
      var loop: Loop<Mapper>;
      loop, s' := MapFoundRun(body, s, n, first, last);
      r := AfterLoop(loop, first, n);
      AllocUnfolds(body, s.m, n, first, last, loop);
    }
  }

  // ----- dealloc_pages -----

  /** Every page of the allocation is owned, and the allocation ends before the last page. */
  ghost predicate OwnedAlloc(l: Ledger, a: Alloc) {
    && a.count >= 1 && a.first + a.count < MAX_PAGE
    && AllOwned(l, a.first, a.first + a.count - 1)
  }

  lemma DeallocUnfolds(body: UnmapStep, m: Machine, a: Alloc, last: nat, loop: Loop<Machine>)
    requires a.count >= 1 && last + 1 == a.first + a.count <= MAX_PAGE
    requires loop == ForPages(body, m, a.first, last) && loop.Done?
    ensures DeallocPages(body, m, a) == Freed(loop.s)
  {
  }

  lemma DeallocPagesKeeps(body: UnmapStep, s: Sound, a: Alloc, last: nat) returns (s': Sound)
    requires UnmapsNext(body) && OwnedAlloc(s.l, a) && last + 1 == a.first + a.count
    ensures DeallocPages(body, s.m, a) == Freed(s'.m)
    ensures RunReleased(s, a.first, last, s')
  {
    var loop: Loop<Machine>;
    loop, s' := UnmapRunReleases(body, s, a.first, last);
    DeallocUnfolds(body, s.m, a, last, loop);
  }

  // ----- map_physical -----

  /** What `map_physical(addr, n)` achieves. */
  ghost predicate PhysAchieved(s: State, addr: nat, n: nat, r: PhysResult, s': State)
    requires PhysCount(addr, n) >= 1
  {
    var f, count := addr / PAGE_SIZE, PhysCount(addr, n);
    match r
    case PhysPanic => f < s.m.base || f - s.m.base + count > |s.m.bits|
                      || exists first: nat :: TouchesEnd(s.m, count, first)
    case PhysRefused => exists g: Frame :: Supplies(Fixed(f), count, g) && Marked(s.m, g)
    case PhysNoRun(m') => m' == s.m && NoFreeRun(s.m, count)
    case PhysExhausted => exists first: nat, last: nat :: TooFewFrames(s, count, first, last)
    case PhysMapped(m', a, vaddr) =>
      && a.count == count && Earliest(s.m, count, a.first) && a.first + count < MAX_PAGE
      && vaddr == a.first * PAGE_SIZE + addr % PAGE_SIZE
      && MappingDone(s, s', a.first, a.Last(), Fresh, m')
      && InOrder(s'.l, a.first, a.Last(), f)
  }

  /** Holding the frames first and mapping them then is, taken together, like mapping fresh ones. */
  lemma HeldThenMapped(s: State, f: Frame, s1: State, first: nat, last: nat, s': State, m': Machine)
    requires first <= last && RangeHeld(s, f, last - first + 1, s1)
    requires MappingDone(s1, s', first, last, Fixed(f), m')
    ensures MappingDone(s, s', first, last, Fresh, m') && InOrder(s'.l, first, last, f)
  {
    hide RunNodes, Need, FreeCount, MarkRange;
    var n := last - first + 1;
    NeedIsExact(s.l.tables.Keys, first, last, 0);
    NeedIsExact(s.l.tables.Keys, first, last, 1);
    forall g | g in s.l.uses && !Supplies(Fresh, n, g)
      ensures KeepsUse(s.l, s'.l, g)
    {
      assert KeepsUse(s.l, s1.l, g);
      assert KeepsUse(s1.l, s'.l, g);
    }
    forall g | s'.l.Holds(g)
      ensures s.l.Holds(g)
    {
      assert s1.l.Holds(g) && !Supplies(Fixed(f), n, g);
    }
    forall c: nat
      ensures PageGained(s.l, s'.l, first, last, c)
    {
      assert PageGained(s1.l, s'.l, first, last, c);
    }
    forall t
      ensures TableGained(s.l, s'.l, first, last, t)
    {
      assert TableGained(s1.l, s'.l, first, last, t);
    }
  }

  lemma HeldThenShort(s: State, f: Frame, s1: State, first: nat, last: nat)
    requires first <= last && RangeHeld(s, f, last - first + 1, s1)
    requires FreeCount(s1.m.bits) < Need(s1.l.tables.Keys, first, last, 0)
    ensures FreeCount(s.m.bits) < Need(s.l.tables.Keys, first, last, 1)
  {
    NeedIsExact(s.l.tables.Keys, first, last, 0);
    NeedIsExact(s.l.tables.Keys, first, last, 1);
  }

  function AfterPhysLoop(loop: Loop<Mapper>, first: nat, addr: nat, count: nat): PhysResult {
    match loop
    case Done(mp) => PhysMapped(mp.m, Alloc(first, count), first * PAGE_SIZE + addr % PAGE_SIZE)
    case Stopped => PhysExhausted
    case IterPanic => PhysPanic
  }

  lemma PhysOutcome(s: State, addr: nat, n: nat, s1: State, first: nat, last: nat, loop: Loop<Mapper>, s': State)
    requires PhysCount(addr, n) >= 1 && Earliest(s.m, PhysCount(addr, n), first)
    requires last + 1 == first + PhysCount(addr, n)
    requires RangeHeld(s, addr / PAGE_SIZE, PhysCount(addr, n), s1)
    requires RunMapped(s1, first, last, Fixed(addr / PAGE_SIZE), loop, s')
    ensures PhysAchieved(s, addr, n, AfterPhysLoop(loop, first, addr, PhysCount(addr, n)), s')
  {
    var f, count := addr / PAGE_SIZE, PhysCount(addr, n);
    match loop
    case Done(mp) =>
      assert Alloc(first, count).Last() == last;
      HeldThenMapped(s, f, s1, first, last, s', mp.m);
    case Stopped =>
      HeldThenShort(s, f, s1, first, last);
      assert TooFewFrames(s, count, first, last);
    case IterPanic =>
      assert TouchesEnd(s.m, count, first);
  }

  lemma MapReservedUnfolds(body: MapStep, m: Machine, addr: nat, count: nat, first: nat, last: nat, loop: Loop<Mapper>)
    requires m.cursor < MAX_PAGE
    requires FindFree(m.mem, m.root, m.cursor, count) == Some(Run(first, last))
    requires loop == ForPages(body, Mapper(m, Fixed(addr / PAGE_SIZE)), first, last)
    ensures MapReserved(body, m, addr, count) == AfterPhysLoop(loop, first, addr, count)
  {
  }

  lemma NoRunUnfolds(body: MapStep, m: Machine, addr: nat, count: nat, m': Machine)
    requires m.cursor < MAX_PAGE
    requires FindFree(m.mem, m.root, m.cursor, count) == None
    requires FreeRange(m, addr / PAGE_SIZE, count) == Freed(m')
    ensures MapReserved(body, m, addr, count) == PhysNoRun(m')
  {
  }

  /** The machine with the frames of the request reserved. */
  function Reserve(m: Machine, f: Frame, count: nat): Machine
    requires m.base <= f && (count == 0 || f - m.base + count <= |m.bits|)
  {
    m.(bits := MarkRange(m.bits, f - m.base, count))
  }

  /** The rollback loop undoes a reservation, of any length. */
  lemma RollbackUndoes(m: Machine, f: Frame, count: nat)
    requires m.base <= f && ScanRange(m.bits, f - m.base, count) == Clear
    ensures FreeRange(Reserve(m, f, count), f, count) == Freed(m)
  {
    ScanMeaning(m.bits, f - m.base, count);
    if count > 0 {
      RollbackRestores(m, f, count);
    }
  }

  /** Whatever the loop does, answering that no run was found leaves the machine as it was. */
  lemma PhysNothing(body: MapStep, m: Machine, addr: nat, n: nat)
    requires m.cursor < MAX_PAGE
    ensures var r := MapPhysical(body, m, addr, n); r.PhysNoRun? ==> r.m == m
  {
    hide ForPages, FindFree, FreeRange, MarkRange, ScanRange;
    var f, count := addr / PAGE_SIZE, PhysCount(addr, n);
    if m.base <= f && ScanRange(m.bits, f - m.base, count) == Clear {
      RollbackUndoes(m, f, count);
    }
  }

  /** Mapping the reserved frames onto the run found. */
  lemma MapHeldRun(body: MapStep, s: Sound, f: Frame, count: nat, first: nat, last: nat)
    returns (s1: Sound, loop: Loop<Mapper>, s': Sound)
    requires MapsNext(body) && count >= 1 && RangeClear(s.m, f, count)
    requires Earliest(s.m, count, first) && last + 1 == first + count
    ensures RangeHeld(s, f, count, s1)
    ensures loop == ForPages(body, Mapper(Reserve(s.m, f, count), Fixed(f)), first, last)
    ensures RunMapped(s1, first, last, Fixed(f), loop, s')
  {
    hide Core, RunMapped, FreeCount, MapsNext;
    s1 := HoldRange(s, f, count);
    FreeMeansUnmapped(s, first, last, count);
    loop, s' := MapRunKeeps(body, s1, first, last, Fixed(f));
  }

  lemma MapReservedKeeps(body: MapStep, s: Sound, addr: nat, n: nat) returns (r: PhysResult, s': Sound)
    requires MapsNext(body) && PhysCount(addr, n) >= 1 && s.m.cursor < MAX_PAGE
    requires RangeClear(s.m, addr / PAGE_SIZE, PhysCount(addr, n))
    ensures r == MapReserved(body, Reserve(s.m, addr / PAGE_SIZE, PhysCount(addr, n)), addr, PhysCount(addr, n))
    ensures PhysAchieved(s, addr, n, r, s')
  {
    var f, count := addr / PAGE_SIZE, PhysCount(addr, n);
    FoundRun(s.m, count);
    var found := FindFree(s.m.mem, s.m.root, s.m.cursor, count);
    var m1 := Reserve(s.m, f, count);
    if found.None? {
      RollbackRestores(s.m, f, count);
      NoRunUnfolds(body, m1, addr, count, s.m);
      r, s' := PhysNoRun(s.m), s;
    } else {
      var Run(first, last) := found.value;
      r, s' := MapIntoRun(body, s, addr, n, first, last);
    }
  }

  lemma MapIntoRun(body: MapStep, s: Sound, addr: nat, n: nat, first: nat, last: nat) returns (r: PhysResult, s': Sound)
    requires MapsNext(body) && PhysCount(addr, n) >= 1 && s.m.cursor < MAX_PAGE
    requires RangeClear(s.m, addr / PAGE_SIZE, PhysCount(addr, n))
    requires Earliest(s.m, PhysCount(addr, n), first) && last + 1 == first + PhysCount(addr, n)
    requires FindFree(s.m.mem, s.m.root, s.m.cursor, PhysCount(addr, n)) == Some(Run(first, last))
    ensures r == MapReserved(body, Reserve(s.m, addr / PAGE_SIZE, PhysCount(addr, n)), addr, PhysCount(addr, n))
    ensures PhysAchieved(s, addr, n, r, s')
  {
    var f, count := addr / PAGE_SIZE, PhysCount(addr, n);
    var s1: Sound;
    var loop: Loop<Mapper>;
    s1, loop, s' := MapHeldRun(body, s, f, count, first, last);
    MapReservedUnfolds(body, Reserve(s.m, f, count), addr, count, first, last, loop);
    PhysOutcome(s, addr, n, s1, first, last, loop, s');
    r := AfterPhysLoop(loop, first, addr, count);
  }

  lemma MapPhysicalUnfolds(body: MapStep, m: Machine, addr: nat, n: nat)
    requires m.cursor < MAX_PAGE && m.base <= addr / PAGE_SIZE
    ensures var f, count := addr / PAGE_SIZE, PhysCount(addr, n);
            match ScanRange(m.bits, f - m.base, count)
            case OffEnd => MapPhysical(body, m, addr, n) == PhysPanic
            case Busy => MapPhysical(body, m, addr, n) == PhysRefused
            case Clear => MapPhysical(body, m, addr, n) == MapReserved(body, Reserve(m, f, count), addr, count)
  {
  }

  lemma BusyMeansMarked(m: Machine, f: Frame, count: nat)
    requires m.base <= f && ScanRange(m.bits, f - m.base, count) == Busy
    ensures exists g: Frame :: Supplies(Fixed(f), count, g) && Marked(m, g)
  {
    ScanMeaning(m.bits, f - m.base, count);
    var j :| f - m.base <= j < f - m.base + count && j < |m.bits| && m.bits[j];
    assert Supplies(Fixed(f), count, m.base + j) && Marked(m, m.base + j);
  }

  lemma ClearMeansClear(m: Machine, f: Frame, count: nat)
    requires m.base <= f && count >= 1 && ScanRange(m.bits, f - m.base, count) != Busy
    ensures ScanRange(m.bits, f - m.base, count) == Clear <==> RangeClear(m, f, count)
    ensures ScanRange(m.bits, f - m.base, count) == OffEnd ==> f - m.base + count > |m.bits|
  {
    ScanMeaning(m.bits, f - m.base, count);
  }

  lemma MapPhysicalKeeps(body: MapStep, s: Sound, addr: nat, n: nat) returns (r: PhysResult, s': Sound)
    requires MapsNext(body) && PhysCount(addr, n) >= 1 && s.m.cursor < MAX_PAGE
    ensures r == MapPhysical(body, s.m, addr, n)
    ensures PhysAchieved(s, addr, n, r, s')
  {
    var f, count := addr / PAGE_SIZE, PhysCount(addr, n);
    s' := s;
    r := MapPhysical(body, s.m, addr, n);
    if s.m.base <= f {
      MapPhysicalUnfolds(body, s.m, addr, n);
      if ScanRange(s.m.bits, f - s.m.base, count) == Busy {
        BusyMeansMarked(s.m, f, count);
      } else {
        ClearMeansClear(s.m, f, count);
        if ScanRange(s.m.bits, f - s.m.base, count) == Clear {
          r, s' := MapReservedKeeps(body, s, addr, n);
        }
      }
    }
  }
}
