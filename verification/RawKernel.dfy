/** The code's own behaviour when the frame allocator has run dry: it is handed frame 0 and goes on.
    As long as frames last this is what the other modules describe. */
module RawKernel {
  import opened Entries
  import opened Pages
  import opened PageTree
  import opened Machines
  import opened FreeRuns
  import opened PageRuns
  import opened FrameRanges
  import opened Allocation
  import opened AllocatorRuns
  import opened AllocationRoundTrip

  // ----- operations -----

  /** `allocate_frame` */
  function RawTake(m: Machine): (Machine, Frame) {
    match TakeFrame(m)
    case OutOfFrames => (m, 0)
    case Took(m1, f) => (m1, f)
  }

  function RawEnsure(m: Machine, t: Frame, i: nat, flags: Flags): (Machine, Frame)
    requires i < 512
  {
    var e := Read(m.mem, t, i);
    if e.flags.present then (m, e.frame)
    else
      var (m1, f) := RawTake(m);
      (m1.(mem := Write(m1.mem, t, i, Entry(f, flags))[f := ClearedTable()]), f)
  }

  /** `map_page_unchecked` */
  function RawMap(m: Machine, c: nat, frame: Frame, flags: Flags): Machine {
    var (m3, t3) := RawEnsure(m, m.root, Index(c, 4), flags);
    var (m2, t2) := RawEnsure(m3, t3, Index(c, 3), flags);
    var (m1, t1) := RawEnsure(m2, t2, Index(c, 2), flags);
    SetSlot(m1, t1, c, Entry(frame, flags))
  }

  /** The body of the mapping loops. */
  function RawBody(mp: Mapper, c: nat): Mapper {
    match mp.src
    case Fixed(f) => Mapper(RawMap(mp.m, c, f, RW), Fixed(f + 1))
    case Fresh =>
      var (m1, f) := RawTake(mp.m);
      Mapper(RawMap(m1, c, f, RW), Fresh)
  }

  /** The mapping loop over pages c..=last. */
  function RawRun(mp: Mapper, c: nat, last: nat): Mapper
    decreases last + 1 - c
  {
    if c > last then mp else RawRun(RawBody(mp, c), c + 1, last)
  }

  /** `alloc_pages` */
  function RawAlloc(m: Machine, n: nat): (Machine, Option<Alloc>)
    requires m.cursor < MAX_PAGE
  {
    match FindFree(m.mem, m.root, m.cursor, n)
    case None => (m, None)
    case Some(run) =>
      (RawRun(Mapper(m.(cursor := run.last), Fresh), run.first, run.last).m, Some(Alloc(run.first, n)))
  }

  /** `map_physical`; the frames must lie inside the bitmap. */
  function RawPhysical(m: Machine, addr: nat, n: nat): (Machine, Option<(Alloc, nat)>)
    requires m.cursor < MAX_PAGE && m.base <= addr / PAGE_SIZE
    requires ScanRange(m.bits, addr / PAGE_SIZE - m.base, PhysCount(addr, n)) != OffEnd
  {
    var f, count := addr / PAGE_SIZE, PhysCount(addr, n);
    if ScanRange(m.bits, f - m.base, count) == Busy then (m, None)
    else
      var m1 := Reserve(m, f, count);
      match FindFree(m.mem, m.root, m.cursor, count)
      case None => (match FreeRange(m1, f, count) case Freed(m') => (m', None) case Panic => (m1, None))
      case Some(run) =>
        (RawRun(Mapper(m1, Fixed(f)), run.first, run.last).m,
         Some((Alloc(run.first, count), run.first * PAGE_SIZE + addr % PAGE_SIZE)))
  }

  // ----- while frames last -----

  lemma RawEnsureAgrees(m: Machine, t: Frame, i: nat, flags: Flags)
    requires i < 512 && EnsureTable(m, t, i, flags).Took?
    ensures var r := EnsureTable(m, t, i, flags);
            RawEnsure(m, t, i, flags) == (r.m, r.frame)
  {
  }

  lemma RawMapAgrees(m: Machine, c: nat, frame: Frame, flags: Flags)
    requires MapPage(m, c, frame, flags).Some?
    ensures MapPage(m, c, frame, flags) == Some(RawMap(m, c, frame, flags))
  {
    hide EnsureTable, RawEnsure, SetSlot;
    RawEnsureAgrees(m, m.root, Index(c, 4), flags);
    var r3 := EnsureTable(m, m.root, Index(c, 4), flags);
    RawEnsureAgrees(r3.m, r3.frame, Index(c, 3), flags);
    var r2 := EnsureTable(r3.m, r3.frame, Index(c, 3), flags);
    RawEnsureAgrees(r2.m, r2.frame, Index(c, 2), flags);
  }

  lemma RawBodyAgrees(mp: Mapper, c: nat)
    requires MapBody(mp, c).Some?
    ensures MapBody(mp, c) == Some(RawBody(mp, c))
  {
    hide MapPage, RawMap, TakeFrame;
    match mp.src
    case Fixed(f) => RawMapAgrees(mp.m, c, f, RW);
    case Fresh =>
      var t := TakeFrame(mp.m);
      RawMapAgrees(t.m, c, t.frame, RW);
  }

  lemma {:induction false} RawRunAgrees(mp: Mapper, c: nat, last: nat)
    requires ForPages(MapBody, mp, c, last).Done?
    ensures ForPages(MapBody, mp, c, last) == Done(RawRun(mp, c, last))
    decreases last + 1 - c
  {
    hide MapBody, RawBody;
    if c <= last {
      RawBodyAgrees(mp, c);
      RawRunAgrees(RawBody(mp, c), c + 1, last);
    }
  }

  /** The code does what `AllocPages` says whenever that does not run out of frames. */
  lemma RawAllocAgrees(m: Machine, n: nat)
    requires m.cursor < MAX_PAGE
    ensures match AllocPages(MapBody, m, n)
            case Allocated(m', a) => RawAlloc(m, n) == (m', Some(a))
            case NoRun => RawAlloc(m, n) == (m, None)
            case _ => RawAlloc(m, n).1.Some?
  {
    hide MapBody, RawRun, ForPages, FindFree;
    match FindFree(m.mem, m.root, m.cursor, n)
    case None =>
    case Some(run) =>
      var mp := Mapper(m.(cursor := run.last), Fresh);
      if ForPages(MapBody, mp, run.first, run.last).Done? {
        RawRunAgrees(mp, run.first, run.last);
      }
  }

  /** The code does what `MapPhysical` says whenever that does not run out of frames. */
  lemma RawPhysicalAgrees(m: Machine, addr: nat, n: nat)
    requires m.cursor < MAX_PAGE && m.base <= addr / PAGE_SIZE
    requires ScanRange(m.bits, addr / PAGE_SIZE - m.base, PhysCount(addr, n)) != OffEnd
    ensures match MapPhysical(MapBody, m, addr, n)
            case PhysMapped(m', a, vaddr) => RawPhysical(m, addr, n) == (m', Some((a, vaddr)))
            case PhysRefused => RawPhysical(m, addr, n) == (m, None)
            case PhysNoRun(m') => RawPhysical(m, addr, n) == (m, None) && m' == m
            case _ => RawPhysical(m, addr, n).1.Some?
  {
    hide MapBody, RawRun, ForPages, FindFree, FreeRange, MarkRange, ScanRange;
    var f, count := addr / PAGE_SIZE, PhysCount(addr, n);
    if ScanRange(m.bits, f - m.base, count) == Clear {
      RollbackUndoes(m, f, count);
      match FindFree(m.mem, m.root, m.cursor, count)
      case None =>
      case Some(run) =>
        var mp := Mapper(Reserve(m, f, count), Fixed(f));
        if ForPages(MapBody, mp, run.first, run.last).Done? {
          RawRunAgrees(mp, run.first, run.last);
        }
    }
  }

  // ----- as steps of a run -----

  lemma FoundMeansRun(m: Machine, n: nat)
    requires n >= 1 && m.cursor < MAX_PAGE
    ensures FindFree(m.mem, m.root, m.cursor, n).None? <==> NoFreeRun(m, n)
    ensures AllocPages(MapBody, m, n).NoRun? <==> FindFree(m.mem, m.root, m.cursor, n).None?
  {
    hide MapBody, ForPages, FindFree, FreeRunAt;
    FoundRun(m, n);
  }

  /** While frames last, what the code does on a request for pages is a step of a run. */
  lemma RawAllocIsStep(s: Sound, y: Sys, n: nat)
    requires Explains(s, y) && n >= 1 && y.m.cursor < MAX_PAGE
    requires NoFreeRun(s.m, n) || exists first: nat, last: nat :: CanAllocate(s, n, first, last)
    ensures var r := RawAlloc(y.m, n);
            if r.1.None? then Step(TheKernel(), y, AllocNone(n), Sys(r.0, y.live))
            else Step(TheKernel(), y, AllocDone(n, r.1.value), Sys(r.0, y.live + {r.1.value}))
  {
    hide MapBody, AllocPages, RawAlloc, Core, CanAllocate, Priced, FreeRunAt, LiveMatches;
    var r, s' := AllocPrice(s, n);
    RawAllocAgrees(y.m, n);
    FoundMeansRun(y.m, n);
  }

  /** There are frames enough for the earliest run of `n` pages, which does not touch the last page. */
  ghost predicate Room(s: State, n: nat) {
    && (forall first: nat, last: nat :: !TooFewFrames(s, n, first, last))
    && (forall first: nat :: !TouchesEnd(s.m, n, first))
  }

  /** Likewise for a request to map physical memory. */
  lemma RawPhysicalIsStep(s: Sound, y: Sys, addr: nat, n: nat)
    requires Explains(s, y) && PhysCount(addr, n) >= 1 && y.m.cursor < MAX_PAGE && y.m.base <= addr / PAGE_SIZE
    requires ScanRange(y.m.bits, addr / PAGE_SIZE - y.m.base, PhysCount(addr, n)) != OffEnd
    requires Room(s, PhysCount(addr, n))
    ensures var r := RawPhysical(y.m, addr, n);
            if r.1.None? then r.0 == y.m && Step(TheKernel(), y, PhysNone(addr, n), y)
            else var a := r.1.value.0;
                 Step(TheKernel(), y, PhysDone(addr, n, a, r.1.value.1), Sys(r.0, y.live + {a}))
  {
    hide MapBody, MapPhysical, RawPhysical, Core, MapsNext, LiveMatches, TooFewFrames, TouchesEnd, MappingDone;
    MapBodyMapsNext();
    var r, s' := MapPhysicalKeeps(MapBody, s, addr, n);
    RawPhysicalAgrees(y.m, addr, n);
    MapPhysicalUnfolds(MapBody, y.m, addr, n);
    NoPhysPanic(s, addr, n, r, s');
  }

  lemma NoPhysPanic(s: State, addr: nat, n: nat, r: PhysResult, s': State)
    requires PhysCount(addr, n) >= 1 && PhysAchieved(s, addr, n, r, s') && Room(s, PhysCount(addr, n))
    requires s.m.base <= addr / PAGE_SIZE
    requires ScanRange(s.m.bits, addr / PAGE_SIZE - s.m.base, PhysCount(addr, n)) != OffEnd
    requires r.PhysPanic? ==> ScanRange(s.m.bits, addr / PAGE_SIZE - s.m.base, PhysCount(addr, n)) == Clear
    ensures !r.PhysPanic? && !r.PhysExhausted?
  {
    hide TooFewFrames, TouchesEnd, MappingDone;
  }
}
