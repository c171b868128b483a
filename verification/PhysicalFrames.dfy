/** Which frames `map_physical` takes, in terms of the bytes asked for. */
module PhysicalFrames {
  import opened Entries
  import opened Pages
  import opened PageTree
  import opened Machines
  import opened PageRuns
  import opened FrameRanges
  import opened Allocation
  import opened Exhaustion

  /** The last byte asked for; asked for no page at an unaligned address, the byte at the address itself. */
  function LastByte(addr: nat, n: nat): nat {
    if n == 0 then addr else addr + n * 4096 - 1
  }

  /** The frame holds one of the bytes addr..=LastByte. */
  predicate HoldsByte(addr: nat, n: nat, f: Frame) {
    f * 4096 <= LastByte(addr, n) && addr < (f + 1) * 4096
  }

  /** Something is to be mapped. */
  predicate Wanted(addr: nat, n: nat) {
    n >= 1 || addr % 4096 != 0
  }

  lemma CountOfBytes(addr: nat, n: nat)
    requires Wanted(addr, n)
    ensures PhysCount(addr, n) == LastByte(addr, n) / 4096 - addr / 4096 + 1
    ensures forall f: Frame :: HoldsByte(addr, n, f) <==>
              addr / PAGE_SIZE <= f < addr / PAGE_SIZE + PhysCount(addr, n)
  {
    var q, r := addr / 4096, addr % 4096;
    assert addr == q * 4096 + r;
    assert LastByte(addr, n) / 4096 == if n == 0 then q else if r == 0 then q + n - 1 else q + n;
  }

  lemma NothingWanted(addr: nat, n: nat)
    ensures PhysCount(addr, n) == 0 <==> !Wanted(addr, n)
  {
  }

  lemma LastPage(addr: nat, n: nat, first: nat)
    requires Wanted(addr, n)
    ensures var vaddr := first * PAGE_SIZE + addr % PAGE_SIZE;
            LastByte(vaddr, n) / 4096 == first + PhysCount(addr, n) - 1 && vaddr / 4096 == first
            && vaddr % 4096 == addr % 4096
  {
    var vaddr := first * PAGE_SIZE + addr % PAGE_SIZE;
    assert vaddr / 4096 == first && vaddr % 4096 == addr % 4096;
    CountOfBytes(vaddr, n);
  }

  lemma PageMapped(s: State, addr: nat, n: nat, m': Machine, a: Alloc, vaddr: nat, s': State, c: nat)
    requires PhysCount(addr, n) >= 1 && PhysAchieved(s, addr, n, PhysMapped(m', a, vaddr), s') && a.Has(c)
    ensures a.count == PhysCount(addr, n) && c < MAX_PAGE && s'.m == m'
    ensures c in s'.l.pages && s'.l.pages[c] == addr / PAGE_SIZE + (c - a.first)
  {
    assert PageGained(s.l, s'.l, a.first, a.Last(), c);
  }

  lemma FramesGained(s: State, addr: nat, n: nat, m': Machine, a: Alloc, vaddr: nat, s': Sound, f: Frame)
    requires PhysCount(addr, n) >= 1 && PhysAchieved(s, addr, n, PhysMapped(m', a, vaddr), s')
    requires a.count == PhysCount(addr, n)
    ensures (exists c: nat :: a.Has(c) && c in s'.l.pages && s'.l.pages[c] == f) <==>
            addr / PAGE_SIZE <= f < addr / PAGE_SIZE + PhysCount(addr, n)
    ensures addr / PAGE_SIZE <= f < addr / PAGE_SIZE + PhysCount(addr, n) ==> Marked(m', f)
  {
    hide PhysAchieved, Core, Marked;
    forall c: nat | a.Has(c)
      ensures c in s'.l.pages && s'.l.pages[c] == addr / PAGE_SIZE + (c - a.first)
    {
      PageMapped(s, addr, n, m', a, vaddr, s', c);
    }
    if addr / PAGE_SIZE <= f < addr / PAGE_SIZE + PhysCount(addr, n) {
      var c := a.first + (f - addr / PAGE_SIZE);
      PageMapped(s, addr, n, m', a, vaddr, s', c);
      OwnedSlot(s', c);
    }
  }

  lemma LeafIsFrame(s': Sound, c: nat, f: Frame)
    requires c in s'.l.pages && c < MAX_PAGE
    ensures Walk(s'.m.mem, s'.m.root, c) == Leaf(1, Entry(f, RW)) <==> s'.l.pages[c] == f
  {
    ViewAt(s', c);
  }

  /** Page `c` of the allocation leads to frame `f`. */
  ghost predicate LeadsTo(m: Machine, a: Alloc, c: nat, f: Frame) {
    a.Has(c) && c < MAX_PAGE && Walk(m.mem, m.root, c) == Leaf(1, Entry(f, RW))
  }

  /** The pages mapped are exactly those of the bytes vaddr..=LastByte, and they lead to exactly the frames
      that hold the bytes asked for, none of which was marked before. */
  lemma PhysMapsBytes(s: Sound, addr: nat, n: nat, m': Machine, a: Alloc, vaddr: nat)
    requires Wanted(addr, n) && s.m.cursor < MAX_PAGE
    requires MapPhysical(MapBody, s.m, addr, n) == PhysMapped(m', a, vaddr)
    ensures vaddr % 4096 == addr % 4096 && a.first == vaddr / 4096
    ensures a.count >= 1 && a.first + a.count - 1 == LastByte(vaddr, n) / 4096
    ensures forall f: Frame :: HoldsByte(addr, n, f) <==> exists c: nat :: LeadsTo(m', a, c, f)
    ensures forall f: Frame | HoldsByte(addr, n, f) :: !Marked(s.m, f) && Marked(m', f)
  {
    hide Core, MapBody, MapPhysical, MapsNext, MappingDone, Marked, Walk, HoldsByte, LastByte;
    NothingWanted(addr, n);
    CountOfBytes(addr, n);
    MapBodyMapsNext();
    var r, s' := MapPhysicalKeeps(MapBody, s, addr, n);
    LastPage(addr, n, a.first);
    MappedWasClear(s, addr, n);
    forall f: Frame
      ensures HoldsByte(addr, n, f) <==> exists c: nat :: LeadsTo(m', a, c, f)
      ensures HoldsByte(addr, n, f) ==> Marked(m', f)
    {
      FramesGained(s, addr, n, m', a, vaddr, s', f);
      GainedLeads(s, addr, n, m', a, vaddr, s', f);
    }
  }

  lemma GainedLeads(s: Sound, addr: nat, n: nat, m': Machine, a: Alloc, vaddr: nat, s': Sound, f: Frame)
    requires PhysCount(addr, n) >= 1 && PhysAchieved(s, addr, n, PhysMapped(m', a, vaddr), s')
    ensures (exists c: nat :: LeadsTo(m', a, c, f)) <==>
            (exists c: nat :: a.Has(c) && c in s'.l.pages && s'.l.pages[c] == f)
  {
    hide PhysAchieved, Core, Walk;
    forall c: nat | a.Has(c)
      ensures LeadsTo(m', a, c, f) <==> c in s'.l.pages && s'.l.pages[c] == f
    {
      PageMapped(s, addr, n, m', a, vaddr, s', c);
      LeafIsFrame(s', c, f);
    }
  }

  lemma MappedWasClear(s: Sound, addr: nat, n: nat)
    requires PhysCount(addr, n) >= 1
    requires s.m.cursor < MAX_PAGE && MapPhysical(MapBody, s.m, addr, n).PhysMapped?
    ensures forall f: Frame | addr / PAGE_SIZE <= f < addr / PAGE_SIZE + PhysCount(addr, n) :: !Marked(s.m, f)
  {
    hide MapBody, MapReserved;
    ClearMeansClear(s.m, addr / PAGE_SIZE, PhysCount(addr, n));
  }

  /** A request inside the bitmap's reach is refused exactly when a frame that holds one of its bytes is
      marked, and otherwise answers nothing only if there is no run of as many free pages as the bytes need. */
  lemma PhysRefusedIff(s: Sound, addr: nat, n: nat)
    requires Wanted(addr, n) && s.m.cursor < MAX_PAGE && s.m.base <= addr / 4096
    ensures MapPhysical(MapBody, s.m, addr, n) == PhysRefused <==>
            exists f: Frame :: HoldsByte(addr, n, f) && Marked(s.m, f)
    ensures MapPhysical(MapBody, s.m, addr, n).PhysNoRun? ==>
              && MapPhysical(MapBody, s.m, addr, n) == PhysNoRun(s.m)
              && NoFreeRun(s.m, LastByte(addr, n) / 4096 - addr / 4096 + 1)
  {
    hide Core, MapBody, MapPhysical, MapsNext, MapReserved, LastByte, HoldsByte;
    NothingWanted(addr, n);
    CountOfBytes(addr, n);
    var f0, count := addr / PAGE_SIZE, PhysCount(addr, n);
    MapPhysicalUnfolds(MapBody, s.m, addr, n);
    BusyIffMarked(s.m, f0, count);
    if ScanRange(s.m.bits, f0 - s.m.base, count) == Clear {
      ReservedResults(Reserve(s.m, f0, count), addr, count);
    }
    forall f: Frame
      ensures HoldsByte(addr, n, f) <==> Supplies(Fixed(f0), count, f)
    {
    }
    MapBodyMapsNext();
    var r, s' := MapPhysicalKeeps(MapBody, s, addr, n);
  }

  lemma BusyIffMarked(m: Machine, f: Frame, count: nat)
    requires m.base <= f
    ensures ScanRange(m.bits, f - m.base, count) == Busy <==>
            exists g: Frame :: Supplies(Fixed(f), count, g) && Marked(m, g)
  {
    ScanMeaning(m.bits, f - m.base, count);
    if ScanRange(m.bits, f - m.base, count) == Busy {
      BusyMeansMarked(m, f, count);
    }
    if exists g: Frame :: Supplies(Fixed(f), count, g) && Marked(m, g) {
      var g: Frame :| Supplies(Fixed(f), count, g) && Marked(m, g);
      assert m.bits[g - m.base];
    }
  }
}
