/** The memory manager's objects, updated in place. Every method is tied to the function on machine
    values that specifies it, also past the point where the frame allocator has run dry. */
module KernelMemory {
  import opened Entries
  import opened Pages
  import opened PageTree
  import opened Bitmaps
  import opened Machines
  import opened FreeRuns
  import opened PageRuns
  import opened FrameRanges
  import opened Allocation
  import opened Alignment
  import opened RawKernel

  /** `BasicPhysicalAllocator`: one boolean per frame from `offset` on. */
  class PhysicalAllocator {
    const bitmap: array<bool>
    const offset: Frame

    constructor (size: nat, offset: Frame)
      ensures fresh(bitmap) && bitmap.Length == size && this.offset == offset
      ensures forall i | 0 <= i < size :: !bitmap[i]
    {
      this.bitmap := new bool[size](_ => false);
      this.offset := offset;
    }

    /** First fit; frame 0 when nothing is free. */
    method AllocateFrame() returns (frame: Frame)
      modifies bitmap
      ensures match FirstFree(old(bitmap[..]))
              case Some(i) => frame == offset + i && bitmap[..] == old(bitmap[..])[i := true]
              case None => frame == 0 && bitmap[..] == old(bitmap[..])
    {
      var index := 0;
      while index < bitmap.Length && bitmap[index]
        invariant index <= bitmap.Length
        invariant FirstFree(bitmap[..]) == FirstFreeFrom(bitmap[..], index)
      {
        index := index + 1;
      }
      if index < bitmap.Length {
        bitmap[index] := true;
        frame := offset + index;
      } else {
        frame := 0;
      }
    }

    /** Panics on a frame that is not marked. */
    method FreeFrame(frame: Frame)
      requires offset <= frame < offset + bitmap.Length && bitmap[frame - offset]
      modifies bitmap
      ensures bitmap[..] == old(bitmap[..])[frame - offset := false]
    {
      var index := frame - offset;
      bitmap[index] := false;
    }

    /** Reserves frames frame..frame+count unless one of them is taken. */
    method AllocPhyAddr(frame: Frame, count: nat) returns (ok: bool)
      requires offset <= frame && ScanRange(bitmap[..], frame - offset, count) != OffEnd
      modifies bitmap
      ensures ok <==> ScanRange(old(bitmap[..]), frame - offset, count) == Clear
      ensures bitmap[..] == if ok then MarkRange(old(bitmap[..]), frame - offset, count) else old(bitmap[..])
    {
      var index := frame - offset;
      for i := 0 to count
        invariant ScanRange(bitmap[..], index, count) == ScanRange(bitmap[..], index + i, count - i)
        invariant bitmap[..] == old(bitmap[..])
      {
        if bitmap[index + i] {
          return false;
        }
      }
      for i := 0 to count
        invariant count == 0 || index + count <= bitmap.Length
        invariant MarkRange(old(bitmap[..]), index, count) == MarkRange(bitmap[..], index + i, count - i)
      {
        ghost var before := bitmap[..];
        bitmap[index + i] := true;
        assert bitmap[..] == before[index + i := true];
      }
      ok := true;
    }
  }

  /** The machine the objects stand for. */
  ghost function Snapshot(table: PageTable, phys: PhysicalAllocator, cursor: nat): Machine
    reads table, phys, phys.bitmap
  {
    Machine(table.mem, table.root, phys.bitmap[..], phys.offset, cursor)
  }

  /** `PageTable`: the level-4 table in frame `root`, and all the memory its entries can reach. */
  class PageTable {
    var mem: Memory
    const root: Frame

    constructor (mem: Memory, root: Frame)
      ensures this.mem == mem && this.root == root
    {
      this.mem, this.root := mem, root;
    }

    method ClearAllEntries(table: Frame)
      modifies this
      ensures mem == old(mem)[table := ClearedTable()]
    {
      for i := 0 to 512
        invariant i > 0 ==> mem == old(mem)[table := Row(mem, table)]
        invariant i == 0 ==> mem == old(mem)
        invariant forall j | 0 <= j < i :: Row(mem, table)[j] == EMPTY
      {
        mem := Write(mem, table, i, EMPTY);
      }
      assert Row(mem, table) == ClearedTable();
    }

    /** One level of the descent: the table below slot `i` of `table`, created when absent. */
    method Descend(table: Frame, i: nat, flags: Flags, phys: PhysicalAllocator, ghost cursor: nat) returns (next: Frame)
      requires i < 512
      modifies this, phys.bitmap
      ensures (Snapshot(this, phys, cursor), next) == RawEnsure(old(Snapshot(this, phys, cursor)), table, i, flags)
    {
      var entry := Read(mem, table, i);
      if !entry.flags.present {
        var frame := phys.AllocateFrame();
        mem := Write(mem, table, i, Entry(frame, flags));
        ClearAllEntries(frame);
        next := frame;
      } else {
        next := entry.frame;
      }
    }

    method MapPageUnchecked(page: nat, frame: Frame, flags: Flags, phys: PhysicalAllocator, ghost cursor: nat)
      modifies this, phys.bitmap
      ensures Snapshot(this, phys, cursor) == RawMap(old(Snapshot(this, phys, cursor)), page, frame, flags)
    {
      var t3 := Descend(root, Index(page, 4), flags, phys, cursor);
      var t2 := Descend(t3, Index(page, 3), flags, phys, cursor);
      var t1 := Descend(t2, Index(page, 2), flags, phys, cursor);
      mem := Write(mem, t1, Index(page, 1), Entry(frame, flags));
    }
  }

  /** One iteration of a page loop that gets to its end. */
  lemma LoopSteps<S>(body: (S, nat) -> Option<S>, s: S, c: nat, last: nat, next: Option<S>)
    requires c <= last && ForPages(body, s, c, last).Done? && next == body(s, c)
    ensures next.Some?
    ensures if c < last then ForPages(body, s, c, last) == ForPages(body, next.value, c + 1, last)
            else ForPages(body, s, c, last) == Done(next.value)
  {
  }

  /** A page loop that gets to its end does not touch the last page. */
  lemma {:induction false} LoopEndsBelow<S>(body: (S, nat) -> Option<S>, s: S, c: nat, last: nat)
    requires c <= last && ForPages(body, s, c, last).Done?
    ensures last + 1 < MAX_PAGE
    decreases last - c
  {
    if c < last {
      LoopEndsBelow(body, body(s, c).value, c + 1, last);
    }
  }

  lemma DeallocIsLoop(m: Machine, a: Alloc)
    requires Allocation.DeallocPages(UnmapBody, m, a).Freed?
    ensures a.count >= 1 && NextBy(a.first, a.count - 1) == Some(a.Last())
    ensures ForPages(UnmapBody, m, a.first, a.Last()) == Done(Allocation.DeallocPages(UnmapBody, m, a).m)
    ensures a.Last() + 1 < MAX_PAGE
  {
    LoopEndsBelow(UnmapBody, m, a.first, a.Last());
  }

  /** `BasicPageAllocator`. */
  class PageAllocator {
    const table: PageTable
    const phys: PhysicalAllocator
    var lastPageAlloc: nat

    constructor (table: PageTable, phys: PhysicalAllocator)
      ensures this.table == table && this.phys == phys && lastPageAlloc == 1
    {
      this.table, this.phys := table, phys;
      lastPageAlloc := 1;
    }

    ghost function View(): Machine
      reads this, table, phys, phys.bitmap
    {
      Snapshot(table, phys, lastPageAlloc)
    }

    /** The body of the loop of `alloc_pages`. */
    method MapNextFresh(page: nat)
      modifies table, phys.bitmap
      ensures Mapper(View(), Fresh) == RawBody(Mapper(old(View()), Fresh), page)
    {
      hide RawMap;
      var frame := phys.AllocateFrame();
      table.MapPageUnchecked(page, frame, RW, phys, lastPageAlloc);
    }

    /** Maps pages run.first..=run.last onto fresh frames. */
    method MapFreshRun(run: Run)
      requires run.last + 1 < MAX_PAGE
      modifies table, phys.bitmap
      ensures View() == RawRun(Mapper(old(View()), Fresh), run.first, run.last).m
    {
      hide RawBody;
      ghost var all := RawRun(Mapper(View(), Fresh), run.first, run.last);
      var pages := new PageIter(run.first, run.last);
      var page := pages.NextPage();
      while page.Some?
        invariant pages.end == run.last
        invariant page.Some? ==> page.value <= run.last && pages.start == page.value + 1
        invariant page.Some? ==> RawRun(Mapper(View(), Fresh), page.value, run.last) == all
        invariant page.None? ==> all.m == View()
        decreases page.Some?, run.last + 1 - pages.start
      {
        MapNextFresh(page.value);
        page := pages.NextPage();
      }
    }

    /** `alloc_pages`. The run found must not touch the last page, where the page iterator panics. */
    method AllocPages(n: nat) returns (r: Option<Alloc>)
      requires lastPageAlloc < MAX_PAGE
      requires var found := FindFree(table.mem, table.root, lastPageAlloc, n);
               found.Some? ==> found.value.last + 1 < MAX_PAGE
      modifies this, table, phys.bitmap
      ensures (View(), r) == RawAlloc(old(View()), n)
    {
      var found := FindFreePages(table.mem, table.root, lastPageAlloc, n);
      if found.None? {
        return None;
      }
      lastPageAlloc := found.value.last;
      MapFreshRun(found.value);
      r := Some(Alloc(found.value.first, n));
    }

    /** The body of the loop of `dealloc_pages`. */
    method UnmapNext(page: nat)
      requires UnmapBody(View(), page).Some?
      modifies table, phys.bitmap
      ensures Some(View()) == UnmapBody(old(View()), page)
    {
      var entryTable := FindEntryMut(table.mem, table.root, page).value;
      var index := Index(page, 1);
      phys.FreeFrame(Read(table.mem, entryTable, index).frame);
      table.mem := Write(table.mem, entryTable, index, EMPTY);
    }

    /** `dealloc_pages`; it must not panic. */
    method DeallocPages(a: Alloc)
      requires Allocation.DeallocPages(UnmapBody, View(), a).Freed?
      modifies table, phys.bitmap
      ensures Freed(View()) == Allocation.DeallocPages(UnmapBody, old(View()), a)
    {
      hide UnmapBody, ForPages, Allocation.DeallocPages;
      DeallocIsLoop(View(), a);
      var last := NextBy(a.first, a.count - 1).value;
      ghost var loop := ForPages(UnmapBody, View(), a.first, last);
      var pages := new PageIter(a.first, last);
      var page := pages.NextPage();
      while page.Some?
        invariant pages.end == last
        invariant page.Some? ==> page.value <= last && pages.start == page.value + 1
        invariant page.Some? ==> ForPages(UnmapBody, View(), page.value, last) == loop
        invariant page.None? ==> loop == Done(View())
        decreases page.Some?, last + 1 - pages.start
      {
        ghost var m := View();
        LoopSteps(UnmapBody, m, page.value, last, UnmapBody(m, page.value));
        UnmapNext(page.value);
        page := pages.NextPage();
      }
    }

    /** The body of the mapping loop of `map_physical`. */
    method MapNextFixed(page: nat, frame: Frame)
      modifies table, phys.bitmap
      ensures Mapper(View(), Fixed(frame + 1)) == RawBody(Mapper(old(View()), Fixed(frame)), page)
    {
      table.MapPageUnchecked(page, frame, RW, phys, lastPageAlloc);
    }

    /** Maps pages run.first..=run.last onto the frames from `frame` on. */
    method MapFixedRun(run: Run, frame: Frame)
      requires run.last + 1 < MAX_PAGE
      modifies table, phys.bitmap
      ensures View() == RawRun(Mapper(old(View()), Fixed(frame)), run.first, run.last).m
    {
      hide RawBody;
      ghost var all := RawRun(Mapper(View(), Fixed(frame)), run.first, run.last);
      var pages := new PageIter(run.first, run.last);
      var page := pages.NextPage();
      var f := frame;
      while page.Some?
        invariant pages.end == run.last
        invariant page.Some? ==> page.value <= run.last && pages.start == page.value + 1
        invariant page.Some? ==> RawRun(Mapper(View(), Fixed(f)), page.value, run.last) == all
        invariant page.None? ==> all.m == View()
        decreases page.Some?, run.last + 1 - pages.start
      {
        MapNextFixed(page.value, f);
        f := f + 1;
        page := pages.NextPage();
      }
    }

    /** The rollback loop of `map_physical`. */
    method Rollback(frame: Frame, count: nat)
      requires FreeRange(View(), frame, count).Freed?
      modifies phys.bitmap
      ensures Freed(View()) == FreeRange(old(View()), frame, count)
    {
      var f := frame;
      for i := 0 to count
        invariant FreeRange(View(), f, count - i) == FreeRange(old(View()), frame, count)
      {
        phys.FreeFrame(f);
        f := f + 1;
      }
    }

    /** `map_physical`. The frames must start inside the pool and the code must not run off the end of
        the bitmap, nor may the run found touch the last page. */
    method MapPhysical(addr: nat, n: nat) returns (r: Option<(Alloc, nat)>)
      requires lastPageAlloc < MAX_PAGE
      requires var f := addr / PAGE_SIZE;
               phys.offset <= f && ScanRange(phys.bitmap[..], f - phys.offset, PhysCount(addr, n)) != OffEnd
      requires var found := FindFree(table.mem, table.root, lastPageAlloc, PhysCount(addr, n));
               found.Some? ==> found.value.last + 1 < MAX_PAGE
      modifies table, phys.bitmap
      ensures (View(), r) == RawPhysical(old(View()), addr, n)
      ensures r == None ==> View() == old(View())
    {
      hide RawRun, FindFree, ScanRange, MarkRange, FreeRange;
      ghost var m := View();
      var aligned := AlignDown(addr, PAGE_SIZE);
      var alignOffset := addr - aligned;
      var count := n + if alignOffset == 0 then 0 else 1;
      var frame := aligned / PAGE_SIZE;
      var ok := phys.AllocPhyAddr(frame, count);
      if !ok {
        return None;
      }
      var found := FindFreePages(table.mem, table.root, lastPageAlloc, count);
      if found.None? {
        RollbackUndoes(m, frame, count);
        Rollback(frame, count);
        return None;
      }
      MapFixedRun(found.value, frame);
      r := Some((Alloc(found.value.first, count), found.value.first * PAGE_SIZE + alignOffset));
    }
  }
}
