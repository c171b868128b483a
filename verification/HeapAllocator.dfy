/** The kernel heap: byte layouts served with whole pages (`GlobalAlloc`). */
module HeapAllocator {
  import opened Entries
  import opened Pages
  import opened PageTree
  import opened RunTables
  import opened Machines
  import opened PageRuns
  import opened Allocation
  import opened AllocatorRuns
  import opened AllocationRoundTrip
  import opened Alignment
  import opened RawKernel
  import opened KernelMemory

  /** A size in bytes and an alignment; alignments are powers of two. */
  datatype Layout = Layout(size: nat, align: nat) {
    predicate Valid() {
      PowerOfTwo(align)
    }
  }

  predicate PowerOfTwo(a: nat) {
    a == 1 || (a > 1 && a % 2 == 0 && PowerOfTwo(a / 2))
  }

  /** The number of pages the source asks for. */
  function PageAmount(layout: Layout): nat
    requires layout.align > 0
  {
    (layout.size + PAGE_SIZE % layout.align) / PAGE_SIZE + 1
  }

  /** The pointer answered for an allocation that starts at page `first`. */
  function Pointer(first: nat, layout: Layout): nat
    requires layout.align > 0
  {
    AlignUp(first * PAGE_SIZE, layout.align)
  }

  /** What `dealloc` hands back to the page allocator. */
  function Recovered(ptr: nat, layout: Layout): Alloc
    requires layout.align > 0
  {
    Alloc(ptr / PAGE_SIZE, PageAmount(layout))
  }

  class Allocator {
    const pages: PageAllocator

    constructor (pages: PageAllocator)
      ensures this.pages == pages
    {
      this.pages := pages;
    }

    /** Null when the page allocator has no run of free pages. */
    method Allocate(layout: Layout) returns (ptr: nat)
      requires layout.Valid() && pages.lastPageAlloc < MAX_PAGE
      requires var m, n := pages.View(), PageAmount(layout);
               var found := FreeRuns.FindFree(m.mem, m.root, m.cursor, n);
               found.Some? ==> found.value.last + 1 < MAX_PAGE
      modifies pages, pages.table, pages.phys.bitmap
      ensures var (m, a) := RawAlloc(old(pages.View()), PageAmount(layout));
              pages.View() == m && ptr == if a.None? then 0 else Pointer(a.value.first, layout)
    {
      var amount := (layout.size + PAGE_SIZE % layout.align) / PAGE_SIZE + 1;
      var allocation := pages.AllocPages(amount);
      if allocation.None? {
        return 0;
      }
      ptr := AlignUp(allocation.value.first * PAGE_SIZE, layout.align);
    }

    method Deallocate(ptr: nat, layout: Layout)
      requires layout.Valid() && DeallocPages(UnmapBody, pages.View(), Recovered(ptr, layout)).Freed?
      modifies pages.table, pages.phys.bitmap
      ensures Freed(pages.View()) == DeallocPages(UnmapBody, old(pages.View()), Recovered(ptr, layout))
    {
      var amount := (layout.size + PAGE_SIZE % layout.align) / PAGE_SIZE + 1;
      pages.DeallocPages(Alloc(ptr / PAGE_SIZE, amount));
    }
  }

  // ----- arithmetic -----

  lemma {:induction false} PowersDivide(a: nat, b: nat)
    requires PowerOfTwo(a) && PowerOfTwo(b) && a <= b
    ensures b % a == 0
  {
    if a > 1 {
      PowersDivide(a / 2, b / 2);
      var q := b / 2 / (a / 2);
      assert b / 2 == q * (a / 2);
      assert b == q * a;
      MultipleHasNoRemainder(q, a);
    }
  }

  lemma PageSizeIsPower()
    ensures PowerOfTwo(PAGE_SIZE)
  {
    assert PowerOfTwo(64);
    assert PowerOfTwo(128) && PowerOfTwo(512) && PowerOfTwo(1024);
  }

  /** Up to the page size every alignment divides the addresses pages start at. */
  lemma SmallAlignment(first: nat, align: nat)
    requires PowerOfTwo(align) && align <= PAGE_SIZE
    ensures first * PAGE_SIZE % align == 0
  {
    PageSizeIsPower();
    PowersDivide(align, PAGE_SIZE);
    MultipleHasNoRemainder(first, PAGE_SIZE);
    DividesTransitively(align, PAGE_SIZE, first * PAGE_SIZE);
  }

  /** The page count is the least that leaves a byte to spare; alignments above the page size cost one more
      page. */
  lemma AmountIsTight(layout: Layout)
    requires layout.Valid()
    ensures var bytes := layout.size + if layout.align <= 4096 then 0 else 4096;
            (PageAmount(layout) - 1) * 4096 <= bytes < PageAmount(layout) * 4096
  {
    PageSizeIsPower();
    if layout.align <= PAGE_SIZE {
      PowersDivide(layout.align, PAGE_SIZE);
    }
  }

  /** The pointer is the first multiple of the alignment in the allocation. */
  lemma PointerIsLeast(first: nat, layout: Layout)
    requires layout.Valid()
    ensures var ptr := Pointer(first, layout);
            ptr % layout.align == 0 && first * 4096 <= ptr < first * 4096 + layout.align
  {
    AlignUpIsLeast(first * PAGE_SIZE, layout.align);
  }

  /** The allocation that starts at page `first` starts at a multiple of the alignment. */
  predicate StartsAligned(first: nat, layout: Layout)
    requires layout.align > 0
  {
    first * PAGE_SIZE % layout.align == 0
  }

  /** The pointer is aligned, its bytes lie inside the allocation's pages, and the layout leads back to
      exactly that allocation. */
  lemma LayoutRoundTrip(first: nat, layout: Layout)
    requires layout.Valid() && StartsAligned(first, layout)
    ensures var ptr := Pointer(first, layout);
            && ptr % layout.align == 0
            && first * PAGE_SIZE <= ptr && ptr + layout.size < (first + PageAmount(layout)) * PAGE_SIZE
            && (first >= 1 ==> ptr != 0)
            && Recovered(ptr, layout) == Alloc(first, PageAmount(layout))
  {
    assert Pointer(first, layout) == first * PAGE_SIZE;
    assert first * PAGE_SIZE / PAGE_SIZE == first;
  }

  /** For any power of two: `dealloc` finds the allocation again exactly when its first page is aligned. */
  lemma RecoveredIff(first: nat, layout: Layout)
    requires layout.Valid()
    ensures Recovered(Pointer(first, layout), layout) == Alloc(first, PageAmount(layout))
            <==> StartsAligned(first, layout)
  {
    var start, k := first * PAGE_SIZE, layout.align;
    AlignUpIsLeast(start, k);
    if start % k == 0 {
      assert Pointer(first, layout) / PAGE_SIZE == first;
    } else {
      LargeAlignment(first, k);
      var ptr := Pointer(first, layout);
      MultiplesApart(start, ptr, PAGE_SIZE);
      assert ptr / PAGE_SIZE >= first + 1;
    }
  }

  /** An alignment that some page start misses is a multiple of the page size. */
  lemma LargeAlignment(first: nat, k: nat)
    requires PowerOfTwo(k) && first * PAGE_SIZE % k != 0
    ensures first * PAGE_SIZE % PAGE_SIZE == 0 && AlignUp(first * PAGE_SIZE, k) % PAGE_SIZE == 0
    ensures first * PAGE_SIZE < AlignUp(first * PAGE_SIZE, k)
  {
    if k <= PAGE_SIZE {
      SmallAlignment(first, k);
      assert false;
    }
    PageSizeIsPower();
    PowersDivide(PAGE_SIZE, k);
    AlignUpIsLeast(first * PAGE_SIZE, k);
    DividesTransitively(PAGE_SIZE, k, AlignUp(first * PAGE_SIZE, k));
    MultipleHasNoRemainder(first, PAGE_SIZE);
  }

  /** With an alignment of two pages, an allocation starting at page 1 is given back from page 2 on. */
  lemma LargeAlignmentLosesPage()
    ensures var layout := Layout(1, 8192);
            layout.Valid() && Recovered(Pointer(1, layout), layout).first == 2
  {
    PageSizeIsPower();
    assert PowerOfTwo(8192);
  }

  // ----- the heap on top of the page allocator -----

  /** Address ptr + b lies in a page that leads to a marked frame, readable and writable. */
  ghost predicate Usable(m: Machine, ptr: nat, b: nat) {
    var c := (ptr + b) / PAGE_SIZE;
    && c < MAX_PAGE
    && var t := Walk(m.mem, m.root, c);
       t.Leaf? && t.level == 1 && t.entry.flags == RW && Marked(m, t.entry.frame)
  }

  lemma LiveIsUsable(s: Sound, y: Sys, a: Alloc, ptr: nat, b: nat)
    requires Explains(s, y) && a in y.live && a.Has((ptr + b) / PAGE_SIZE)
    ensures Usable(y.m, ptr, b)
  {
    var c := (ptr + b) / PAGE_SIZE;
    assert OwnedAlloc(s.l, a);
    assert s.view[c] == Walk(s.m.mem, s.m.root, c);
    OwnedSlot(s, c);
  }

  /** Allocating for a layout and giving the pointer back: in between exactly the pages needed are mapped and
      every byte is usable; afterwards every page leads where it led before, and only the tables created are
      still marked. */
  lemma HeapRoundTrip(k: Kernel, s: Sound, y: Sys, layout: Layout, a: Alloc, y1: Sys) returns (s2: Sound)
    requires KernelOk(k) && Explains(s, y)
    requires layout.Valid() && StartsAligned(a.first, layout)
    requires Step(k, y, AllocDone(PageAmount(layout), a), y1)
    ensures var ptr := Pointer(a.first, layout);
            && ptr % layout.align == 0
            && (forall b: nat | b < layout.size :: Usable(y1.m, ptr, b))
            && DeallocPages(k.unmapping, y1.m, Recovered(ptr, layout)) == Freed(s2.m)
    ensures OnlyPagesMapped(y.m, a, y1.m)
    ensures var bytes := layout.size + if layout.align <= 4096 then 0 else 4096;
            (a.count - 1) * 4096 <= bytes < a.count * 4096
    ensures forall c: nat | c < MAX_PAGE :: Walk(s2.m.mem, s2.m.root, c) == Walk(y.m.mem, y.m.root, c)
    ensures forall f :: OnlyTablesStay(s, s2, f)
  {
    hide AllocPages, DeallocPages, Walk, Usable, Explains, KernelOk, Core, OnlyTablesStay, Pointer, RunNodes;
    hide OnlyPagesMapped, AllocAchieved, PageAmount;
    AmountIsTight(layout);
    SameMachine(s, y);
    var ptr := Pointer(a.first, layout);
    LayoutRoundTrip(a.first, layout);
    var s1 := AllocKeeps(k, s, y, PageAmount(layout), a, y1);
    AllocMapsItsPages(s, PageAmount(layout), a, y1.m, s1);
    assert a == Recovered(ptr, layout) && a in y1.live;
    forall b: nat | b < layout.size
      ensures Usable(y1.m, ptr, b)
    {
      InsidePages(a, ptr, layout.size, b);
      LiveIsUsable(s1, y1, a, ptr, b);
    }
    s2 := AllocThenFree(k, s, y, PageAmount(layout), a, y1);
  }

  lemma SameMachine(s: State, y: Sys)
    requires Explains(s, y)
    ensures s.m == y.m
  {
  }

  lemma InsidePages(a: Alloc, ptr: nat, size: nat, b: nat)
    requires a.first * PAGE_SIZE <= ptr && ptr + size < (a.first + a.count) * PAGE_SIZE && b < size
    ensures a.Has((ptr + b) / PAGE_SIZE)
  {
  }
}
