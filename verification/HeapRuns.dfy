/** Whole runs of the kernel heap, on a page allocator that others use as well. */
module HeapRuns {
  import opened PageTree
  import opened Machines
  import opened PageRuns
  import opened Allocation
  import opened AllocatorRuns
  import opened AllocationOrder
  import opened HeapAllocator

  /** A pointer handed out, with the layout it was asked for. */
  datatype Block = Block(ptr: nat, layout: Layout)

  /** The page allocator's state and the blocks handed out and not yet given back. */
  datatype Heap = Heap(y: Sys, blocks: set<Block>)

  datatype HeapEvent =
    | HeapAlloc(layout: Layout, a: Alloc)
    | HeapFree(b: Block)
    | Other(e: Event)

  /** The pages that `dealloc` takes a block to lie in. */
  function PagesOf(b: Block): Alloc {
    if b.layout.align == 0 then Alloc(0, 0) else Recovered(b.ptr, b.layout)
  }

  /** Other users of the page allocator, and the writes of everybody; they take back only what they hold. */
  ghost predicate NotOfHeap(h: Heap, e: Event) {
    e.FreeDone? ==> forall b | b in h.blocks :: PagesOf(b) != e.a
  }

  ghost predicate HeapStep(k: Kernel, h: Heap, e: HeapEvent, h': Heap) {
    match e
    case HeapAlloc(layout, a) =>
      && layout.Valid() && StartsAligned(a.first, layout)
      && Step(k, h.y, AllocDone(PageAmount(layout), a), h'.y)
      && h'.blocks == h.blocks + {Block(Pointer(a.first, layout), layout)}
    case HeapFree(b) =>
      && b in h.blocks
      && DeallocPages(k.unmapping, h.y.m, PagesOf(b)) == Freed(h'.y.m)
      && h'.y.live == h.y.live - {PagesOf(b)} && h'.blocks == h.blocks - {b}
    case Other(event) =>
      NotOfHeap(h, event) && Step(k, h.y, event, h'.y) && h'.blocks == h.blocks
  }

  // ----- invariant -----

  /** The block is aligned and lies in its pages, which are a live allocation. */
  ghost predicate BlockOk(y: Sys, b: Block) {
    && b.layout.Valid() && b.ptr % b.layout.align == 0
    && PagesOf(b) in y.live && Contains(PagesOf(b), b)
  }

  predicate Contains(a: Alloc, b: Block) {
    a.first * PAGE_SIZE <= b.ptr && b.ptr + b.layout.size < (a.first + a.count) * PAGE_SIZE
  }

  /** Every block is in order, and no two have the same pages. */
  ghost predicate HeapOk(h: Heap) {
    && (forall b | b in h.blocks :: BlockOk(h.y, b))
    && (forall b, c | b in h.blocks && c in h.blocks && b != c :: PagesOf(b) != PagesOf(c))
  }

  lemma NewBlockOk(first: nat, layout: Layout, y: Sys)
    requires layout.Valid() && StartsAligned(first, layout) && Alloc(first, PageAmount(layout)) in y.live
    ensures var b := Block(Pointer(first, layout), layout);
            BlockOk(y, b) && PagesOf(b) == Alloc(first, PageAmount(layout))
  {
    LayoutRoundTrip(first, layout);
  }

  /** An allocation just made was not live before. */
  lemma NewIsNotLive(k: Kernel, s: Sound, y: Sys, n: nat, a: Alloc, y': Sys)
    requires KernelOk(k) && Explains(s, y) && Step(k, y, AllocDone(n, a), y')
    ensures a !in y.live && a.count == n && y'.live == y.live + {a}
  {
    hide KernelOk, Explains, AllocPages;
    AllocMovesForward(k, s, y, n, a, y');
    if a in y.live {
      LiveNotReused(k, s, y, n, a, y', a);
      assert false;
    }
  }

  lemma HeapAllocKeeps(k: Kernel, s: Sound, h: Heap, layout: Layout, a: Alloc, h': Heap)
    requires KernelOk(k) && Explains(s, h.y) && HeapOk(h) && HeapStep(k, h, HeapAlloc(layout, a), h')
    ensures HeapOk(h')
  {
    hide KernelOk, Explains, Step;
    NewIsNotLive(k, s, h.y, PageAmount(layout), a, h'.y);
    NewBlockOk(a.first, layout, h'.y);
    forall b | b in h.blocks
      ensures BlockOk(h'.y, b) && PagesOf(b) != a
    {
      assert BlockOk(h.y, b);
    }
  }

  /** Giving back a block is taking back a live allocation. */
  lemma HeapFreeIsStep(k: Kernel, h: Heap, b: Block, h': Heap)
    requires HeapOk(h) && HeapStep(k, h, HeapFree(b), h')
    ensures Step(k, h.y, FreeDone(PagesOf(b)), h'.y) && HeapOk(h')
  {
    assert BlockOk(h.y, b);
    forall c | c in h'.blocks
      ensures BlockOk(h'.y, c)
    {
      assert BlockOk(h.y, c);
    }
  }

  /** The other users' steps take no block's pages. */
  lemma OtherKeeps(k: Kernel, h: Heap, e: Event, h': Heap)
    requires HeapOk(h) && HeapStep(k, h, Other(e), h')
    ensures HeapOk(h')
  {
    hide AllocPages, DeallocPages, MapPhysical;
    forall b | b in h.blocks
      ensures BlockOk(h'.y, b)
    {
      assert BlockOk(h.y, b);
    }
  }

  lemma HeapStepKeeps(k: Kernel, s: Sound, h: Heap, e: HeapEvent, h': Heap) returns (s': Sound)
    requires KernelOk(k) && Explains(s, h.y) && HeapOk(h) && HeapStep(k, h, e, h')
    ensures Explains(s', h'.y) && HeapOk(h')
  {
    hide KernelOk, Explains, HeapOk, Step, Core;
    match e
    case HeapAlloc(layout, a) =>
      HeapAllocKeeps(k, s, h, layout, a, h');
      s' := StepKeeps(k, s, h.y, AllocDone(PageAmount(layout), a), h'.y);
    case HeapFree(b) =>
      HeapFreeIsStep(k, h, b, h');
      s' := StepKeeps(k, s, h.y, FreeDone(PagesOf(b)), h'.y);
    case Other(event) =>
      OtherKeeps(k, h, event, h');
      s' := StepKeeps(k, s, h.y, event, h'.y);
  }

  // ----- runs -----

  ghost predicate IsHeapRun(k: Kernel, l: Ledger, hs: seq<Heap>, es: seq<HeapEvent>) {
    && |hs| == |es| + 1 && Boot(hs[0].y, l) && hs[0].blocks == {}
    && forall i | 0 <= i < |es| :: HeapStep(k, hs[i], es[i], hs[i + 1])
  }

  lemma {:induction false} HeapRunIsSound(k: Kernel, l: Ledger, hs: seq<Heap>, es: seq<HeapEvent>, i: nat)
    returns (s: Sound)
    requires KernelOk(k) && IsHeapRun(k, l, hs, es) && i < |hs|
    ensures Explains(s, hs[i].y) && HeapOk(hs[i])
  {
    hide KernelOk, Explains, HeapStep, Boot, Core;
    if i == 0 {
      s := BootExplained(hs[0].y, l);
    } else {
      s := HeapRunIsSound(k, l, hs, es, i - 1);
      assert HeapStep(k, hs[i - 1], es[i - 1], hs[i]);
      s := HeapStepKeeps(k, s, hs[i - 1], es[i - 1], hs[i]);
    }
  }

  /** The two blocks have no byte in common. */
  predicate BytesApart(b: Block, c: Block) {
    b.ptr + b.layout.size <= c.ptr || c.ptr + c.layout.size <= b.ptr
  }

  lemma ApartInBytes(a: Alloc, b: Block, a': Alloc, b': Block)
    requires Apart(a, a') && Contains(a, b) && Contains(a', b')
    ensures BytesApart(b, b') && b.ptr != b'.ptr
  {
  }

  lemma BlocksApart(s: Sound, h: Heap, b: Block, c: Block)
    requires Explains(s, h.y) && HeapOk(h) && b in h.blocks && c in h.blocks && b != c
    ensures BytesApart(b, c) && b.ptr != c.ptr
  {
    hide Core, PagesOf, Contains, BytesApart;
    assert BlockOk(h.y, b) && BlockOk(h.y, c);
    ApartInBytes(PagesOf(b), b, PagesOf(c), c);
  }

  /** In every state of every run of the heap, each block handed out and not yet given back is aligned, each
      of its bytes is usable, and giving it back does not panic; and no two blocks share a byte. */
  lemma HeapRunsAreSafe(l: Ledger, hs: seq<Heap>, es: seq<HeapEvent>, i: nat)
    requires IsHeapRun(TheKernel(), l, hs, es) && i < |hs|
    ensures forall b | b in hs[i].blocks ::
              && b.layout.Valid() && b.ptr % b.layout.align == 0
              && (forall j: nat | j < b.layout.size :: Usable(hs[i].y.m, b.ptr, j))
              && DeallocPages(UnmapBody, hs[i].y.m, Recovered(b.ptr, b.layout)).Freed?
    ensures forall b, c | b in hs[i].blocks && c in hs[i].blocks && b != c :: BytesApart(b, c) && b.ptr != c.ptr
  {
    hide KernelOk, Explains, IsHeapRun, HeapOk, BytesApart, Usable, DeallocPages;
    TheKernelIsOk();
    var s := HeapRunIsSound(TheKernel(), l, hs, es, i);
    forall b | b in hs[i].blocks
      ensures && b.layout.Valid() && b.ptr % b.layout.align == 0
              && (forall j: nat | j < b.layout.size :: Usable(hs[i].y.m, b.ptr, j))
              && DeallocPages(UnmapBody, hs[i].y.m, Recovered(b.ptr, b.layout)).Freed?
    {
      LiveBlock(s, hs[i], b);
    }
    forall b, c | b in hs[i].blocks && c in hs[i].blocks && b != c
      ensures BytesApart(b, c) && b.ptr != c.ptr
    {
      BlocksApart(s, hs[i], b, c);
    }
  }

  lemma LiveBlock(s: Sound, h: Heap, b: Block)
    requires Explains(s, h.y) && HeapOk(h) && b in h.blocks
    ensures b.layout.Valid() && b.ptr % b.layout.align == 0
    ensures forall j: nat | j < b.layout.size :: Usable(h.y.m, b.ptr, j)
    ensures DeallocPages(UnmapBody, h.y.m, Recovered(b.ptr, b.layout)).Freed?
  {
    hide Explains, Usable, DeallocPages, Core, KernelOk;
    assert BlockOk(h.y, b);
    var a := PagesOf(b);
    TheKernelIsOk();
    var s' := FreeSucceeds(TheKernel(), s, h.y, a);
    forall j: nat | j < b.layout.size
      ensures Usable(h.y.m, b.ptr, j)
    {
      InsidePages(a, b.ptr, b.layout.size, j);
      LiveIsUsable(s, h.y, a, b.ptr, j);
    }
  }
}
