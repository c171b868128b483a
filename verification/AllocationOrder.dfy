/** Over a run the cursor only moves forward, and so do the ranges `alloc_pages` hands out. */
module AllocationOrder {
  import opened Pages
  import opened PageTree
  import opened FreeRuns
  import opened Machines
  import opened Allocation
  import opened AllocatorRuns

  /** What an `alloc_pages` step says about the cursor and the range. */
  ghost predicate AllocForward(y: Sys, n: nat, a: Alloc, y': Sys) {
    && n >= 1 && a.count == n && y.m.cursor <= a.first && y'.m.cursor == a.first + n - 1
    && a.first + n <= MAX_PAGE && RunFree(y.m.mem, y.m.root, a.first, n)
  }

  lemma AllocMovesForward(k: Kernel, s: Sound, y: Sys, n: nat, a: Alloc, y': Sys)
    requires KernelOk(k) && Explains(s, y) && Step(k, y, AllocDone(n, a), y')
    ensures AllocForward(y, n, a, y')
  {
    var s' := AllocKeeps(k, s, y, n, a, y');
  }

  lemma PhysLeavesCursor(k: Kernel, s: Sound, y: Sys, addr: nat, n: nat, a: Alloc, vaddr: nat, y': Sys)
    requires KernelOk(k) && Explains(s, y) && Step(k, y, PhysDone(addr, n, a, vaddr), y')
    ensures y'.m.cursor == y.m.cursor
  {
    var s' := PhysKeeps(k, s, y, addr, n, a, vaddr, y');
  }

  lemma CursorStep(k: Kernel, s: Sound, y: Sys, e: Event, y': Sys)
    requires KernelOk(k) && Explains(s, y) && Step(k, y, e, y')
    ensures y.m.cursor <= y'.m.cursor
    ensures !e.AllocDone? ==> y'.m.cursor == y.m.cursor
  {
    match e
    case AllocDone(n, a) => AllocMovesForward(k, s, y, n, a, y');
    case AllocNone(n) =>
    case FreeDone(a) => var s' := FreeSucceeds(k, s, y, a);
    case PhysDone(addr, n, a, vaddr) => PhysLeavesCursor(k, s, y, addr, n, a, vaddr, y');
    case PhysNone(addr, n) => PhysNoneKeeps(k, y, addr, n, y');
    case WriteDone(c, row) =>
  }

  lemma CursorAt(k: Kernel, l: Ledger, ys: seq<Sys>, es: seq<Event>, i: nat)
    requires KernelOk(k) && IsRun(k, l, ys, es) && i < |es|
    ensures ys[i].m.cursor <= ys[i + 1].m.cursor
  {
    var s := RunIsSound(k, l, ys, es, i);
    CursorStep(k, s, ys[i], es[i], ys[i + 1]);
  }

  lemma {:induction false} CursorMonotone(k: Kernel, l: Ledger, ys: seq<Sys>, es: seq<Event>, i: nat, j: nat)
    requires KernelOk(k) && IsRun(k, l, ys, es) && i <= j < |ys|
    ensures ys[i].m.cursor <= ys[j].m.cursor
    decreases j - i
  {
    if i < j {
      CursorAt(k, l, ys, es, i);
      CursorMonotone(k, l, ys, es, i + 1, j);
    }
  }

  lemma StepKeepsLive(k: Kernel, y: Sys, e: Event, y': Sys, a: Alloc)
    requires Step(k, y, e, y') && a in y.live && e != FreeDone(a)
    ensures a in y'.live
  {
  }

  /** An allocation stays live until it is taken back. */
  lemma {:induction false} LiveUntilFreed(
    k: Kernel, l: Ledger, ys: seq<Sys>, es: seq<Event>, i: nat, j: nat, a: Alloc)
    requires IsRun(k, l, ys, es) && i <= j < |ys| && a in ys[i].live
    requires forall t | i <= t < j :: es[t] != FreeDone(a)
    ensures a in ys[j].live
    decreases j
  {
    if i < j {
      LiveUntilFreed(k, l, ys, es, i, j - 1, a);
      StepKeepsLive(k, ys[j - 1], es[j - 1], ys[j], a);
    }
  }

  /** A page of a live allocation is not handed out again. */
  lemma LiveNotReused(k: Kernel, s: Sound, y: Sys, n: nat, b: Alloc, y': Sys, a: Alloc)
    requires KernelOk(k) && Explains(s, y) && Step(k, y, AllocDone(n, b), y') && a in y.live
    ensures Apart(b, a)
  {
    AllocMovesForward(k, s, y, n, b, y');
    FreeIsApart(s, b.first, n, a);
  }

  /** Of two ranges handed out by `alloc_pages`, the later one starts at or after the last page of the
      earlier; they share at most that page, and only if the earlier one was taken back in between. */
  lemma RangesMoveForward(l: Ledger, ys: seq<Sys>, es: seq<Event>, i: nat, j: nat)
    requires IsRun(TheKernel(), l, ys, es) && i < j < |es| && es[i].AllocDone? && es[j].AllocDone?
    ensures es[i].a.count >= 1 && es[i].a.Last() <= es[j].a.first
    ensures forall c: nat | es[i].a.Has(c) && es[j].a.Has(c) ::
              c == es[i].a.Last() == es[j].a.first && exists t :: i < t < j && es[t] == FreeDone(es[i].a)
  {
    var k := TheKernel();
    TheKernelIsOk();
    var a, b := es[i].a, es[j].a;
    var si := RunIsSound(k, l, ys, es, i);
    AllocMovesForward(k, si, ys[i], es[i].n, a, ys[i + 1]);
    var sj := RunIsSound(k, l, ys, es, j);
    AllocMovesForward(k, sj, ys[j], es[j].n, b, ys[j + 1]);
    CursorMonotone(k, l, ys, es, i + 1, j);
    if !exists t :: i < t < j && es[t] == FreeDone(a) {
      LiveUntilFreed(k, l, ys, es, i + 1, j, a);
      LiveNotReused(k, sj, ys[j], es[j].n, b, ys[j + 1], a);
    }
  }
}
