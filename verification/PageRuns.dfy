/** Mapping and unmapping a run of consecutive pages. */
module PageRuns {
  import opened Entries
  import opened Pages
  import opened PageTree
  import opened Bitmaps
  import opened Machines
  import opened RunTables

  // ----- operations -----

  /** Where the frames of a run come from: the frame allocator, or a fixed physical range. */
  datatype Source = Fresh | Fixed(frame: Frame)

  function Advance(src: Source): Source {
    match src
    case Fresh => Fresh
    case Fixed(f) => Fixed(f + 1)
  }

  /** What the mapping loops carry from page to page. */
  datatype Mapper = Mapper(m: Machine, src: Source)

  function MapFresh(m: Machine, c: nat): Option<Machine> {
    match TakeFrame(m)
    case OutOfFrames => None
    case Took(m1, f) => MapPage(m1, c, f, RW)
  }

  /** The body of the mapping loops of `alloc_pages` and `map_physical`; no result when the frame
      allocator had nothing left to give. */
  function MapBody(mp: Mapper, c: nat): Option<Mapper> {
    var r := if mp.src.Fixed? then MapPage(mp.m, c, mp.src.frame, RW) else MapFresh(mp.m, c);
    match r
    case None => None
    case Some(m') => Some(Mapper(m', Advance(mp.src)))
  }

  /** The body of the loop of `dealloc_pages`; no result when it panics. */
  function UnmapBody(m: Machine, c: nat): Option<Machine> {
    if c >= MAX_PAGE then None
    else match UnmapPage(m, c)
      case Panic => None
      case Freed(m') => Some(m')
  }

  datatype Loop<+S> = Done(s: S) | Stopped | IterPanic

  /** A `for` loop over pages c..=last whose body may fail. The page iterator panics when it is about
      to yield the very last page of the address space. */
  function ForPages<S>(body: (S, nat) -> Option<S>, s: S, c: nat, last: nat): Loop<S>
    decreases last + 1 - c
  {
    if c > last then Done(s)
    else if c + 1 >= MAX_PAGE then IterPanic
    else match body(s, c)
      case None => Stopped
      case Some(s') => ForPages(body, s', c + 1, last)
  }

  lemma ForPagesUnfolds<S>(body: (S, nat) -> Option<S>, s: S, c: nat, last: nat, next: Option<S>, r: Loop<S>)
    requires c <= last && c + 1 < MAX_PAGE && next == body(s, c)
    requires r == if next.None? then Stopped else ForPages(body, next.value, c + 1, last)
    ensures r == ForPages(body, s, c, last)
  {
  }

  // ----- counting frames -----

  function Cost(src: Source): nat {
    if src.Fresh? then 1 else 0
  }

  lemma MissingIsMissingFrom(l: Ledger, c: nat)
    ensures Missing(l, c) == MissingFrom(l.tables.Keys, c)
  {
    assert MissingBelow(l, c, 3) == (if NodeOf(c, 2) in l.tables then 0 else 1) + MissingBelow(l, c, 2);
    assert MissingBelow(l, c, 2) == (if NodeOf(c, 1) in l.tables then 0 else 1) + MissingBelow(l, c, 1);
  }

  lemma GainedKeys(l: Ledger, l': Ledger, c: nat)
    requires GainsPath(l, l', c)
    ensures l'.tables.Keys == l.tables.Keys + PathSet(c)
  {
    forall n
      ensures n in l'.tables.Keys <==> n in l.tables.Keys + PathSet(c)
    {
      assert Gained(l, l', c, 4, n);
      OnPathSet(c, n);
    }
  }

  // ----- one page of a run -----

  /** Frame `g` is one of the `n` frames the source is going to hand out. */
  predicate Supplies(src: Source, n: nat, g: Frame) {
    src.Fixed? && src.frame <= g < src.frame + n
  }

  /** All uses survive but those of the frames supplied, and no other frame is held afterwards. */
  ghost predicate UsesKept(l: Ledger, l': Ledger, src: Source, n: nat) {
    && (forall g {:trigger KeepsUse(l, l', g)} | g in l.uses && !Supplies(src, n, g) :: KeepsUse(l, l', g))
    && (forall g {:trigger l'.Holds(g)} | l'.Holds(g) :: l.Holds(g) && !Supplies(src, n, g))
  }

  lemma TransferKeeps(l: Ledger, l1: Ledger, l': Ledger, c: nat, f: Frame, src: Source)
    requires c !in l1.pages && Transfers(l1, l', c, f)
    requires if src.Fresh? then f !in l.uses && l1 == Hold(l, f) else l1 == l && f == src.frame
    requires f in l'.uses && l'.uses[f] == PageFrame(c)
    ensures UsesKept(l, l', src, 1)
  {
    forall g | g in l.uses && !Supplies(src, 1, g)
      ensures KeepsUse(l, l', g)
    {
      assert KeepsUse(l1, l', g);
    }
    forall g | l'.Holds(g)
      ensures l.Holds(g) && !Supplies(src, 1, g)
    {
      if g in l1.uses {
        assert KeepsUse(l1, l', g);
      }
      assert g !in l1.uses ==> NewTable(l1, l', g);
    }
  }

  lemma HeldGains(l: Ledger, f: Frame, l': Ledger, c: nat)
    requires GainsPath(Hold(l, f), l', c)
    ensures GainsPath(l, l', c) && Missing(Hold(l, f), c) == Missing(l, c)
  {
    forall n
      ensures Gained(l, l', c, 4, n)
    {
      assert Gained(Hold(l, f), l', c, 4, n);
    }
    MissingIsMissingFrom(l, c);
    MissingIsMissingFrom(Hold(l, f), c);
  }

  lemma HeldMisses(l: Ledger, f: Frame, c: nat)
    ensures Missing(Hold(l, f), c) == Missing(l, c)
  {
    MissingIsMissingFrom(l, c);
    MissingIsMissingFrom(Hold(l, f), c);
  }

  /** What mapping one more page achieves. */
  ghost predicate NextMapped(s: State, c: nat, src: Source, r: Option<Mapper>, s': State) {
    match r
    case None => FreeCount(s.m.bits) < Cost(src) + Missing(s.l, c)
    case Some(mp) =>
      && mp == Mapper(s'.m, Advance(src)) && SameFrame(s.m, s'.m)
      && c in s'.l.pages && s'.l.pages == s.l.pages[c := s'.l.pages[c]]
      && (src.Fixed? ==> s'.l.pages[c] == src.frame)
      && s'.view == s.view[c := Leaf(1, Entry(s'.l.pages[c], RW))]
      && UsesKept(s.l, s'.l, src, 1)
      && GainsPath(s.l, s'.l, c)
      && FreeCount(s'.m.bits) + Cost(src) + Missing(s.l, c) == FreeCount(s.m.bits)
  }

  function Wrap(r: Option<Machine>, src: Source): Option<Mapper> {
    match r
    case None => None
    case Some(m') => Some(Mapper(m', src))
  }

  lemma OwnedIsNext(s: State, c: nat, f: Frame, r: Option<Machine>, s': State)
    requires c !in s.l.pages && PageOwned(s, c, f, r, s') && s'.l.PagesKnown()
    ensures NextMapped(s, c, Fixed(f), Wrap(r, Fixed(f + 1)), s')
  {
    if r.Some? {
      assert s'.l.pages[c] == f;
      TransferKeeps(s.l, s.l, s'.l, c, f, Fixed(f));
    }
  }

  lemma MapFixedNext(s: Sound, c: nat, f: Frame) returns (r: Option<Mapper>, s': Sound)
    requires c in s.view && s.view[c] == Unmapped && s.l.Holds(f)
    ensures r == Wrap(MapPage(s.m, c, f, RW), Fixed(f + 1)) && NextMapped(s, c, Fixed(f), r, s')
    ensures r.Some? ==> Transfers(s.l, s'.l, c, f)
  {
    assert c !in s.l.pages;
    var m': Option<Machine>;
    m', s' := MapPageOwns(s, c, f);
    OwnedIsNext(s, c, f, m', s');
    r := Wrap(m', Fixed(f + 1));
  }

  lemma TakenThenMapped(s: State, c: nat, f: Frame, s1: State, r: Option<Mapper>, s': State)
    requires c !in s.l.pages && f !in s.l.uses && s1.l == Hold(s.l, f)
    requires SameFrame(s.m, s1.m) && s1.view == s.view
    requires FreeCount(s1.m.bits) == FreeCount(s.m.bits) - 1
    requires NextMapped(s1, c, Fixed(f), r, s') && s'.l.PagesKnown()
    requires r.Some? ==> Transfers(s1.l, s'.l, c, f)
    ensures NextMapped(s, c, Fresh, if r.Some? then Some(Mapper(s'.m, Fresh)) else None, s')
  {
    HeldMisses(s.l, f, c);
    if r.Some? {
      TransferKeeps(s.l, s1.l, s'.l, c, f, Fresh);
      HeldGains(s.l, f, s'.l, c);
    }
  }

  lemma FreshBodyUnfolds(m: Machine, c: nat)
    ensures MapBody(Mapper(m, Fresh), c) ==
            match TakeFrame(m)
            case OutOfFrames => None
            case Took(m1, f) => Wrap(MapPage(m1, c, f, RW), Fresh)
  {
  }

  lemma MapFreshNext(s: Sound, c: nat) returns (r: Option<Mapper>, s': Sound)
    requires c in s.view && s.view[c] == Unmapped
    ensures r == MapBody(Mapper(s.m, Fresh), c) && NextMapped(s, c, Fresh, r, s')
  {
    assert c !in s.l.pages;
    FreshBodyUnfolds(s.m, c);
    var t, s1 := TakeFrameHolds(s);
    if t.OutOfFrames? {
      r, s' := None, s;
    } else {
      r, s' := MapFixedNext(s1, c, t.frame);
      TakenThenMapped(s, c, t.frame, s1, r, s');
      r := if r.Some? then Some(Mapper(s'.m, Fresh)) else None;
    }
  }

  /** A loop body that maps the next page, from whatever sound state it is started in. */
  ghost predicate MapsNext(body: (Mapper, nat) -> Option<Mapper>) {
    forall s: Sound, c: nat, src: Source {:trigger Startable(s, c, src), body(Mapper(s.m, src), c)} |
      Startable(s, c, src) ::
      exists s': Sound :: NextMapped(s, c, src, body(Mapper(s.m, src), c), s')
  }

  ghost predicate Startable(s: Sound, c: nat, src: Source) {
    c in s.view && s.view[c] == Unmapped && Supplied(s.l, src, 1)
  }

  lemma MapBodyMapsNext()
    ensures MapsNext(MapBody)
  {
    forall s: Sound, c: nat, src: Source | Startable(s, c, src)
      ensures exists s': Sound :: NextMapped(s, c, src, MapBody(Mapper(s.m, src), c), s')
    {
      var r, s' := MapBodyKeeps(s, c, src);
    }
  }

  lemma MapBodyKeeps(s: Sound, c: nat, src: Source) returns (r: Option<Mapper>, s': Sound)
    requires Startable(s, c, src)
    ensures r == MapBody(Mapper(s.m, src), c) && NextMapped(s, c, src, r, s')
  {
    if src.Fixed? {
      assert Supplies(src, 1, src.frame);
      r, s' := MapFixedNext(s, c, src.frame);
    } else {
      r, s' := MapFreshNext(s, c);
    }
  }

  // ----- a whole run -----

  /** Number of pages in c..=last. */
  function Length(c: nat, last: nat): nat {
    if c > last then 0 else last - c + 1
  }

  ghost predicate AllUnmapped(view: View, c: nat, last: nat) {
    forall d | c <= d <= last :: d in view && view[d] == Unmapped
  }

  /** The frames a fixed source is going to hand out are held. */
  ghost predicate Supplied(l: Ledger, src: Source, n: nat) {
    forall g | Supplies(src, n, g) :: l.Holds(g)
  }

  /** Outside the run every page leads where it led. */
  ghost predicate SameOutside(view: View, view': View, c: nat, last: nat) {
    forall d: nat {:trigger view'[d]} | d in view && d in view' && !(c <= d <= last) :: view'[d] == view[d]
  }

  /** Page `d` is owned afterwards if it was before, then with the same frame, or if it is in the run. */
  predicate PageGained(l: Ledger, l': Ledger, c: nat, last: nat, d: nat) {
    && (d in l'.pages <==> d in l.pages || c <= d <= last)
    && (d in l.pages ==> l'.pages[d] == l.pages[d])
  }

  /** The pages of the run own the frames from `f` on, in order. */
  ghost predicate InOrder(l: Ledger, first: nat, last: nat, f: Frame) {
    forall c {:trigger l.pages[c]} | first <= c <= last :: c in l.pages && l.pages[c] == f + (c - first)
  }

  /** The pages gained are those of the run, in the frames of a fixed source, one after the other. */
  ghost predicate PagesGained(l: Ledger, l': Ledger, c: nat, last: nat, src: Source) {
    && (forall d: nat {:trigger PageGained(l, l', c, last, d)} :: PageGained(l, l', c, last, d))
    && (src.Fixed? ==> InOrder(l', c, last, src.frame))
  }

  predicate TableGained(l: Ledger, l': Ledger, c: nat, last: nat, n: Node) {
    && (n in l'.tables <==> n in l.tables || (c <= last && OnRun(c, last, n)))
    && (n in l.tables ==> l'.tables[n] == l.tables[n])
  }

  /** The tables gained are exactly the missing ones the run goes through. */
  ghost predicate TablesGained(l: Ledger, l': Ledger, c: nat, last: nat) {
    forall n {:trigger TableGained(l, l', c, last, n)} :: TableGained(l, l', c, last, n)
  }

  ghost predicate MappingDone(s: State, s': State, c: nat, last: nat, src: Source, m': Machine) {
    && s'.m == m' && SameFrame(s.m, m')
    && (c <= last ==> last + 1 < MAX_PAGE)
    && SameOutside(s.view, s'.view, c, last)
    && PagesGained(s.l, s'.l, c, last, src)
    && TablesGained(s.l, s'.l, c, last)
    && UsesKept(s.l, s'.l, src, Length(c, last))
    && FreeCount(m'.bits) + Need(s.l.tables.Keys, c, last, Cost(src)) == FreeCount(s.m.bits)
  }

  /** What mapping a run achieves. */
  ghost predicate RunMapped(s: State, c: nat, last: nat, src: Source, r: Loop<Mapper>, s': State) {
    match r
    case Done(mp) => MappingDone(s, s', c, last, src, mp.m)
    case Stopped => FreeCount(s.m.bits) < Need(s.l.tables.Keys, c, last, Cost(src))
    case IterPanic => c <= last && last + 1 >= MAX_PAGE
  }

  // --- one page, then the rest ---

  lemma TablesStep(l: Ledger, l1: Ledger, l': Ledger, c: nat, last: nat)
    requires c <= last && GainsPath(l, l1, c) && TablesGained(l1, l', c + 1, last)
    ensures TablesGained(l, l', c, last)
  {
    forall n
      ensures TableGained(l, l', c, last, n)
    {
      assert Gained(l, l1, c, 4, n);
      assert TableGained(l1, l', c + 1, last, n);
      OnRunStep(c, last, n);
    }
  }

  lemma PagesStep(l: Ledger, l1: Ledger, l': Ledger, c: nat, last: nat, src: Source)
    requires c <= last && c !in l.pages && c in l1.pages && l1.pages == l.pages[c := l1.pages[c]]
    requires src.Fixed? ==> l1.pages[c] == src.frame
    requires PagesGained(l1, l', c + 1, last, Advance(src))
    ensures PagesGained(l, l', c, last, src)
  {
    forall d: nat
      ensures PageGained(l, l', c, last, d)
    {
      assert PageGained(l1, l', c + 1, last, d);
    }
    if src.Fixed? {
      forall d | c <= d <= last
        ensures d in l'.pages && l'.pages[d] == src.frame + (d - c)
      {
        assert PageGained(l1, l', c + 1, last, d);
      }
    }
  }

  lemma UsesStep(l: Ledger, l1: Ledger, l': Ledger, c: nat, last: nat, src: Source)
    requires c <= last && UsesKept(l, l1, src, 1)
    requires UsesKept(l1, l', Advance(src), Length(c + 1, last))
    ensures UsesKept(l, l', src, Length(c, last))
  {
    forall g | g in l.uses && !Supplies(src, Length(c, last), g)
      ensures KeepsUse(l, l', g)
    {
      assert KeepsUse(l, l1, g);
      assert KeepsUse(l1, l', g);
    }
    forall g | l'.Holds(g)
      ensures l.Holds(g) && !Supplies(src, Length(c, last), g)
    {
      assert l1.Holds(g);
    }
  }

  lemma ViewStep(v: View, v1: View, v': View, c: nat, last: nat, t: Translation)
    requires c <= last && v1 == v[c := t] && SameOutside(v1, v', c + 1, last)
    ensures SameOutside(v, v', c, last)
  {
  }

  lemma NeedStep(l: Ledger, l1: Ledger, c: nat, last: nat, cost: nat)
    requires c <= last && GainsPath(l, l1, c)
    ensures Need(l.tables.Keys, c, last, cost) == cost + Missing(l, c) + Need(l1.tables.Keys, c + 1, last, cost)
  {
    MissingIsMissingFrom(l, c);
    GainedKeys(l, l1, c);
  }

  lemma DoneSteps(s: State, s1: State, s': State, c: nat, last: nat, src: Source, m': Machine)
    requires c <= last && c + 1 < MAX_PAGE && c !in s.l.pages
    requires NextMapped(s, c, src, Some(Mapper(s1.m, Advance(src))), s1)
    requires MappingDone(s1, s', c + 1, last, Advance(src), m')
    ensures MappingDone(s, s', c, last, src, m')
  {
    NeedStep(s.l, s1.l, c, last, Cost(src));
    TablesStep(s.l, s1.l, s'.l, c, last);
    PagesStep(s.l, s1.l, s'.l, c, last, src);
    UsesStep(s.l, s1.l, s'.l, c, last, src);
    ViewStep(s.view, s1.view, s'.view, c, last, Leaf(1, Entry(s1.l.pages[c], RW)));
  }

  lemma StillSupplied(l: Ledger, l': Ledger, src: Source, n: nat)
    requires n >= 1 && Supplied(l, src, n) && UsesKept(l, l', src, 1)
    ensures Supplied(l', Advance(src), n - 1)
  {
    forall g | Supplies(Advance(src), n - 1, g)
      ensures l'.Holds(g)
    {
      assert Supplies(src, n, g);
      assert KeepsUse(l, l', g);
    }
  }

  lemma StillUnmapped(view: View, c: nat, last: nat, t: Translation)
    requires AllUnmapped(view, c, last)
    ensures AllUnmapped(view[c := t], c + 1, last)
  {
  }

  lemma RunMappedSteps(s: State, c: nat, last: nat, src: Source, s1: State, r: Loop<Mapper>, s': State)
    requires c <= last && c + 1 < MAX_PAGE && c !in s.l.pages
    requires NextMapped(s, c, src, Some(Mapper(s1.m, Advance(src))), s1)
    requires RunMapped(s1, c + 1, last, Advance(src), r, s')
    ensures RunMapped(s, c, last, src, r, s')
  {
    NeedStep(s.l, s1.l, c, last, Cost(src));
    if r.Done? {
      DoneSteps(s, s1, s', c, last, src, r.s.m);
    }
  }

  /** What the machine still offers after one page. */
  lemma StepLeaves(s: State, c: nat, last: nat, src: Source, s1: State)
    requires c <= last && NextMapped(s, c, src, Some(Mapper(s1.m, Advance(src))), s1)
    requires AllUnmapped(s.view, c, last) && Supplied(s.l, src, Length(c, last))
    ensures AllUnmapped(s1.view, c + 1, last)
    ensures Supplied(s1.l, Advance(src), Length(c + 1, last))
  {
    StillUnmapped(s.view, c, last, Leaf(1, Entry(s1.l.pages[c], RW)));
    StillSupplied(s.l, s1.l, src, Length(c, last));
  }

  lemma FirstSupplied(l: Ledger, src: Source, n: nat)
    requires n >= 1 && Supplied(l, src, n)
    ensures Supplied(l, src, 1)
  {
    assert forall g | Supplies(src, 1, g) :: Supplies(src, n, g);
  }

  lemma RunMappedStarts(s: State, c: nat, last: nat, src: Source)
    requires c > last
    ensures RunMapped(s, c, last, src, Done(Mapper(s.m, src)), s)
  {
    forall n
      ensures TableGained(s.l, s.l, c, last, n)
    {
    }
  }

  lemma RunMappedStops(s: State, c: nat, last: nat, src: Source)
    requires c <= last && FreeCount(s.m.bits) < Cost(src) + Missing(s.l, c)
    ensures RunMapped(s, c, last, src, Stopped, s)
  {
    MissingIsMissingFrom(s.l, c);
  }

  /** Mapping a run of unmapped pages. */
  lemma {:induction false} MapRunKeeps(body: (Mapper, nat) -> Option<Mapper>, s: Sound, c: nat, last: nat, src: Source)
    returns (r: Loop<Mapper>, s': Sound)
    requires MapsNext(body)
    requires last < MAX_PAGE && AllUnmapped(s.view, c, last) && Supplied(s.l, src, Length(c, last))
    ensures r == ForPages(body, Mapper(s.m, src), c, last)
    ensures RunMapped(s, c, last, src, r, s')
    decreases last + 1 - c
  {
    if c > last {
      r, s' := Done(Mapper(s.m, src)), s;
      RunMappedStarts(s, c, last, src);
    } else if c + 1 >= MAX_PAGE {
      r, s' := IterPanic, s;
    } else {
      FirstSupplied(s.l, src, Length(c, last));
      assert Startable(s, c, src);
      var next := body(Mapper(s.m, src), c);
      var s1: Sound :| NextMapped(s, c, src, next, s1);
      if next.None? {
        r, s' := Stopped, s;
        RunMappedStops(s, c, last, src);
      } else {
        r, s' := MapRestKeeps(body, s, c, last, src, s1);
      }
      ForPagesUnfolds(body, Mapper(s.m, src), c, last, next, r);
    }
  }

  lemma {:induction false} MapRestKeeps(
    body: (Mapper, nat) -> Option<Mapper>, s: Sound, c: nat, last: nat, src: Source, s1: Sound)
    returns (r: Loop<Mapper>, s': Sound)
    requires MapsNext(body)
    requires c <= last < MAX_PAGE && c + 1 < MAX_PAGE && c !in s.l.pages
    requires AllUnmapped(s.view, c, last) && Supplied(s.l, src, Length(c, last))
    requires NextMapped(s, c, src, Some(Mapper(s1.m, Advance(src))), s1)
    ensures r == ForPages(body, Mapper(s1.m, Advance(src)), c + 1, last)
    ensures RunMapped(s, c, last, src, r, s')
    decreases last + 1 - c, 0
  {
    StepLeaves(s, c, last, src, s1);
    r, s' := MapRunKeeps(body, s1, c + 1, last, Advance(src));
    RunMappedSteps(s, c, last, src, s1, r, s');
  }

  // ----- unmapping a run -----

  /** The ledger once pages c..=last have given up their frames. */
  function DisownRun(l: Ledger, c: nat, last: nat): Ledger
    decreases last + 1 - c
  {
    if c > last then l
    else DisownRun(if c in l.pages then Disown(l, c) else l, c + 1, last)
  }

  /** The address space once pages c..=last lead nowhere. */
  function Blank(view: View, c: nat, last: nat): View
    decreases last + 1 - c
  {
    if c > last then view else Blank(view[c := Unmapped], c + 1, last)
  }

  ghost predicate AllOwned(l: Ledger, c: nat, last: nat) {
    forall d | c <= d <= last :: d in l.pages
  }

  /** What unmapping a run achieves. */
  ghost predicate RunReleased(s: State, c: nat, last: nat, s': State) {
    && s'.l == DisownRun(s.l, c, last)
    && SameFrame(s.m, s'.m)
    && s'.view == Blank(s.view, c, last)
    && FreeCount(s'.m.bits) == FreeCount(s.m.bits) + Length(c, last)
  }

  /** What unmapping one owned page achieves. */
  ghost predicate NextReleased(s: State, c: nat, r: Option<Machine>, s': State)
    requires c in s.l.pages
  {
    && r == Some(s'.m)
    && s'.l == Disown(s.l, c) && SameFrame(s.m, s'.m)
    && s'.view == s.view[c := Unmapped]
    && FreeCount(s'.m.bits) == FreeCount(s.m.bits) + 1
  }

  lemma StillOwned(l: Ledger, c: nat, last: nat)
    requires c <= last && AllOwned(l, c, last)
    ensures AllOwned(Disown(l, c), c + 1, last)
  {
  }

  lemma ReleasedSteps(s: State, c: nat, last: nat, s1: State, s': State)
    requires c <= last && c in s.l.pages
    requires NextReleased(s, c, Some(s1.m), s1)
    requires RunReleased(s1, c + 1, last, s')
    ensures RunReleased(s, c, last, s')
  {
  }

  lemma ReleasedStarts(s: State, c: nat, last: nat)
    requires c > last
    ensures RunReleased(s, c, last, s)
  {
  }

  /** A loop body that unmaps the next page, from whatever sound state it is started in. */
  ghost predicate UnmapsNext(body: (Machine, nat) -> Option<Machine>) {
    forall s: Sound, c: nat {:trigger body(s.m, c), s.l} | c in s.l.pages ::
      exists s': Sound :: NextReleased(s, c, body(s.m, c), s')
  }

  lemma UnmapBodyUnmapsNext()
    ensures UnmapsNext(UnmapBody)
  {
    forall s: Sound, c: nat | c in s.l.pages
      ensures exists s': Sound :: NextReleased(s, c, UnmapBody(s.m, c), s')
    {
      var s' := UnmapPageReleases(s, c);
      assert NextReleased(s, c, UnmapBody(s.m, c), s');
    }
  }

  /** Unmapping a run of owned pages never panics: the pages lead nowhere, their frames are free, and
      nothing else has changed; in particular all tables stay. */
  lemma {:induction false} UnmapRunReleases(body: (Machine, nat) -> Option<Machine>, s: Sound, c: nat, last: nat)
    returns (r: Loop<Machine>, s': Sound)
    requires UnmapsNext(body)
    requires last + 1 < MAX_PAGE && AllOwned(s.l, c, last)
    ensures r == ForPages(body, s.m, c, last) && r == Done(s'.m)
    ensures RunReleased(s, c, last, s')
    decreases last + 1 - c
  {
    if c > last {
      r, s' := Done(s.m), s;
      ReleasedStarts(s, c, last);
    } else {
      assert c in s.l.pages;
      var next := body(s.m, c);
      var s1: Sound :| NextReleased(s, c, next, s1);
      r, s' := UnmapRestReleases(body, s, c, last, s1);
      ForPagesUnfolds(body, s.m, c, last, next, r);
    }
  }

  lemma {:induction false} UnmapRestReleases(
    body: (Machine, nat) -> Option<Machine>, s: Sound, c: nat, last: nat, s1: Sound)
    returns (r: Loop<Machine>, s': Sound)
    requires UnmapsNext(body)
    requires c <= last && last + 1 < MAX_PAGE && AllOwned(s.l, c, last)
    requires NextReleased(s, c, Some(s1.m), s1)
    ensures r == ForPages(body, s1.m, c + 1, last) && r == Done(s'.m)
    ensures RunReleased(s, c, last, s')
    decreases last + 1 - c, 0
  {
    StillOwned(s.l, c, last);
    r, s' := UnmapRunReleases(body, s1, c + 1, last);
    ReleasedSteps(s, c, last, s1, s');
  }

  lemma {:induction false} BlankAt(view: View, c: nat, last: nat, d: nat)
    ensures d in Blank(view, c, last) <==> d in view || c <= d <= last
    ensures c <= d <= last ==> Blank(view, c, last)[d] == Unmapped
    ensures d in view && !(c <= d <= last) ==> Blank(view, c, last)[d] == view[d]
    decreases last + 1 - c
  {
    if c <= last {
      BlankAt(view[c := Unmapped], c + 1, last, d);
    }
  }

  /** Frame `f` is the frame of one of the pages c..=last. */
  predicate OfRun(l: Ledger, c: nat, last: nat, f: Frame) {
    f in l.uses && l.uses[f].PageFrame? && c <= l.uses[f].page <= last
  }

  /** What is left of the ledger: tables as before, pages outside the run, uses other than theirs. */
  lemma {:induction false} DisownRunLeaves(l: Ledger, c: nat, last: nat)
    requires l.PagesKnown() && l.UsesReal()
    ensures var l' := DisownRun(l, c, last);
            && l'.tables == l.tables
            && (forall d: nat :: d in l'.pages <==> d in l.pages && !(c <= d <= last))
            && (forall d: nat | d in l'.pages :: l'.pages[d] == l.pages[d])
            && (forall f :: f in l'.uses <==> f in l.uses && !OfRun(l, c, last, f))
            && (forall f | f in l'.uses :: l'.uses[f] == l.uses[f])
    decreases last + 1 - c
  {
    if c <= last {
      var l1 := if c in l.pages then Disown(l, c) else l;
      DisownRunLeaves(l1, c + 1, last);
    }
  }
}
