/** Physical memory, frame bitmap and cursor together; taking frames, mapping and unmapping one page. */
module Machines {
  import opened Entries
  import opened Pages
  import opened PageTree
  import opened Bitmaps
  import opened RunTables

  /** `base` is the first frame of the pool the bitmap describes; `cursor` is `last_page_alloc`. */
  datatype Machine = Machine(mem: Memory, root: Frame, bits: seq<bool>, base: Frame, cursor: nat)

  predicate InPool(m: Machine, f: Frame) {
    m.base <= f < m.base + |m.bits|
  }

  predicate Marked(m: Machine, f: Frame) {
    InPool(m, f) && m.bits[f - m.base]
  }

  // ----- operations -----

  /** The frame taken, or that none was left. In the latter case the source answers physical address 0
      and carries on; the module RawKernel is about that. */
  datatype Taken = OutOfFrames | Took(m: Machine, frame: Frame)

  /** `allocate_frame` */
  function TakeFrame(m: Machine): Taken {
    match FirstFree(m.bits)
    case None => OutOfFrames
    case Some(i) => Took(m.(bits := m.bits[i := true]), m.base + i)
  }

  /** One level of `map_page_unchecked`: the table below slot `i` of table `t`, created if absent. */
  function EnsureTable(m: Machine, t: Frame, i: nat, flags: Flags): Taken
    requires i < 512
  {
    var e := Read(m.mem, t, i);
    if e.flags.present then Took(m, e.frame)
    else match TakeFrame(m)
      case OutOfFrames => OutOfFrames
      case Took(m1, f) => Took(m1.(mem := Write(m1.mem, t, i, Entry(f, flags))[f := ClearedTable()]), f)
  }

  /** The level-1 table of page `c`, creating whatever is missing below level-3 table `t`. */
  function EnsureFrom3(m: Machine, t: Frame, c: nat, flags: Flags): Taken {
    match EnsureTable(m, t, Index(c, 3), flags)
    case OutOfFrames => OutOfFrames
    case Took(m2, t2) => EnsureTable(m2, t2, Index(c, 2), flags)
  }

  /** The level-1 table of page `c`, creating whatever is missing above it. */
  function EnsurePath(m: Machine, c: nat, flags: Flags): Taken {
    match EnsureTable(m, m.root, Index(c, 4), flags)
    case OutOfFrames => OutOfFrames
    case Took(m3, t3) => EnsureFrom3(m3, t3, c, flags)
  }

  function SetSlot(m: Machine, t: Frame, c: nat, e: Entry): Machine {
    m.(mem := Write(m.mem, t, Index(c, 1), e))
  }

  /** `map_page_unchecked` */
  function MapPage(m: Machine, c: nat, frame: Frame, flags: Flags): Option<Machine> {
    match EnsurePath(m, c, flags)
    case OutOfFrames => None
    case Took(m1, t1) => Some(SetSlot(m1, t1, c, Entry(frame, flags)))
  }

  datatype Freed = Panic | Freed(m: Machine)

  /** `free_frame`; the source panics on a frame outside the bitmap or not marked. */
  function FreeFrame(m: Machine, f: Frame): Freed {
    if Marked(m, f) then Freed(m.(bits := m.bits[f - m.base := false])) else Panic
  }

  /** The body of the loop of `dealloc_pages`. */
  function UnmapPage(m: Machine, c: nat): Freed
    requires c < MAX_PAGE
  {
    match FindEntryMut(m.mem, m.root, c)
    case None => Panic
    case Some(t) =>
      match FreeFrame(m, Read(m.mem, t, Index(c, 1)).frame)
      case Panic => Panic
      case Freed(m1) => Freed(SetSlot(m1, t, c, EMPTY))
  }

  // ----- invariant -----

  /** A machine with the accounts that explain it and the address space it presents. */
  datatype State = State(m: Machine, l: Ledger, view: View)

  /** The marked frames of the pool are exactly those in use; since every frame in use has one use,
      tables, owned pages and held frames never overlap. Only tables may lie outside the pool. */
  ghost predicate BitsMatch(m: Machine, l: Ledger) {
    && (forall f {:trigger Marked(m, f)} | InPool(m, f) :: Marked(m, f) <==> f in l.uses)
    && (forall f | f in l.uses && !l.uses[f].TableFrame? :: InPool(m, f))
  }

  /** Every owned page leads to its frame, readable and writable. */
  ghost predicate PagesMapped(view: View, l: Ledger) {
    forall c | c in l.pages :: c in view && view[c] == Leaf(1, Entry(l.pages[c], RW))
  }

  ghost predicate Core(s: State) {
    && s.m.base + |s.m.bits| <= FRAME_LIMIT
    && IsTree(s.m.mem, s.m.root, s.l)
    && s.l.PagesKnown()
    && s.l.UsesReal()
    && ViewIs(s.view, s.m.mem, s.m.root)
    && PagesMapped(s.view, s.l)
    && BitsMatch(s.m, s.l)
  }

  type Sound = s: State | Core(s)
    ghost witness NoPages()

  /** The address space in which every page leads nowhere. */
  ghost function BlankView(): (v: View)
    ensures forall c: nat :: c in v <==> c < MAX_PAGE
    ensures forall c | c in v :: v[c] == Unmapped
  {
    map c: nat | c < MAX_PAGE && Canonical(c) == c :: Unmapped
  }

  /** A machine that maps nothing and owns no frame. */
  ghost function NoPages(): (s: State)
    ensures Core(s) && FreeCount(s.m.bits) == 0
  {
    var m := Machine(map[], 0, [], 1, 1);
    assert FreeSet(m.bits) == {};
    State(m, Ledger(map[ROOT := 0], map[], map[0 := TableFrame(ROOT)]), BlankView())
  }

  /** Same pool, root and cursor. */
  predicate SameFrame(m: Machine, m': Machine) {
    m'.root == m.root && m'.base == m.base && |m'.bits| == |m.bits| && m'.cursor == m.cursor
  }

  /** The page is not covered by a large page. */
  predicate Mappable(view: View, c: nat) {
    c in view && (view[c].Leaf? ==> view[c].level == 1)
  }

  /** A state whose parts have been checked one by one. */
  lemma Account(m: Machine, l: Ledger, view: View) returns (s: Sound)
    requires m.base + |m.bits| <= FRAME_LIMIT
    requires IsTree(m.mem, m.root, l) && l.PagesKnown() && l.UsesReal()
    requires ViewIs(view, m.mem, m.root) && PagesMapped(view, l)
    requires BitsMatch(m, l)
    ensures s == State(m, l, view)
  {
    s := State(m, l, view);
  }

  /** The view holds every page, and says where it leads. */
  lemma ViewAt(s: Sound, c: nat)
    requires c in s.view || c < MAX_PAGE
    ensures c in s.view && c < MAX_PAGE && s.view[c] == Walk(s.m.mem, s.m.root, c)
  {
  }

  // ----- taking a frame -----

  function Hold(l: Ledger, f: Frame): Ledger {
    l.(uses := l.uses[f := HeldFrame])
  }

  lemma HoldKeepsBits(m: Machine, m': Machine, l: Ledger, f: Frame)
    requires BitsMatch(m, l) && InPool(m, f) && !Marked(m, f)
    requires m'.base == m.base && m'.bits == m.bits[f - m.base := true]
    ensures f !in l.uses && BitsMatch(m', Hold(l, f))
  {
    forall g | InPool(m', g)
      ensures Marked(m', g) <==> g in Hold(l, f).uses
    {
      assert InPool(m, g) && (Marked(m, g) <==> g in l.uses);
    }
  }

  lemma HoldKeepsLedger(mem: Memory, root: Frame, l: Ledger, f: Frame)
    requires IsTree(mem, root, l) && l.PagesKnown() && l.UsesReal() && f !in l.uses
    ensures IsTree(mem, root, Hold(l, f)) && Hold(l, f).PagesKnown() && Hold(l, f).UsesReal()
  {
    forall n, i | n in l.tables && n.level >= 2 && 0 <= i < 512
      ensures LinkOk(mem, Hold(l, f), n, i)
    {
      assert LinkOk(mem, l, n, i);
    }
  }

  /** Marking an unmarked frame of the pool and holding it. */
  lemma HoldFrame(s: Sound, m1: Machine, f: Frame) returns (s': Sound)
    requires InPool(s.m, f) && !Marked(s.m, f)
    requires m1 == s.m.(bits := s.m.bits[f - s.m.base := true])
    ensures f !in s.l.uses && s' == State(m1, Hold(s.l, f), s.view)
    ensures FreeCount(m1.bits) == FreeCount(s.m.bits) - 1
  {
    MarkOne(s.m.bits, f - s.m.base);
    HoldKeepsBits(s.m, m1, s.l, f);
    HoldKeepsLedger(s.m.mem, s.m.root, s.l, f);
    s' := Account(m1, Hold(s.l, f), s.view);
  }

  /** `allocate_frame` fails exactly when nothing is free; otherwise it marks one frame that had no
      use before. */
  lemma TakeFrameHolds(s: Sound) returns (r: Taken, s': Sound)
    ensures r == TakeFrame(s.m)
    ensures match r
            case OutOfFrames => FreeCount(s.m.bits) == 0
            case Took(m1, f) =>
              && f !in s.l.uses
              && s' == State(m1, Hold(s.l, f), s.view)
              && SameFrame(s.m, m1) && m1.mem == s.m.mem
              && FreeCount(m1.bits) == FreeCount(s.m.bits) - 1
  {
    s' := s;
    r := TakeFrame(s.m);
    NoneFree(s.m.bits);
    match r
    case OutOfFrames =>
    case Took(m1, f) =>
      s' := HoldFrame(s, m1, f);
  }

  // ----- one table -----

  lemma AddTableKeepsBits(m: Machine, m': Machine, l: Ledger, n: Node, f: Frame)
    requires BitsMatch(m, l) && f in l.uses && m'.base == m.base && m'.bits == m.bits
    ensures BitsMatch(m', l.AddTable(n, f))
  {
    forall g | InPool(m', g)
      ensures Marked(m', g) <==> g in l.AddTable(n, f).uses
    {
      assert InPool(m, g) && (Marked(m, g) <==> g in l.uses);
    }
  }

  lemma AddTableKeepsUses(l: Ledger, n: Node, f: Frame)
    requires l.PagesKnown() && l.UsesReal() && l.Holds(f) && n !in l.tables
    ensures l.AddTable(n, f).PagesKnown() && l.AddTable(n, f).UsesReal()
  {
  }

  /** A held frame becomes the cleared child table of an empty slot. */
  lemma LinkFresh(s: Sound, n: Node, i: nat, f: Frame, flags: Flags) returns (s': Sound)
    requires n in s.l.tables && n.level >= 2 && i < 512
    requires !Read(s.m.mem, s.l.tables[n], i).flags.present && s.l.Holds(f)
    requires LinkFlags(flags)
    ensures var m' := s.m.(mem := Write(s.m.mem, s.l.tables[n], i, Entry(f, flags))[f := ClearedTable()]);
            s' == State(m', s.l.AddTable(Child(n, i), f), s.view)
  {
    assert LinkOk(s.m.mem, s.l, n, i);
    LinkTable(s.m.mem, s.m.root, s.l, s.view, n, i, f, flags);
    var m' := s.m.(mem := Write(s.m.mem, s.l.tables[n], i, Entry(f, flags))[f := ClearedTable()]);
    AddTableKeepsBits(s.m, m', s.l, Child(n, i), f);
    AddTableKeepsUses(s.l, Child(n, i), f);
    s' := Account(m', s.l.AddTable(Child(n, i), f), s.view);
  }

  lemma AddAgain(l: Ledger, n: Node)
    requires l.TablesKnown() && n in l.tables
    ensures l.AddTable(n, l.tables[n]) == l
  {
    assert l.tables[n := l.tables[n]] == l.tables;
    assert l.uses[l.tables[n] := TableFrame(n)] == l.uses;
  }

  lemma AddHeld(l: Ledger, n: Node, f: Frame)
    ensures Hold(l, f).AddTable(n, f) == l.AddTable(n, f)
  {
    assert l.uses[f := HeldFrame][f := TableFrame(n)] == l.uses[f := TableFrame(n)];
  }

  /** `EnsureTable` at a slot that holds no large page: afterwards the child table exists, the only
      frame newly marked is that of a created table, and no translation has changed. */
  lemma EnsureTableKeeps(s: Sound, n: Node, i: nat, flags: Flags) returns (r: Taken, s': Sound)
    requires n in s.l.tables && n.level >= 2 && i < 512
    requires Child(n, i) in s.l.tables || LinkFlags(flags)
    requires var e := Read(s.m.mem, s.l.tables[n], i);
             !(n.level == 2 && e.flags.present && e.flags.huge)
    ensures r == EnsureTable(s.m, s.l.tables[n], i, flags)
    ensures match r
            case OutOfFrames => Child(n, i) !in s.l.tables && FreeCount(s.m.bits) == 0
            case Took(m', f) =>
              && s' == State(m', s.l.AddTable(Child(n, i), f), s.view)
              && (Child(n, i) in s.l.tables ==> f == s.l.tables[Child(n, i)])
              && (f in s.l.uses ==> s.l.uses[f] == TableFrame(Child(n, i)))
              && SameFrame(s.m, m')
              && FreeCount(m'.bits) == FreeCount(s.m.bits) - (if Child(n, i) in s.l.tables then 0 else 1)
  {
    s' := s;
    r := EnsureTable(s.m, s.l.tables[n], i, flags);
    assert LinkOk(s.m.mem, s.l, n, i);
    if Read(s.m.mem, s.l.tables[n], i).flags.present {
      AddAgain(s.l, Child(n, i));
    } else {
      var r1, s1 := TakeFrameHolds(s);
      match r1
      case OutOfFrames =>
      case Took(m1, f) =>
        AddHeld(s.l, Child(n, i), f);
        s' := LinkFresh(s1, n, i, f, flags);
    }
  }

  // ----- one path -----

  /** How many tables of page `c` strictly below the given level do not exist. */
  function MissingBelow(l: Ledger, c: nat, level: nat): nat {
    if level <= 1 then 0
    else (if NodeOf(c, level - 1) in l.tables then 0 else 1) + MissingBelow(l, c, level - 1)
  }

  function Missing(l: Ledger, c: nat): nat {
    MissingBelow(l, c, 4)
  }

  /** Table `n` exists afterwards if it did before, then in the same frame, or if it is on the path. */
  predicate Gained(l: Ledger, l': Ledger, c: nat, level: nat, n: Node) {
    && (n in l'.tables <==> n in l.tables || OnPath(c, level, n))
    && (n in l.tables ==> l'.tables[n] == l.tables[n])
  }

  /** The tables gained are those of page `c` that were missing. */
  ghost predicate GainsPath(l: Ledger, l': Ledger, c: nat) {
    forall n {:trigger Gained(l, l', c, 4, n)} :: Gained(l, l', c, 4, n)
  }

  /** The ledger keeps everything and gains the tables on the path of `c` below the given level. */
  ghost predicate Grows(l: Ledger, l': Ledger, c: nat, level: nat) {
    && (forall n {:trigger Gained(l, l', c, level, n)} :: Gained(l, l', c, level, n))
    && l'.pages == l.pages
    && (forall f {:trigger KeepsUse(l, l', f)} | f in l.uses :: KeepsUse(l, l', f))
    && (forall f {:trigger NewTable(l, l', f)} | f in l'.uses && f !in l.uses :: NewTable(l, l', f))
  }

  predicate NewTable(l: Ledger, l': Ledger, f: Frame) {
    f !in l.uses && f in l'.uses && l'.uses[f].TableFrame?
  }

  predicate KeepsUse(l: Ledger, l': Ledger, f: Frame) {
    f in l.uses && f in l'.uses && l'.uses[f] == l.uses[f]
  }

  lemma {:induction false} MissingBelowAdd(l: Ledger, c: nat, level: nat, n: Node, f: Frame)
    requires n.level >= level
    ensures MissingBelow(l.AddTable(n, f), c, level) == MissingBelow(l, c, level)
  {
    if level > 1 {
      MissingBelowAdd(l, c, level - 1, n, f);
    }
  }

  lemma GrowsStep(l: Ledger, c: nat, level: nat, f: Frame, l': Ledger)
    requires level >= 2
    requires NodeOf(c, level - 1) in l.tables ==> l.tables[NodeOf(c, level - 1)] == f
    requires f in l.uses ==> l.uses[f] == TableFrame(NodeOf(c, level - 1))
    requires Grows(l.AddTable(NodeOf(c, level - 1), f), l', c, level - 1)
    ensures Grows(l, l', c, level)
  {
    var l1 := l.AddTable(NodeOf(c, level - 1), f);
    forall n
      ensures Gained(l, l', c, level, n)
    {
      assert Gained(l1, l', c, level - 1, n);
      assert n in l1.tables <==> n in l.tables || n == NodeOf(c, level - 1);
    }
    forall g | g in l.uses
      ensures KeepsUse(l, l', g)
    {
      assert KeepsUse(l1, l', g);
    }
    forall g | g in l'.uses && g !in l.uses
      ensures NewTable(l, l', g)
    {
      if g in l1.uses {
        assert KeepsUse(l1, l', g);
      } else {
        assert NewTable(l1, l', g);
      }
    }
  }

  /** What a descent towards page `c` from its table of the given level achieves. */
  ghost predicate Descended(s: State, c: nat, level: nat, r: Taken, s': State) {
    match r
    case OutOfFrames => FreeCount(s.m.bits) < MissingBelow(s.l, c, level)
    case Took(m', t) =>
      && s'.m == m' && SameFrame(s.m, m') && s'.view == s.view
      && FreeCount(m'.bits) == FreeCount(s.m.bits) - MissingBelow(s.l, c, level)
      && Grows(s.l, s'.l, c, level)
      && NodeOf(c, 1) in s'.l.tables && s'.l.tables[NodeOf(c, 1)] == t
  }

  /** What one level of the descent achieves. */
  ghost predicate LevelEnsured(s: State, c: nat, level: nat, r: Taken, s': State)
    requires level >= 2
  {
    match r
    case OutOfFrames => NodeOf(c, level - 1) !in s.l.tables && FreeCount(s.m.bits) == 0
    case Took(m', f) =>
      && s' == State(m', s.l.AddTable(NodeOf(c, level - 1), f), s.view)
      && (NodeOf(c, level - 1) in s.l.tables ==> s.l.tables[NodeOf(c, level - 1)] == f)
      && (f in s.l.uses ==> s.l.uses[f] == TableFrame(NodeOf(c, level - 1)))
      && SameFrame(s.m, m')
      && FreeCount(m'.bits) == FreeCount(s.m.bits) - (if NodeOf(c, level - 1) in s.l.tables then 0 else 1)
  }

  lemma DescentEnds(s: State, c: nat, r: Taken, s': State)
    requires LevelEnsured(s, c, 2, r, s')
    ensures Descended(s, c, 2, r, s')
  {
    MissingBelowAdd(s.l, c, 1, NodeOf(c, 1), 0);
    if r.Took? {
      GrowsStep(s.l, c, 2, r.frame, s'.l);
    }
  }

  lemma DescentSteps(s: State, c: nat, level: nat, r1: Taken, s1: State, r: Taken, s': State)
    requires level >= 2 && LevelEnsured(s, c, level, r1, s1)
    requires r1.OutOfFrames? ==> r == OutOfFrames
    requires r1.Took? ==> Descended(s1, c, level - 1, r, s')
    ensures Descended(s, c, level, r, s')
  {
    if r1.Took? {
      MissingBelowAdd(s.l, c, level - 1, NodeOf(c, level - 1), r1.frame);
      if r.Took? {
        GrowsStep(s.l, c, level, r1.frame, s'.l);
      }
    }
  }

  /** One level of the descent towards page `c`. */
  lemma EnsureLevelKeeps(s: Sound, c: nat, level: nat, flags: Flags) returns (r: Taken, s': Sound)
    requires Mappable(s.view, c)
    requires 2 <= level <= 4 && NodeOf(c, level) in s.l.tables
    requires NodeOf(c, level - 1) in s.l.tables || LinkFlags(flags)
    ensures r == EnsureTable(s.m, s.l.tables[NodeOf(c, level)], Index(c, level), flags)
    ensures LevelEnsured(s, c, level, r, s')
  {
    ChildOnPath(c, level);
    assert s.view[c] == Walk(s.m.mem, s.m.root, c);
    NoLargePage(s.m.mem, s.m.root, s.l, c, level);
    r, s' := EnsureTableKeeps(s, NodeOf(c, level), Index(c, level), flags);
  }

  lemma EnsureFrom3Keeps(s: Sound, c: nat, flags: Flags) returns (r: Taken, s': Sound)
    requires Mappable(s.view, c) && NodeOf(c, 3) in s.l.tables
    requires NodeOf(c, 1) in s.l.tables || LinkFlags(flags)
    ensures r == EnsureFrom3(s.m, s.l.tables[NodeOf(c, 3)], c, flags)
    ensures Descended(s, c, 3, r, s')
  {
    PathClosed(s.m.mem, s.m.root, s.l, c);
    var r1, s1 := EnsureLevelKeeps(s, c, 3, flags);
    if r1.OutOfFrames? {
      r, s' := OutOfFrames, s;
    } else {
      r, s' := EnsureLevelKeeps(s1, c, 2, flags);
      DescentEnds(s1, c, r, s');
    }
    DescentSteps(s, c, 3, r1, s1, r, s');
  }

  lemma EnsurePathKeeps(s: Sound, c: nat, flags: Flags) returns (r: Taken, s': Sound)
    requires Mappable(s.view, c)
    requires NodeOf(c, 1) in s.l.tables || LinkFlags(flags)
    ensures r == EnsurePath(s.m, c, flags)
    ensures Descended(s, c, 4, r, s')
  {
    PathClosed(s.m.mem, s.m.root, s.l, c);
    var r1, s1 := EnsureLevelKeeps(s, c, 4, flags);
    if r1.OutOfFrames? {
      r, s' := OutOfFrames, s;
    } else {
      r, s' := EnsureFrom3Keeps(s1, c, flags);
    }
    DescentSteps(s, c, 4, r1, s1, r, s');
  }

  // ----- one page -----

  /** Where a page leads whose level-1 entry is `e`. */
  function LeafOf(e: Entry): Translation {
    if e.flags.present then Leaf(1, e) else Unmapped
  }

  /** `map_page_unchecked` on any page not covered by a large page, with flags that can link the tables
      to create, if any: it runs out of frames exactly when fewer frames are free than tables missing;
      otherwise the page leads to exactly the given frame and flags and every other page leads where it
      led, whichever tables were created. Frames from the limit on have no address to store. */
  lemma MapPageTranslates(s: Sound, c: nat, frame: Frame, flags: Flags) returns (r: Option<Machine>, l': Ledger)
    requires Mappable(s.view, c) && frame < FRAME_LIMIT
    requires NodeOf(c, 1) in s.l.tables || LinkFlags(flags)
    ensures r == MapPage(s.m, c, frame, flags)
    ensures match r
            case None => FreeCount(s.m.bits) < Missing(s.l, c)
            case Some(m') =>
              && SameFrame(s.m, m')
              && ViewIs(s.view[c := LeafOf(Entry(frame, flags))], m'.mem, m'.root)
              && FreeCount(m'.bits) == FreeCount(s.m.bits) - Missing(s.l, c)
              && Grows(s.l, l', c, 4)
              && IsTree(m'.mem, m'.root, l') && l'.PagesKnown() && l'.UsesReal()
              && BitsMatch(m', l')
  {
    r := MapPage(s.m, c, frame, flags);
    var path, s1 := EnsurePathKeeps(s, c, flags);
    l' := s1.l;
    match path
    case OutOfFrames =>
    case Took(m1, t1) =>
      SetLeaf(m1.mem, m1.root, l', s.view, c, Entry(frame, flags));
      SameBits(m1, r.value, l');
  }

  lemma SameBits(m: Machine, m': Machine, l: Ledger)
    requires BitsMatch(m, l) && m'.base == m.base && m'.bits == m.bits
    ensures BitsMatch(m', l)
  {
    forall g | InPool(m', g)
      ensures Marked(m', g) <==> g in l.uses
    {
      assert InPool(m, g) && (Marked(m, g) <==> g in l.uses);
    }
  }

  /** Page `c` owns frame `f` from now on; a frame it owned before is held. */
  function Own(l: Ledger, c: nat, f: Frame): Ledger {
    var freed := if c in l.pages then l.uses[l.pages[c] := HeldFrame] else l.uses;
    l.(pages := l.pages[c := f], uses := freed[f := PageFrame(c)])
  }

  lemma OwnKeeps(mem: Memory, root: Frame, l: Ledger, view: View, c: nat, f: Frame)
    requires IsTree(mem, root, l) && l.PagesKnown() && l.UsesReal() && PagesMapped(view, l) && l.Holds(f)
    ensures IsTree(mem, root, Own(l, c, f)) && Own(l, c, f).PagesKnown() && Own(l, c, f).UsesReal()
    ensures PagesMapped(view[c := Leaf(1, Entry(f, RW))], Own(l, c, f))
  {
    forall n, i | n in l.tables && n.level >= 2 && 0 <= i < 512
      ensures LinkOk(mem, Own(l, c, f), n, i)
    {
      assert LinkOk(mem, l, n, i);
    }
  }

  lemma OwnKeepsBits(m: Machine, l: Ledger, c: nat, f: Frame)
    requires BitsMatch(m, l) && l.PagesKnown() && l.Holds(f)
    ensures BitsMatch(m, Own(l, c, f))
  {
  }

  /** All uses are kept but those of the frame handed to page `c` and of the frame `c` gives up. */
  ghost predicate Transfers(l: Ledger, l': Ledger, c: nat, f: Frame) {
    && (forall g {:trigger KeepsUse(l, l', g)} | g in l.uses && g != f && !(c in l.pages && g == l.pages[c]) ::
          KeepsUse(l, l', g))
    && (forall g {:trigger NewTable(l, l', g)} | g in l'.uses && g !in l.uses :: NewTable(l, l', g))
  }

  lemma GrowsThenOwns(l: Ledger, l1: Ledger, c: nat, f: Frame)
    requires Grows(l, l1, c, 4) && l.Holds(f) && l.PagesKnown() && l1.PagesKnown()
    ensures l1.Holds(f)
    ensures Transfers(l, Own(l1, c, f), c, f)
    ensures c in l.pages ==> Own(l1, c, f).Holds(l.pages[c])
    ensures GainsPath(l, Own(l1, c, f), c)
  {
    var l' := Own(l1, c, f);
    forall n
      ensures Gained(l, l', c, 4, n)
    {
      assert Gained(l, l1, c, 4, n);
    }
    assert KeepsUse(l, l1, f);
    forall g | g in l.uses && g != f && !(c in l.pages && g == l.pages[c])
      ensures KeepsUse(l, l', g)
    {
      assert KeepsUse(l, l1, g);
    }
    forall g | g in l'.uses && g !in l.uses
      ensures NewTable(l, l', g)
    {
      assert NewTable(l, l1, g);
    }
  }

  /** What mapping the held frame `frame` to page `c` achieves. */
  ghost predicate PageOwned(s: State, c: nat, frame: Frame, r: Option<Machine>, s': State) {
    match r
    case None => FreeCount(s.m.bits) < Missing(s.l, c)
    case Some(m') =>
      && s'.m == m' && SameFrame(s.m, m')
      && s'.view == s.view[c := Leaf(1, Entry(frame, RW))]
      && s'.l.pages == s.l.pages[c := frame]
      && (c in s.l.pages ==> s'.l.Holds(s.l.pages[c]))
      && Transfers(s.l, s'.l, c, frame)
      && GainsPath(s.l, s'.l, c)
      && FreeCount(m'.bits) == FreeCount(s.m.bits) - Missing(s.l, c)
  }

  /** Mapping a held frame hands it over to the page. A frame the page owned before stays marked
      but belongs to no page any more. */
  lemma MapPageOwns(s: Sound, c: nat, frame: Frame) returns (r: Option<Machine>, s': Sound)
    requires Mappable(s.view, c) && s.l.Holds(frame)
    ensures r == MapPage(s.m, c, frame, RW)
    ensures PageOwned(s, c, frame, r, s')
  {
    s' := s;
    var l1: Ledger;
    r, l1 := MapPageTranslates(s, c, frame, RW);
    match r
    case None =>
    case Some(m') =>
      GrowsThenOwns(s.l, l1, c, frame);
      OwnKeeps(m'.mem, m'.root, l1, s.view, c, frame);
      OwnKeepsBits(m', l1, c, frame);
      s' := Account(m', Own(l1, c, frame), s.view[c := Leaf(1, Entry(frame, RW))]);
  }

  // ----- unmapping one page -----

  function Disown(l: Ledger, c: nat): Ledger
    requires c in l.pages
  {
    l.(pages := l.pages - {c}, uses := l.uses - {l.pages[c]})
  }

  lemma DisownKeeps(mem: Memory, root: Frame, l: Ledger, view: View, c: nat)
    requires IsTree(mem, root, l) && l.PagesKnown() && l.UsesReal() && PagesMapped(view, l) && c in l.pages
    ensures IsTree(mem, root, Disown(l, c)) && Disown(l, c).PagesKnown() && Disown(l, c).UsesReal()
    ensures PagesMapped(view[c := Unmapped], Disown(l, c))
  {
    forall n, i | n in l.tables && n.level >= 2 && 0 <= i < 512
      ensures LinkOk(mem, Disown(l, c), n, i)
    {
      assert LinkOk(mem, l, n, i);
    }
  }

  lemma DisownKeepsBits(m: Machine, m': Machine, l: Ledger, c: nat)
    requires BitsMatch(m, l) && l.PagesKnown() && c in l.pages && Marked(m, l.pages[c])
    requires m'.base == m.base && m'.bits == m.bits[l.pages[c] - m.base := false]
    ensures BitsMatch(m', Disown(l, c))
  {
    forall g | InPool(m', g)
      ensures Marked(m', g) <==> g in Disown(l, c).uses
    {
      assert InPool(m, g) && (Marked(m, g) <==> g in l.uses);
    }
  }

  /** An owned page leads to its frame, which is one of the pool. */
  lemma OwnedLeads(s: Sound, c: nat)
    requires c in s.l.pages
    ensures InPool(s.m, s.l.pages[c]) && c in s.view && s.view[c] == Leaf(1, Entry(s.l.pages[c], RW))
  {
  }

  lemma OwnedSlot(s: Sound, c: nat)
    requires c in s.l.pages
    ensures c < MAX_PAGE && NodeOf(c, 1) in s.l.tables
    ensures Marked(s.m, s.l.pages[c])
    ensures FindEntryMut(s.m.mem, s.m.root, c) == Some(s.l.tables[NodeOf(c, 1)])
    ensures Read(s.m.mem, s.l.tables[NodeOf(c, 1)], Index(c, 1)).frame == s.l.pages[c]
  {
    assert s.view[c] == Walk(s.m.mem, s.m.root, c);
    WalkIsShapeWalk(s.m.mem, s.m.root, s.l, c);
    LookupsFollowShape(s.m.mem, s.m.root, s.l, c);
  }

  lemma UnmapPageUnfolds(m: Machine, c: nat, t: Frame, f: Frame)
    requires c < MAX_PAGE && FindEntryMut(m.mem, m.root, c) == Some(t)
    requires Read(m.mem, t, Index(c, 1)).frame == f && Marked(m, f)
    ensures UnmapPage(m, c) == Freed(SetSlot(m.(bits := m.bits[f - m.base := false]), t, c, EMPTY))
  {
  }

  /** Unmapping an owned page never panics; it releases exactly the page's frame and makes exactly
      that page lead nowhere. No table is freed. */
  lemma UnmapPageReleases(s: Sound, c: nat) returns (s': Sound)
    requires c in s.l.pages
    ensures c < MAX_PAGE
    ensures UnmapPage(s.m, c) == Freed(s'.m)
    ensures s'.l == Disown(s.l, c)
    ensures SameFrame(s.m, s'.m)
    ensures s'.view == s.view[c := Unmapped]
    ensures FreeCount(s'.m.bits) == FreeCount(s.m.bits) + 1
  {
    OwnedSlot(s, c);
    var f := s.l.pages[c];
    var t := s.l.tables[NodeOf(c, 1)];
    UnmapPageUnfolds(s.m, c, t, f);
    var m' := SetSlot(s.m.(bits := s.m.bits[f - s.m.base := false]), t, c, EMPTY);
    SetLeaf(s.m.mem, s.m.root, s.l, s.view, c, EMPTY);
    ClearOne(s.m.bits, f - s.m.base);
    DisownKeeps(m'.mem, m'.root, s.l, s.view, c);
    DisownKeepsBits(s.m, m', s.l, c);
    s' := Account(m', Disown(s.l, c), s.view[c := Unmapped]);
  }

  /** Frames that hold no table may be scribbled on. */
  lemma ScribbleKeeps(s: Sound, f: Frame, row: Table) returns (s': Sound)
    requires !s.l.HoldsTable(f)
    ensures s' == State(s.m.(mem := s.m.mem[f := row]), s.l, s.view)
  {
    WriteElsewhere(s.m.mem, s.m.root, s.l, s.view, f, row);
    var m' := s.m.(mem := s.m.mem[f := row]);
    SameBits(s.m, m', s.l);
    s' := Account(m', s.l, s.view);
  }
}
