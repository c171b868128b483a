/** The four-level page table in physical memory: the code's lookups, the processor's walk, and
    what it means for the table frames to form a tree. */
module PageTree {
  import opened Entries
  import opened Pages

  type Table = t: seq<Entry> | |t| == 512 witness seq(512, _ => EMPTY)

  /** Physical memory as the page tables see it: 512 entries per frame. Frames outside the map
      read as cleared; frames inside it may hold anything. */
  type Memory = map<Frame, Table>

  function ClearedTable(): (t: Table)
    ensures forall i | 0 <= i < 512 :: t[i] == EMPTY
  {
    seq(512, _ => EMPTY)
  }

  function Row(mem: Memory, f: Frame): Table {
    if f in mem then mem[f] else ClearedTable()
  }

  function Read(mem: Memory, f: Frame, i: nat): Entry
    requires i < 512
  {
    Row(mem, f)[i]
  }

  function Write(mem: Memory, f: Frame, i: nat, e: Entry): Memory
    requires i < 512
  {
    mem[f := Row(mem, f)[i := e]]
  }

  // ----- the code's lookups -----

  datatype PageEntry = HugePage | LevelNotPresent(level: nat) | Slot(table: Frame, index: nat)

  /** `page_entry`: note that HUGE_PAGE is tested at level 2 only, and before PRESENT. */
  function FindEntry(mem: Memory, root: Frame, c: nat): (r: PageEntry)
    requires c < MAX_PAGE
    ensures r.Slot? ==> r.index < 512
  {
    var e4 := Read(mem, root, Index(c, 4));
    if !e4.flags.present then LevelNotPresent(4) else
    var e3 := Read(mem, e4.frame, Index(c, 3));
    if !e3.flags.present then LevelNotPresent(3) else
    var e2 := Read(mem, e3.frame, Index(c, 2));
    if e2.flags.huge then HugePage else
    if !e2.flags.present then LevelNotPresent(2) else
    Slot(e2.frame, Index(c, 1))
  }

  /** `page_entry_mut`: no test of HUGE_PAGE at all. */
  function FindEntryMut(mem: Memory, root: Frame, c: nat): (r: Option<Frame>)
    requires c < MAX_PAGE
  {
    var e4 := Read(mem, root, Index(c, 4));
    if !e4.flags.present then None else
    var e3 := Read(mem, e4.frame, Index(c, 3));
    if !e3.flags.present then None else
    var e2 := Read(mem, e3.frame, Index(c, 2));
    if !e2.flags.present then None else
    Some(e2.frame)
  }

  predicate IsPresent(mem: Memory, root: Frame, c: nat)
    requires c < MAX_PAGE
  {
    match FindEntry(mem, root, c)
    case Slot(t, i) => Read(mem, t, i).flags.present
    case HugePage => true
    case LevelNotPresent(_) => false
  }

  // ----- the processor's walk -----

  /** Where a page leads: nowhere, or to the leaf entry found at some level. */
  datatype Translation = Unmapped | Leaf(level: nat, entry: Entry)

  /** 4-level paging as the processor performs it: levels 3 and 2 may hold large-page leaves. */
  function WalkFrom(mem: Memory, table: Frame, level: nat, c: nat): Translation
    requires c < MAX_PAGE && 1 <= level <= 4
    decreases level
  {
    var e := Read(mem, table, Index(c, level));
    if !e.flags.present then Unmapped
    else if level == 1 || (e.flags.huge && level <= 3) then Leaf(level, e)
    else WalkFrom(mem, e.frame, level - 1, c)
  }

  function Walk(mem: Memory, root: Frame, c: nat): Translation
    requires c < MAX_PAGE
  {
    WalkFrom(mem, root, 4, c)
  }

  /** The whole address space: where every page leads. */
  type View = map<nat, Translation>

  ghost predicate ViewIs(view: View, mem: Memory, root: Frame) {
    && (forall c: nat :: c in view <==> c < MAX_PAGE)
    && (forall c: nat {:trigger Walk(mem, root, c)} | c < MAX_PAGE :: view[c] == Walk(mem, root, c))
  }

  // ----- tree shape -----

  /** The table of a given level that serves the pages whose number starts with `prefix`. */
  datatype Node = Node(level: nat, prefix: nat)

  /** What a frame is used for: a table, a page of a live allocation, or held by the operation
      under way. */
  datatype Use = TableFrame(node: Node) | PageFrame(page: nat) | HeldFrame

  /** The accounts of a machine: where each table is, which frame each page of a live allocation
      owns, and what each frame in use is used for. */
  datatype Ledger = Ledger(tables: map<Node, Frame>, pages: map<nat, Frame>, uses: map<Frame, Use>) {
    predicate HoldsTable(f: Frame) {
      f in uses && uses[f].TableFrame?
    }

    predicate Holds(f: Frame) {
      f in uses && uses[f].HeldFrame?
    }

    /** Every table is the sole use of its frame. */
    ghost predicate TablesKnown() {
      forall n | n in tables :: tables[n] in uses && uses[tables[n]] == TableFrame(n)
    }

    /** Every owned page is the sole use of its frame. */
    ghost predicate PagesKnown() {
      forall c | c in pages :: pages[c] in uses && uses[pages[c]] == PageFrame(c)
    }

    /** Every use is that of an existing table or owned page, or a held frame. */
    ghost predicate UsesReal() {
      forall f | f in uses ::
        match uses[f]
        case TableFrame(n) => n in tables && tables[n] == f
        case PageFrame(c) => c in pages && pages[c] == f
        case HeldFrame => true
    }

    function AddTable(n: Node, f: Frame): Ledger {
      Ledger(tables[n := f], pages, uses[f := TableFrame(n)])
    }
  }

  const ROOT := Node(4, 0)

  function NodeOf(c: nat, level: nat): Node {
    Node(level, Prefix(c, level))
  }

  function Child(n: Node, i: nat): Node
    requires n.level >= 1
  {
    Node(n.level - 1, n.prefix * 512 + i)
  }

  function Parent(n: Node): Node {
    Node(n.level + 1, n.prefix / 512)
  }

  /** An entry of a level-2, 3 or 4 table that points to another table. */
  predicate IsLink(level: nat, e: Entry) {
    e.flags.present && !(level == 2 && e.flags.huge)
  }

  /** Slot `i` of table `n` agrees with the shape: it links to the child table, or there is none. */
  predicate LinkOk(mem: Memory, at: Ledger, n: Node, i: nat)
    requires n in at.tables && n.level >= 1 && i < 512
  {
    var e := Read(mem, at.tables[n], i);
    && (Child(n, i) in at.tables <==> IsLink(n.level, e))
    && (IsLink(n.level, e) ==> at.tables[Child(n, i)] == e.frame)
    && (n.level >= 3 && e.flags.present ==> !e.flags.huge)
  }

  /** The tables form a tree: every table is the target of exactly one slot, and no two tables
      share a frame. Level-3 slots hold no 1 GiB leaf, which the code would take for a table. */
  ghost predicate IsTree(mem: Memory, root: Frame, at: Ledger) {
    && ROOT in at.tables && at.tables[ROOT] == root
    && (forall n | n in at.tables :: 1 <= n.level <= 4 && (n.level == 4 ==> n == ROOT))
    && (forall n | n in at.tables && n != ROOT :: Parent(n) in at.tables)
    && at.TablesKnown()
    && (forall n, i | n in at.tables && n.level >= 2 && 0 <= i < 512 :: LinkOk(mem, at, n, i))
  }

  // ----- arithmetic of paths -----

  lemma ChildOnPath(c: nat, level: nat)
    requires level >= 1
    ensures Child(NodeOf(c, level), Index(c, level)) == NodeOf(c, level - 1)
    ensures Parent(NodeOf(c, level - 1)) == NodeOf(c, level)
  {
  }

  lemma RootOnPath(c: nat)
    requires c < MAX_PAGE
    ensures NodeOf(c, 4) == ROOT
  {
    IndicesAsComputed(c);
  }

  lemma ParentOfChild(n: Node, i: nat)
    requires n.level >= 1 && i < 512
    ensures Parent(Child(n, i)) == n
    ensures Child(n, i).prefix % 512 == i
  {
  }

  lemma ChildInjective(n: Node, i: nat, m: Node, j: nat)
    requires n.level >= 1 && m.level >= 1 && i < 512 && j < 512
    requires Child(n, i) == Child(m, j)
    ensures n == m && i == j
  {
    ParentOfChild(n, i);
    ParentOfChild(m, j);
  }

  lemma SlotDeterminesPage(c: nat, d: nat)
    requires NodeOf(c, 1) == NodeOf(d, 1) && Index(c, 1) == Index(d, 1)
    ensures c == d
  {
  }

  // ----- the walk, read off the shape -----

  /** The walk of a page in terms of the deepest table on its path. */
  function ShapeWalk(mem: Memory, at: Ledger, c: nat): Translation
    requires c < MAX_PAGE
  {
    if NodeOf(c, 1) in at.tables then
      var e := Read(mem, at.tables[NodeOf(c, 1)], Index(c, 1));
      if e.flags.present then Leaf(1, e) else Unmapped
    else if NodeOf(c, 2) in at.tables then
      var e := Read(mem, at.tables[NodeOf(c, 2)], Index(c, 2));
      if e.flags.present then Leaf(2, e) else Unmapped
    else Unmapped
  }

  lemma PathClosed(mem: Memory, root: Frame, at: Ledger, c: nat)
    requires c < MAX_PAGE && IsTree(mem, root, at)
    ensures NodeOf(c, 4) == ROOT && ROOT in at.tables
    ensures NodeOf(c, 1) in at.tables ==> NodeOf(c, 2) in at.tables
    ensures NodeOf(c, 2) in at.tables ==> NodeOf(c, 3) in at.tables
  {
    RootOnPath(c);
    ChildOnPath(c, 2);
    ChildOnPath(c, 3);
  }

  lemma {:induction false} WalkFromShape(mem: Memory, root: Frame, at: Ledger, level: nat, c: nat)
    requires c < MAX_PAGE && 1 <= level <= 4
    requires IsTree(mem, root, at) && NodeOf(c, level) in at.tables
    ensures WalkFrom(mem, at.tables[NodeOf(c, level)], level, c) == ShapeWalk(mem, at, c)
    decreases level
  {
    PathClosed(mem, root, at, c);
    if level > 1 {
      ChildOnPath(c, level);
      assert LinkOk(mem, at, NodeOf(c, level), Index(c, level));
      if NodeOf(c, level - 1) in at.tables {
        WalkFromShape(mem, root, at, level - 1, c);
      }
    }
  }

  /** In a tree the processor's walk of a page is determined by the shape. */
  lemma WalkIsShapeWalk(mem: Memory, root: Frame, at: Ledger, c: nat)
    requires IsTree(mem, root, at) && c < MAX_PAGE
    ensures Walk(mem, root, c) == ShapeWalk(mem, at, c)
  {
    RootOnPath(c);
    WalkFromShape(mem, root, at, 4, c);
  }

  /** A page not under a large page meets no large-page slot on its way down. */
  lemma NoLargePage(mem: Memory, root: Frame, at: Ledger, c: nat, level: nat)
    requires c < MAX_PAGE && IsTree(mem, root, at)
    requires 2 <= level <= 4 && NodeOf(c, level) in at.tables
    requires Walk(mem, root, c).Leaf? ==> Walk(mem, root, c).level == 1
    ensures var e := Read(mem, at.tables[NodeOf(c, level)], Index(c, level));
            !(level == 2 && e.flags.present && e.flags.huge)
  {
    WalkFromShape(mem, root, at, level, c);
    WalkIsShapeWalk(mem, root, at, c);
  }

  /** The slot the two lookups of the code reach is the shape's level-1 table. */
  lemma LookupsFollowShape(mem: Memory, root: Frame, at: Ledger, c: nat)
    requires c < MAX_PAGE && IsTree(mem, root, at)
    ensures FindEntry(mem, root, c).Slot? <==>
            NodeOf(c, 1) in at.tables
    ensures NodeOf(c, 1) in at.tables ==> FindEntry(mem, root, c) == Slot(at.tables[NodeOf(c, 1)], Index(c, 1))
    ensures NodeOf(c, 1) in at.tables ==> FindEntryMut(mem, root, c) == Some(at.tables[NodeOf(c, 1)])
    ensures FindEntry(mem, root, c).HugePage? <==>
            NodeOf(c, 2) in at.tables && Read(mem, at.tables[NodeOf(c, 2)], Index(c, 2)).flags.huge
    ensures var r := FindEntry(mem, root, c);
            r.LevelNotPresent? ==>
              2 <= r.level <= 4 && NodeOf(c, r.level) in at.tables && NodeOf(c, r.level - 1) !in at.tables
    ensures NodeOf(c, 1) !in at.tables ==>
              FindEntryMut(mem, root, c) ==
              if NodeOf(c, 2) in at.tables && Read(mem, at.tables[NodeOf(c, 2)], Index(c, 2)).flags.present
              then Some(Read(mem, at.tables[NodeOf(c, 2)], Index(c, 2)).frame) else None
  {
    PathClosed(mem, root, at, c);
    ChildOnPath(c, 4);
    ChildOnPath(c, 3);
    ChildOnPath(c, 2);
    assert LinkOk(mem, at, ROOT, Index(c, 4));
    if NodeOf(c, 3) in at.tables {
      assert LinkOk(mem, at, NodeOf(c, 3), Index(c, 3));
      if NodeOf(c, 2) in at.tables {
        assert LinkOk(mem, at, NodeOf(c, 2), Index(c, 2));
      }
    }
  }

  /** A level-2 slot with HUGE_PAGE set but PRESENT clear: the processor ignores it, the code calls
      the whole block present. */
  predicate StaleHuge(mem: Memory, root: Frame, c: nat)
    requires c < MAX_PAGE
  {
    var e4 := Read(mem, root, Index(c, 4));
    e4.flags.present &&
    var e3 := Read(mem, e4.frame, Index(c, 3));
    e3.flags.present &&
    var e2 := Read(mem, e3.frame, Index(c, 2));
    e2.flags.huge && !e2.flags.present
  }

  /** `is_present` against the processor: equal except on stale large-page slots. */
  lemma IsPresentMeansMapped(mem: Memory, root: Frame, at: Ledger, c: nat)
    requires c < MAX_PAGE && IsTree(mem, root, at)
    ensures IsPresent(mem, root, c) <==> Walk(mem, root, c).Leaf? || StaleHuge(mem, root, c)
  {
    RootOnPath(c);
    WalkFromShape(mem, root, at, 4, c);
    LookupsFollowShape(mem, root, at, c);
    PathClosed(mem, root, at, c);
    if NodeOf(c, 2) in at.tables {
      ChildOnPath(c, 2);
      assert LinkOk(mem, at, NodeOf(c, 2), Index(c, 2));
    }
  }

  /** A memory has at most one tree: which frames hold tables is well defined. */
  lemma {:induction false} TablesUnique(mem: Memory, root: Frame, at: Ledger, at': Ledger)
    requires IsTree(mem, root, at) && IsTree(mem, root, at')
    ensures at.tables == at'.tables
  {
    forall n: Node | n in at.tables || n in at'.tables
      ensures n in at.tables && n in at'.tables && at.tables[n] == at'.tables[n]
    {
      SameNode(mem, root, at, at', n);
    }
  }

  lemma {:induction false} SameNode(mem: Memory, root: Frame, at: Ledger, at': Ledger, n: Node)
    requires IsTree(mem, root, at) && IsTree(mem, root, at')
    requires n in at.tables || n in at'.tables
    ensures n in at.tables && n in at'.tables && at.tables[n] == at'.tables[n]
    decreases 4 - n.level
  {
    if n != ROOT {
      var p := Parent(n);
      SameNode(mem, root, at, at', p);
      assert Child(p, n.prefix % 512) == n;
      assert LinkOk(mem, at, p, n.prefix % 512) && LinkOk(mem, at', p, n.prefix % 512);
    }
  }

  // ----- the two kinds of update -----

  /** Flags that make an entry a link at every level: PRESENT and not HUGE_PAGE. */
  predicate LinkFlags(flags: Flags) {
    flags.present && !flags.huge
  }

  /** Hanging a cleared table below an empty slot extends the tree by that one table, if and only if the
      flags are those of a link; no translation changes then. */
  lemma LinkTable(mem: Memory, root: Frame, at: Ledger, view: View, n: Node, i: nat, f: Frame, flags: Flags)
    requires IsTree(mem, root, at) && ViewIs(view, mem, root)
    requires n in at.tables && n.level >= 2 && i < 512
    requires !Read(mem, at.tables[n], i).flags.present
    requires !at.HoldsTable(f)
    ensures var mem' := Write(mem, at.tables[n], i, Entry(f, flags))[f := ClearedTable()];
            var at' := at.AddTable(Child(n, i), f);
            && (IsTree(mem', root, at') <==> LinkFlags(flags))
            && (LinkFlags(flags) ==> ViewIs(view, mem', root))
  {
    var mem' := Write(mem, at.tables[n], i, Entry(f, flags))[f := ClearedTable()];
    var at' := at.AddTable(Child(n, i), f);
    if LinkFlags(flags) {
      LinkTableKeeps(mem, root, at, view, n, i, f, flags);
    } else {
      assert !LinkOk(mem', at', n, i);
    }
  }

  lemma LinkTableKeeps(mem: Memory, root: Frame, at: Ledger, view: View, n: Node, i: nat, f: Frame, flags: Flags)
    requires IsTree(mem, root, at) && ViewIs(view, mem, root)
    requires n in at.tables && n.level >= 2 && i < 512
    requires !Read(mem, at.tables[n], i).flags.present
    requires LinkFlags(flags) && !at.HoldsTable(f)
    ensures var mem' := Write(mem, at.tables[n], i, Entry(f, flags))[f := ClearedTable()];
            IsTree(mem', root, at.AddTable(Child(n, i), f)) && ViewIs(view, mem', root)
  {
    var mem' := Write(mem, at.tables[n], i, Entry(f, flags))[f := ClearedTable()];
    var at' := at.AddTable(Child(n, i), f);
    assert LinkOk(mem, at, n, i);
    ParentOfChild(n, i);
    forall m, j | m in at'.tables && m.level >= 2 && 0 <= j < 512
      ensures LinkOk(mem', at', m, j)
    {
      LinkTableLinks(mem, root, at, n, i, f, flags, m, j);
    }
    forall c: nat | c < MAX_PAGE
      ensures view[c] == Walk(mem', root, c)
    {
      WalkIsShapeWalk(mem, root, at, c);
      WalkIsShapeWalk(mem', root, at', c);
      LinkTableWalk(mem, root, at, n, i, f, flags, c);
    }
  }

  lemma LinkTableLinks(mem: Memory, root: Frame, at: Ledger, n: Node, i: nat, f: Frame, flags: Flags, m: Node, j: nat)
    requires IsTree(mem, root, at)
    requires n in at.tables && n.level >= 2 && i < 512
    requires Child(n, i) !in at.tables
    requires LinkFlags(flags)
    requires !at.HoldsTable(f)
    requires m.level >= 2 && j < 512
    requires m in at.AddTable(Child(n, i), f).tables
    ensures LinkOk(Write(mem, at.tables[n], i, Entry(f, flags))[f := ClearedTable()], at.AddTable(Child(n, i), f), m, j)
  {
    if m == Child(n, i) {
      ParentOfChild(m, j);
      if Child(m, j) in at.tables {
        assert false;
      }
      assert Child(m, j) != m;
    } else {
      assert LinkOk(mem, at, m, j);
      if Child(m, j) == Child(n, i) {
        ChildInjective(m, j, n, i);
      }
    }
  }

  lemma LinkTableWalk(mem: Memory, root: Frame, at: Ledger, n: Node, i: nat, f: Frame, flags: Flags, c: nat)
    requires IsTree(mem, root, at) && c < MAX_PAGE
    requires n in at.tables && n.level >= 2 && i < 512
    requires Child(n, i) !in at.tables && !Read(mem, at.tables[n], i).flags.present
    requires !at.HoldsTable(f)
    ensures ShapeWalk(Write(mem, at.tables[n], i, Entry(f, flags))[f := ClearedTable()], at.AddTable(Child(n, i), f), c)
            == ShapeWalk(mem, at, c)
  {
    PathClosed(mem, root, at, c);
    ChildOnPath(c, 2);
    if Child(n, i) == NodeOf(c, 1) {
      ChildInjective(n, i, NodeOf(c, 2), Index(c, 2));
    }
  }

  /** Overwriting a level-1 slot keeps the tree and changes the translation of its page only. */
  lemma SetLeaf(mem: Memory, root: Frame, at: Ledger, view: View, c: nat, e: Entry)
    requires IsTree(mem, root, at) && ViewIs(view, mem, root) && c < MAX_PAGE && NodeOf(c, 1) in at.tables
    ensures var mem' := Write(mem, at.tables[NodeOf(c, 1)], Index(c, 1), e);
            && IsTree(mem', root, at)
            && ViewIs(view[c := if e.flags.present then Leaf(1, e) else Unmapped], mem', root)
  {
    var mem' := Write(mem, at.tables[NodeOf(c, 1)], Index(c, 1), e);
    forall n, i | n in at.tables && n.level >= 2 && 0 <= i < 512
      ensures LinkOk(mem', at, n, i)
    {
      assert LinkOk(mem, at, n, i);
    }
    WalkIsShapeWalk(mem', root, at, c);
    forall d: nat | d < MAX_PAGE && d != c
      ensures view[d] == Walk(mem', root, d)
    {
      WalkIsShapeWalk(mem, root, at, d);
      WalkIsShapeWalk(mem', root, at, d);
      SetLeafWalk(mem, at, c, e, d);
    }
  }

  lemma SetLeafWalk(mem: Memory, at: Ledger, c: nat, e: Entry, d: nat)
    requires at.TablesKnown()
    requires NodeOf(c, 1) in at.tables && c < MAX_PAGE && d < MAX_PAGE && d != c
    ensures ShapeWalk(Write(mem, at.tables[NodeOf(c, 1)], Index(c, 1), e), at, d) == ShapeWalk(mem, at, d)
  {
    if NodeOf(d, 1) == NodeOf(c, 1) && Index(d, 1) == Index(c, 1) {
      SlotDeterminesPage(c, d);
    }
  }

  /** Frames that hold no table may be written freely: neither tree nor any translation notices. */
  lemma WriteElsewhere(mem: Memory, root: Frame, at: Ledger, view: View, f: Frame, row: Table)
    requires IsTree(mem, root, at) && ViewIs(view, mem, root) && !at.HoldsTable(f)
    ensures IsTree(mem[f := row], root, at)
    ensures ViewIs(view, mem[f := row], root)
  {
    var mem' := mem[f := row];
    forall n, i | n in at.tables && n.level >= 2 && 0 <= i < 512
      ensures LinkOk(mem', at, n, i)
    {
      assert LinkOk(mem, at, n, i);
    }
    forall c: nat | c < MAX_PAGE
      ensures view[c] == Walk(mem', root, c)
    {
      WalkIsShapeWalk(mem, root, at, c);
      WalkIsShapeWalk(mem', root, at, c);
    }
  }
}
