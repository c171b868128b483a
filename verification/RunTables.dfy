/** Which tables a page or a run of pages goes through, and how many frames mapping them takes. */
module RunTables {
  import opened Pages
  import opened PageTree

  /** One of the tables of page `c` strictly below the given level. */
  predicate OnPath(c: nat, level: nat, n: Node) {
    1 <= n.level < level && n == NodeOf(c, n.level)
  }

  function PathSet(c: nat): set<Node> {
    {NodeOf(c, 3), NodeOf(c, 2), NodeOf(c, 1)}
  }

  function MissingFrom(known: set<Node>, c: nat): nat {
    (if NodeOf(c, 3) in known then 0 else 1)
    + (if NodeOf(c, 2) in known then 0 else 1)
    + (if NodeOf(c, 1) in known then 0 else 1)
  }

  /** Frames consumed by mapping c..=last when the tables `known` exist. */
  function Need(known: set<Node>, c: nat, last: nat, cost: nat): nat
    decreases last + 1 - c
  {
    if c > last then 0
    else cost + MissingFrom(known, c) + Need(known + PathSet(c), c + 1, last, cost)
  }

  lemma OnPathSet(c: nat, n: Node)
    ensures OnPath(c, 4, n) <==> n in PathSet(c)
  {
  }

  /** One of the tables some page of the run goes through. */
  predicate OnRun(c: nat, last: nat, n: Node) {
    1 <= n.level <= 3 && Prefix(c, n.level) <= n.prefix <= Prefix(last, n.level)
  }

  lemma {:induction false} PrefixMonotone(c: nat, d: nat, level: nat)
    requires c <= d
    ensures Prefix(c, level) <= Prefix(d, level)
  {
    if level > 0 {
      PrefixMonotone(c, d, level - 1);
    }
  }

  lemma {:induction false} PrefixNext(c: nat, level: nat)
    ensures Prefix(c, level) <= Prefix(c + 1, level) <= Prefix(c, level) + 1
  {
    if level > 0 {
      PrefixNext(c, level - 1);
    }
  }

  lemma OnRunStep(c: nat, last: nat, n: Node)
    requires c <= last
    ensures OnRun(c, last, n) <==> OnPath(c, 4, n) || (c + 1 <= last && OnRun(c + 1, last, n))
  {
    PrefixNext(c, n.level);
    if c + 1 <= last {
      PrefixMonotone(c + 1, last, n.level);
    }
  }

  // ----- counting -----

  function Absent<T>(x: T, known: set<T>): nat {
    if x in known then 0 else 1
  }

  lemma CountWith<T>(x: T, rest: set<T>, all: set<T>, known: set<T>)
    requires x !in rest && all == {x} + rest
    ensures |all - known| == Absent(x, known) + |rest - known|
  {
    if x in known {
      assert all - known == rest - known;
    } else {
      assert all - known == {x} + (rest - known);
    }
  }

  lemma CountTwo<T>(y: T, z: T, known: set<T>)
    requires y != z
    ensures |{y, z} - known| == Absent(y, known) + Absent(z, known)
  {
    CountWith(z, {}, {z}, known);
    CountWith(y, {z}, {y, z}, known);
  }

  lemma CountThree<T>(x: T, y: T, z: T, known: set<T>)
    requires x != y && x != z && y != z
    ensures |{x, y, z} - known| == Absent(x, known) + Absent(y, known) + Absent(z, known)
  {
    hide Absent;
    CountTwo(y, z, known);
    CountWith(x, {y, z}, {x, y, z}, known);
  }

  lemma MissingIsCardinality(known: set<Node>, c: nat)
    ensures MissingFrom(known, c) == |PathSet(c) - known|
  {
    CountThree(NodeOf(c, 3), NodeOf(c, 2), NodeOf(c, 1), known);
  }

  /** All tables of the run. */
  ghost function RunNodes(c: nat, last: nat): (s: set<Node>)
    ensures forall n :: n in s <==> OnRun(c, last, n)
  {
    set level: nat, q: nat | 1 <= level <= 3 && Prefix(c, level) <= q <= Prefix(last, level) :: Node(level, q)
  }

  lemma RunNodesStep(c: nat, last: nat)
    requires c <= last
    ensures RunNodes(c, last) == PathSet(c) + (if c < last then RunNodes(c + 1, last) else {})
  {
    forall n
      ensures n in RunNodes(c, last) <==> n in PathSet(c) || (c < last && n in RunNodes(c + 1, last))
    {
      OnRunStep(c, last, n);
      OnPathSet(c, n);
    }
  }

  lemma CountSplit<T>(p: set<T>, q: set<T>, known: set<T>)
    ensures |p + q - known| == |p - known| + |q - (known + p)|
  {
    assert p + q - known == (p - known) + (q - (known + p));
  }

  /** Mapping a run takes one frame per page, unless the frames are given, and one frame for each
      table of the run that does not exist yet. */
  lemma {:induction false} NeedIsExact(known: set<Node>, c: nat, last: nat, cost: nat)
    requires c <= last && cost <= 1
    ensures Need(known, c, last, cost) == (if cost == 1 then last - c + 1 else 0) + |RunNodes(c, last) - known|
    decreases last - c
  {
    hide RunNodes, PathSet, MissingFrom;
    var rest := if c < last then RunNodes(c + 1, last) else {};
    NeedHead(known, c, last, rest);
    if c < last {
      NeedIsExact(known + PathSet(c), c + 1, last, cost);
    }
  }

  lemma NeedHead(known: set<Node>, c: nat, last: nat, rest: set<Node>)
    requires c <= last && rest == if c < last then RunNodes(c + 1, last) else {}
    ensures |RunNodes(c, last) - known| == MissingFrom(known, c) + |rest - (known + PathSet(c))|
  {
    hide RunNodes, PathSet, MissingFrom;
    MissingIsCardinality(known, c);
    RunNodesStep(c, last);
    CountSplit(PathSet(c), rest, known);
  }

  /** Pages served by one table of the given level. */
  function Span(level: nat): nat
    requires 1 <= level <= 3
  {
    if level == 1 then 512 else if level == 2 then 512 * 512 else 512 * 512 * 512
  }

  lemma PrefixIsQuotient(c: nat, level: nat)
    requires 1 <= level <= 3
    ensures Prefix(c, level) == c / Span(level)
  {
    var c1, c2 := c / 512, c / 0x4_0000;
    assert Prefix(c, 1) == c1;
    assert Prefix(c, 2) == c1 / 512 == c2;
    assert Prefix(c, 3) == c2 / 512 == c / 0x800_0000;
  }

  lemma {:induction false} IntervalSize(lo: nat, hi: int, level: nat, s: set<Node>)
    requires lo <= hi + 1
    requires forall n | n in s :: n.level == level && lo <= n.prefix <= hi
    ensures |s| <= hi + 1 - lo
    decreases hi + 1 - lo
  {
    if s != {} {
      var n :| n in s;
      var top := Node(level, hi);
      IntervalSize(lo, hi - 1, level, s - {top});
      if top in s {
        assert |s - {top}| == |s| - 1;
      } else {
        assert s - {top} == s;
      }
    }
  }

  lemma QuotientGap(c: nat, last: nat, span: nat)
    requires c <= last && span in {512, 512 * 512, 512 * 512 * 512}
    ensures last / span - c / span + 1 <= (last - c + 1 + span - 2) / span + 1
  {
    if span == 512 {
      assert last / 512 - c / 512 <= (last - c + 511) / 512;
    } else if span == 0x4_0000 {
      assert last / 0x4_0000 - c / 0x4_0000 <= (last - c + 0x3_ffff) / 0x4_0000;
    } else {
      assert last / 0x800_0000 - c / 0x800_0000 <= (last - c + 0x7ff_ffff) / 0x800_0000;
    }
  }

  /** The most tables of one level that a run of `n` pages can go through. */
  function MostTables(n: nat, level: nat): int
    requires 1 <= level <= 3
  {
    (n + Span(level) - 2) / Span(level) + 1
  }

  /** At each level the run goes through at most floor((n + span - 2) / span) + 1 tables, `n` being the
      number of pages and `span` the pages one table of that level serves. */
  lemma TablesPerLevel(c: nat, last: nat, level: nat, s: set<Node>)
    requires c <= last && 1 <= level <= 3
    requires forall n | n in s :: OnRun(c, last, n) && n.level == level
    ensures |s| <= MostTables(last - c + 1, level)
  {
    PrefixMonotone(c, last, level);
    IntervalSize(Prefix(c, level), Prefix(last, level), level, s);
    PrefixIsQuotient(c, level);
    PrefixIsQuotient(last, level);
    QuotientGap(c, last, Span(level));
  }
}
