/** Page numbers, their four table indices, and iteration over page ranges. */
module Pages {
  /** Number of canonical page numbers: 512^4. */
  const MAX_PAGE: nat := 0x10_0000_0000

  datatype Option<+T> = None | Some(value: T)

  /** The low 36 bits of a page number; they alone select table slots. */
  function Canonical(num: nat): (c: nat)
    ensures c < MAX_PAGE
  {
    num % MAX_PAGE
  }

  /** Page number `c` without its last `level` base-512 digits. */
  function Prefix(c: nat, level: nat): nat {
    if level == 0 then c else Prefix(c, level - 1) / 512
  }

  /** The index that canonical page `c` uses in its table of the given level. */
  function Index(c: nat, level: nat): (i: nat)
    requires level >= 1
    ensures i < 512
  {
    Prefix(c, level - 1) % 512
  }

  /** The indices are the divisions and remainders the source computes. */
  lemma IndicesAsComputed(c: nat)
    requires c < MAX_PAGE
    ensures Index(c, 4) == c / (512 * 512 * 512)
    ensures Index(c, 3) == c / (512 * 512) % 512
    ensures Index(c, 2) == c / 512 % 512
    ensures Index(c, 1) == c % 512
    ensures Prefix(c, 4) == 0
  {
    var c1, c2 := c / 512, c / 0x4_0000;
    assert Prefix(c, 1) == c1;
    assert Prefix(c, 2) == c1 / 512 == c2;
    assert Prefix(c, 3) == c2 / 512 == c / 0x800_0000;
  }

  function FromIndices(i4: nat, i3: nat, i2: nat, i1: nat): nat {
    ((i4 * 512 + i3) * 512 + i2) * 512 + i1
  }

  lemma IndicesOfPage(c: nat)
    requires c < MAX_PAGE
    ensures FromIndices(Index(c, 4), Index(c, 3), Index(c, 2), Index(c, 1)) == c
  {
    IndicesAsComputed(c);
    var c1, c2 := c / 512, c / 0x4_0000;
    assert c2 == c1 / 512 && c / 0x800_0000 == c2 / 512;
  }

  lemma PageOfIndices(i4: nat, i3: nat, i2: nat, i1: nat)
    requires i4 < 512 && i3 < 512 && i2 < 512 && i1 < 512
    ensures var c := FromIndices(i4, i3, i2, i1);
            c < MAX_PAGE && Index(c, 4) == i4 && Index(c, 3) == i3 && Index(c, 2) == i2 && Index(c, 1) == i1
  {
    var c := FromIndices(i4, i3, i2, i1);
    IndicesAsComputed(c);
    assert c / 512 == (i4 * 512 + i3) * 512 + i2;
    assert c / 0x4_0000 == i4 * 512 + i3;
  }

  /** The two lemmas above make the four indices a bijection; so page numbers share all four slots
      exactly when they agree on the canonical bits. */
  lemma SlotsIdentifyPage(a: nat, b: nat)
    ensures Canonical(a) == Canonical(b) <==>
            forall level | 1 <= level <= 4 :: Index(Canonical(a), level) == Index(Canonical(b), level)
  {
    var c, d := Canonical(a), Canonical(b);
    if forall level | 1 <= level <= 4 :: Index(c, level) == Index(d, level) {
      IndicesOfPage(c);
      IndicesOfPage(d);
      assert Index(c, 4) == Index(d, 4) && Index(c, 3) == Index(d, 3);
      assert Index(c, 2) == Index(d, 2) && Index(c, 1) == Index(d, 1);
    }
  }

  function NextBy(num: nat, k: nat): Option<nat> {
    if Canonical(num) + k < MAX_PAGE then Some(num + k) else None
  }

  function Next(num: nat): Option<nat> {
    NextBy(num, 1)
  }

  /** `k` applications of `Next`, failing as soon as one fails. */
  function NextTimes(num: nat, k: nat): Option<nat> {
    if k == 0 then Some(num)
    else match NextTimes(num, k - 1)
      case None => None
      case Some(p) => Next(p)
  }

  lemma {:induction false} NextByIsIteratedNext(num: nat, k: nat)
    ensures NextBy(num, k) == NextTimes(num, k)
  {
    if k > 0 {
      NextByIsIteratedNext(num, k - 1);
      if Canonical(num) + (k - 1) < MAX_PAGE {
        var q := num / MAX_PAGE;
        assert num + (k - 1) == q * MAX_PAGE + (Canonical(num) + (k - 1));
        CanonicalOf(q, Canonical(num) + (k - 1));
      }
    }
  }

  lemma CanonicalOf(q: nat, r: nat)
    requires r < MAX_PAGE
    ensures Canonical(q * MAX_PAGE + r) == r
  {
  }

  /** The iterator over the pages start..=end. */
  class PageIter {
    var start: nat
    var end: nat

    constructor (start: nat, end: nat)
      ensures this.start == start && this.end == end
    {
      this.start, this.end := start, end;
    }

    /** Yields the next page. The source unwraps the successor of the page it yields, so the last
        canonical page can never be yielded. */
    method NextPage() returns (r: Option<nat>)
      requires start <= end ==> Next(start).Some?
      modifies this
      ensures end == old(end)
      ensures r == if old(start) <= end then Some(old(start)) else None
      ensures start == if r.Some? then old(start) + 1 else old(start)
    {
      if start <= end {
        r := Some(start);
        start := Next(start).value;
      } else {
        r := None;
      }
    }
  }

  /** A `for` loop over a page range visits exactly start..=end, in order. */
  method Visit(start: nat, end: nat) returns (seen: seq<nat>)
    requires end < MAX_PAGE - 1
    ensures |seen| == if start <= end then end - start + 1 else 0
    ensures forall k | 0 <= k < |seen| :: seen[k] == start + k
  {
    var iter := new PageIter(start, end);
    seen := [];
    var page := iter.NextPage();
    while page.Some?
      invariant iter.end == end
      invariant forall k | 0 <= k < |seen| :: seen[k] == start + k
      invariant page.Some? ==> page.value == start + |seen| <= end && iter.start == page.value + 1
      invariant page.None? ==> |seen| == if start <= end then end - start + 1 else 0
      decreases page.Some?, end + 1 - iter.start
    {
      seen := seen + [page.value];
      page := iter.NextPage();
    }
  }
}
