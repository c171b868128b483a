/** Reserving a fixed range of physical frames, and giving it back. */
module FrameRanges {
  import opened Entries
  import opened Bitmaps
  import opened Machines
  import opened PageRuns

  // ----- the bitmap -----

  /** What the checking loop of `alloc_phy_addr` meets first: a marked bit, the end of the bitmap (an
      out-of-bounds panic), or neither. */
  datatype Scan = Clear | Busy | OffEnd

  function ScanRange(bits: seq<bool>, i: nat, n: nat): (r: Scan)
    ensures r == Clear ==> n == 0 || i + n <= |bits|
    decreases n
  {
    if n == 0 then Clear
    else if i >= |bits| then OffEnd
    else if bits[i] then Busy
    else ScanRange(bits, i + 1, n - 1)
  }

  /** The marking loop of `alloc_phy_addr`. */
  function MarkRange(bits: seq<bool>, i: nat, n: nat): (r: seq<bool>)
    requires n == 0 || i + n <= |bits|
    ensures |r| == |bits|
    ensures forall j | 0 <= j < |bits| :: r[j] == (bits[j] || i <= j < i + n)
    decreases n
  {
    if n == 0 then bits else MarkRange(bits[i := true], i + 1, n - 1)
  }

  /** The range is clear exactly when it fits the bitmap and has no marked bit; the scan falls off the
      end exactly when it does not fit and has no marked bit before the end. */
  lemma {:induction false} ScanMeaning(bits: seq<bool>, i: nat, n: nat)
    ensures ScanRange(bits, i, n) == Clear <==>
            (n == 0 || i + n <= |bits|) && forall j | i <= j < i + n && j < |bits| :: !bits[j]
    ensures ScanRange(bits, i, n) == Busy <==> exists j | i <= j < i + n && j < |bits| :: bits[j]
    decreases n
  {
    if n > 0 && i < |bits| && !bits[i] {
      ScanMeaning(bits, i + 1, n - 1);
      if exists j | i <= j < i + n && j < |bits| :: bits[j] {
        var j :| i <= j < i + n && j < |bits| && bits[j];
        assert i + 1 <= j < i + 1 + (n - 1);
      }
    }
  }

  /** The rollback loop of `map_physical`. */
  function FreeRange(m: Machine, f: Frame, n: nat): Freed
    decreases n
  {
    if n == 0 then Freed(m)
    else match FreeFrame(m, f)
      case Panic => Panic
      case Freed(m1) => FreeRange(m1, f + 1, n - 1)
  }

  /** Rolling back a reservation gives back the very machine it started from. */
  lemma {:induction false} RollbackRestores(m: Machine, f: Frame, n: nat)
    requires m.base <= f && f - m.base + n <= |m.bits|
    requires forall j | f - m.base <= j < f - m.base + n :: !m.bits[j]
    ensures FreeRange(m.(bits := MarkRange(m.bits, f - m.base, n)), f, n) == Freed(m)
    decreases n
  {
    var i := f - m.base;
    var marked := MarkRange(m.bits, i, n);
    if n > 0 {
      var m1 := m.(bits := marked[i := false]);
      assert FreeFrame(m.(bits := marked), f) == Freed(m1);
      assert marked[i := false] == MarkRange(m.bits, i + 1, n - 1);
      RollbackRestores(m, f + 1, n - 1);
    } else {
      assert m.(bits := marked) == m;
    }
  }

  // ----- the accounts -----

  /** What reserving frames f..f+n achieves: they are held, and nothing else has changed. */
  ghost predicate RangeHeld(s: State, f: Frame, n: nat, s': State) {
    && s.m.base <= f && f - s.m.base + n <= |s.m.bits|
    && s'.m == s.m.(bits := MarkRange(s.m.bits, f - s.m.base, n))
    && s'.view == s.view
    && s'.l.tables == s.l.tables && s'.l.pages == s.l.pages
    && (forall g {:trigger KeepsUse(s.l, s'.l, g)} | g in s.l.uses :: KeepsUse(s.l, s'.l, g))
    && (forall g {:trigger s'.l.Holds(g)} | s'.l.Holds(g) :: s.l.Holds(g) || Supplies(Fixed(f), n, g))
    && (forall g {:trigger Supplies(Fixed(f), n, g)} | Supplies(Fixed(f), n, g) :: s'.l.Holds(g) && g !in s.l.uses)
    && FreeCount(s'.m.bits) + n == FreeCount(s.m.bits)
  }

  lemma RangeHeldStarts(s: State, f: Frame)
    requires s.m.base <= f && f - s.m.base <= |s.m.bits|
    ensures RangeHeld(s, f, 0, s)
  {
  }

  /** What holding the single frame `f` achieves. */
  ghost predicate FrameHeld(s: State, f: Frame, s': State)
    requires InPool(s.m, f)
  {
    && f !in s.l.uses
    && s' == State(s.m.(bits := s.m.bits[f - s.m.base := true]), Hold(s.l, f), s.view)
    && FreeCount(s'.m.bits) == FreeCount(s.m.bits) - 1
  }

  lemma RangeHeldSteps(s: State, f: Frame, n: nat, s1: State, s': State)
    requires n >= 1 && InPool(s.m, f) && f - s.m.base + n <= |s.m.bits| && FrameHeld(s, f, s1)
    requires RangeHeld(s1, f + 1, n - 1, s')
    ensures RangeHeld(s, f, n, s')
  {
    forall g | g in s.l.uses
      ensures KeepsUse(s.l, s'.l, g)
    {
      assert KeepsUse(s1.l, s'.l, g);
    }
    forall g | Supplies(Fixed(f), n, g)
      ensures s'.l.Holds(g) && g !in s.l.uses
    {
      if g == f {
        assert KeepsUse(s1.l, s'.l, f);
      } else {
        assert Supplies(Fixed(f + 1), n - 1, g);
      }
    }
    forall g | s'.l.Holds(g)
      ensures s.l.Holds(g) || Supplies(Fixed(f), n, g)
    {
      assert s1.l.Holds(g) || Supplies(Fixed(f + 1), n - 1, g);
    }
  }

  ghost predicate RangeClear(m: Machine, f: Frame, n: nat) {
    && m.base <= f && f - m.base + n <= |m.bits|
    && forall j | f - m.base <= j < f - m.base + n :: !m.bits[j]
  }

  lemma StillClear(s: State, f: Frame, n: nat, s1: State)
    requires n >= 1 && RangeClear(s.m, f, n) && FrameHeld(s, f, s1)
    ensures RangeClear(s1.m, f + 1, n - 1)
  {
  }

  lemma {:induction false} HoldRange(s: Sound, f: Frame, n: nat) returns (s': Sound)
    requires RangeClear(s.m, f, n)
    ensures RangeHeld(s, f, n, s')
    decreases n
  {
    hide Core, RangeHeld;
    if n == 0 {
      s' := s;
      RangeHeldStarts(s, f);
    } else {
      var s1 := HoldFrame(s, s.m.(bits := s.m.bits[f - s.m.base := true]), f);
      s' := HoldRest(s, f, n, s1);
    }
  }

  lemma {:induction false} HoldRest(s: Sound, f: Frame, n: nat, s1: Sound) returns (s': Sound)
    requires n >= 1 && RangeClear(s.m, f, n) && FrameHeld(s, f, s1)
    ensures RangeHeld(s, f, n, s')
    decreases n, 0
  {
    hide Core, RangeHeld;
    StillClear(s, f, n, s1);
    s' := HoldRange(s1, f + 1, n - 1);
    RangeHeldSteps(s, f, n, s1, s');
  }
}
