/** The frame bitmap as a value: first-fit search and counting. */
module Bitmaps {
  import opened Pages

  function FirstFreeFrom(bits: seq<bool>, i: nat): (r: Option<nat>)
    requires i <= |bits|
    ensures r.Some? ==> i <= r.value < |bits| && !bits[r.value] && forall j | i <= j < r.value :: bits[j]
    ensures r.None? ==> forall j | i <= j < |bits| :: bits[j]
    decreases |bits| - i
  {
    if i == |bits| then None
    else if !bits[i] then Some(i)
    else FirstFreeFrom(bits, i + 1)
  }

  /** The lowest clear bit. */
  function FirstFree(bits: seq<bool>): (r: Option<nat>)
    ensures r.Some? ==> r.value < |bits| && !bits[r.value] && forall j | 0 <= j < r.value :: bits[j]
    ensures r.None? ==> forall j | 0 <= j < |bits| :: bits[j]
  {
    FirstFreeFrom(bits, 0)
  }

  ghost function FreeSet(bits: seq<bool>): set<nat> {
    set i: nat | i < |bits| && !bits[i]
  }

  ghost function FreeCount(bits: seq<bool>): nat {
    |FreeSet(bits)|
  }

  lemma NoneFree(bits: seq<bool>)
    ensures FirstFree(bits).None? <==> FreeCount(bits) == 0
  {
    if FirstFree(bits).Some? {
      assert FirstFree(bits).value in FreeSet(bits);
    } else {
      assert FreeSet(bits) == {};
    }
  }

  lemma MarkOne(bits: seq<bool>, i: nat)
    requires i < |bits| && !bits[i]
    ensures FreeCount(bits[i := true]) == FreeCount(bits) - 1
  {
    assert FreeSet(bits[i := true]) == FreeSet(bits) - {i};
    assert i in FreeSet(bits);
  }

  lemma ClearOne(bits: seq<bool>, i: nat)
    requires i < |bits| && bits[i]
    ensures FreeCount(bits[i := false]) == FreeCount(bits) + 1
  {
    assert FreeSet(bits[i := false]) == FreeSet(bits) + {i};
    assert i !in FreeSet(bits);
  }
}
