/** `align_up` and `align_down`. */
module Alignment {
  function AlignUp(addr: nat, alignment: nat): nat
    requires alignment > 0
  {
    var over := addr % alignment;
    if over == 0 then addr else addr - over + alignment
  }

  function AlignDown(addr: nat, alignment: nat): nat
    requires alignment > 0
  {
    addr - addr % alignment
  }

  lemma MultiplesApart(a: int, b: int, k: nat)
    requires k > 0 && a % k == 0 && b % k == 0 && a < b
    ensures a + k <= b
  {
    var p, q := a / k, b / k;
    assert a == p * k && b == q * k;
    assert q <= p ==> q * k <= p * k;
    assert p + 1 <= q ==> (p + 1) * k <= q * k;
  }

  lemma WithoutRemainder(addr: nat, k: nat)
    requires k > 0
    ensures (addr - addr % k) % k == 0
  {
    var q := addr / k;
    assert addr - addr % k == q * k;
    MultipleHasNoRemainder(q, k);
  }

  lemma {:induction false} MultipleHasNoRemainder(q: nat, k: nat)
    requires k > 0
    ensures (q * k) % k == 0
  {
    if q > 0 {
      MultipleHasNoRemainder(q - 1, k);
      assert q * k == (q - 1) * k + k;
      PlusOne((q - 1) * k, k);
    }
  }

  lemma PlusOne(x: nat, k: nat)
    requires k > 0 && x % k == 0
    ensures (x + k) % k == 0
  {
    var p := x / k;
    assert x == p * k;
    assert x + k == (p + 1) * k;
    var r, d := (x + k) % k, (x + k) / k;
    assert x + k == d * k + r;
    assert d <= p ==> d * k <= p * k;
    assert d >= p + 2 ==> d * k >= (p + 2) * k;
  }

  lemma DividesTransitively(a: nat, b: nat, c: nat)
    requires a > 0 && b > 0 && b % a == 0 && c % b == 0
    ensures c % a == 0
  {
    var p, q := c / b, b / a;
    assert c == p * b && b == q * a;
    Associates(p, q, a);
    MultipleHasNoRemainder(p * q, a);
  }

  lemma Associates(p: nat, q: nat, a: nat)
    ensures p * (q * a) == (p * q) * a
  {
  }

  /** `align_up` answers the least multiple not below the address. */
  lemma AlignUpIsLeast(addr: nat, k: nat)
    requires k > 0
    ensures AlignUp(addr, k) % k == 0 && addr <= AlignUp(addr, k) < addr + k
    ensures forall x: nat | x % k == 0 && addr <= x :: AlignUp(addr, k) <= x
  {
    WithoutRemainder(addr, k);
    var low := addr - addr % k;
    PlusOne(low, k);
    forall x: nat | x % k == 0 && addr <= x
      ensures AlignUp(addr, k) <= x
    {
      if addr % k != 0 {
        MultiplesApart(low, x, k);
      }
    }
  }

  /** `align_down` answers the greatest multiple not above the address. */
  lemma AlignDownIsGreatest(addr: nat, k: nat)
    requires k > 0
    ensures AlignDown(addr, k) % k == 0 && AlignDown(addr, k) <= addr < AlignDown(addr, k) + k
    ensures forall x: nat | x % k == 0 && x <= addr :: x <= AlignDown(addr, k)
  {
    WithoutRemainder(addr, k);
    var low := AlignDown(addr, k);
    forall x: nat | x % k == 0 && x <= addr
      ensures x <= low
    {
      if low < x {
        MultiplesApart(low, x, k);
      }
    }
  }
}
