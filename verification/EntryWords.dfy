/** The 64-bit words the processor reads as page-table entries.

    All other modules work on decoded entries; the lemmas here say that the mask-and-or
    arithmetic on words means exactly that decoded form. */
module EntryWords {
  import opened Entries

  const ADDR_MASK: bv64 := 0x000f_ffff_ffff_f000
  const PRESENT: bv64 := 0x1
  const WRITABLE: bv64 := 0x2
  const HUGE_PAGE: bv64 := 0x80

  function AddrBits(word: bv64): bv64 {
    word & ADDR_MASK
  }

  function FlagBits(word: bv64): bv64 {
    word & !ADDR_MASK
  }

  /** `contains` of the flag type: all bits of `flag` are set. */
  predicate Contains(bits: bv64, flag: bv64) {
    bits & flag == flag
  }

  /** The word `set_addr` stores. */
  function SetAddr(addr: bv64, bits: bv64): bv64 {
    addr | bits
  }

  function DecodeFlags(bits: bv64): Flags {
    Flags(Contains(bits, PRESENT), Contains(bits, WRITABLE), Contains(bits, HUGE_PAGE),
          Number(OtherBits(bits), WORD_BITS))
  }

  const WORD_BITS: nat := 64

  function OtherBits(bits: bv64): bv64 {
    bits & !(PRESENT | WRITABLE | HUGE_PAGE)
  }

  function FrameBits(addr: bv64): bv64 {
    addr >> 12
  }

  function Decode(word: bv64): Entry {
    Entry(Number(FrameBits(AddrBits(word)), FRAME_BITS), DecodeFlags(FlagBits(word)))
  }

  function ShiftUp(frame: bv64): bv64 {
    frame << 12
  }

  /** The physical address of a frame. */
  function AddressOf(frame: Frame): bv64 {
    ShiftUp(Bits(frame, FRAME_BITS))
  }

  // ----- numbers and their bits -----

  function Half(b: bv64): bv64 {
    b >> 1
  }

  predicate Odd(b: bv64) {
    b & 1 == 1
  }

  function Twice(x: bv64, odd: bool): bv64 {
    (x << 1) | if odd then 1 else 0
  }

  /** Every bit of `b` is set in `m`. */
  predicate Inside(b: bv64, m: bv64) {
    b & !m == 0
  }

  /** The number written by the low `k` bits. */
  function Number(b: bv64, k: nat): nat {
    if k == 0 then 0 else 2 * Number(Half(b), k - 1) + if Odd(b) then 1 else 0
  }

  /** The low `k` bits of a number. */
  function Bits(n: nat, k: nat): bv64 {
    if k == 0 then 0 else Twice(Bits(n / 2, k - 1), n % 2 == 1)
  }

  /** The word with exactly the low `k` bits set. */
  function Ones(k: nat): bv64 {
    if k == 0 then 0 else Twice(Ones(k - 1), true)
  }

  function Power(k: nat): nat {
    if k == 0 then 1 else 2 * Power(k - 1)
  }

  const LOW_40: bv64 := 0xff_ffff_ffff
  const LOW_63: bv64 := 0x7fff_ffff_ffff_ffff

  lemma HalfInside(b: bv64, ones: bv64)
    requires Inside(b, Twice(ones, true))
    ensures Inside(Half(b), ones)
  {
  }

  lemma HalvesDetermine(v: bv64, w: bv64)
    requires Half(v) == Half(w) && Odd(v) == Odd(w)
    ensures v == w
  {
  }

  lemma ShiftedInside(x: bv64, ones: bv64, low: bv64)
    requires x & !ones == 0 && low & !1 == 0
    ensures ((x << 1) | low) & !((ones << 1) | 1) == 0
  {
  }

  lemma TwiceInside(x: bv64, odd: bool, ones: bv64)
    requires Inside(x, ones)
    ensures Inside(Twice(x, odd), Twice(ones, true))
  {
    if odd {
      ShiftedInside(x, ones, 1);
    } else {
      ShiftedInside(x, ones, 0);
    }
  }

  lemma TwiceBack(x: bv64, odd: bool)
    requires Inside(x, LOW_63)
    ensures Half(Twice(x, odd)) == x && Odd(Twice(x, odd)) == odd
  {
  }

  lemma InsideTransitive(x: bv64, a: bv64, b: bv64)
    requires Inside(x, a) && Inside(a, b)
    ensures Inside(x, b)
  {
  }

  lemma ZeroInside(b: bv64)
    ensures Inside(0, b)
    ensures Inside(b, 0) ==> b == 0
  {
  }

  /** Words of `k` bits that write the same number are equal. */
  lemma {:induction false} NumberInjective(v: bv64, w: bv64, k: nat)
    requires Inside(v, Ones(k)) && Inside(w, Ones(k)) && Number(v, k) == Number(w, k)
    ensures v == w
    decreases k
  {
    hide Half, Odd, Twice, Inside;
    if k == 0 {
      ZeroInside(v);
      ZeroInside(w);
    } else {
      HalfInside(v, Ones(k - 1));
      HalfInside(w, Ones(k - 1));
      NumberInjective(Half(v), Half(w), k - 1);
      HalvesDetermine(v, w);
    }
  }

  lemma {:induction false} NumberBound(b: bv64, k: nat)
    ensures Number(b, k) < Power(k)
    decreases k
  {
    hide Half, Odd;
    if k > 0 {
      NumberBound(Half(b), k - 1);
    }
  }

  lemma {:induction false} OnesMonotone(k: nat, d: nat)
    ensures Inside(Ones(k), Ones(k + d))
  {
    hide Twice, Inside;
    if k == 0 {
      ZeroInside(Ones(d));
    } else {
      OnesMonotone(k - 1, d);
      TwiceInside(Ones(k - 1), true, Ones(k + d - 1));
    }
  }

  lemma FrameOnes()
    ensures Ones(FRAME_BITS) == LOW_40
  {
    assert Ones(10) == 0x3ff;
    assert Ones(20) == 0xf_ffff;
    assert Ones(30) == 0x3fff_ffff;
  }

  lemma FramePower()
    ensures Power(FRAME_BITS) == FRAME_LIMIT
  {
    assert Power(10) == 0x400;
    assert Power(20) == 0x10_0000;
    assert Power(30) == 0x4000_0000;
  }

  lemma LongOnes()
    ensures Ones(63) == LOW_63
  {
    FrameOnes();
    assert Ones(50) == 0x3_ffff_ffff_ffff;
    assert Ones(60) == 0xfff_ffff_ffff_ffff;
  }

  lemma ShortWords(x: bv64, k: nat)
    requires Inside(x, Ones(k)) && k <= 63
    ensures Inside(x, LOW_63)
  {
    hide Twice, Inside;
    OnesMonotone(k, 63 - k);
    LongOnes();
    InsideTransitive(x, Ones(k), LOW_63);
  }

  /** A number below 2^k is written by its low `k` bits. */
  lemma {:induction false} NumberOfBits(n: nat, k: nat)
    requires n < Power(k) && k <= FRAME_BITS
    ensures Inside(Bits(n, k), Ones(k)) && Number(Bits(n, k), k) == n
    decreases k
  {
    hide Half, Odd, Twice, Inside;
    if k == 0 {
      ZeroInside(Ones(0));
    } else {
      NumberOfBits(n / 2, k - 1);
      var x := Bits(n / 2, k - 1);
      TwiceInside(x, n % 2 == 1, Ones(k - 1));
      ShortWords(x, k - 1);
      TwiceBack(x, n % 2 == 1);
    }
  }

  // ----- storing and reading back -----

  /** Masking distributes over the `or` that builds a word. */
  lemma MaskOfOr(a: bv64, b: bv64, m: bv64)
    ensures (a | b) & m == (a & m) | (b & m)
  {
  }

  /** Splitting a word at a mask and joining the halves gives the word back. */
  lemma SplitWord(w: bv64, m: bv64)
    ensures (w & m) | (w & !m) == w
  {
  }

  lemma MaskTwice(w: bv64, m: bv64)
    ensures (w & m) & m == w & m
    ensures (w & m) & !m == 0
    ensures (w & !m) & m == 0
  {
  }

  lemma InsideMask(w: bv64, m: bv64)
    ensures w & m == w ==> w & !m == 0
    ensures w & m == 0 ==> w & !m == w
    ensures w | 0 == w && 0 | w == w
  {
  }

  predicate RespectsMask(addr: bv64, bits: bv64) {
    addr & ADDR_MASK == addr && bits & ADDR_MASK == 0
  }

  lemma AddrBack(addr: bv64, bits: bv64)
    requires RespectsMask(addr, bits)
    ensures AddrBits(SetAddr(addr, bits)) == addr
  {
    MaskOfOr(addr, bits, ADDR_MASK);
  }

  lemma FlagsBack(addr: bv64, bits: bv64)
    requires RespectsMask(addr, bits)
    ensures FlagBits(SetAddr(addr, bits)) == bits
  {
    MaskOfOr(addr, bits, !ADDR_MASK);
    InsideMask(addr, ADDR_MASK);
    InsideMask(bits, ADDR_MASK);
  }

  /** Storing an address and flags and reading them back gives both unmixed, for exactly those
      arguments that respect the mask: an aligned address below 2^52 and flags outside the
      address field. */
  lemma SetAddrRoundTrip(addr: bv64, bits: bv64)
    ensures RespectsMask(addr, bits) <==>
            AddrBits(SetAddr(addr, bits)) == addr && FlagBits(SetAddr(addr, bits)) == bits
  {
    if RespectsMask(addr, bits) {
      AddrBack(addr, bits);
      FlagsBack(addr, bits);
    } else {
      MaskTwice(SetAddr(addr, bits), ADDR_MASK);
    }
  }

  lemma SetAddrDecodes(addr: bv64, bits: bv64)
    requires RespectsMask(addr, bits)
    ensures Decode(SetAddr(addr, bits)) == Entry(Number(FrameBits(addr), FRAME_BITS), DecodeFlags(bits))
  {
    hide Number, DecodeFlags;
    AddrBack(addr, bits);
    FlagsBack(addr, bits);
  }

  lemma FrameShift(w: bv64, bits: bv64)
    requires Inside(w, LOW_40) && bits & ADDR_MASK == 0
    ensures RespectsMask(ShiftUp(w), bits) && FrameBits(ShiftUp(w)) == w
  {
  }

  /** The word stored for a frame below the limit and flags outside the address field decodes to exactly
      that frame and those flags. */
  lemma StoredEntry(frame: Frame, bits: bv64)
    requires frame < FRAME_LIMIT && bits & ADDR_MASK == 0
    ensures RespectsMask(AddressOf(frame), bits)
    ensures Decode(SetAddr(AddressOf(frame), bits)) == Entry(frame, DecodeFlags(bits))
  {
    hide Inside, Ones, Bits, Number, Power, DecodeFlags, ShiftUp, FrameBits, RespectsMask, SetAddr, Decode;
    FrameOnes();
    FramePower();
    NumberOfBits(frame, FRAME_BITS);
    FrameShift(Bits(frame, FRAME_BITS), bits);
    SetAddrDecodes(AddressOf(frame), bits);
  }

  /** At the limit itself the address spills into the flags. */
  lemma AddressSpills()
    ensures var word := SetAddr(0x10_0000_0000_0000, PRESENT | WRITABLE);
            AddrBits(word) == 0 && FlagBits(word) != PRESENT | WRITABLE
  {
  }

  /** Every word decodes to a frame below the limit. */
  lemma DecodedFrame(word: bv64)
    ensures Decode(word).frame < FRAME_LIMIT
  {
    hide Number, Power;
    FramePower();
    NumberBound(FrameBits(AddrBits(word)), FRAME_BITS);
  }

  lemma FrameBitsFit(w: bv64)
    ensures Inside(FrameBits(AddrBits(w)), LOW_40)
  {
  }

  lemma ShiftInjective(v: bv64, w: bv64)
    requires FrameBits(AddrBits(v)) == FrameBits(AddrBits(w))
    ensures AddrBits(v) == AddrBits(w)
  {
  }

  lemma FlagBitsDetermine(v: bv64, w: bv64)
    requires Contains(v, PRESENT) == Contains(w, PRESENT)
    requires Contains(v, WRITABLE) == Contains(w, WRITABLE)
    requires Contains(v, HUGE_PAGE) == Contains(w, HUGE_PAGE)
    requires OtherBits(v) == OtherBits(w)
    ensures v == w
  {
  }

  lemma WordOnes(b: bv64)
    ensures Inside(b, Ones(WORD_BITS))
  {
    LongOnes();
    assert Ones(WORD_BITS) == 0xffff_ffff_ffff_ffff;
  }

  lemma FlagsInjective(v: bv64, w: bv64)
    requires DecodeFlags(v) == DecodeFlags(w)
    ensures v == w
  {
    hide Contains, OtherBits, Number, Inside, Ones;
    WordOnes(OtherBits(v));
    WordOnes(OtherBits(w));
    NumberInjective(OtherBits(v), OtherBits(w), WORD_BITS);
    FlagBitsDetermine(v, w);
  }

  /** Distinct words decode to distinct entries, so no information is lost by working decoded. */
  lemma DecodeInjective(v: bv64, w: bv64)
    requires Decode(v) == Decode(w)
    ensures v == w
  {
    hide Inside, Ones, Number, DecodeFlags;
    FlagsInjective(FlagBits(v), FlagBits(w));
    FrameOnes();
    FrameBitsFit(v);
    FrameBitsFit(w);
    NumberInjective(FrameBits(AddrBits(v)), FrameBits(AddrBits(w)), FRAME_BITS);
    ShiftInjective(v, w);
    SplitWord(v, ADDR_MASK);
    SplitWord(w, ADDR_MASK);
  }

  lemma {:induction false} NumberOfZero(k: nat)
    ensures Number(0, k) == 0
  {
    if k > 0 {
      NumberOfZero(k - 1);
    }
  }

  /** A cleared word and the flags of the page allocator, decoded. */
  lemma DecodedConstants()
    ensures Decode(0) == EMPTY
    ensures DecodeFlags(0x3) == RW
  {
    hide Number;
    NumberOfZero(FRAME_BITS);
    NumberOfZero(WORD_BITS);
    assert FrameBits(AddrBits(0)) == 0 && FlagBits(0) == 0;
    assert OtherBits(0) == 0 && OtherBits(0x3) == 0;
  }

  // ----- which bit is which -----

  /** The flags a word carries: bit 0 is PRESENT, bit 1 WRITABLE, bit 7 HUGE_PAGE. */
  lemma FlagPositions(word: bv64)
    ensures Decode(word).flags.present <==> word & 1 == 1
    ensures Decode(word).flags.writable <==> (word >> 1) & 1 == 1
    ensures Decode(word).flags.huge <==> (word >> 7) & 1 == 1
  {
    hide Number;
  }

  /** The address field is bits 12 to 51. */
  lemma AddressField(word: bv64)
    ensures AddrBits(word) == ((word << 12) >> 24) << 12
  {
  }

  /** The arguments that come back unmixed: an address with its low 12 and high 12 bits clear, and flags
      without any of the bits 12 to 51. */
  lemma MaskMeaning(addr: bv64, bits: bv64)
    ensures RespectsMask(addr, bits) <==> addr & 0xfff == 0 && addr >> 52 == 0 && (bits << 12) >> 24 == 0
  {
  }

  /** The word shifted up, one bit at a time. */
  function Raised(x: bv64, j: nat): bv64 {
    if j == 0 then x else Twice(Raised(x, j - 1), false)
  }

  lemma {:induction false} RaisedNumber(x: bv64, k: nat, j: nat)
    requires Inside(x, Ones(k)) && k + j <= 63
    ensures Inside(Raised(x, j), Ones(k + j)) && Number(Raised(x, j), k + j) == Power(j) * Number(x, k)
    decreases j
  {
    if j > 0 {
      RaisedNumber(x, k, j - 1);
      hide Half, Odd, Inside, Number, Ones, Twice, Power;
      RaisedOnce(Raised(x, j - 1), k + j - 1);
      PowerStep(j, Number(x, k));
    }
  }

  lemma RaisedOnce(y: bv64, k: nat)
    requires Inside(y, Ones(k)) && k <= 62
    ensures Inside(Twice(y, false), Ones(k + 1)) && Number(Twice(y, false), k + 1) == 2 * Number(y, k)
  {
    hide Half, Odd, Twice, Inside;
    TwiceInside(y, false, Ones(k));
    ShortWords(y, k);
    TwiceBack(y, false);
  }

  lemma PowerStep(j: nat, n: nat)
    requires j > 0
    ensures 2 * (Power(j - 1) * n) == Power(j) * n
  {
  }

  lemma {:induction false} RaisedAdds(x: bv64, i: nat, j: nat)
    ensures Raised(Raised(x, i), j) == Raised(x, i + j)
    decreases j
  {
    hide Twice;
    if j > 0 {
      RaisedAdds(x, i, j - 1);
    }
  }

  lemma RaisedByThree(x: bv64)
    ensures Raised(x, 3) == ShiftByThree(x)
  {
    assert Raised(x, 1) == Twice(x, false);
    assert Raised(x, 2) == Twice(Twice(x, false), false);
  }

  function ShiftByThree(x: bv64): bv64 {
    x << 3
  }

  lemma FourShifts(x: bv64)
    ensures ShiftByThree(ShiftByThree(ShiftByThree(ShiftByThree(x)))) == ShiftUp(x)
  {
  }

  lemma RaisedIsShifted(x: bv64)
    ensures Raised(x, 12) == ShiftUp(x)
  {
    hide Raised, ShiftByThree, ShiftUp;
    var x3, x6, x9 := Raised(x, 3), Raised(x, 6), Raised(x, 9);
    RaisedAdds(x, 3, 3);
    RaisedAdds(x, 6, 3);
    RaisedAdds(x, 9, 3);
    RaisedByThree(x);
    RaisedByThree(x3);
    RaisedByThree(x6);
    RaisedByThree(x9);
    FourShifts(x);
  }

  /** The address stored for a frame is the frame number times 4096. */
  lemma AddressIsProduct(frame: Frame)
    requires frame < FRAME_LIMIT
    ensures Number(AddressOf(frame), 52) == frame * 4096
  {
    hide Number, Bits, Ones, Inside, ShiftUp, Raised;
    FramePower();
    NumberOfBits(frame, FRAME_BITS);
    RaisedNumber(Bits(frame, FRAME_BITS), FRAME_BITS, 12);
    RaisedIsShifted(Bits(frame, FRAME_BITS));
    assert Power(6) == 64;
    assert Power(12) == 4096;
  }
}
