/** Mapping a page, in terms of the words that are stored. */
module MappedWords {
  import opened Entries
  import opened EntryWords
  import opened Pages
  import opened PageTree
  import opened Machines

  /** The word stored for a frame and flag bits. */
  function StoredWord(frame: Frame, bits: bv64): bv64 {
    SetAddr(AddressOf(frame), bits)
  }

  /** Every frame the frame allocator can hand out has an address, so the links and leaves written for it
      are stored as words that decode to them. */
  lemma PoolFrameStored(s: Sound, f: Frame, bits: bv64)
    requires InPool(s.m, f) && bits & ADDR_MASK == 0
    ensures f < FRAME_LIMIT && Decode(StoredWord(f, bits)) == Entry(f, DecodeFlags(bits))
  {
    hide Decode, SetAddr, AddressOf, DecodeFlags;
    PoolFrameSmall(s, f);
    StoredEntry(f, bits);
  }

  lemma PoolFrameSmall(s: Sound, f: Frame)
    requires InPool(s.m, f)
    ensures f < FRAME_LIMIT
  {
  }

  /** After `map_page_unchecked` the walk ends at the very word stored, from which address and flags read
      back unmixed. */
  lemma MappedWord(s: Sound, c: nat, frame: Frame, bits: bv64, m': Machine)
    requires Mappable(s.view, c) && frame < FRAME_LIMIT && bits & ADDR_MASK == 0 && Contains(bits, PRESENT)
    requires NodeOf(c, 1) in s.l.tables || !Contains(bits, HUGE_PAGE)
    requires MapPage(s.m, c, frame, DecodeFlags(bits)) == Some(m')
    ensures c < MAX_PAGE
    ensures Walk(m'.mem, m'.root, c) == Leaf(1, Decode(StoredWord(frame, bits)))
    ensures AddrBits(StoredWord(frame, bits)) == AddressOf(frame) && FlagBits(StoredWord(frame, bits)) == bits
  {
    hide Core, MapPage, Walk, Decode, SetAddr, AddressOf, AddrBits, FlagBits, Contains;
    StoredEntry(frame, bits);
    AddrBack(AddressOf(frame), bits);
    FlagsBack(AddressOf(frame), bits);
    var r, l' := MapPageTranslates(s, c, frame, DecodeFlags(bits));
    assert c in s.view[c := LeafOf(Entry(frame, DecodeFlags(bits)))];
  }

  /** The word that a page of a live allocation leads to: its frame's address with the low bits 0x003,
      PRESENT and WRITABLE, and no others. */
  lemma AllocatedWord(s: Sound, c: nat, word: bv64)
    requires c in s.l.pages
    ensures c < MAX_PAGE
    ensures Walk(s.m.mem, s.m.root, c) == Leaf(1, Decode(word)) <==>
            word == AddressOf(s.l.pages[c]) | 0x3
    ensures var stored := AddressOf(s.l.pages[c]) | 0x3;
            stored & 0xfff == 0x003 && stored >> 52 == 0 && AddrBits(stored) == AddressOf(s.l.pages[c])
  {
    hide Core, Walk, Decode, AddressOf, DecodeFlags, AddrBits, FlagBits, RespectsMask;
    OwnedLeads(s, c);
    ViewAt(s, c);
    var f := s.l.pages[c];
    PoolFrameStored(s, f, 0x3);
    StoredEntry(f, 0x3);
    DecodedConstants();
    AddrBack(AddressOf(f), 0x3);
    MaskMeaning(AddressOf(f), 0x3);
    LowBits(AddressOf(f));
    if Decode(word) == Decode(StoredWord(f, 0x3)) {
      DecodeInjective(word, StoredWord(f, 0x3));
    }
  }

  lemma LowBits(addr: bv64)
    requires addr & 0xfff == 0 && addr >> 52 == 0
    ensures (addr | 0x3) & 0xfff == 0x003 && (addr | 0x3) >> 52 == 0
  {
  }
}
