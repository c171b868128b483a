/** Decoded page-table entries: a frame number and flags. */
module Entries {
  /** A physical frame number: a physical address divided by the frame size. */
  type Frame = nat

  /** Entries hold 40 bits of frame number (bits 12 to 51 of the word). */
  const FRAME_LIMIT: nat := 0x100_0000_0000

  const FRAME_BITS: nat := 40

  /** The flags the code and the processor look at, and the number that the remaining bits write. */
  datatype Flags = Flags(present: bool, writable: bool, huge: bool, rest: nat)

  datatype Entry = Entry(frame: Frame, flags: Flags)

  const NO_FLAGS := Flags(false, false, false, 0)

  /** PRESENT | WRITABLE, the flags every mapping of the page allocator uses. */
  const RW := Flags(true, true, false, 0)

  /** A cleared entry. */
  const EMPTY := Entry(0, NO_FLAGS)
}
