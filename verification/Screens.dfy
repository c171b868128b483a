/** The framebuffer: bytes in memory, read as rows of pixels of at least 4 bytes. */
module Screens {
  type Byte = b: nat | b < 256

  /** A 32-bit colour word. */
  type Color = c: nat | c < 0x1_0000_0000

  /** Byte `k` of a word, least significant first. */
  function ByteOf(c: Color, k: nat): Byte
    requires k < 4
  {
    if k == 0 then c % 256
    else if k == 1 then c / 0x100 % 256
    else if k == 2 then c / 0x1_0000 % 256
    else c / 0x100_0000
  }

  function Word(b0: Byte, b1: Byte, b2: Byte, b3: Byte): Color {
    b0 + 0x100 * b1 + 0x1_0000 * b2 + 0x100_0000 * b3
  }

  lemma WordOfBytes(c: Color)
    ensures Word(ByteOf(c, 0), ByteOf(c, 1), ByteOf(c, 2), ByteOf(c, 3)) == c
  {
    var c1 := c / 256;
    var c2 := c1 / 256;
    assert c / 0x1_0000 == c2 && c / 0x100_0000 == c2 / 256;
  }

  lemma Further(a: nat, b: nat, k: nat)
    ensures a < b ==> a * k + k <= b * k
  {
    assert a < b ==> (a + 1) * k <= b * k;
  }

  class Screen {
    const buffer: array<Byte>
    const width: nat
    const height: nat
    const bytesPerPixel: nat
    const bytesPerRow: nat

    constructor (buffer: array<Byte>, width: nat, height: nat, bitsPerPixel: nat, pitch: nat)
      ensures this.buffer == buffer && this.width == width && this.height == height
      ensures bytesPerPixel == bitsPerPixel / 8 && bytesPerRow == pitch
      ensures Valid() <==> bitsPerPixel >= 32 && bytesPerPixel * width <= pitch && pitch * height <= buffer.Length
    {
      this.buffer, this.width, this.height := buffer, width, height;
      this.bytesPerPixel, this.bytesPerRow := bitsPerPixel / 8, pitch;
    }

    /** Rows fit the pitch and the buffer, and a pixel has room for the 4 bytes that are written. */
    ghost predicate Valid() {
      bytesPerPixel >= 4 && bytesPerPixel * width <= bytesPerRow && bytesPerRow * height <= buffer.Length
    }

    function Offset(x: nat, y: nat): nat {
      x * bytesPerPixel + y * bytesPerRow
    }

    lemma OffsetInside(x: nat, y: nat)
      requires Valid() && x < width && y < height
      ensures Offset(x, y) + 4 <= buffer.Length
    {
      Further(x, width, bytesPerPixel);
      Further(y, height, bytesPerRow);
    }

    /** Different pixels share no byte. */
    lemma PixelsApart(x: nat, y: nat, x': nat, y': nat)
      requires Valid() && x < width && x' < width && (x != x' || y != y')
      ensures Offset(x, y) + 4 <= Offset(x', y') || Offset(x', y') + 4 <= Offset(x, y)
    {
      if y == y' {
        Further(x, x', bytesPerPixel);
        Further(x', x, bytesPerPixel);
      } else {
        Further(x, width, bytesPerPixel);
        Further(x', width, bytesPerPixel);
        Further(y, y', bytesPerRow);
        Further(y', y, bytesPerRow);
      }
    }

    /** With smaller pixels, writing the first one spills into the second. */
    lemma SmallPixelsOverlap()
      requires bytesPerPixel < 4
      ensures Offset(0, 0) <= Offset(1, 0) < Offset(0, 0) + 4
    {
    }

    /** The colour word at a byte offset. */
    ghost function Load(offset: nat): Color
      requires offset + 4 <= buffer.Length
      reads buffer
    {
      Word(buffer[offset], buffer[offset + 1], buffer[offset + 2], buffer[offset + 3])
    }

    ghost function Pixel(x: nat, y: nat): Color
      requires Valid() && x < width && y < height
      reads buffer
    {
      OffsetInside(x, y);
      Load(Offset(x, y))
    }

    /** The pixel at (x, y) is the little-endian word at x * bytesPerPixel + y * bytesPerRow. */
    lemma PixelBytes(x: nat, y: nat)
      requires Valid() && x < width && y < height
      ensures var o := x * bytesPerPixel + y * bytesPerRow;
              && o + 4 <= buffer.Length
              && Pixel(x, y) as int == buffer[o] as int + 0x100 * (buffer[o + 1] as int)
                                       + 0x1_0000 * (buffer[o + 2] as int) + 0x100_0000 * (buffer[o + 3] as int)
    {
      OffsetInside(x, y);
    }

    /** Byte `k` belongs to no pixel. */
    ghost predicate Padding(k: nat) {
      forall x: nat, y: nat | x < width && y < height :: k < Offset(x, y) || Offset(x, y) + 4 <= k
    }

    method WritePixel(offset: nat, color: Color)
      requires offset + 4 <= buffer.Length
      modifies buffer
      ensures Load(offset) == color
      ensures forall k | 0 <= k < buffer.Length && !(offset <= k < offset + 4) :: buffer[k] == old(buffer[k])
    {
      buffer[offset] := ByteOf(color, 0);
      buffer[offset + 1] := ByteOf(color, 1);
      buffer[offset + 2] := ByteOf(color, 2);
      buffer[offset + 3] := ByteOf(color, 3);
      WordOfBytes(color);
    }

    /** A pixel written at its offset is the only one that changes, and no other byte does. */
    method StorePixel(x: nat, y: nat, offset: nat, color: Color)
      requires Valid() && x < width && y < height && offset == Offset(x, y)
      modifies buffer
      ensures Pixel(x, y) == color
      ensures forall x': nat, y': nat | x' < width && y' < height && (x' != x || y' != y) ::
                Pixel(x', y') == old(Pixel(x', y'))
      ensures forall k | 0 <= k < buffer.Length && !(offset <= k < offset + 4) :: buffer[k] == old(buffer[k])
    {
      OffsetInside(x, y);
      WritePixel(offset, color);
      forall x': nat, y': nat | x' < width && y' < height && (x' != x || y' != y)
        ensures Pixel(x', y') == old(Pixel(x', y'))
      {
        PixelsApart(x, y, x', y');
        OffsetInside(x', y');
      }
    }

    /** Exactly the pixel at (x, y) changes; off the screen the source panics. */
    method DrawPixel(x: nat, y: nat, color: Color)
      requires Valid() && x < width && y < height
      modifies buffer
      ensures Pixel(x, y) == color
      ensures forall x': nat, y': nat | x' < width && y' < height && (x' != x || y' != y) ::
                Pixel(x', y') == old(Pixel(x', y'))
      ensures var o := x * bytesPerPixel + y * bytesPerRow;
              forall k | 0 <= k < buffer.Length && !(o <= k < o + 4) :: buffer[k] == old(buffer[k])
    {
      StorePixel(x, y, x * bytesPerPixel + y * bytesPerRow, color);
    }

    /** Every pixel takes the colour, and bytes that belong to no pixel are left alone. */
    method DrawAll(color: Color)
      requires Valid()
      modifies buffer
      ensures forall x: nat, y: nat | x < width && y < height :: Pixel(x, y) == color
      ensures forall k | 0 <= k < buffer.Length && Padding(k) :: buffer[k] == old(buffer[k])
    {
      for y := 0 to height
        invariant forall x': nat, y': nat | x' < width && y' < y :: Pixel(x', y') == color
        invariant forall k | 0 <= k < buffer.Length && Padding(k) :: buffer[k] == old(buffer[k])
      {
        var offset := y * bytesPerRow;
        for x := 0 to width
          invariant offset == Offset(x, y)
          invariant forall x': nat, y': nat | x' < width && y' < y :: Pixel(x', y') == color
          invariant forall x': nat | x' < x :: Pixel(x', y) == color
          invariant forall k | 0 <= k < buffer.Length && Padding(k) :: buffer[k] == old(buffer[k])
        {
          StorePixel(x, y, offset, color);
          offset := offset + bytesPerPixel;
        }
      }
    }
  }
}
