/**
 * The `Write` object: raw and rotated panel size, text cursor, text style,
 * the one-bit framebuffer it draws into, the optional custom font and the
 * rotation. Its methods are the imperative counterparts of the functions
 * of Raster and Layout, and each is proved to do what those functions say.
 *
 * The C++ `int16_t` coordinates and cursor are mathematical integers here;
 * the panel-size fields hold the values the constructor and `setRotation`
 * give them, which is what `Valid` records.
 */
module WriteDisplay {
  import opened Bytes
  import opened Fonts
  import opened Raster
  import opened Layout
  import opened Stream

  class Write {
    /** Panel size as modified by the current rotation (`_width`, `_height`). */
    var width: int
    var height: int
    var cursorX: int
    var cursorY: int
    var textColor: uint16
    /** Holds -1 after construction: the constructor stores 0xFFFF into an `int16_t`. */
    var textBgColor: int16
    var textSizeX: uint8
    var textSizeY: uint8
    var wrap: bool
    /** Raw panel size; only the constructor sets it. */
    const WIDTH: int
    const HEIGHT: int
    /** The one-bit-per-pixel framebuffer the object draws into (`_mono_buffer`). */
    const monoBuffer: array<bv8>
    /** The custom font, or None for the classic font (`gfxFont == NULL`). */
    var gfxFont: Option<GFXfont>
    var rotation: uint8
    /** The classic 256 x 5 font table. */
    const font: seq<bv8>

    /**
     * The object invariant: raw size 176 x 264, a buffer of one bit per
     * pixel, a rotation in 0..3 whose rotated size is the one recorded,
     * well-formed fonts and positive text sizes.
     */
    ghost predicate Valid()
      reads this
    {
      && WIDTH == RAW_WIDTH && HEIGHT == RAW_HEIGHT
      && monoBuffer.Length == BUFFER_SIZE
      && ValidRotation(rotation)
      && width == LogicalWidth(rotation) && height == LogicalHeight(rotation)
      && |font| == CLASSIC_TABLE_SIZE
      && (gfxFont.Some? ==> WellFormed(gfxFont.value))
      && 1 <= textSizeX && 1 <= textSizeY
    }

    /** The font `drawChar` walks. */
    function ActiveFont(): (f: Font)
      reads this
      ensures f.Classic? <==> gfxFont.None?
    {
      if gfxFont.Some? then Custom(gfxFont.value) else Classic(font)
    }

    /** What `writeC` reads besides the cursor; the background reaches `drawChar` as a `uint16_t`. */
    function Style(): (e: Env)
      reads this
      ensures Valid() ==> EnvValid(e)
      ensures e.font == ActiveFont() && e.width == width && e.height == height
      ensures e.bg == ToUint16(textBgColor)
    {
      Env(width, height, textSizeX, textSizeY, wrap, textColor, ToUint16(textBgColor), ActiveFont())
    }

    function CursorAt(): Cursor
      reads this
    {
      Cursor(cursorX, cursorY)
    }

    /**
     * The initial state: raw and rotated size 176 x 264, rotation 0, cursor
     * at the origin, size 1, text colour 0, background 0xFFFF (read back as
     * -1), wrap on, the classic font, and the caller's buffer.
     */
    constructor (buffer: array<bv8>, fontTable: seq<bv8>)
      requires buffer.Length == BUFFER_SIZE && |fontTable| == CLASSIC_TABLE_SIZE
      ensures Valid()
      ensures WIDTH == 176 && HEIGHT == 264 && width == 176 && height == 264
      ensures rotation == 0 && cursorX == 0 && cursorY == 0
      ensures textSizeX == 1 && textSizeY == 1 && textColor == 0
      ensures textBgColor == -1 && ToUint16(textBgColor) == 0xFFFF
      ensures wrap && gfxFont.None?
      ensures monoBuffer == buffer && font == fontTable
    {
      WIDTH := 176;
      HEIGHT := 264;
      width := 176;
      height := 264;
      rotation := 0;
      cursorX, cursorY := 0, 0;
      textSizeX, textSizeY := 1, 1;
      textColor := 0;
      textBgColor := 0xFFFF - 0x1_0000;
      wrap := true;
      gfxFont := None;
      monoBuffer := buffer;
      font := fontTable;
    }

    /** `getRotation()`: always one of the four cardinal rotations. */
    function GetRotation(): (r: uint8)
      reads this
      requires Valid()
      ensures r < 4
      ensures LogicalWidth(r) == width && LogicalHeight(r) == height
    {
      rotation
    }

    /**
     * `setRotation(x)`: keeps the low two bits of x, and the rotated size is
     * the raw size for 0 and 2 and the transposed raw size for 1 and 3.
     */
    method SetRotation(x: uint8)
      requires Valid()
      modifies this`rotation, this`width, this`height
      ensures Valid()
      ensures rotation == x % 4
      ensures rotation == 0 || rotation == 2 ==> width == WIDTH && height == HEIGHT
      ensures rotation == 1 || rotation == 3 ==> width == HEIGHT && height == WIDTH
    {
      rotation := LowTwoBitsOf(x);
      if rotation == 0 || rotation == 2 {
        width := WIDTH;
        height := HEIGHT;
      } else if rotation == 1 || rotation == 3 {
        width := HEIGHT;
        height := WIDTH;
      }
    }

    /**
     * `drawPixel(x, y, color)`: transforms the logical point for the current
     * rotation, then clears (nonzero colour) or sets (colour 0) its bit.
     */
    method DrawPixel(x: int, y: int, color: uint16)
      requires Valid() && InLogical(rotation, x, y)
      modifies monoBuffer
      ensures monoBuffer[..] == SetPixel(old(monoBuffer[..]), rotation, x, y, color)
    {
      var p := Transform(GetRotation(), x, y);
      var px, py := p.0, p.1;
      var i := px / 8 + py * WIDTH / 8;
      assert i == ByteIndex(px, py);
      var shift := 7 - px % 8;
      SetPixelAt(monoBuffer[..], rotation, x, y, color, px, py);
      if color != 0 {
        monoBuffer[i] := ClearBit(monoBuffer[i], shift);
      } else {
        monoBuffer[i] := SetBit(monoBuffer[i], shift);
      }
    }

    /**
     * `drawChar(x, y, c, color, bg, size_x, size_y)`: performs exactly the
     * pixel writes `CharWrites` lists for the active font, in order.
     */
    method DrawChar(x: int, y: int, c: uint8, color: uint16, bg: uint16, sizeX: uint8, sizeY: uint8)
      requires Valid() && Drawable(ActiveFont(), c)
      requires AllInBounds(CharWrites(ActiveFont(), width, height, x, y, c, color, bg, sizeX, sizeY), rotation)
      modifies monoBuffer
      ensures monoBuffer[..] ==
              PaintAll(old(monoBuffer[..]), rotation, CharWrites(ActiveFont(), width, height, x, y, c, color, bg, sizeX, sizeY))
    {
      if gfxFont.None? {
        ClassicOnPanelFromWrites(font, width, height, x, y, c, color, bg, sizeX, sizeY, rotation);
        DrawClassicChar(x, y, c, color, bg, sizeX, sizeY);
      } else {
        GlyphOnPanelFromWrites(gfxFont.value, x, y, c, color, sizeX, sizeY, rotation);
        var _ := DrawCustomChar(x, y, c, color, sizeX, sizeY);
      }
    }

    /** `drawChar(x, y, c, color, bg, size)`: the same magnification on both axes. */
    method DrawCharUniform(x: int, y: int, c: uint8, color: uint16, bg: uint16, size: uint8)
      requires Valid() && Drawable(ActiveFont(), c)
      requires AllInBounds(CharWrites(ActiveFont(), width, height, x, y, c, color, bg, size, size), rotation)
      modifies monoBuffer
      ensures monoBuffer[..] ==
              PaintAll(old(monoBuffer[..]), rotation, CharWrites(ActiveFont(), width, height, x, y, c, color, bg, size, size))
    {
      DrawChar(x, y, c, color, bg, size, size);
    }

    /**
     * The classic branch of `drawChar`: after the clip test, five columns,
     * each column byte shifted right once per row, drawing the colour for a
     * one bit and the background for a zero bit when it differs.
     */
    method DrawClassicChar(x: int, y: int, c: uint8, color: uint16, bg: uint16, sizeX: uint8, sizeY: uint8)
      requires Valid()
      requires sizeX == 1 && sizeY == 1 && !ClassicClipped(width, height, x, y, 1, 1) ==>
               ClassicOnPanel(font, x, y, c, color, bg, rotation)
      modifies monoBuffer
      ensures monoBuffer[..] ==
              PaintAll(old(monoBuffer[..]), rotation, ClassicWrites(font, width, height, x, y, c, color, bg, sizeX, sizeY))
    {
      if x >= width || y >= height || x + 6 * sizeX - 1 < 0 || y + 8 * sizeY - 1 < 0 {
        return;
      }
      ghost var sized := sizeX == 1 && sizeY == 1;
      ghost var buf0 := monoBuffer[..];
      ghost var rot := rotation;
      for i := 0 to 5
        invariant sized ==> monoBuffer[..] == ClassicPainted(buf0, rot, font, x, y, c, color, bg, i)
        invariant !sized ==> monoBuffer[..] == buf0
      {
        ghost var columnStart := monoBuffer[..];
        var line := font[c * 5 + i];
        for j := 0 to 8
          invariant line == ShiftedRight(font[c * 5 + i], j)
          invariant sized ==> monoBuffer[..] == ClassicPaintColumn(columnStart, rot, font, x, y, c, color, bg, i, j)
          invariant !sized ==> monoBuffer[..] == buf0
        {
          DrawClassicCell(x, y, c, color, bg, sizeX, sizeY, i, j, line);
          line := line >> 1;
        }
      }
      if sized {
        ClassicPaintedIsPaintAll(buf0, rot, font, x, y, c, color, bg);
      }
    }

    /**
     * One step of the classic walk, at column i and row j, with the column
     * byte shifted right j times: a one bit draws the colour, a zero bit
     * draws the background when it differs; nothing is drawn at a size
     * above 1. The effect is that of the cell's write list.
     */
    method DrawClassicCell(x: int, y: int, c: uint8, color: uint16, bg: uint16, sizeX: uint8, sizeY: uint8,
                           i: nat, j: nat, line: bv8)
      requires Valid() && i < 5 && j < 8
      requires line == ShiftedRight(font[c * 5 + i], j)
      requires sizeX == 1 && sizeY == 1 ==> ClassicOnPanel(font, x, y, c, color, bg, rotation)
      modifies monoBuffer
      ensures monoBuffer[..] ==
              if sizeX == 1 && sizeY == 1
              then ClassicPaintCell(old(monoBuffer[..]), rotation, font, x, y, c, color, bg, i, j)
              else old(monoBuffer[..])
    {
      var px, py := x + i, y + j;
      ClassicPixelStep(rotation, font, x, y, c, color, bg, i, j, px, py, line, sizeX == 1 && sizeY == 1);
      if line & 1 == 1 {
        if sizeX == 1 && sizeY == 1 {
          DrawPixel(px, py, color);
        }
      } else if bg != color {
        if sizeX == 1 && sizeY == 1 {
          DrawPixel(px, py, bg);
        }
      }
    }

    /**
     * The custom-font branch of `drawChar`: one bit counter and one byte
     * pointer for the whole glyph, a fresh bitmap byte every eight pixels
     * whatever the row, the top bit of `bits` deciding each pixel. Returns
     * (as ghost) the number of bitmap bytes read: ceil(width * height / 8).
     */
    method DrawCustomChar(x: int, y: int, c: uint8, color: uint16, sizeX: uint8, sizeY: uint8)
      returns (ghost bytesRead: nat)
      requires Valid() && gfxFont.Some? && InRange(gfxFont.value, c)
      requires sizeX == 1 && sizeY == 1 ==>
               GlyphOnPanel(GlyphBits(gfxFont.value.bitmap, GlyphOf(gfxFont.value, c)), GlyphOf(gfxFont.value, c), x, y, rotation)
      modifies monoBuffer
      ensures monoBuffer[..] == PaintAll(old(monoBuffer[..]), rotation, GlyphWrites(gfxFont.value, x, y, c, color, sizeX, sizeY))
      ensures bytesRead == GlyphBytes(GlyphOf(gfxFont.value, c))
    {
      var f := gfxFont.value;
      GlyphLookupInBounds(f, c);
      var glyph := GlyphPtr(f, c - f.first);
      var bitmap := BitmapPtr(f);
      var bo: int := glyph.bitmapOffset;
      var w: int, h: int := glyph.width, glyph.height;
      var bits: bv8, bit := 0, 0;
      ghost var bo0 := bo;
      ghost var sized := sizeX == 1 && sizeY == 1;
      ghost var buf0 := monoBuffer[..];
      ghost var rot := rotation;
      ghost var pixels := GlyphBits(bitmap, glyph);
      var yy: int := 0;
      while yy < h
        invariant 0 <= yy <= h
        invariant Counters(bitmap, bo0, RowStart(w, yy), bit, bo, bits)
        invariant sized ==> monoBuffer[..] == GlyphPainted(buf0, rot, pixels, glyph, x, y, color, yy)
        invariant !sized ==> monoBuffer[..] == buf0
      {
        ghost var before := monoBuffer[..];
        bit, bo, bits := DrawGlyphRow(x, y, color, sizeX, sizeY, glyph, bitmap, yy, bit, bo, bits, bo0);
        assert sized ==> monoBuffer[..] == GlyphPaintRow(before, rot, pixels, glyph, x, y, color, yy, w);
        assert sized ==> GlyphPainted(buf0, rot, pixels, glyph, x, y, color, yy + 1) ==
                         GlyphPaintRow(GlyphPainted(buf0, rot, pixels, glyph, x, y, color, yy), rot, pixels, glyph, x, y, color, yy, w);
        yy := yy + 1;
      }
      if sized {
        GlyphPaintedIsPaintAll(buf0, rot, pixels, glyph, x, y, color, h);
      }
      bytesRead := bo - bo0;
    }

    /**
     * One row of the custom-font walk, the inner loop over xx: from the
     * counters of the row's first pixel to those of the next row's, painting
     * the row pixel by pixel.
     */
    method DrawGlyphRow(x: int, y: int, color: uint16, sizeX: uint8, sizeY: uint8, glyph: GFXglyph,
                        bitmap: seq<bv8>, yy: nat, bit: int, bo: int, bits: bv8, ghost bo0: int)
      returns (nextBit: int, nextBo: int, nextBits: bv8)
      requires Valid() && GlyphFits(bitmap, glyph) && bo0 == glyph.bitmapOffset && yy < glyph.height
      requires Counters(bitmap, bo0, RowStart(glyph.width, yy), bit, bo, bits)
      requires sizeX == 1 && sizeY == 1 ==> GlyphOnPanel(GlyphBits(bitmap, glyph), glyph, x, y, rotation)
      modifies monoBuffer
      ensures Counters(bitmap, bo0, RowStart(glyph.width, yy + 1), nextBit, nextBo, nextBits)
      ensures monoBuffer[..] ==
              if sizeX == 1 && sizeY == 1
              then GlyphPaintRow(old(monoBuffer[..]), rotation, GlyphBits(bitmap, glyph), glyph, x, y, color, yy, glyph.width)
              else old(monoBuffer[..])
    {
      nextBit, nextBo, nextBits := bit, bo, bits;
      ghost var sized := sizeX == 1 && sizeY == 1;
      ghost var rowStart := monoBuffer[..];
      ghost var rot := rotation;
      ghost var pixels := GlyphBits(bitmap, glyph);
      ghost var k := RowStart(glyph.width, yy);
      var xx: int := 0;
      while xx < glyph.width
        invariant 0 <= xx <= glyph.width
        invariant Counters(bitmap, bo0, k + xx, nextBit, nextBo, nextBits)
        invariant sized ==> monoBuffer[..] == GlyphPaintRow(rowStart, rot, pixels, glyph, x, y, color, yy, xx)
        invariant !sized ==> monoBuffer[..] == rowStart
      {
        ghost var before := monoBuffer[..];
        nextBit, nextBo, nextBits := DrawGlyphPixel(x, y, color, sizeX, sizeY, glyph, bitmap, xx, yy,
                                                    nextBit, nextBo, nextBits, bo0, k + xx);
        assert sized ==> monoBuffer[..] == GlyphPaintPixel(before, rot, pixels, glyph, x, y, color, xx, yy);
        assert sized ==> GlyphPaintRow(rowStart, rot, pixels, glyph, x, y, color, yy, xx + 1) ==
                         GlyphPaintPixel(GlyphPaintRow(rowStart, rot, pixels, glyph, x, y, color, yy, xx), rot, pixels, glyph, x, y, color, xx, yy);
        xx := xx + 1;
      }
    }

    /**
     * One pixel of the custom-font walk, the body of its inner loop: a fresh
     * bitmap byte when the 8-bit counter `bit` is a multiple of 8, then the
     * top bit of `bits` decides the pixel, then `bits` shifts left. With k
     * the pixel's index in the glyph, the counters go from those of pixel k
     * to those of pixel k + 1, and the buffer is painted with the pixel's
     * write.
     */
    method DrawGlyphPixel(x: int, y: int, color: uint16, sizeX: uint8, sizeY: uint8, glyph: GFXglyph,
                          bitmap: seq<bv8>, xx: nat, yy: nat, bit: int, bo: int, bits: bv8, ghost bo0: int, ghost k: nat)
      returns (nextBit: int, nextBo: int, nextBits: bv8)
      requires Valid() && GlyphFits(bitmap, glyph) && bo0 == glyph.bitmapOffset
      requires xx < glyph.width && yy < glyph.height && k == GlyphBit(glyph, xx, yy)
      requires Counters(bitmap, bo0, k, bit, bo, bits)
      requires sizeX == 1 && sizeY == 1 ==> GlyphOnPanel(GlyphBits(bitmap, glyph), glyph, x, y, rotation)
      modifies monoBuffer
      ensures Counters(bitmap, bo0, k + 1, nextBit, nextBo, nextBits)
      ensures monoBuffer[..] ==
              if sizeX == 1 && sizeY == 1
              then GlyphPaintPixel(old(monoBuffer[..]), rotation, GlyphBits(bitmap, glyph), glyph, x, y, color, xx, yy)
              else old(monoBuffer[..])
    {
      nextBit, nextBo, nextBits := bit, bo, bits;
      GlyphPixelShifted(bitmap, glyph, xx, yy, k);
      CountersBefore(bitmap, bo0, k, bit, bo, bits);
      if nextBit % 8 == 0 {
        nextBits := bitmap[nextBo];
        nextBo := nextBo + 1;
      }
      assert nextBits == ShiftedLeft(bitmap[bo0 + k / 8], k % 8);
      nextBit := (nextBit + 1) % 256;
      if sizeX == 1 && sizeY == 1 && nextBits & 0x80 != 0 {
        assert BitSet(GlyphBits(bitmap, glyph), glyph, xx, yy);
      }
      PlotGlyphPixel(x, y, color, sizeX, sizeY, glyph, GlyphBits(bitmap, glyph), xx, yy, nextBits & 0x80 != 0);
      nextBits := nextBits << 1;
      CountersAfter(bitmap, bo0, k, nextBit, nextBo, nextBits);
    }

    /** The drawing half of a custom-font pixel: the colour at size 1 when the pixel's bit is set, nothing otherwise. */
    method PlotGlyphPixel(x: int, y: int, color: uint16, sizeX: uint8, sizeY: uint8, glyph: GFXglyph,
                          ghost pixels: seq<bool>, xx: nat, yy: nat, lit: bool)
      requires Valid() && BitsOf(pixels, glyph) && xx < glyph.width && yy < glyph.height
      requires GlyphBit(glyph, xx, yy) < |pixels| && lit == pixels[GlyphBit(glyph, xx, yy)]
      requires sizeX == 1 && sizeY == 1 && lit ==> InLogical(rotation, x + glyph.xOffset + xx, y + glyph.yOffset + yy)
      modifies monoBuffer
      ensures monoBuffer[..] ==
              if sizeX == 1 && sizeY == 1
              then GlyphPaintPixel(old(monoBuffer[..]), rotation, pixels, glyph, x, y, color, xx, yy)
              else old(monoBuffer[..])
    {
      ghost var before := monoBuffer[..];
      if lit {
        if sizeX == 1 && sizeY == 1 {
          ghost var painted := SetPixel(before, rotation, x + glyph.xOffset + xx, y + glyph.yOffset + yy, color);
          assert GlyphPaintPixel(before, rotation, pixels, glyph, x, y, color, xx, yy) == painted;
          DrawPixel(x + glyph.xOffset + xx, y + glyph.yOffset + yy, color);
        }
      } else {
        assert GlyphPaintPixel(before, rotation, pixels, glyph, x, y, color, xx, yy) == before;
      }
    }

    /**
     * `writeC(c)`: moves the cursor as `Step` says and performs the writes of
     * the one `drawChar` it makes, if any; the style does not change. Returns 1.
     */
    method WriteC(c: uint8) returns (n: nat)
      requires Valid()
      requires AllInBounds(StepWrites(Style(), CursorAt(), c), rotation)
      modifies this`cursorX, this`cursorY, monoBuffer
      ensures n == 1
      ensures Valid() && Style() == old(Style())
      ensures CursorAt() == Step(old(Style()), old(CursorAt()), c).next
      ensures monoBuffer[..] == PaintAll(old(monoBuffer[..]), rotation, StepWrites(old(Style()), old(CursorAt()), c))
    {
      if gfxFont.None? {
        WriteClassic(c);
      } else {
        WriteCustom(c);
      }
      n := 1;
    }

    /** The classic-font branch of `writeC(c)`. */
    method WriteClassic(c: uint8)
      requires Valid() && gfxFont.None?
      requires AllInBounds(StepWrites(Style(), CursorAt(), c), rotation)
      modifies this`cursorX, this`cursorY, monoBuffer
      ensures Valid() && Style() == old(Style())
      ensures CursorAt() == Step(old(Style()), old(CursorAt()), c).next
      ensures monoBuffer[..] == PaintAll(old(monoBuffer[..]), rotation, StepWrites(old(Style()), old(CursorAt()), c))
    {
      ghost var e, cur0 := Style(), CursorAt();
      ghost var m := ClassicStep(width, textSizeX, textSizeY, wrap, cur0, c);
      assert Step(e, cur0, c) == m;
      if c == 10 {
        cursorX := 0;
        cursorY := cursorY + textSizeY * 8;
      } else if c != 13 {
        if wrap && cursorX + textSizeX * 6 > width {
          cursorX := 0;
          cursorY := cursorY + textSizeY * 8;
        }
        assert m.draw == Some(CursorAt());
        assert StepWrites(e, cur0, c) ==
               CharWrites(ActiveFont(), width, height, cursorX, cursorY, c, textColor, ToUint16(textBgColor), textSizeX, textSizeY);
        DrawChar(cursorX, cursorY, c, textColor, ToUint16(textBgColor), textSizeX, textSizeY);
        cursorX := cursorX + textSizeX * 6;
      }
    }

    /** The custom-font branch of `writeC(c)`. */
    method WriteCustom(c: uint8)
      requires Valid() && gfxFont.Some?
      requires AllInBounds(StepWrites(Style(), CursorAt(), c), rotation)
      modifies this`cursorX, this`cursorY, monoBuffer
      ensures Valid() && Style() == old(Style())
      ensures CursorAt() == Step(old(Style()), old(CursorAt()), c).next
      ensures monoBuffer[..] == PaintAll(old(monoBuffer[..]), rotation, StepWrites(old(Style()), old(CursorAt()), c))
    {
      ghost var e, cur0 := Style(), CursorAt();
      var f := gfxFont.value;
      ghost var m := GlyphStep(width, textSizeX, textSizeY, wrap, f, cur0, c);
      assert Step(e, cur0, c) == m;
      if c == 10 {
        cursorX := 0;
        cursorY := cursorY + textSizeY * f.yAdvance;
      } else if c != 13 {
        var first := f.first;
        if c >= first && c <= f.last {
          var glyph := GlyphPtr(f, c - first);
          var w, h := glyph.width, glyph.height;
          if w > 0 && h > 0 {
            var xo := glyph.xOffset;
            if wrap && cursorX + textSizeX * (xo + w) > width {
              cursorX := 0;
              cursorY := cursorY + textSizeY * f.yAdvance;
            }
            assert m.draw == Some(CursorAt());
            assert StepWrites(e, cur0, c) ==
                   CharWrites(ActiveFont(), width, height, cursorX, cursorY, c, textColor, ToUint16(textBgColor), textSizeX, textSizeY);
            DrawChar(cursorX, cursorY, c, textColor, ToUint16(textBgColor), textSizeX, textSizeY);
          }
          cursorX := cursorX + glyph.xAdvance * textSizeX;
        }
      }
    }

    /**
     * `print(text)`: every byte except the lead bytes 194 and 195 is folded
     * by `_unicodeEasy` and written, in order; the effect is the run of
     * `PrintCodes(text)`.
     */
    method Print(text: seq<uint8>)
      requires Valid()
      requires AllInBounds(Run(Style(), CursorAt(), PrintCodes(text)).writes, rotation)
      modifies this`cursorX, this`cursorY, monoBuffer
      ensures Valid() && Style() == old(Style())
      ensures CursorAt() == Run(old(Style()), old(CursorAt()), PrintCodes(text)).cursor
      ensures monoBuffer[..] == PaintAll(old(monoBuffer[..]), rotation, Run(old(Style()), old(CursorAt()), PrintCodes(text)).writes)
    {
      ghost var e, cur0, buf0 := Style(), CursorAt(), monoBuffer[..];
      ghost var codes: seq<uint8> := [];
      for k := 0 to |text|
        invariant Valid() && Style() == e
        invariant codes == PrintCodes(text[..k])
        invariant AllInBounds(Run(e, cur0, codes).writes, rotation)
        invariant CursorAt() == Run(e, cur0, codes).cursor
        invariant monoBuffer[..] == PaintAll(buf0, rotation, Run(e, cur0, codes).writes)
      {
        var c := text[k];
        PrintCodesStep(text, k);
        if c == 195 || c == 194 {
          continue;
        }
        c := UnicodeEasy(c);
        PrintCodesPrefix(text, k + 1);
        RunStepInBounds(e, cur0, codes, c, PrintCodes(text), rotation);
        ghost var prev := Run(e, cur0, codes);
        var _ := WriteC(c);
        PaintAllAppend(buf0, rotation, prev.writes, StepWrites(e, prev.cursor, c));
        RunSnoc(e, cur0, codes, c);
        codes := codes + [c];
      }
      assert text[..|text|] == text;
    }

    /** `print(c)`: a single `writeC(c)`. */
    method PrintChar(c: uint8)
      requires Valid()
      requires AllInBounds(StepWrites(Style(), CursorAt(), c), rotation)
      modifies this`cursorX, this`cursorY, monoBuffer
      ensures Valid() && Style() == old(Style())
      ensures CursorAt() == Step(old(Style()), old(CursorAt()), c).next
      ensures monoBuffer[..] == PaintAll(old(monoBuffer[..]), rotation, StepWrites(old(Style()), old(CursorAt()), c))
    {
      var _ := WriteC(c);
    }

    /** `newline()`: a single `writeC(10)`. */
    method Newline()
      requires Valid()
      requires AllInBounds(StepWrites(Style(), CursorAt(), NEWLINE), rotation)
      modifies this`cursorX, this`cursorY, monoBuffer
      ensures Valid() && Style() == old(Style())
      ensures CursorAt() == Step(old(Style()), old(CursorAt()), NEWLINE).next
      ensures monoBuffer[..] == old(monoBuffer[..])
    {
      var _ := WriteC(10);
    }

    /**
     * `println(text)`: the codes of `print(text)` followed by exactly one
     * newline code.
     */
    method Println(text: seq<uint8>)
      requires Valid()
      requires AllInBounds(Run(Style(), CursorAt(), PrintCodes(text) + [NEWLINE]).writes, rotation)
      modifies this`cursorX, this`cursorY, monoBuffer
      ensures Valid() && Style() == old(Style())
      ensures CursorAt() == Run(old(Style()), old(CursorAt()), PrintCodes(text) + [NEWLINE]).cursor
      ensures monoBuffer[..] ==
              PaintAll(old(monoBuffer[..]), rotation, Run(old(Style()), old(CursorAt()), PrintCodes(text) + [NEWLINE]).writes)
    {
      ghost var e, cur0, buf0 := Style(), CursorAt(), monoBuffer[..];
      ghost var body := Run(e, cur0, PrintCodes(text));
      RunSnoc(e, cur0, PrintCodes(text), NEWLINE);
      assert StepWrites(e, body.cursor, NEWLINE) == [];
      assert body.writes + [] == body.writes;
      Print(text);
      var _ := WriteC(10);
    }

    /**
     * `writeC(buffer, size)`: writes the bytes in order and returns the sum
     * of the `writeC` results, which is the number of bytes.
     */
    method WriteCBytes(buffer: seq<uint8>) returns (n: nat)
      requires Valid()
      requires AllInBounds(Run(Style(), CursorAt(), buffer).writes, rotation)
      modifies this`cursorX, this`cursorY, monoBuffer
      ensures n == |buffer|
      ensures Valid() && Style() == old(Style())
      ensures CursorAt() == Run(old(Style()), old(CursorAt()), buffer).cursor
      ensures monoBuffer[..] == PaintAll(old(monoBuffer[..]), rotation, Run(old(Style()), old(CursorAt()), buffer).writes)
    {
      ghost var e, cur0, buf0 := Style(), CursorAt(), monoBuffer[..];
      ghost var done: seq<uint8> := [];
      n := 0;
      var size := |buffer|;
      var p := 0;
      while size > 0
        invariant 0 <= p <= |buffer| && size == |buffer| - p && n == p
        invariant done == buffer[..p]
        invariant Valid() && Style() == e
        invariant CursorAt() == Run(e, cur0, done).cursor
        invariant monoBuffer[..] == PaintAll(buf0, rotation, Run(e, cur0, done).writes)
      {
        var c := buffer[p];
        size := size - 1;
        assert done + [c] <= buffer by {
          assert buffer[..p + 1] == done + [c];
        }
        RunStepInBounds(e, cur0, done, c, buffer, rotation);
        ghost var prev := Run(e, cur0, done);
        var r := WriteC(c);
        PaintAllAppend(buf0, rotation, prev.writes, StepWrites(e, prev.cursor, c));
        RunSnoc(e, cur0, done, c);
        done := done + [c];
        p := p + 1;
        n := n + r;
      }
      assert buffer[..p] == buffer;
    }

    /** `writeC(const char *buffer, size)`: the same bytes, read as `uint8_t`. */
    method WriteCChars(buffer: seq<uint8>) returns (n: nat)
      requires Valid()
      requires AllInBounds(Run(Style(), CursorAt(), buffer).writes, rotation)
      modifies this`cursorX, this`cursorY, monoBuffer
      ensures n == |buffer|
      ensures Valid() && Style() == old(Style())
      ensures CursorAt() == Run(old(Style()), old(CursorAt()), buffer).cursor
      ensures monoBuffer[..] == PaintAll(old(monoBuffer[..]), rotation, Run(old(Style()), old(CursorAt()), buffer).writes)
    {
      n := WriteCBytes(buffer);
    }

    /**
     * `writeC(str)`: 0 and no effect for a null pointer; otherwise the bytes
     * before the terminating NUL, and their count.
     */
    method WriteCString(str: Option<seq<uint8>>) returns (n: nat)
      requires Valid()
      requires str.Some? ==> 0 in str.value
      requires str.Some? ==> AllInBounds(Run(Style(), CursorAt(), str.value[..StrLen(str.value)]).writes, rotation)
      modifies this`cursorX, this`cursorY, monoBuffer
      ensures Valid() && Style() == old(Style())
      ensures str.None? ==> n == 0 && CursorAt() == old(CursorAt()) && monoBuffer[..] == old(monoBuffer[..])
      ensures str.Some? ==>
                var run := Run(old(Style()), old(CursorAt()), str.value[..StrLen(str.value)]);
                && n == StrLen(str.value)
                && CursorAt() == run.cursor
                && monoBuffer[..] == PaintAll(old(monoBuffer[..]), rotation, run.writes)
    {
      if str.None? {
        return 0;
      }
      var s := str.value;
      n := WriteCBytes(s[..StrLen(s)]);
    }
  }

  /**
   * `x & 3` is `x % 4`, proved apart from its use: inside `LowTwoBitsOf` the
   * same bit-vector fact makes the solver's cost depend on its random seed.
   */
  lemma LowTwoBits(x: bv8)
    ensures (x & 3) as int == x as int % 4
  {
  }

  /** `x & 3` on a `uint8_t`: the rotation `setRotation` keeps. */
  function LowTwoBitsOf(x: uint8): (r: uint8)
    ensures r == x % 4
  {
    LowTwoBits(x as bv8);
    ((x as bv8) & 3) as int
  }

  /** Every cell the classic walk paints lies on the panel. */
  ghost predicate ClassicOnPanel(table: seq<bv8>, x: int, y: int, c: uint8, color: int, bg: int, rot: int)
    requires |table| == CLASSIC_TABLE_SIZE
  {
    forall i: nat, j: nat :: i < 5 && j < 8 && ClassicCellColor(table, c, color, bg, i, j).Some? ==> InLogical(rot, At(x, i), At(y, j))
  }

  /** A walk whose writes all stay on the panel paints only cells on the panel. */
  lemma ClassicOnPanelFromCells(table: seq<bv8>, x: int, y: int, c: uint8, color: int, bg: int, rot: int)
    requires |table| == CLASSIC_TABLE_SIZE
    requires AllInBounds(ClassicCells(table, x, y, c, color, bg, 40), rot)
    ensures ClassicOnPanel(table, x, y, c, color, bg, rot)
  {
    forall i: nat, j: nat | i < 5 && j < 8 && ClassicCellColor(table, c, color, bg, i, j).Some?
      ensures InLogical(rot, At(x, i), At(y, j))
    {
      ClassicCellsHas(table, x, y, c, color, bg, 40, i, j);
    }
  }

  /**
   * Cell (i, j) of the classic walk, at panel point (px, py), given the
   * column byte shifted right j times: its low bit is bit j of the column,
   * and when the cell writes anything at size 1 the point is on the panel.
   */
  lemma ClassicPixelStep(rot: int, table: seq<bv8>, x: int, y: int, c: uint8,
                         color: int, bg: int, i: nat, j: nat, px: int, py: int, line: bv8, sized: bool)
    requires |table| == CLASSIC_TABLE_SIZE && i < 5 && j < 8
    requires px == At(x, i) && py == At(y, j)
    requires sized ==> ClassicOnPanel(table, x, y, c, color, bg, rot)
    requires line == ShiftedRight(table[c * 5 + i], j)
    ensures (line & 1 == 1) == Bit(table[c * 5 + i], j)
    ensures sized && (line & 1 == 1 || bg != color) ==> InLogical(rot, px, py)
  {
    assert line & 1 == 1 || bg != color ==> ClassicCellColor(table, c, color, bg, i, j).Some?;
  }

  /** A classic glyph whose writes stay on the panel has, when it is drawn at size 1, every cell it paints on the panel. */
  lemma ClassicOnPanelFromWrites(table: seq<bv8>, width: int, height: int, x: int, y: int, c: uint8,
                                 color: int, bg: int, sx: int, sy: int, rot: int)
    requires |table| == CLASSIC_TABLE_SIZE
    requires AllInBounds(ClassicWrites(table, width, height, x, y, c, color, bg, sx, sy), rot)
    ensures sx == 1 && sy == 1 && !ClassicClipped(width, height, x, y, 1, 1) ==> ClassicOnPanel(table, x, y, c, color, bg, rot)
  {
    if sx == 1 && sy == 1 && !ClassicClipped(width, height, x, y, 1, 1) {
      ClassicOnPanelFromCells(table, x, y, c, color, bg, rot);
    }
  }

  /** Every set pixel of the glyph lies on the panel, when the glyph's writes do. */
  ghost predicate GlyphOnPanel(bits: seq<bool>, g: GFXglyph, x: int, y: int, rot: int)
    requires BitsOf(bits, g)
  {
    forall xx: nat, yy: nat :: BitSet(bits, g, xx, yy) ==> InLogical(rot, At(x + g.xOffset, xx), At(y + g.yOffset, yy))
  }

  /** At size 1 a custom glyph whose writes stay on the panel has all its set pixels on the panel. */
  lemma GlyphOnPanelFromWrites(f: GFXfont, x: int, y: int, c: uint8, color: int, sx: int, sy: int, rot: int)
    requires WellFormed(f) && InRange(f, c)
    requires AllInBounds(GlyphWrites(f, x, y, c, color, sx, sy), rot)
    ensures sx == 1 && sy == 1 ==> GlyphOnPanel(GlyphBits(f.bitmap, GlyphOf(f, c)), GlyphOf(f, c), x, y, rot)
  {
    var g := GlyphOf(f, c);
    var bits := GlyphBits(f.bitmap, g);
    if sx == 1 && sy == 1 {
      forall xx: nat, yy: nat | BitSet(bits, g, xx, yy)
        ensures InLogical(rot, At(x + g.xOffset, xx), At(y + g.yOffset, yy))
      {
        GlyphBitInWindow(g, xx, yy);
        GlyphRowsHas(bits, g, x, y, color, g.height, xx, yy);
      }
    }
  }

  /**
   * Pixel (xx, yy) of the glyph is bit k of the window: byte k / 8 from the
   * glyph's offset, which after k mod 8 single left shifts has that pixel
   * in its top bit.
   */
  lemma GlyphPixelShifted(bitmap: seq<bv8>, g: GFXglyph, xx: nat, yy: nat, k: nat)
    requires GlyphFits(bitmap, g) && xx < g.width && yy < g.height && k == GlyphBit(g, xx, yy)
    ensures k < |GlyphBits(bitmap, g)| && g.bitmapOffset + k / 8 < |bitmap|
    ensures (ShiftedLeft(bitmap[g.bitmapOffset + k / 8], k % 8) & 0x80 != 0) == GlyphBits(bitmap, g)[k]
  {
    GlyphBitInWindow(g, xx, yy);
    GlyphPixelBit(bitmap, g, xx, yy);
    assert GlyphPixelSet(bitmap, g, xx, yy) == GlyphBits(bitmap, g)[k];
    TopBitAfterShifts(bitmap[g.bitmapOffset + k / 8], k % 8);
  }

  /**
   * The counters of the glyph walk before pixel k (k bits consumed): the
   * 8-bit counter `bit` is k mod 256, `bo` is the byte after the last one
   * fetched, and unless k is a byte boundary `bits` holds the current byte
   * shifted left by k mod 8.
   */
  ghost predicate Counters(bitmap: seq<bv8>, bo0: int, k: nat, bit: int, bo: int, bits: bv8)
  {
    && bit == k % 256
    && bo == bo0 + (k + 7) / 8
    && (k % 8 != 0 ==> 0 <= bo0 + k / 8 < |bitmap| && bits == ShiftedLeft(bitmap[bo0 + k / 8], k % 8))
  }

  /** Before pixel k: a byte is fetched exactly at a byte boundary, and it is byte k / 8 of the window. */
  lemma CountersBefore(bitmap: seq<bv8>, bo0: int, k: nat, bit: int, bo: int, bits: bv8)
    requires Counters(bitmap, bo0, k, bit, bo, bits)
    ensures (bit % 8 == 0) == (k % 8 == 0)
    ensures k % 8 == 0 ==> bo == bo0 + k / 8
    ensures k % 8 != 0 ==> bo == bo0 + k / 8 + 1
  {
    CountersArith(k, bit, bo, bo0);
  }

  /**
   * After pixel k, whose byte bo0 + k / 8 lies in the bitmap: with `bits`
   * that byte shifted left by k mod 8 + 1 and the counters advanced, the
   * counters describe pixel k + 1.
   */
  lemma CountersAfter(bitmap: seq<bv8>, bo0: int, k: nat, bit: int, bo: int, bits: bv8)
    requires 0 <= bo0 + k / 8 < |bitmap|
    requires bit == (k % 256 + 1) % 256 && bo == bo0 + k / 8 + 1
    requires bits == ShiftedLeft(bitmap[bo0 + k / 8], k % 8) << 1
    ensures Counters(bitmap, bo0, k + 1, bit, bo, bits)
  {
    CounterAdvance(k);
  }

  /** Division by 8 is determined by quotient and remainder. */
  lemma DivModEight(k: int, a: int, b: int)
    requires k == 8 * a + b && 0 <= b < 8
    ensures k / 8 == a && k % 8 == b
  {
  }

  /** Division by 256 is determined by quotient and remainder. */
  lemma DivModByte(k: int, a: int, b: int)
    requires k == 256 * a + b && 0 <= b < 256
    ensures k / 256 == a && k % 256 == b
  {
  }

  /** The arithmetic behind `CountersBefore`: 8 divides 256, and rounding up k / 8. */
  lemma CountersArith(k: nat, bit: int, bo: int, bo0: int)
    requires bit == k % 256 && bo == bo0 + (k + 7) / 8
    ensures (bit % 8 == 0) == (k % 8 == 0)
    ensures k % 8 == 0 ==> bo == bo0 + k / 8
    ensures k % 8 != 0 ==> bo == bo0 + k / 8 + 1
  {
    var m, r := k / 8, k % 8;
    DivModEight(k, m, r);
    DivModEight(bit, bit / 8, bit % 8);
    DivModEight(k, 32 * (k / 256) + bit / 8, bit % 8);
    if r == 0 {
      DivModEight(k + 7, m, 7);
    } else {
      DivModEight(k + 7, m + 1, r - 1);
    }
  }

  /** The arithmetic behind `CountersAfter`: the 8-bit counter wraps, and bit k + 1 is in byte k / 8 unless it starts a byte. */
  lemma CounterAdvance(k: nat)
    ensures ((k % 256) + 1) % 256 == (k + 1) % 256
    ensures (k + 1 + 7) / 8 == k / 8 + 1
    ensures (k + 1) % 8 != 0 ==> (k + 1) / 8 == k / 8 && (k + 1) % 8 == k % 8 + 1
  {
    DivModByte(k, k / 256, k % 256);
    if k % 256 < 255 {
      DivModByte(k + 1, k / 256, k % 256 + 1);
    } else {
      DivModByte(k + 1, k / 256 + 1, 0);
    }
    DivModEight(k, k / 8, k % 8);
    DivModEight(k + 8, k / 8 + 1, k % 8);
    if k % 8 < 7 { DivModEight(k + 1, k / 8, k % 8 + 1); } else { DivModEight(k + 1, k / 8 + 1, 0); }
  }

  /** The codes of the first k + 1 bytes: those of the first k, then the code of byte k unless it is a lead byte. */
  lemma {:induction false} PrintCodesStep(text: seq<uint8>, k: nat)
    requires k < |text|
    ensures PrintCodes(text[..k + 1]) ==
            PrintCodes(text[..k]) + (if IsLeadByte(text[k]) then [] else [UnicodeEasy(text[k])])
  {
    assert text[..k + 1][..k] == text[..k];
  }

  /** The codes of a prefix of the text begin the codes of the whole text. */
  lemma {:induction false} PrintCodesPrefix(text: seq<uint8>, k: nat)
    requires k <= |text|
    ensures PrintCodes(text[..k]) <= PrintCodes(text)
  {
    assert text == text[..k] + text[k..];
    PrintCodesAppend(text[..k], text[k..]);
  }

  /**
   * When the codes `pre + [c]` begin the codes `codes` whose run stays on
   * the panel, the writes of `pre` and of code c from where `pre` leaves the
   * cursor stay on the panel too.
   */
  lemma {:induction false} RunStepInBounds(e: Env, cur: Cursor, pre: seq<uint8>, c: uint8, codes: seq<uint8>, rot: int)
    requires EnvValid(e) && ValidRotation(rot)
    requires pre + [c] <= codes
    requires AllInBounds(Run(e, cur, codes).writes, rot)
    ensures AllInBounds(Run(e, cur, pre).writes, rot)
    ensures AllInBounds(StepWrites(e, Run(e, cur, pre).cursor, c), rot)
  {
    var prev := Run(e, cur, pre);
    var sw := StepWrites(e, prev.cursor, c);
    assert codes[..|pre| + 1] == pre + [c];
    RunPrefix(e, cur, codes, |pre| + 1);
    RunSnoc(e, cur, pre, c);
    PrefixInBounds(prev.writes + sw, Run(e, cur, codes).writes, rot);
    assert forall w :: w in sw ==> w in prev.writes + sw;
    PrefixInBounds(prev.writes, prev.writes + sw, rot);
  }

}
