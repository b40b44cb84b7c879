# Write: a verified model of a monochrome e-ink text renderer

`Write` draws text into the one-bit-per-pixel framebuffer of a 176 x 264 e-ink
panel. It keeps a text cursor and style, rotates the panel in quarter turns, and
renders characters in one of two fonts. The first is the built-in "classic" font:
5 x 8 cells stored as one byte per column, with an optional background colour.
The second is an Adafruit-GFX custom font: proportional glyphs packed MSB-first,
with per-glyph offsets and advances. Text arrives as bytes. `print` drops the UTF-8
lead bytes 0xC2/0xC3 and passes every other byte through a fold that adds 64 to
each byte in 132..190 except 176, wherever it stands. After 0xC3 this gives the
Latin-1 code for most continuation bytes, but 0x80-0x83, 0xB0 and 0xBF pass
unchanged and miss it. After 0xC2 it is the other way round: most continuation
bytes miss their Latin-1 code (C2 A9, the copyright sign, is sent as 233), while
0x80-0x83, 0xB0 (the degree sign) and 0xBF pass unchanged and reach it.
`writeC` handles one byte at a time. '\n' moves the cursor to the start of the
next line. '\r', and in a custom font a code outside the font's range, change
nothing. Any other byte is drawn and then advances the cursor; when wrapping is
on and the character does not fit, the cursor first moves to the next line. In a
custom font a glyph with an empty box is neither wrapped nor drawn, but still
advances the cursor.

The model is split by concern:

- `Bytes` (bytes.dfy): C integer widths as subset types, `Option`, the bit
  operations the renderer uses (`& ~(1 << k)`, `| (1 << k)`, repeated `>> 1` and
  `<< 1`), and the MSB-first unpacking of a byte string into bits.
- `Fonts` (fonts.dfy): `GFXglyph`, `GFXfont` and the classic table, the font
  well-formedness every glyph lookup relies on, and the glyph and bitmap
  accessors from write.h.
- `Raster` (raster.dfy): the specification of drawing. It covers the rotation
  transform, the pixel address (`x / 8 + y * WIDTH / 8`, bit `7 - x % 8`),
  `SetPixel` (colour non-zero clears the bit, colour zero sets it), and a
  character as an ordered list of logical pixel writes folded over the buffer by
  `PaintAll`. It also has the read-back theorems: for every cell of a character,
  the pixel that ends up in the framebuffer is the colour of the last write
  there, or the old pixel when nothing was written there.
- `Layout` (layout.dfy): the cursor state machine of `writeC` for both fonts.
  That is newline, carriage return, wrap at the right edge, and advance. `Run`
  folds it over a sequence of codes and collects the pixel writes.
- `Stream` (stream.dfy): `_unicodeEasy`, the byte filter of `print`, and `strlen`.
- `WriteDisplay` (write.dfy): the class `Write`, with the fields of the C++
  object and the framebuffer as an `array<bv8>`. Each method is proved against
  the functions above. `drawPixel` is proved against `SetPixel`. `drawChar` is
  proved to leave the buffer equal to `PaintAll` of the character's writes.
  `writeC`, `print`, `println` and `writeC(buffer, size)` are proved to leave the
  cursor and the buffer exactly as `Run` over the codes describes.

## Model

| member | source | states |
|---|---|---|
| Bytes.ToUint16 | write.cpp:143 | an `int16_t` background colour passed as `uint16_t` keeps non-negative values and maps negative ones to value + 65536 (0xFFFF stays 0xFFFF) |
| Bytes.MaskBits | write.cpp:463-468 | `1 << k` has bit k set and no other bit |
| Bytes.ClearBitSpec | write.cpp:463 | `b & (0xFF ^ (1 << k))` has bit k clear and every other bit as in b |
| Bytes.SetBitSpec | write.cpp:468 | `b \| (1 << k)` has bit k set and every other bit as in b |
| Bytes.ByteBits | write.cpp:356-366 | a byte unpacks into exactly eight bits |
| Bytes.ByteBitsAt | write.cpp:359-366 | unpacked bit i of a byte is its bit 7 - i (MSB first, the order `bits & 0x80` then `bits <<= 1` reads them) |
| Bytes.PackedBits | write.cpp:354-368 | a byte string unpacks into 8 bits per byte |
| Bytes.PackedBitsAt | write.cpp:354-368 | bit k of the unpacked string is bit 7 - k % 8 of byte k / 8 |
| Bytes.BitsDetermineByte | write.cpp:463-468 | two bytes with the same eight bits are equal |
| Bytes.ShiftedRightShift | write.cpp:280 | shifting the column byte right one place j times equals `line >> j` |
| Bytes.ShiftedLeftShift | write.cpp:366 | shifting the glyph byte left one place s times equals `bits << s` |
| Bytes.TopBitAfterShifts | write.cpp:359-366 | after s left shifts, `bits & 0x80` tests bit 7 - s of the fetched byte |
| Fonts.RowStartProduct | write.cpp:354-356 | the bit counter at the start of glyph row yy is yy * w |
| Fonts.RowStartGrows | write.cpp:354-355 | a row's w bits end no later than the start of row h, for every row yy < h |
| Fonts.GlyphBytesCeil | write.cpp:356-357 | the bytes a glyph occupies, ceil(w * h / 8), cover its w * h bits with fewer than 8 bits to spare |
| Fonts.GlyphPtr | write.h:30-40 | `pgm_read_glyph_ptr(gfxFont, c)` is entry c of the glyph table; it has no contract of its own, and `Fonts.GlyphLookupInBounds` states when the entry exists and that its bitmap is in bounds |
| Fonts.BitmapPtr | write.h:42-52 | `pgm_read_bitmap_ptr(gfxFont)` is the one bitmap blob all glyphs share; `Fonts.GlyphLookupInBounds` states that each in-range glyph's bytes lie inside it |
| Fonts.GlyphOf | write.h:30-40 | in a well-formed font, the glyph of an in-range code has its whole bitmap inside the font's bitmap |
| Fonts.GlyphLookupInBounds | write.h:30-52 | `c - first` indexes the glyph table; the looked-up glyph is `glyph[c - first]`, and its bytes lie inside the bitmap that `pgm_read_bitmap_ptr` returns |
| Raster.Transform | write.cpp:440-456 | the rotation maps a logical coordinate onto the panel exactly when that coordinate lies inside the rotated width and height |
| Raster.TransformInjective | write.cpp:440-456 | for every rotation, distinct logical pixels land on distinct panel pixels |
| Raster.HalfTurnInvolution | write.cpp:447-450 | rotation 2 applied twice is the identity |
| Raster.ThreeQuarterIsQuarterThenHalf | write.cpp:442-455 | rotation 3 is rotation 1 followed by rotation 2 |
| Raster.ByteIndex | write.cpp:458 | `x / 8 + y * WIDTH / 8` of an on-panel pixel is inside the 5808-byte buffer |
| Raster.BitPos | write.cpp:463 | `7 - x % 8` is a bit position 0..7 |
| Raster.PixelAddressInjective | write.cpp:458-468 | distinct panel pixels have distinct (byte, bit) addresses |
| Raster.SetPixel | write.cpp:431-470 | drawing a pixel keeps the buffer size |
| Raster.SetPixelAt | write.cpp:458-470 | proof step: drawing changes only byte `ByteIndex`: it clears bit `BitPos` when the colour is non-zero and sets it otherwise |
| Raster.SetPixelChangesOneBit | write.cpp:458-470 | every other byte, and every other bit of the changed byte, is unchanged; the pixel's bit is set iff the colour is 0 |
| Raster.SetPixelIdempotent | write.cpp:431-470 | drawing the same pixel in the same colour twice equals drawing it once |
| Raster.SetPixelReadBack | write.cpp:431-470 | after drawing, the target panel pixel reads "set iff colour 0" and every other pixel reads as before |
| Raster.Apply | write.cpp:431-470 | one logical pixel write keeps the buffer size |
| Raster.PaintAll | write.cpp:276-299 | folding a list of pixel writes keeps the buffer size |
| Raster.PaintAllAppend | write.cpp:212-221 | painting a + b is painting a, then b |
| Raster.PaintAllSnoc | write.cpp:276-299 | proof step: appending one write, or none, applies that write to the painted buffer |
| Raster.PaintAllAt | write.cpp:431-470 | after painting, every on-panel pixel shows the colour of the last write to it, or its old value if none |
| Raster.PaintAllShows | write.cpp:431-470 | proof step: the read-back of `PaintAllAt` at a known panel address |
| Raster.PaintAllUntouched | write.cpp:431-470 | a panel pixel that no write maps to keeps its value |
| Raster.LastWriteNone | write.cpp:276-299 | a list with no write at (x, y) has no last write there |
| Raster.LastWriteAppend | write.cpp:276-299 | the last write at (x, y) in a + b comes from b when b has one, else from a |
| Raster.LastWriteConsistent | write.cpp:276-299 | when every write at (x, y) has the same colour, the last write is that colour exactly when such a write exists |
| Raster.PrefixInBounds | write.cpp:212-221 | a prefix of an on-panel write list is on-panel |
| Raster.ClassicClipped | write.cpp:264-268 | the clip test of the classic path, over a 6 * size_x by 8 * size_y cell; it does not clip a character that only partly overlaps the panel (`Raster.ClassicClippedIffOffPanel`) |
| Raster.ClassicClippedIffOffPanel | write.cpp:264-268 | a character is clipped exactly when no point of its 6 * size_x by 8 * size_y cell is on the panel, so a partly overlapping character passes the clip |
| Raster.ClassicCellColor | write.cpp:282-296 | the colour the inner loop body draws at column i, row j: the text colour for a set bit, the background for a clear bit when bg != color, and nothing otherwise; stated through `Raster.ClassicCellAt` and `Raster.ClassicCellsBox` |
| Raster.ClassicCell | write.cpp:280-298 | the write (at most one) of cell 8 * i + j at (x + i, y + j); stated by `Raster.ClassicCellAt` |
| Raster.ClassicCells | write.cpp:276-299 | the writes of the first n cells in the loops' column-major order; their box, colours and read-back are stated by `Raster.ClassicCellsBox`, `Raster.ClassicCellsHas` and `Raster.ClassicCellsReadBack` |
| Raster.ClassicCellsBox | write.cpp:276-296 | the first n cells of a classic character produce at most n writes; all lie in the 5 x 8 box at (x, y), each with the colour its font bit selects (foreground, or background only when bg != color) |
| Raster.ClassicWrites | write.cpp:260-299 | a clipped character, or one with a size other than 1 x 1, draws nothing |
| Raster.ClassicCellAt | write.cpp:276-296 | cell 8 * i + j is one write at (x + i, y + j) when bit j of column i is set or bg != color, and nothing otherwise |
| Raster.ClassicPaintCell | write.cpp:282-296 | painting one classic cell keeps the buffer size |
| Raster.ClassicPaintColumn | write.cpp:280-298 | painting the first n rows of column i keeps the buffer size |
| Raster.ClassicPainted | write.cpp:276-299 | painting the first m columns keeps the buffer size |
| Raster.ClassicPaintedCells | write.cpp:276-299 | painting the first n cells in column-major order keeps the buffer size |
| Raster.ClassicPaintedCellsIsPaintAll | write.cpp:276-299 | painting cell by cell equals `PaintAll` of the character's first n writes |
| Raster.ClassicPaintedCellsStep | write.cpp:276-299 | proof step: the cell-by-cell equality for n - 1 cells extends to n cells |
| Raster.ClassicPaintCellIsCell | write.cpp:282-296 | proof step: a cell yields at most one write, and painting the cell applies exactly that write |
| Raster.ClassicPaintColumnIsCells | write.cpp:280-298 | proof step: the j loop over column i continues the cell-by-cell fold from cell 8 * i |
| Raster.ClassicPaintedIsCells | write.cpp:276-299 | proof step: the i loop over m columns equals the cell-by-cell fold of 8 * m cells |
| Raster.ClassicPaintedIsPaintAll | write.cpp:276-299 | the two nested loops over 5 columns of 8 rows leave the buffer equal to `PaintAll` of the character's 40-cell write list |
| Raster.ClassicCellsHas | write.cpp:282-296 | every drawn cell's write is in the character's write list |
| Raster.ClassicCellsLastWrite | write.cpp:276-299 | at (x + i, y + j), the last write of the character is the cell's colour, or none for a clear bit over a transparent background |
| Raster.ClassicCellsReadBack | write.cpp:276-299 | after drawing a classic character, each of its 40 pixels shows foreground for a set bit, background for a clear bit when bg != color, and its old value otherwise |
| Raster.ClassicGlyphReadBack | write.cpp:262-299 | the same read-back for an unclipped 1 x 1 character, stated through `ClassicWrites` |
| Raster.ClassicGlyphFrame | write.cpp:262-299 | drawing a classic character whose writes are on the panel leaves every panel pixel outside its 5 x 8 box unchanged (no sixth background column) |
| Raster.GlyphWindow | write.cpp:323-357 | the bytes a glyph reads starting at `bitmapOffset` number exactly ceil(w * h / 8) |
| Raster.GlyphBitInWindow | write.cpp:354-356 | the bit counter of pixel (xx, yy) stays below w * h |
| Raster.GlyphBytesCover | write.cpp:356-357 | the glyph's bytes hold all of its w * h bits |
| Raster.GlyphBits | write.cpp:354-366 | the glyph's unpacked bits number 8 per byte read and cover all w * h pixels |
| Raster.GlyphPixelBit | write.cpp:354-366 | pixel (xx, yy) is bit `yy * w + xx` of the glyph, read as bit 7 - k % 8 of byte `bitmapOffset + k / 8`, inside the bitmap |
| Raster.GlyphCell | write.cpp:359-365 | the write (at most one) of glyph pixel (xx, yy): the text colour at (x + xo + xx, y + yo + yy) when its bit is set; stated by `Raster.GlyphRowHas` and `Raster.GlyphRowBox` |
| Raster.GlyphRow | write.cpp:355-367 | the writes of the first n pixels of row yy, left to right; stated by `Raster.GlyphRowBox` and `Raster.GlyphRowHas` |
| Raster.GlyphRows | write.cpp:354-368 | the writes of the first m rows, top to bottom; stated by `Raster.GlyphRowsBox`, `Raster.GlyphRowsHas` and `Raster.GlyphRowsLastWrite` |
| Raster.GlyphPaintPixel | write.cpp:359-365 | painting one glyph pixel keeps the buffer size |
| Raster.GlyphPaintRow | write.cpp:355-367 | painting the first n pixels of row yy keeps the buffer size |
| Raster.GlyphPainted | write.cpp:354-368 | painting the first m rows keeps the buffer size |
| Raster.GlyphPaintRowIsPaintAll | write.cpp:355-367 | the xx loop equals `PaintAll` of the row's writes |
| Raster.GlyphPaintPixelIsCell | write.cpp:359-365 | proof step: a pixel yields at most one write, and painting the pixel is performing that list of writes |
| Raster.GlyphPaintedIsPaintAll | write.cpp:354-368 | the nested yy/xx loops equal `PaintAll` of the glyph's write list |
| Raster.GlyphPaintedStep | write.cpp:354-368 | proof step: the equality for m - 1 rows extends to m rows |
| Raster.GlyphRowBox | write.cpp:355-367 | the writes of row yy all lie on line y + yo + yy, between x + xo and x + xo + n, in the text colour, at set bits |
| Raster.GlyphRowsBox | write.cpp:354-368 | the glyph's writes all lie in its w x h box at (x + xo, y + yo), in the text colour, at set bits |
| Raster.GlyphRowHas | write.cpp:359-361 | a set bit in row yy gives a write at (x + xo + xx, y + yo + yy) |
| Raster.GlyphRowsHas | write.cpp:354-368 | every set bit of the glyph gives a write at its pixel |
| Raster.GlyphWrites | write.cpp:312-371 | a custom glyph drawn with a size other than 1 x 1 draws nothing |
| Raster.GlyphRowsLastWrite | write.cpp:354-368 | at each glyph pixel, the last write is the text colour when the bit is set, and none otherwise (custom fonts have no background) |
| Raster.GlyphReadBack | write.cpp:312-371 | after drawing a glyph, each of its pixels shows the text colour if its bit is set and keeps its old value otherwise |
| Raster.GlyphFrame | write.cpp:312-371 | a custom glyph whose writes are on the panel leaves every pixel outside its width x height box at (x + xo, y + yo) unchanged: no background is drawn |
| Raster.GlyphWindowOnly | write.cpp:323-357 | the glyph's drawing depends only on its ceil(w * h / 8) bitmap bytes |
| Raster.CharWrites | write.cpp:260-372 | drawChar with a size other than 1 x 1 draws nothing, in either font |
| Layout.ClassicStep | write.cpp:131-146 | classic font: '\n' moves to column 0, 8 * size_y lower; '\r' does nothing; any other byte draws at the cursor, or at the start of the next line when wrap is on and 6 * size_x would pass the width, then advances by 6 * size_x; with wrap on, a cell that would pass the width always moves to the next line, and otherwise it is drawn at the cursor |
| Layout.GlyphStep | write.cpp:148-182 | custom font: '\n' moves down by size_y * yAdvance; '\r' and out-of-range bytes do nothing; an in-range glyph draws only when w > 0 and h > 0, moving to the next line exactly when wrap is on and x + size_x * (xo + w) passes the width, and always advances by xAdvance * size_x |
| Layout.Step | write.cpp:129-185 | writeC draws only printable, drawable codes, never '\n' or '\r' |
| Layout.StepWrites | write.cpp:129-185 | the pixel writes of one writeC(c): those of the one drawChar it makes at the position `Step` chooses, or none |
| Layout.Run | write.cpp:212-221 | writeC on each code in turn: the final cursor and all pixel writes in order; its laws are `Layout.RunSnoc`, `Layout.RunAppend` and `Layout.RunPrefix` |
| Layout.RunSnoc | write.cpp:212-221 | writing codes then c is running the codes and then one step for c |
| Layout.RunAppend | write.cpp:212-221 | writing a + b is writing a, then b from the cursor a leaves |
| Layout.RunAppendSnoc | write.cpp:212-221 | proof step: the append law for a + b extends to a + (b + [c]) |
| Layout.RunPrefix | write.cpp:212-221 | the writes of a prefix of the codes are a prefix of the writes |
| Layout.ClassicNoWrapAdvance | write.cpp:137-146 | classic font without wrap: n printable codes move the cursor 6 * size_x * n to the right on the same line |
| Layout.FortyCodesWithoutWrap | write.cpp:137-146 | without wrap, 40 classic characters from column 0 leave the cursor at x = 240, past the 176-pixel width |
| Layout.ClassicWrapKeepsCursorOnLine | write.cpp:131-146 | classic font with wrap: the cursor x stays within 0..width for any codes |
| Layout.ClassicWrapWritesInsideWidth | write.cpp:131-146 | classic font with wrap at size 1: every pixel drawn has 0 <= x < width |
| Stream.UnicodeEasy | write.cpp:113-120 | bytes in 132..190 other than 176 gain 64 (into 196..254, never 240); all other bytes pass unchanged |
| Stream.UnicodeEasyIdempotent | write.cpp:113-120 | a folded byte is never folded again: applying the fold twice equals applying it once |
| Stream.PrintCodes | write.cpp:31-37 | the codes print hands to writeC: `_unicodeEasy(b)` for each byte b that is not 0xC2 or 0xC3, in order; stated by the `Stream.PrintCodes*` lemmas |
| Stream.PrintCodesNoLeadBytes | write.cpp:31-37 | every code print sends to writeC is the fold of some non-lead byte of the text, and is itself neither 0xC2 nor 0xC3 |
| Stream.PrintCodesAppend | write.cpp:31-37 | print distributes over concatenation of texts |
| Stream.PrintCodesCount | write.cpp:31-37 | print sends one code for every byte that is not 0xC2 or 0xC3 |
| Stream.PrintCodesPlainText | write.cpp:31-37 | text without lead bytes or foldable bytes is sent unchanged |
| Stream.StrLen | write.cpp:200 | strlen is the index of the first NUL byte |
| WriteDisplay.Write.ActiveFont | write.cpp:131 | the classic font is used exactly when `gfxFont` is NULL |
| WriteDisplay.Write.Valid | write.cpp:9-23 | the object invariant: raw size 176 x 264, a 5808-byte buffer, a rotation in 0..3 whose rotated size is the recorded width and height, well-formed fonts, and text sizes of at least 1; the constructor establishes it and every method keeps it |
| WriteDisplay.Write.Style | write.cpp:129-185 | the drawing style is valid, uses the object's font and rotated width/height, and passes the background as `uint16_t` |
| WriteDisplay.Write.constructor | write.cpp:9-23 | a new object has a 176 x 264 panel, rotation 0, the cursor at (0, 0), size 1 x 1, colour 0, background 0xFFFF stored as -1, wrap on, the classic font, and the given buffer |
| WriteDisplay.Write.GetRotation | write.cpp:393-395 | the rotation is 0..3 and matches the current width and height |
| WriteDisplay.Write.SetRotation | write.cpp:404-420 | rotation becomes x & 3; rotations 0 and 2 use WIDTH x HEIGHT, and 1 and 3 swap them |
| WriteDisplay.Write.DrawPixel | write.cpp:431-470 | the buffer becomes `SetPixel` of the old buffer at the rotated pixel |
| WriteDisplay.Write.DrawChar | write.cpp:260-372 | the buffer becomes `PaintAll` of the character's writes, in either font |
| WriteDisplay.Write.DrawCharUniform | write.cpp:245-247 | drawChar with one size for both axes is drawChar(size, size) |
| WriteDisplay.Write.DrawClassicChar | write.cpp:262-310 | the classic branch leaves the buffer equal to `PaintAll` of `ClassicWrites`: nothing when clipped or scaled, else the 40 cells |
| WriteDisplay.Write.DrawClassicCell | write.cpp:282-296 | one pass of the j loop paints cell (i, j) at size 1 and nothing otherwise |
| WriteDisplay.Write.DrawCustomChar | write.cpp:312-371 | the custom branch leaves the buffer equal to `PaintAll` of `GlyphWrites` and reads exactly ceil(w * h / 8) bitmap bytes |
| WriteDisplay.Write.DrawGlyphRow | write.cpp:355-367 | one pass of the yy loop paints row yy and leaves the bit counter, byte offset and shift register positioned at the start of row yy + 1 |
| WriteDisplay.Write.DrawGlyphPixel | write.cpp:356-366 | one pass of the xx loop fetches a new byte every 8 bits, paints pixel (xx, yy) when its bit is set, and advances the counters by one bit |
| WriteDisplay.Write.PlotGlyphPixel | write.cpp:359-365 | a lit pixel at size 1 is drawn at (x + xo + xx, y + yo + yy); nothing else changes |
| WriteDisplay.Write.WriteC | write.cpp:129-185 | writeC returns 1, moves the cursor as `Step` says, and paints `Step`'s writes; style is unchanged |
| WriteDisplay.Write.WriteClassic | write.cpp:131-146 | the classic branch of writeC agrees with `Step` |
| WriteDisplay.Write.WriteCustom | write.cpp:148-182 | the custom-font branch of writeC agrees with `Step` |
| WriteDisplay.Write.Print | write.cpp:31-37 | print leaves the cursor and buffer as `Run` over the filtered, folded codes of the text |
| WriteDisplay.Write.PrintChar | write.cpp:46-48 | print(c) is one writeC |
| WriteDisplay.Write.Newline | write.cpp:101-103 | newline moves the cursor as '\n' does and draws nothing |
| WriteDisplay.Write.Println | write.cpp:57-70 | println is print followed by '\n' |
| WriteDisplay.Write.WriteCBytes | write.cpp:212-221 | writeC(buffer, size) returns size and leaves the cursor and buffer as `Run` over the bytes |
| WriteDisplay.Write.WriteCChars | write.cpp:231-233 | the char overload behaves as the byte overload |
| WriteDisplay.Write.WriteCString | write.cpp:194-202 | a NULL string returns 0 and changes nothing; otherwise the bytes up to the first NUL are written and their count returned |
| WriteDisplay.ClassicOnPanelFromCells | write.cpp:276-299 | when the character's writes are all on the panel, every cell the loops draw is on the panel |
| WriteDisplay.ClassicPixelStep | write.cpp:280-296 | proof step: `line & 1` after j right shifts is bit j of the column byte, and every pixel the cell draws is on the panel |
| WriteDisplay.ClassicOnPanelFromWrites | write.cpp:262-299 | an unclipped size-1 character whose writes are on the panel draws only on-panel pixels |
| WriteDisplay.GlyphOnPanelFromWrites | write.cpp:354-368 | a size-1 glyph whose writes are on the panel has every set pixel on the panel |
| WriteDisplay.GlyphPixelShifted | write.cpp:356-366 | proof step: the shift register's top bit at pixel (xx, yy) is the glyph's unpacked bit k |
| WriteDisplay.CountersBefore | write.cpp:356-357 | proof step: `bit & 7 == 0` exactly at a byte boundary of k; `bo` then points at byte k / 8, and otherwise one past it |
| WriteDisplay.CountersAfter | write.cpp:356-366 | proof step: after the fetch and the shift, the counters describe bit k + 1 |
| WriteDisplay.PrintCodesStep | write.cpp:31-37 | proof step: one more byte of text adds nothing for 0xC2/0xC3 and its fold otherwise |
| WriteDisplay.PrintCodesPrefix | write.cpp:31-37 | proof step: the codes of a prefix of the text are a prefix of the codes |
| WriteDisplay.RunStepInBounds | write.cpp:212-221 | proof step: when a run's writes are on the panel, so are those of each earlier prefix and of the next step |
| WriteDisplay.LowTwoBitsOf | write.cpp:406 | `x & 3` on a `uint8_t` is x % 4 |

## Left out

- `printerf` (write.cpp:82-94): formatting through `vsnprintf` and C varargs is not modelled.
- The 4-gray mode of `drawPixel` (write.cpp:471-500) is commented out in the source and is not modelled.
- Scaled text (size > 1): the `writeFillRect` calls are commented out, so a scaled character draws nothing. The model draws nothing too, and proves it (`Raster.CharWrites`, `Raster.ClassicWrites`, `Raster.GlyphWrites`).
- The opaque last column of a classic character (`writeFastVLine`, write.cpp:301-310) is commented out; `Raster.ClassicGlyphFrame` proves the column is left untouched when the character's writes are on the panel.
- WriteDisplay.Write.DrawPixel: the source's bounds check is commented out (write.cpp:433-436), and the model does not cover drawing off the panel. In C, with (x, y) the rotated panel coordinate, the write goes to bit `7 - x % 8` of byte `x / 8 + 22 * y` (write.cpp:458-468). There `/` and `%` truncate toward zero, and the index is stored in a `uint16_t`, so it is taken mod 65536. So:
  - an index that is outside 0..5807 after the mod is a write outside the 5808-byte buffer;
  - for x >= 0, the write lands on the panel pixel that owns that byte and bit. A pixel past the right edge (176 <= x < 352, -1 <= y < 263) lands on (x - 176, y + 1), at the left of the next row. A classic character that passes the clip near the right edge draws its last columns there;
  - for a negative x that is a multiple of 8, `x % 8` is 0, so the write lands on bit 7 of that byte, a real panel pixel: x = -8, y = 5 lands on (168, 4);
  - for any other negative x, the mask is shifted by 8..14 bits, outside the byte, and nothing changes.

  The model makes every drawing method require that all its writes are on the panel (`InLogical`/`AllInBounds`), and the frame lemmas `Raster.ClassicGlyphFrame` and `Raster.GlyphFrame` require it too. `Raster.Apply` skips off-panel writes only so that `PaintAll` is total; that is not what C does.
- WriteDisplay.Write.DrawCustomChar: the source leaves clipping of custom glyphs as a to-do, and the model requires the glyph's set pixels to be on the panel.
- WriteDisplay.Write.DrawCustomChar: `bo` is a `uint16_t` in C and the bit counter a `uint8_t`. The model keeps `bo` unbounded and computes the counter mod 256; a font whose bitmap is longer than 65535 bytes would wrap `bo` in C.
- Cursor and coordinate arithmetic (`int16_t` in C) uses unbounded integers; `int16_t` overflow of the cursor after very many lines is not modelled.
- WriteDisplay.Write.Print: `print` iterates `char`. The target's ARM toolchain makes `char` unsigned, so the text is a sequence of `uint8_t` bytes and the tests `c == 195` and `c == 194` hold for those bytes, as the model reads them. On a platform with a signed `char` those tests could never hold; the model does not cover that platform.
- Stream.UnicodeEasy: byte 255 and other bytes outside 132..190 pass unchanged, so the result is not always in the folded range 196..254; the contract states that rather than a bound.
- The font data of font.c and the `GFXfont`/`GFXglyph` definitions of gfxfont.h are not part of this model. The classic table is a 1280-byte parameter of the constructor, and custom fonts are values that satisfy `Fonts.WellFormed`.
- `swap` (write.cpp:382-386) is inlined into `Raster.Transform`.
- Nothing in the source sets `wrap`, the text sizes, the colours or `gfxFont` after construction. The class keeps them as fields, and its methods accept any valid state.
- The loop bodies of `drawChar` are split into helper methods (`DrawClassicCell`, `DrawGlyphRow`, `DrawGlyphPixel`, `PlotGlyphPixel`) whose contracts mirror one loop iteration each; the statements are those of the source.
- The `pico/stdlib.h` and AVR program-memory macros are plain reads in the model.
