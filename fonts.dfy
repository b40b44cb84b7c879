/**
 * The two font representations the renderer walks, and the program-memory
 * lookups of write.h. The classic font is the flat table of `font.c`
 * (five column bytes per code, 256 codes); a custom font is a `GFXfont`:
 * a glyph table indexed by `code - first` and one shared bitmap blob that
 * every glyph's `bitmapOffset` points into. Program-memory reads
 * (`pgm_read_byte`, `pgm_read_word`) are plain sequence indexing here.
 */
module Fonts {
  import opened Bytes

  /** Per-glyph metrics of a custom font, with the widths the source reads them at. */
  datatype GFXglyph = GFXglyph(
    bitmapOffset: uint16,
    width: uint8,
    height: uint8,
    xAdvance: uint8,
    xOffset: int8,
    yOffset: int8)

  /** A custom font: bitmap blob, glyph table, code range and line height. */
  datatype GFXfont = GFXfont(
    bitmap: seq<bv8>,
    glyph: seq<GFXglyph>,
    first: uint8,
    last: uint8,
    yAdvance: uint8)

  /** The active font: the classic table when no custom font is set. */
  datatype Font = Classic(table: seq<bv8>) | Custom(gfx: GFXfont)

  /** Columns per classic glyph cell, and the classic table's size. */
  const CLASSIC_COLUMNS := 5
  /** Rows of a classic character cell: the eight bits of a column byte. */
  const CLASSIC_ROWS := 8
  const CLASSIC_TABLE_SIZE := 256 * CLASSIC_COLUMNS

  /**
   * Number of glyph bits in the first yy rows of a glyph `w` pixels wide:
   * the rows are packed back to back, so row yy starts at this bit.
   */
  function RowStart(w: nat, yy: nat): nat
  {
    if yy == 0 then 0 else RowStart(w, yy - 1) + w
  }

  /** The first yy rows hold yy * w bits. */
  lemma {:induction false} RowStartProduct(w: nat, yy: nat)
    ensures RowStart(w, yy) == yy * w
  {
    if yy > 0 {
      RowStartProduct(w, yy - 1);
    }
  }

  /** A later row starts at least a full row further on. */
  lemma {:induction false} RowStartGrows(w: nat, yy: nat, h: nat)
    requires yy < h
    ensures RowStart(w, yy) + w <= RowStart(w, h)
    decreases h
  {
    if yy + 1 < h {
      RowStartGrows(w, yy, h - 1);
    }
  }

  /** Number of bitmap bytes a glyph occupies: its width * height bits rounded up to whole bytes. */
  function GlyphBytes(g: GFXglyph): nat
  {
    (RowStart(g.width, g.height) + 7) / 8
  }

  /** `GlyphBytes` is ceil(width * height / 8). */
  lemma GlyphBytesCeil(g: GFXglyph)
    ensures 8 * GlyphBytes(g) >= g.width * g.height
    ensures 8 * GlyphBytes(g) < g.width * g.height + 8
  {
    RowStartProduct(g.width, g.height);
  }

  /** Every code in `[first, last]` has a glyph whose bitmap lies inside the blob. */
  ghost predicate WellFormed(f: GFXfont)
  {
    && f.first <= f.last
    && f.last - f.first < |f.glyph|
    && forall i :: 0 <= i <= f.last - f.first ==>
         f.glyph[i].bitmapOffset + GlyphBytes(f.glyph[i]) <= |f.bitmap|
  }

  ghost predicate FontWellFormed(font: Font)
  {
    match font
    case Classic(table) => |table| == CLASSIC_TABLE_SIZE
    case Custom(gfx) => WellFormed(gfx)
  }

  /** True when a custom font has a glyph for `c`; the classic font covers every code. */
  predicate InRange(f: GFXfont, c: uint8)
  {
    f.first <= c <= f.last
  }

  /** `pgm_read_glyph_ptr(gfxFont, c)`: entry `c` of the glyph table. */
  function GlyphPtr(f: GFXfont, c: uint8): GFXglyph
    requires c < |f.glyph|
  {
    f.glyph[c]
  }

  /** `pgm_read_bitmap_ptr(gfxFont)`: the single bitmap blob shared by all glyphs. */
  function BitmapPtr(f: GFXfont): seq<bv8>
  {
    f.bitmap
  }

  /** The glyph a code in range selects. */
  function GlyphOf(f: GFXfont, c: uint8): (g: GFXglyph)
    requires WellFormed(f) && InRange(f, c)
    ensures g.bitmapOffset + GlyphBytes(g) <= |f.bitmap|
  {
    GlyphPtr(f, c - f.first)
  }

  /**
   * For a well-formed font and a code in range, the glyph-table index
   * `c - first` fits a `uint8_t` and the table, and the glyph's whole bitmap
   * window lies inside the shared blob.
   */
  lemma GlyphLookupInBounds(f: GFXfont, c: uint8)
    requires WellFormed(f) && InRange(f, c)
    ensures 0 <= c - f.first < 256 && c - f.first < |f.glyph|
    ensures GlyphOf(f, c) == f.glyph[c - f.first]
    ensures GlyphOf(f, c).bitmapOffset + GlyphBytes(GlyphOf(f, c)) <= |BitmapPtr(f)|
  {
  }
}
