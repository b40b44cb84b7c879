/**
 * The pixel writer and the glyph rasterizer, as specification functions.
 *
 * The framebuffer holds one bit per physical pixel of a 176 x 264 panel,
 * row-major at the raw (unrotated) width, eight pixels per byte with the
 * leftmost pixel in the most significant bit. A stored 0 bit is what a
 * nonzero colour produces; a stored 1 bit is what colour 0 produces.
 *
 * Drawing is described as the list of logical pixel writes a call performs,
 * in the order the source performs them; `PaintAll` applies such a list to
 * a buffer and `LastWriteAt` tells which write, if any, decides a pixel.
 */
module Raster {
  import opened Bytes
  import opened Fonts

  const RAW_WIDTH := 176
  const RAW_HEIGHT := 264
  const BUFFER_SIZE := RAW_WIDTH * RAW_HEIGHT / 8

  predicate ValidRotation(rot: int)
  {
    0 <= rot < 4
  }

  /** Width reported for a rotation: the raw width for 0 and 2, the raw height for 1 and 3. */
  function LogicalWidth(rot: int): int
  {
    if rot % 2 == 0 then RAW_WIDTH else RAW_HEIGHT
  }

  function LogicalHeight(rot: int): int
  {
    if rot % 2 == 0 then RAW_HEIGHT else RAW_WIDTH
  }

  predicate InLogical(rot: int, x: int, y: int)
  {
    0 <= x < LogicalWidth(rot) && 0 <= y < LogicalHeight(rot)
  }

  predicate InPhysical(px: int, py: int)
  {
    0 <= px < RAW_WIDTH && 0 <= py < RAW_HEIGHT
  }

  // ---------------------------------------------------------------------
  // Rotation transform
  // ---------------------------------------------------------------------

  /**
   * The coordinate transform applied before every pixel write, with the
   * source's `swap` inlined. A logical point is on the panel exactly when
   * its image is inside the raw buffer.
   */
  function Transform(rot: int, x: int, y: int): (p: (int, int))
    requires ValidRotation(rot)
    ensures InLogical(rot, x, y) <==> InPhysical(p.0, p.1)
  {
    if rot == 1 then (RAW_WIDTH - y - 1, x)
    else if rot == 2 then (RAW_WIDTH - x - 1, RAW_HEIGHT - y - 1)
    else if rot == 3 then (y, RAW_HEIGHT - x - 1)
    else (x, y)
  }

  /** Distinct logical points never share a physical pixel, under any rotation. */
  lemma TransformInjective(rot: int, x1: int, y1: int, x2: int, y2: int)
    requires ValidRotation(rot)
    requires Transform(rot, x1, y1) == Transform(rot, x2, y2)
    ensures x1 == x2 && y1 == y2
  {
  }

  /** Rotation 2 undoes itself. */
  lemma HalfTurnInvolution(x: int, y: int)
    ensures Transform(2, Transform(2, x, y).0, Transform(2, x, y).1) == (x, y)
  {
  }

  /** Rotation 3 is rotation 1 followed by the physical 180-degree turn. */
  lemma ThreeQuarterIsQuarterThenHalf(x: int, y: int)
    ensures Transform(3, x, y) == Transform(2, Transform(1, x, y).0, Transform(1, x, y).1)
  {
  }

  // ---------------------------------------------------------------------
  // Packed-bit addressing
  // ---------------------------------------------------------------------

  /** Byte holding a physical pixel: `x / 8 + y * WIDTH / 8`. */
  function ByteIndex(px: int, py: int): (i: int)
    requires InPhysical(px, py)
    ensures 0 <= i < BUFFER_SIZE
  {
    px / 8 + py * RAW_WIDTH / 8
  }

  /** Bit of that byte holding the pixel, counted from the least significant: `7 - x % 8`. */
  function BitPos(px: int): (k: nat)
    requires 0 <= px
    ensures k < 8
  {
    7 - px % 8
  }

  /** Every physical pixel has its own (byte, bit) address. */
  lemma PixelAddressInjective(px1: int, py1: int, px2: int, py2: int)
    requires InPhysical(px1, py1) && InPhysical(px2, py2)
    requires ByteIndex(px1, py1) == ByteIndex(px2, py2) && BitPos(px1) == BitPos(px2)
    ensures px1 == px2 && py1 == py2
  {
    assert px1 % 8 == px2 % 8;
    assert px1 / 8 + py1 * 22 == px2 / 8 + py2 * 22;
    assert py1 == py2;
  }

  /** The stored bit of a physical pixel (true = set = colour 0 was written last). */
  predicate PixelAt(buf: seq<bv8>, px: int, py: int)
    requires |buf| == BUFFER_SIZE && InPhysical(px, py)
  {
    Bit(buf[ByteIndex(px, py)], BitPos(px))
  }

  // ---------------------------------------------------------------------
  // One pixel write
  // ---------------------------------------------------------------------

  /**
   * The buffer after writing logical pixel (x, y) with `color` under
   * rotation `rot`: a nonzero colour clears the pixel's bit, colour 0 sets it.
   */
  function SetPixel(buf: seq<bv8>, rot: int, x: int, y: int, color: int): (r: seq<bv8>)
    requires |buf| == BUFFER_SIZE && ValidRotation(rot) && InLogical(rot, x, y)
    ensures |r| == BUFFER_SIZE
  {
    var p := Transform(rot, x, y);
    var i := ByteIndex(p.0, p.1);
    buf[i := if color != 0 then ClearBit(buf[i], BitPos(p.0)) else SetBit(buf[i], BitPos(p.0))]
  }

  /** SetPixel spelled out at a known physical address. */
  lemma SetPixelAt(buf: seq<bv8>, rot: int, x: int, y: int, color: int, px: int, py: int)
    requires |buf| == BUFFER_SIZE && ValidRotation(rot) && InLogical(rot, x, y)
    requires (px, py) == Transform(rot, x, y)
    ensures InPhysical(px, py)
    ensures var i := ByteIndex(px, py);
            SetPixel(buf, rot, x, y, color) ==
            buf[i := if color != 0 then ClearBit(buf[i], BitPos(px)) else SetBit(buf[i], BitPos(px))]
  {
  }

  /**
   * A pixel write changes one byte, and in it one bit: the pixel's bit,
   * which becomes 0 for a nonzero colour and 1 for colour 0.
   */
  lemma SetPixelChangesOneBit(buf: seq<bv8>, rot: int, x: int, y: int, color: int)
    requires |buf| == BUFFER_SIZE && ValidRotation(rot) && InLogical(rot, x, y)
    ensures var p := Transform(rot, x, y);
            var i := ByteIndex(p.0, p.1);
            var r := SetPixel(buf, rot, x, y, color);
            && (forall j :: 0 <= j < BUFFER_SIZE && j != i ==> r[j] == buf[j])
            && (Bit(r[i], BitPos(p.0)) <==> color == 0)
            && (forall k :: 0 <= k < 8 && k != BitPos(p.0) ==> (Bit(r[i], k) <==> Bit(buf[i], k)))
  {
    var p := Transform(rot, x, y);
    var i := ByteIndex(p.0, p.1);
    ClearBitSpec(buf[i], BitPos(p.0));
    SetBitSpec(buf[i], BitPos(p.0));
  }

  /** Writing the same pixel twice with the same colour is the same as writing it once. */
  lemma SetPixelIdempotent(buf: seq<bv8>, rot: int, x: int, y: int, color: int)
    requires |buf| == BUFFER_SIZE && ValidRotation(rot) && InLogical(rot, x, y)
    ensures SetPixel(SetPixel(buf, rot, x, y, color), rot, x, y, color) == SetPixel(buf, rot, x, y, color)
  {
    var once := SetPixel(buf, rot, x, y, color);
    var twice := SetPixel(once, rot, x, y, color);
    var p := Transform(rot, x, y);
    var i := ByteIndex(p.0, p.1);
    SetPixelChangesOneBit(buf, rot, x, y, color);
    SetPixelChangesOneBit(once, rot, x, y, color);
    BitsDetermineByte(twice[i], once[i]);
    assert twice == once;
  }

  /** Reading a physical pixel back after a write: the written pixel shows the colour's polarity, every other is untouched. */
  lemma SetPixelReadBack(buf: seq<bv8>, rot: int, x: int, y: int, color: int, px: int, py: int)
    requires |buf| == BUFFER_SIZE && ValidRotation(rot) && InLogical(rot, x, y)
    requires InPhysical(px, py)
    ensures PixelAt(SetPixel(buf, rot, x, y, color), px, py) ==
            if (px, py) == Transform(rot, x, y) then color == 0 else PixelAt(buf, px, py)
  {
    var p := Transform(rot, x, y);
    SetPixelChangesOneBit(buf, rot, x, y, color);
    if (px, py) != p && ByteIndex(px, py) == ByteIndex(p.0, p.1) {
      if BitPos(px) == BitPos(p.0) {
        PixelAddressInjective(px, py, p.0, p.1);
      }
    }
  }

  // ---------------------------------------------------------------------
  // Lists of pixel writes
  // ---------------------------------------------------------------------

  /** One call of `drawPixel(x, y, color)`, in logical coordinates. */
  datatype PixelWrite = PixelWrite(x: int, y: int, color: int)

  /** Every write lands on the panel under rotation `rot`. */
  predicate AllInBounds(ws: seq<PixelWrite>, rot: int)
  {
    forall w :: w in ws ==> InLogical(rot, w.x, w.y)
  }

  /**
   * The buffer after one write. The source performs only writes on the
   * panel (every method requires it); an off-panel write is taken to leave
   * the buffer alone so that lists of writes can be performed without a
   * bounds precondition.
   */
  function Apply(buf: seq<bv8>, rot: int, w: PixelWrite): (r: seq<bv8>)
    requires |buf| == BUFFER_SIZE && ValidRotation(rot)
    ensures |r| == BUFFER_SIZE
  {
    if InLogical(rot, w.x, w.y) then SetPixel(buf, rot, w.x, w.y, w.color) else buf
  }

  /** The buffer after performing the writes in order. */
  function PaintAll(buf: seq<bv8>, rot: int, ws: seq<PixelWrite>): (r: seq<bv8>)
    requires |buf| == BUFFER_SIZE && ValidRotation(rot)
    ensures |r| == BUFFER_SIZE
    decreases |ws|
  {
    if ws == [] then buf
    else Apply(PaintAll(buf, rot, ws[..|ws| - 1]), rot, ws[|ws| - 1])
  }

  /** Colour of the last write in `ws` to logical point (x, y), if any. */
  function LastWriteAt(ws: seq<PixelWrite>, x: int, y: int): Option<int>
    decreases |ws|
  {
    if ws == [] then None
    else
      var w := ws[|ws| - 1];
      if w.x == x && w.y == y then Some(w.color)
      else LastWriteAt(ws[..|ws| - 1], x, y)
  }

  /** Performing `a` then `b` is performing `a + b`. */
  lemma {:induction false} PaintAllAppend(buf: seq<bv8>, rot: int, a: seq<PixelWrite>, b: seq<PixelWrite>)
    requires |buf| == BUFFER_SIZE && ValidRotation(rot)
    ensures PaintAll(buf, rot, a + b) == PaintAll(PaintAll(buf, rot, a), rot, b)
    decreases |b|
  {
    if b == [] {
      assert a + b == a;
    } else {
      var b' := b[..|b| - 1];
      assert (a + b)[..|a + b| - 1] == a + b';
      PaintAllAppend(buf, rot, a, b');
    }
  }

  /** Performing one more list of at most one write: nothing more, or that write last. */
  lemma PaintAllSnoc(buf: seq<bv8>, rot: int, ws: seq<PixelWrite>, cell: seq<PixelWrite>)
    requires |buf| == BUFFER_SIZE && ValidRotation(rot) && |cell| <= 1
    ensures PaintAll(buf, rot, ws + cell) ==
            if cell == [] then PaintAll(buf, rot, ws) else Apply(PaintAll(buf, rot, ws), rot, cell[0])
  {
    if cell == [] {
      assert ws + cell == ws;
    } else {
      assert (ws + cell)[..|ws + cell| - 1] == ws;
    }
  }

  /** A pixel's value after a write of `w` (or none) over the old value: the write's polarity, colour 0 being set. */
  predicate Shown(before: bool, w: Option<int>)
  {
    match w
    case None => before
    case Some(color) => color == 0
  }

  /**
   * Last write wins: the image of logical point (x, y) shows the polarity of
   * the last write to (x, y), or its old value when there is none.
   */
  lemma {:induction false} PaintAllAt(buf: seq<bv8>, rot: int, ws: seq<PixelWrite>, x: int, y: int)
    requires |buf| == BUFFER_SIZE && ValidRotation(rot) && InLogical(rot, x, y)
    ensures var p := Transform(rot, x, y);
            PixelAt(PaintAll(buf, rot, ws), p.0, p.1) == Shown(PixelAt(buf, p.0, p.1), LastWriteAt(ws, x, y))
    decreases |ws|
  {
    if ws != [] {
      var p := Transform(rot, x, y);
      var w := ws[|ws| - 1];
      var ws' := ws[..|ws| - 1];
      PaintAllAt(buf, rot, ws', x, y);
      if InLogical(rot, w.x, w.y) {
        SetPixelReadBack(PaintAll(buf, rot, ws'), rot, w.x, w.y, w.color, p.0, p.1);
        if Transform(rot, w.x, w.y) == p {
          TransformInjective(rot, w.x, w.y, x, y);
        }
      }
    }
  }

  /** `PaintAllAt` for a last write already known to be `v`. */
  lemma PaintAllShows(buf: seq<bv8>, rot: int, ws: seq<PixelWrite>, x: int, y: int, v: Option<int>, px: int, py: int)
    requires |buf| == BUFFER_SIZE && ValidRotation(rot) && InLogical(rot, x, y)
    requires LastWriteAt(ws, x, y) == v && (px, py) == Transform(rot, x, y)
    ensures InPhysical(px, py)
    ensures PixelAt(PaintAll(buf, rot, ws), px, py) == Shown(PixelAt(buf, px, py), v)
  {
    PaintAllAt(buf, rot, ws, x, y);
  }

  /** A physical pixel that no write lands on keeps its value. */
  lemma {:induction false} PaintAllUntouched(buf: seq<bv8>, rot: int, ws: seq<PixelWrite>, px: int, py: int)
    requires |buf| == BUFFER_SIZE && ValidRotation(rot) && InPhysical(px, py)
    requires forall w :: w in ws ==> Transform(rot, w.x, w.y) != (px, py)
    ensures PixelAt(PaintAll(buf, rot, ws), px, py) == PixelAt(buf, px, py)
    decreases |ws|
  {
    if ws != [] {
      var w := ws[|ws| - 1];
      var ws' := ws[..|ws| - 1];
      assert forall v :: v in ws' ==> v in ws;
      PaintAllUntouched(buf, rot, ws', px, py);
      if InLogical(rot, w.x, w.y) {
        SetPixelReadBack(PaintAll(buf, rot, ws'), rot, w.x, w.y, w.color, px, py);
      }
    }
  }

  /** A point that no write addresses has no last write. */
  lemma {:induction false} LastWriteNone(ws: seq<PixelWrite>, x: int, y: int)
    requires forall w :: w in ws ==> w.x != x || w.y != y
    ensures LastWriteAt(ws, x, y) == None
    decreases |ws|
  {
    if ws != [] {
      var ws' := ws[..|ws| - 1];
      assert forall w :: w in ws' ==> w in ws;
      LastWriteNone(ws', x, y);
    }
  }

  /** The last write to a point in `a + b` is the last one in `b`, or else the last one in `a`. */
  lemma {:induction false} LastWriteAppend(a: seq<PixelWrite>, b: seq<PixelWrite>, x: int, y: int)
    ensures LastWriteAt(a + b, x, y) ==
            if LastWriteAt(b, x, y).Some? then LastWriteAt(b, x, y) else LastWriteAt(a, x, y)
    decreases |b|
  {
    if b == [] {
      assert a + b == a;
    } else {
      assert (a + b)[..|a + b| - 1] == a + b[..|b| - 1];
      LastWriteAppend(a, b[..|b| - 1], x, y);
    }
  }

  /**
   * When every write to (x, y) has colour `color`, the last write there is
   * that colour exactly when (x, y) is written at all.
   */
  lemma {:induction false} LastWriteConsistent(ws: seq<PixelWrite>, x: int, y: int, color: int)
    requires forall w :: w in ws && w.x == x && w.y == y ==> w.color == color
    ensures LastWriteAt(ws, x, y) == if PixelWrite(x, y, color) in ws then Some(color) else None
    decreases |ws|
  {
    if ws != [] {
      var ws' := ws[..|ws| - 1];
      var w := ws[|ws| - 1];
      assert ws == ws' + [w];
      assert forall v :: v in ws' ==> v in ws;
      LastWriteConsistent(ws', x, y, color);
    }
  }

  /** Every member of a prefix is a member of the whole list. */
  lemma PrefixMembers<T>(ws: seq<T>, n: nat)
    requires n <= |ws|
    ensures forall w :: w in ws[..n] ==> w in ws
  {
  }

  /** A prefix of an in-bounds list of writes is in bounds. */
  lemma PrefixInBounds(a: seq<PixelWrite>, b: seq<PixelWrite>, rot: int)
    requires a <= b && AllInBounds(b, rot)
    ensures AllInBounds(a, rot)
  {
    PrefixMembers(b, |a|);
  }

  // ---------------------------------------------------------------------
  // Classic font: 5 columns x 8 rows, column bytes read LSB-first
  // ---------------------------------------------------------------------

  /**
   * The panel coordinate `offset` pixels past `origin`. Glyph cells are
   * addressed through it, so that a cell's coordinate is one term the
   * solver can match rather than a sum it has to reason about.
   */
  function At(origin: int, offset: int): int
  {
    origin + offset
  }

  /**
   * The clip test of the classic path. It uses a 6 * size_x extent, so a
   * glyph that only partly overlaps the panel is not clipped.
   */
  predicate ClassicClipped(width: int, height: int, x: int, y: int, sx: int, sy: int)
  {
    || x >= width
    || y >= height
    || x + 6 * sx - 1 < 0
    || y + 8 * sy - 1 < 0
  }

  /** A point of the width x height rectangle at the origin. */
  predicate InRect(width: int, height: int, qx: int, qy: int)
  {
    0 <= qx < width && 0 <= qy < height
  }

  /**
   * The clip test rejects a character exactly when its 6 * size_x by
   * 8 * size_y cell has no point on the width x height panel: a cell that
   * only partly overlaps the panel passes it.
   */
  lemma ClassicClippedIffOffPanel(width: int, height: int, x: int, y: int, sx: int, sy: int)
    requires 1 <= sx && 1 <= sy && 0 < width && 0 < height
    ensures ClassicClipped(width, height, x, y, sx, sy) <==>
            !exists qx, qy :: x <= qx < x + 6 * sx && y <= qy < y + 8 * sy && InRect(width, height, qx, qy)
  {
    if !ClassicClipped(width, height, x, y, sx, sy) {
      var qx := if x < 0 then 0 else x;
      var qy := if y < 0 then 0 else y;
      assert x <= qx < x + 6 * sx && y <= qy < y + 8 * sy && InRect(width, height, qx, qy);
    }
  }

  /** What cell (column i, row j) of a classic glyph writes: the colour for a set bit, else the background when it differs. */
  function ClassicCellColor(table: seq<bv8>, c: uint8, color: int, bg: int, i: nat, j: nat): Option<int>
    requires |table| == CLASSIC_TABLE_SIZE && i < 5 && j < 8
  {
    if Bit(table[c * 5 + i], j) then Some(color)
    else if bg != color then Some(bg)
    else None
  }

  /** The writes of the cell visited k-th (column k / 8, row k % 8). */
  function ClassicCell(table: seq<bv8>, x: int, y: int, c: uint8, color: int, bg: int, k: nat): seq<PixelWrite>
    requires |table| == CLASSIC_TABLE_SIZE && k < 40
  {
    match ClassicCellColor(table, c, color, bg, k / 8, k % 8)
    case None => []
    case Some(col) => [PixelWrite(x + k / 8, y + k % 8, col)]
  }

  /** The writes of the first n cells, column by column, each column top to bottom. */
  function ClassicCells(table: seq<bv8>, x: int, y: int, c: uint8, color: int, bg: int, n: nat): (ws: seq<PixelWrite>)
    requires |table| == CLASSIC_TABLE_SIZE && n <= 40
  {
    if n == 0 then [] else ClassicCells(table, x, y, c, color, bg, n - 1) + ClassicCell(table, x, y, c, color, bg, n - 1)
  }

  /**
   * The first n cells write at most n pixels, all inside the 5 x 8 cell at
   * (x, y), each with the colour or, when it differs, the background, as
   * its cell says.
   */
  lemma {:induction false} ClassicCellsBox(table: seq<bv8>, x: int, y: int, c: uint8, color: int, bg: int, n: nat)
    requires |table| == CLASSIC_TABLE_SIZE && n <= 40
    ensures |ClassicCells(table, x, y, c, color, bg, n)| <= n
    ensures forall w :: w in ClassicCells(table, x, y, c, color, bg, n) ==>
              && x <= w.x < x + 5 && y <= w.y < y + 8
              && (w.color == color || (w.color == bg && bg != color))
              && ClassicCellColor(table, c, color, bg, w.x - x, w.y - y) == Some(w.color)
  {
    if n > 0 {
      ClassicCellsBox(table, x, y, c, color, bg, n - 1);
    }
  }

  /**
   * All pixel writes of the classic `drawChar`: none when clipped or when
   * either size exceeds 1 (the scaled paths are disabled), otherwise the
   * 5 x 8 cells. The opaque last column writes nothing.
   */
  function ClassicWrites(table: seq<bv8>, width: int, height: int, x: int, y: int, c: uint8,
                         color: int, bg: int, sx: int, sy: int): (ws: seq<PixelWrite>)
    requires |table| == CLASSIC_TABLE_SIZE
    ensures ClassicClipped(width, height, x, y, sx, sy) || sx != 1 || sy != 1 ==> ws == []
  {
    if ClassicClipped(width, height, x, y, sx, sy) || sx != 1 || sy != 1 then []
    else ClassicCells(table, x, y, c, color, bg, 40)
  }

  /** The cell visited (8 i + j)-th is column i, row j. */
  lemma ClassicCellAt(table: seq<bv8>, x: int, y: int, c: uint8, color: int, bg: int, i: nat, j: nat)
    requires |table| == CLASSIC_TABLE_SIZE && i < 5 && j < 8
    ensures var cell := ClassicCellColor(table, c, color, bg, i, j);
            ClassicCell(table, x, y, c, color, bg, 8 * i + j) ==
            if cell.Some? then [PixelWrite(At(x, i), At(y, j), cell.value)] else []
  {
    assert (8 * i + j) / 8 == i && (8 * i + j) % 8 == j;
  }

  /**
   * The buffer after painting cell (i, j) of a classic glyph: the
   * buffer-level counterpart of `ClassicCell`.
   */
  function ClassicPaintCell(buf: seq<bv8>, rot: int, table: seq<bv8>, x: int, y: int, c: uint8,
                            color: int, bg: int, i: nat, j: nat): (r: seq<bv8>)
    requires |buf| == BUFFER_SIZE && ValidRotation(rot) && |table| == CLASSIC_TABLE_SIZE && i < 5 && j < 8
    ensures |r| == BUFFER_SIZE
  {
    match ClassicCellColor(table, c, color, bg, i, j)
    case None => buf
    case Some(col) => Apply(buf, rot, PixelWrite(At(x, i), At(y, j), col))
  }

  /** The buffer after the first n cells of column i of a classic glyph, painted top to bottom. */
  function ClassicPaintColumn(buf: seq<bv8>, rot: int, table: seq<bv8>, x: int, y: int, c: uint8,
                              color: int, bg: int, i: nat, n: nat): (r: seq<bv8>)
    requires |buf| == BUFFER_SIZE && ValidRotation(rot) && |table| == CLASSIC_TABLE_SIZE && i < 5 && n <= 8
    ensures |r| == BUFFER_SIZE
  {
    if n == 0 then buf
    else ClassicPaintCell(ClassicPaintColumn(buf, rot, table, x, y, c, color, bg, i, n - 1), rot, table, x, y, c, color, bg, i, n - 1)
  }

  /** The buffer after the first m columns of a classic glyph, painted column by column. */
  function ClassicPainted(buf: seq<bv8>, rot: int, table: seq<bv8>, x: int, y: int, c: uint8,
                          color: int, bg: int, m: nat): (r: seq<bv8>)
    requires |buf| == BUFFER_SIZE && ValidRotation(rot) && |table| == CLASSIC_TABLE_SIZE && m <= 5
    ensures |r| == BUFFER_SIZE
  {
    if m == 0 then buf
    else ClassicPaintColumn(ClassicPainted(buf, rot, table, x, y, c, color, bg, m - 1), rot, table, x, y, c, color, bg, m - 1, CLASSIC_ROWS)
  }

  /**
   * The buffer after the first n cells of a classic glyph in walk order,
   * indexed as `ClassicCells` is: the bridge between the column-by-column
   * fold above and the write list.
   */
  function ClassicPaintedCells(buf: seq<bv8>, rot: int, table: seq<bv8>, x: int, y: int, c: uint8,
                               color: int, bg: int, n: nat): (r: seq<bv8>)
    requires |buf| == BUFFER_SIZE && ValidRotation(rot) && |table| == CLASSIC_TABLE_SIZE && n <= 40
    ensures |r| == BUFFER_SIZE
  {
    if n == 0 then buf
    else ClassicPaintCell(ClassicPaintedCells(buf, rot, table, x, y, c, color, bg, n - 1), rot, table, x, y, c, color, bg,
                          (n - 1) / 8, (n - 1) % 8)
  }

  /** Painting the first n cells is performing the first n cells' writes in order. */
  lemma {:induction false} ClassicPaintedCellsIsPaintAll(buf: seq<bv8>, rot: int, table: seq<bv8>, x: int, y: int, c: uint8,
                                                         color: int, bg: int, n: nat)
    requires |buf| == BUFFER_SIZE && ValidRotation(rot) && |table| == CLASSIC_TABLE_SIZE && n <= 40
    ensures ClassicPaintedCells(buf, rot, table, x, y, c, color, bg, n) == PaintAll(buf, rot, ClassicCells(table, x, y, c, color, bg, n))
  {
    if n > 0 {
      ClassicPaintedCellsIsPaintAll(buf, rot, table, x, y, c, color, bg, n - 1);
      ClassicPaintedCellsStep(buf, rot, table, x, y, c, color, bg, n);
    }
  }

  /** One more cell: if the first n - 1 cells painted are their writes performed, so are the first n. */
  lemma ClassicPaintedCellsStep(buf: seq<bv8>, rot: int, table: seq<bv8>, x: int, y: int, c: uint8,
                                color: int, bg: int, n: nat)
    requires |buf| == BUFFER_SIZE && ValidRotation(rot) && |table| == CLASSIC_TABLE_SIZE && 0 < n <= 40
    requires ClassicPaintedCells(buf, rot, table, x, y, c, color, bg, n - 1) ==
             PaintAll(buf, rot, ClassicCells(table, x, y, c, color, bg, n - 1))
    ensures ClassicPaintedCells(buf, rot, table, x, y, c, color, bg, n) == PaintAll(buf, rot, ClassicCells(table, x, y, c, color, bg, n))
  {
    var k := n - 1;
    var before := ClassicPaintedCells(buf, rot, table, x, y, c, color, bg, k);
    var cells := ClassicCells(table, x, y, c, color, bg, k);
    var cell := ClassicCell(table, x, y, c, color, bg, k);
    ClassicPaintCellIsCell(before, rot, table, x, y, c, color, bg, k);
    PaintAllSnoc(buf, rot, cells, cell);
  }

  /** Painting cell k of the walk is performing that cell's write, if any. */
  lemma ClassicPaintCellIsCell(buf: seq<bv8>, rot: int, table: seq<bv8>, x: int, y: int, c: uint8,
                               color: int, bg: int, k: nat)
    requires |buf| == BUFFER_SIZE && ValidRotation(rot) && |table| == CLASSIC_TABLE_SIZE && k < 40
    ensures |ClassicCell(table, x, y, c, color, bg, k)| <= 1
    ensures ClassicPaintCell(buf, rot, table, x, y, c, color, bg, k / 8, k % 8) ==
            if ClassicCell(table, x, y, c, color, bg, k) == [] then buf
            else Apply(buf, rot, ClassicCell(table, x, y, c, color, bg, k)[0])
  {
    match ClassicCellColor(table, c, color, bg, k / 8, k % 8)
    case None =>
      assert ClassicCell(table, x, y, c, color, bg, k) == [];
    case Some(col) =>
      assert ClassicCell(table, x, y, c, color, bg, k) == [PixelWrite(At(x, k / 8), At(y, k % 8), col)];
  }

  /** Painting the first n cells of column i continues the k == 8 i cells before the column. */
  lemma {:induction false} ClassicPaintColumnIsCells(buf: seq<bv8>, rot: int, table: seq<bv8>, x: int, y: int, c: uint8,
                                                     color: int, bg: int, i: nat, k: nat, n: nat)
    requires |buf| == BUFFER_SIZE && ValidRotation(rot) && |table| == CLASSIC_TABLE_SIZE && i < 5 && k == 8 * i && n <= 8
    ensures ClassicPaintColumn(ClassicPaintedCells(buf, rot, table, x, y, c, color, bg, k), rot, table, x, y, c, color, bg, i, n) ==
            ClassicPaintedCells(buf, rot, table, x, y, c, color, bg, k + n)
  {
    if n > 0 {
      ClassicPaintColumnIsCells(buf, rot, table, x, y, c, color, bg, i, k, n - 1);
      assert (k + n - 1) / 8 == i && (k + n - 1) % 8 == n - 1;
    }
  }

  /** Painting the first m columns is painting the first 8 m cells. */
  lemma {:induction false} ClassicPaintedIsCells(buf: seq<bv8>, rot: int, table: seq<bv8>, x: int, y: int, c: uint8,
                                                 color: int, bg: int, m: nat, k: nat)
    requires |buf| == BUFFER_SIZE && ValidRotation(rot) && |table| == CLASSIC_TABLE_SIZE && m <= 5 && k == 8 * m
    ensures ClassicPainted(buf, rot, table, x, y, c, color, bg, m) == ClassicPaintedCells(buf, rot, table, x, y, c, color, bg, k)
  {
    if m > 0 {
      ClassicPaintedIsCells(buf, rot, table, x, y, c, color, bg, m - 1, k - CLASSIC_ROWS);
      ClassicPaintColumnIsCells(buf, rot, table, x, y, c, color, bg, m - 1, k - CLASSIC_ROWS, CLASSIC_ROWS);
    }
  }

  /** Painting the columns one at a time is performing the walk's write list in order. */
  lemma ClassicPaintedIsPaintAll(buf: seq<bv8>, rot: int, table: seq<bv8>, x: int, y: int, c: uint8, color: int, bg: int)
    requires |buf| == BUFFER_SIZE && ValidRotation(rot) && |table| == CLASSIC_TABLE_SIZE
    ensures ClassicPainted(buf, rot, table, x, y, c, color, bg, CLASSIC_COLUMNS) == PaintAll(buf, rot, ClassicCells(table, x, y, c, color, bg, 40))
  {
    ClassicPaintedIsCells(buf, rot, table, x, y, c, color, bg, CLASSIC_COLUMNS, 40);
    ClassicPaintedCellsIsPaintAll(buf, rot, table, x, y, c, color, bg, 40);
  }

  /** Every cell (i, j) that writes something, and comes among the first n, contributes its write to the first n cells. */
  lemma {:induction false} ClassicCellsHas(table: seq<bv8>, x: int, y: int, c: uint8, color: int, bg: int,
                                           n: nat, i: nat, j: nat)
    requires |table| == CLASSIC_TABLE_SIZE && n <= 40 && i < 5 && j < 8 && 8 * i + j < n
    requires ClassicCellColor(table, c, color, bg, i, j).Some?
    ensures PixelWrite(At(x, i), At(y, j), ClassicCellColor(table, c, color, bg, i, j).value)
            in ClassicCells(table, x, y, c, color, bg, n)
  {
    var prev := ClassicCells(table, x, y, c, color, bg, n - 1);
    var cell := ClassicCell(table, x, y, c, color, bg, n - 1);
    assert ClassicCells(table, x, y, c, color, bg, n) == prev + cell;
    if 8 * i + j < n - 1 {
      ClassicCellsHas(table, x, y, c, color, bg, n - 1, i, j);
    } else {
      ClassicCellAt(table, x, y, c, color, bg, i, j);
      assert cell[0] in prev + cell;
    }
  }

  /** The last write of a classic glyph to pixel (x + i, y + j) is what cell (i, j) writes. */
  lemma ClassicCellsLastWrite(table: seq<bv8>, x: int, y: int, c: uint8, color: int, bg: int, i: nat, j: nat)
    requires |table| == CLASSIC_TABLE_SIZE && i < 5 && j < 8
    ensures LastWriteAt(ClassicCells(table, x, y, c, color, bg, 40), At(x, i), At(y, j))
            == ClassicCellColor(table, c, color, bg, i, j)
  {
    var ws := ClassicCells(table, x, y, c, color, bg, 40);
    var cell := ClassicCellColor(table, c, color, bg, i, j);
    ClassicCellsBox(table, x, y, c, color, bg, 40);
    if cell.Some? {
      ClassicCellsHas(table, x, y, c, color, bg, 40, i, j);
      LastWriteConsistent(ws, At(x, i), At(y, j), cell.value);
    } else {
      LastWriteNone(ws, At(x, i), At(y, j));
    }
  }

  /** Read-back of the 5 x 8 cells of a classic glyph, see `ClassicGlyphReadBack`. */
  lemma ClassicCellsReadBack(buf: seq<bv8>, rot: int, table: seq<bv8>, x: int, y: int, c: uint8,
                             color: int, bg: int, i: nat, j: nat, px: int, py: int)
    requires |buf| == BUFFER_SIZE && ValidRotation(rot) && |table| == CLASSIC_TABLE_SIZE
    requires i < 5 && j < 8 && InLogical(rot, x + i, y + j) && (px, py) == Transform(rot, x + i, y + j)
    ensures InPhysical(px, py)
    ensures PixelAt(PaintAll(buf, rot, ClassicCells(table, x, y, c, color, bg, 40)), px, py)
            == Shown(PixelAt(buf, px, py), ClassicCellColor(table, c, color, bg, i, j))
  {
    ClassicCellsLastWrite(table, x, y, c, color, bg, i, j);
    PaintAllShows(buf, rot, ClassicCells(table, x, y, c, color, bg, 40), x + i, y + j,
                  ClassicCellColor(table, c, color, bg, i, j), px, py);
  }

  /**
   * Read-back of a classic glyph at size 1: the image (px, py) of pixel
   * (x + i, y + j) of the 5 x 8 cell shows `color` when bit j of column byte
   * i is set, `bg` when it is clear and `bg != color`, and keeps its old value
   * otherwise.
   */
  lemma ClassicGlyphReadBack(buf: seq<bv8>, rot: int, table: seq<bv8>, x: int, y: int, c: uint8,
                             color: int, bg: int, i: nat, j: nat, px: int, py: int)
    requires |buf| == BUFFER_SIZE && ValidRotation(rot) && |table| == CLASSIC_TABLE_SIZE
    requires !ClassicClipped(LogicalWidth(rot), LogicalHeight(rot), x, y, 1, 1)
    requires i < 5 && j < 8 && InLogical(rot, x + i, y + j) && (px, py) == Transform(rot, x + i, y + j)
    ensures InPhysical(px, py)
    ensures PixelAt(PaintAll(buf, rot, ClassicWrites(table, LogicalWidth(rot), LogicalHeight(rot), x, y, c, color, bg, 1, 1)), px, py)
            == Shown(PixelAt(buf, px, py), ClassicCellColor(table, c, color, bg, i, j))
  {
    assert ClassicWrites(table, LogicalWidth(rot), LogicalHeight(rot), x, y, c, color, bg, 1, 1)
        == ClassicCells(table, x, y, c, color, bg, 40);
    ClassicCellsReadBack(buf, rot, table, x, y, c, color, bg, i, j, px, py);
  }

  /**
   * A classic glyph whose writes are all on the panel leaves every pixel
   * outside the image of its 5 x 8 cell unchanged.
   */
  lemma ClassicGlyphFrame(buf: seq<bv8>, rot: int, table: seq<bv8>, width: int, height: int,
                          x: int, y: int, c: uint8, color: int, bg: int, sx: int, sy: int, px: int, py: int)
    requires |buf| == BUFFER_SIZE && ValidRotation(rot) && |table| == CLASSIC_TABLE_SIZE
    requires AllInBounds(ClassicWrites(table, width, height, x, y, c, color, bg, sx, sy), rot)
    requires InPhysical(px, py)
    requires forall qx, qy :: x <= qx < x + 5 && y <= qy < y + 8 ==> Transform(rot, qx, qy) != (px, py)
    ensures PixelAt(PaintAll(buf, rot, ClassicWrites(table, width, height, x, y, c, color, bg, sx, sy)), px, py)
            == PixelAt(buf, px, py)
  {
    var ws := ClassicWrites(table, width, height, x, y, c, color, bg, sx, sy);
    ClassicCellsBox(table, x, y, c, color, bg, 40);
    PaintAllUntouched(buf, rot, ws, px, py);
  }

  // ---------------------------------------------------------------------
  // Custom (GFX) font: rows packed MSB-first, continuously across rows
  // ---------------------------------------------------------------------

  /** The glyph's bitmap window lies inside the bitmap. */
  predicate GlyphFits(bitmap: seq<bv8>, g: GFXglyph)
  {
    g.bitmapOffset + GlyphBytes(g) <= |bitmap|
  }

  /** The bit of pixel (xx, yy) of a glyph: k = yy * width + xx. */
  function GlyphBit(g: GFXglyph, xx: nat, yy: nat): nat
  {
    RowStart(g.width, yy) + xx
  }

  /** The bytes of the glyph's bitmap window: ceil(width * height / 8) bytes from bitmapOffset on. */
  function GlyphWindow(bitmap: seq<bv8>, g: GFXglyph): (w: seq<bv8>)
    requires GlyphFits(bitmap, g)
    ensures |w| == GlyphBytes(g)
  {
    bitmap[g.bitmapOffset .. g.bitmapOffset + GlyphBytes(g)]
  }

  /** The bit of pixel (xx, yy) comes before the glyph's width * height pixel bits end. */
  lemma GlyphBitInWindow(g: GFXglyph, xx: nat, yy: nat)
    requires xx < g.width && yy < g.height
    ensures GlyphBit(g, xx, yy) < RowStart(g.width, g.height)
  {
    RowStartGrows(g.width, yy, g.height);
  }

  /** The glyph's ceil(width * height / 8) bytes hold all its width * height pixel bits. */
  lemma GlyphBytesCover(g: GFXglyph)
    ensures RowStart(g.width, g.height) <= 8 * GlyphBytes(g)
  {
  }

  /** The glyph's pixels, one bit each, rows packed MSB-first: the unpacked window. */
  function GlyphBits(bitmap: seq<bv8>, g: GFXglyph): (bits: seq<bool>)
    requires GlyphFits(bitmap, g)
    ensures |bits| == 8 * GlyphBytes(g)
    ensures BitsOf(bits, g)
  {
    GlyphBytesCover(g);
    PackedBits(GlyphWindow(bitmap, g))
  }

  /** Whether glyph pixel (xx, yy) is set: bit yy * width + xx of the window. */
  predicate GlyphPixelSet(bitmap: seq<bv8>, g: GFXglyph, xx: nat, yy: nat)
    requires GlyphFits(bitmap, g) && xx < g.width && yy < g.height
  {
    GlyphBitInWindow(g, xx, yy);
    GlyphBits(bitmap, g)[GlyphBit(g, xx, yy)]
  }

  /**
   * Pixel (xx, yy) of a glyph is bit number k = yy * width + xx of its
   * window: bit 7 - k % 8 of byte bitmapOffset + k / 8, and that byte lies
   * inside the bitmap.
   */
  lemma GlyphPixelBit(bitmap: seq<bv8>, g: GFXglyph, xx: nat, yy: nat)
    requires GlyphFits(bitmap, g) && xx < g.width && yy < g.height
    ensures var k := yy * g.width + xx;
            && GlyphBit(g, xx, yy) == k
            && k < g.width * g.height
            && g.bitmapOffset + k / 8 < |bitmap|
            && (GlyphPixelSet(bitmap, g, xx, yy) <==> Bit(bitmap[g.bitmapOffset + k / 8], 7 - k % 8))
  {
    var k := GlyphBit(g, xx, yy);
    GlyphBitInWindow(g, xx, yy);
    RowStartProduct(g.width, yy);
    RowStartProduct(g.width, g.height);
    RowStartGrows(g.width, yy, g.height);
    PackedBitsAt(GlyphWindow(bitmap, g), k);
  }

  /**
   * The rows of a glyph are drawn from its unpacked bits `bits`
   * (`GlyphBits` of the bitmap), which hold at least its width * height
   * pixel bits.
   */
  predicate BitsOf(bits: seq<bool>, g: GFXglyph)
  {
    RowStart(g.width, g.height) <= |bits|
  }

  /** Whether (i, j) is a pixel of the glyph box whose bit is set. */
  predicate BitSet(bits: seq<bool>, g: GFXglyph, i: int, j: int)
    requires BitsOf(bits, g)
  {
    && 0 <= i < g.width && 0 <= j < g.height
    && (GlyphBitInWindow(g, i, j); bits[GlyphBit(g, i, j)])
  }

  /** The write of glyph pixel (xx, yy): the colour at (x + xOffset + xx, y + yOffset + yy) when its bit is set. */
  function GlyphCell(bits: seq<bool>, g: GFXglyph, x: int, y: int, color: int, xx: nat, yy: nat): seq<PixelWrite>
    requires BitsOf(bits, g) && xx < g.width && yy < g.height
  {
    GlyphBitInWindow(g, xx, yy);
    if bits[GlyphBit(g, xx, yy)] then [PixelWrite(At(x + g.xOffset, xx), At(y + g.yOffset, yy), color)] else []
  }

  /** The writes of the first n pixels of row yy. */
  function GlyphRow(bits: seq<bool>, g: GFXglyph, x: int, y: int, color: int, yy: nat, n: nat): (ws: seq<PixelWrite>)
    requires BitsOf(bits, g) && yy < g.height && n <= g.width
  {
    if n == 0 then [] else GlyphRow(bits, g, x, y, color, yy, n - 1) + GlyphCell(bits, g, x, y, color, n - 1, yy)
  }

  /** The writes of the first m rows, in row-major order. */
  function GlyphRows(bits: seq<bool>, g: GFXglyph, x: int, y: int, color: int, m: nat): (ws: seq<PixelWrite>)
    requires BitsOf(bits, g) && m <= g.height
  {
    if m == 0 then [] else GlyphRows(bits, g, x, y, color, m - 1) + GlyphRow(bits, g, x, y, color, m - 1, g.width)
  }

  /** The buffer after painting pixel (xx, yy) of a glyph: the buffer-level counterpart of `GlyphCell`. */
  function GlyphPaintPixel(buf: seq<bv8>, rot: int, bits: seq<bool>, g: GFXglyph, x: int, y: int, color: int,
                           xx: nat, yy: nat): (r: seq<bv8>)
    requires |buf| == BUFFER_SIZE && ValidRotation(rot) && BitsOf(bits, g) && xx < g.width && yy < g.height
    ensures |r| == BUFFER_SIZE
  {
    GlyphBitInWindow(g, xx, yy);
    if bits[GlyphBit(g, xx, yy)] then Apply(buf, rot, PixelWrite(At(x + g.xOffset, xx), At(y + g.yOffset, yy), color))
    else buf
  }

  /** The buffer after the first n pixels of row yy, painted one at a time. */
  function GlyphPaintRow(buf: seq<bv8>, rot: int, bits: seq<bool>, g: GFXglyph, x: int, y: int, color: int,
                         yy: nat, n: nat): (r: seq<bv8>)
    requires |buf| == BUFFER_SIZE && ValidRotation(rot) && BitsOf(bits, g) && yy < g.height && n <= g.width
    ensures |r| == BUFFER_SIZE
  {
    if n == 0 then buf
    else GlyphPaintPixel(GlyphPaintRow(buf, rot, bits, g, x, y, color, yy, n - 1), rot, bits, g, x, y, color, n - 1, yy)
  }

  /** The buffer after the first m rows, painted row by row. */
  function GlyphPainted(buf: seq<bv8>, rot: int, bits: seq<bool>, g: GFXglyph, x: int, y: int, color: int,
                        m: nat): (r: seq<bv8>)
    requires |buf| == BUFFER_SIZE && ValidRotation(rot) && BitsOf(bits, g) && m <= g.height
    ensures |r| == BUFFER_SIZE
  {
    if m == 0 then buf
    else GlyphPaintRow(GlyphPainted(buf, rot, bits, g, x, y, color, m - 1), rot, bits, g, x, y, color, m - 1, g.width)
  }

  /** Painting a row pixel by pixel is performing the row's write list in order. */
  lemma {:induction false} GlyphPaintRowIsPaintAll(buf: seq<bv8>, rot: int, bits: seq<bool>, g: GFXglyph, x: int, y: int,
                                                   color: int, yy: nat, n: nat)
    requires |buf| == BUFFER_SIZE && ValidRotation(rot) && BitsOf(bits, g) && yy < g.height && n <= g.width
    ensures GlyphPaintRow(buf, rot, bits, g, x, y, color, yy, n) == PaintAll(buf, rot, GlyphRow(bits, g, x, y, color, yy, n))
  {
    if n > 0 {
      var before := GlyphPaintRow(buf, rot, bits, g, x, y, color, yy, n - 1);
      var row := GlyphRow(bits, g, x, y, color, yy, n - 1);
      var cell := GlyphCell(bits, g, x, y, color, n - 1, yy);
      GlyphPaintRowIsPaintAll(buf, rot, bits, g, x, y, color, yy, n - 1);
      GlyphPaintPixelIsCell(before, rot, bits, g, x, y, color, n - 1, yy);
      PaintAllAppend(buf, rot, row, cell);
    }
  }

  /** Painting pixel (xx, yy) of a glyph is performing that pixel's write, if any. */
  lemma GlyphPaintPixelIsCell(buf: seq<bv8>, rot: int, bits: seq<bool>, g: GFXglyph, x: int, y: int, color: int,
                              xx: nat, yy: nat)
    requires |buf| == BUFFER_SIZE && ValidRotation(rot) && BitsOf(bits, g) && xx < g.width && yy < g.height
    ensures |GlyphCell(bits, g, x, y, color, xx, yy)| <= 1
    ensures GlyphPaintPixel(buf, rot, bits, g, x, y, color, xx, yy) == PaintAll(buf, rot, GlyphCell(bits, g, x, y, color, xx, yy))
  {
    var cell := GlyphCell(bits, g, x, y, color, xx, yy);
    if cell != [] {
      assert cell[..0] == [];
    }
  }

  /** Painting the rows one at a time is performing the glyph's write list in order. */
  lemma {:induction false} GlyphPaintedIsPaintAll(buf: seq<bv8>, rot: int, bits: seq<bool>, g: GFXglyph, x: int, y: int,
                                                  color: int, m: nat)
    requires |buf| == BUFFER_SIZE && ValidRotation(rot) && BitsOf(bits, g) && m <= g.height
    ensures GlyphPainted(buf, rot, bits, g, x, y, color, m) == PaintAll(buf, rot, GlyphRows(bits, g, x, y, color, m))
  {
    if m > 0 {
      GlyphPaintedIsPaintAll(buf, rot, bits, g, x, y, color, m - 1);
      GlyphPaintedStep(buf, rot, bits, g, x, y, color, m);
    }
  }

  /** One more row: if the first m - 1 rows painted are their writes performed, so are the first m. */
  lemma GlyphPaintedStep(buf: seq<bv8>, rot: int, bits: seq<bool>, g: GFXglyph, x: int, y: int, color: int, m: nat)
    requires |buf| == BUFFER_SIZE && ValidRotation(rot) && BitsOf(bits, g) && 0 < m <= g.height
    requires GlyphPainted(buf, rot, bits, g, x, y, color, m - 1) == PaintAll(buf, rot, GlyphRows(bits, g, x, y, color, m - 1))
    ensures GlyphPainted(buf, rot, bits, g, x, y, color, m) == PaintAll(buf, rot, GlyphRows(bits, g, x, y, color, m))
  {
    var prev := GlyphPainted(buf, rot, bits, g, x, y, color, m - 1);
    var rows := GlyphRows(bits, g, x, y, color, m - 1);
    var row := GlyphRow(bits, g, x, y, color, m - 1, g.width);
    GlyphPaintRowIsPaintAll(prev, rot, bits, g, x, y, color, m - 1, g.width);
    PaintAllAppend(buf, rot, rows, row);
  }

  /** The first n pixels of row yy write only the colour, on that row, within the first n columns, and only where the bit is set. */
  lemma {:induction false} GlyphRowBox(bits: seq<bool>, g: GFXglyph, x: int, y: int, color: int, yy: nat, n: nat)
    requires BitsOf(bits, g) && yy < g.height && n <= g.width
    ensures forall w :: w in GlyphRow(bits, g, x, y, color, yy, n) ==>
              && x + g.xOffset <= w.x < x + g.xOffset + n && w.y == y + g.yOffset + yy
              && w.color == color && BitSet(bits, g, w.x - (x + g.xOffset), yy)
  {
    if n > 0 {
      GlyphRowBox(bits, g, x, y, color, yy, n - 1);
    }
  }

  /**
   * The first m rows write only the colour (never a background) and only
   * inside the glyph's box: columns xOffset .. xOffset + width - 1 and
   * rows yOffset .. yOffset + m - 1 relative to (x, y), and only where
   * the glyph's bit is set.
   */
  lemma {:induction false} GlyphRowsBox(bits: seq<bool>, g: GFXglyph, x: int, y: int, color: int, m: nat)
    requires BitsOf(bits, g) && m <= g.height
    ensures forall w :: w in GlyphRows(bits, g, x, y, color, m) ==>
              && x + g.xOffset <= w.x < x + g.xOffset + g.width
              && y + g.yOffset <= w.y < y + g.yOffset + m
              && w.color == color && BitSet(bits, g, w.x - (x + g.xOffset), w.y - (y + g.yOffset))
  {
    if m > 0 {
      GlyphRowsBox(bits, g, x, y, color, m - 1);
      GlyphRowBox(bits, g, x, y, color, m - 1, g.width);
    }
  }

  /** Every set pixel among the first n of row yy contributes its write to the row. */
  lemma {:induction false} GlyphRowHas(bits: seq<bool>, g: GFXglyph, x: int, y: int, color: int, yy: nat, n: nat, xx: nat)
    requires BitsOf(bits, g) && yy < g.height && xx < n <= g.width
    requires GlyphBit(g, xx, yy) < |bits| && bits[GlyphBit(g, xx, yy)]
    ensures PixelWrite(At(x + g.xOffset, xx), At(y + g.yOffset, yy), color) in GlyphRow(bits, g, x, y, color, yy, n)
  {
    var prev := GlyphRow(bits, g, x, y, color, yy, n - 1);
    var cell := GlyphCell(bits, g, x, y, color, n - 1, yy);
    assert GlyphRow(bits, g, x, y, color, yy, n) == prev + cell;
    if xx < n - 1 {
      GlyphRowHas(bits, g, x, y, color, yy, n - 1, xx);
    } else {
      assert cell[0] in prev + cell;
    }
  }

  /** Every set pixel among the first m rows contributes its write to those rows. */
  lemma {:induction false} GlyphRowsHas(bits: seq<bool>, g: GFXglyph, x: int, y: int, color: int, m: nat, xx: nat, yy: nat)
    requires BitsOf(bits, g) && m <= g.height && xx < g.width && yy < m
    requires GlyphBit(g, xx, yy) < |bits| && bits[GlyphBit(g, xx, yy)]
    ensures PixelWrite(At(x + g.xOffset, xx), At(y + g.yOffset, yy), color) in GlyphRows(bits, g, x, y, color, m)
  {
    var prev := GlyphRows(bits, g, x, y, color, m - 1);
    var row := GlyphRow(bits, g, x, y, color, m - 1, g.width);
    assert GlyphRows(bits, g, x, y, color, m) == prev + row;
    if yy < m - 1 {
      GlyphRowsHas(bits, g, x, y, color, m - 1, xx, yy);
    } else {
      GlyphRowHas(bits, g, x, y, color, yy, g.width, xx);
    }
  }

  /**
   * All pixel writes of the custom-font `drawChar` for an in-range code:
   * every set bit at size 1, nothing when either size exceeds 1 (the scaled
   * path is disabled), and never a background pixel.
   */
  function GlyphWrites(f: GFXfont, x: int, y: int, c: uint8, color: int, sx: int, sy: int): (ws: seq<PixelWrite>)
    requires WellFormed(f) && InRange(f, c)
    ensures sx != 1 || sy != 1 ==> ws == []
  {
    var g := GlyphOf(f, c);
    if sx == 1 && sy == 1 then GlyphRows(GlyphBits(f.bitmap, g), g, x, y, color, g.height) else []
  }

  /** The last write of the glyph to pixel (xx, yy) is the colour when its bit is set, and there is none otherwise. */
  lemma GlyphRowsLastWrite(bits: seq<bool>, g: GFXglyph, x: int, y: int, color: int, xx: nat, yy: nat)
    requires BitsOf(bits, g) && xx < g.width && yy < g.height
    ensures GlyphBit(g, xx, yy) < |bits|
    ensures LastWriteAt(GlyphRows(bits, g, x, y, color, g.height), At(x + g.xOffset, xx), At(y + g.yOffset, yy)) ==
            if bits[GlyphBit(g, xx, yy)] then Some(color) else None
  {
    GlyphBitInWindow(g, xx, yy);
    var ws := GlyphRows(bits, g, x, y, color, g.height);
    var w := PixelWrite(At(x + g.xOffset, xx), At(y + g.yOffset, yy), color);
    GlyphRowsBox(bits, g, x, y, color, g.height);
    LastWriteConsistent(ws, w.x, w.y, color);
    if bits[GlyphBit(g, xx, yy)] {
      GlyphRowsHas(bits, g, x, y, color, g.height, xx, yy);
    } else {
      assert w !in ws;
    }
  }

  /**
   * Read-back of a custom glyph at size 1: the image (px, py) of pixel
   * (x + xOffset + xx, y + yOffset + yy) shows `color` when bit
   * k = yy * width + xx of the glyph's bitmap is set and keeps its old value
   * when it is clear (there is no background).
   */
  lemma GlyphReadBack(buf: seq<bv8>, rot: int, f: GFXfont, x: int, y: int, c: uint8, color: int,
                      xx: nat, yy: nat, px: int, py: int)
    requires |buf| == BUFFER_SIZE && ValidRotation(rot) && WellFormed(f) && InRange(f, c)
    requires xx < GlyphOf(f, c).width && yy < GlyphOf(f, c).height
    requires InLogical(rot, x + GlyphOf(f, c).xOffset + xx, y + GlyphOf(f, c).yOffset + yy)
    requires (px, py) == Transform(rot, x + GlyphOf(f, c).xOffset + xx, y + GlyphOf(f, c).yOffset + yy)
    ensures InPhysical(px, py)
    ensures PixelAt(PaintAll(buf, rot, GlyphWrites(f, x, y, c, color, 1, 1)), px, py) ==
            if GlyphPixelSet(f.bitmap, GlyphOf(f, c), xx, yy) then color == 0 else PixelAt(buf, px, py)
  {
    var g := GlyphOf(f, c);
    var ws := GlyphWrites(f, x, y, c, color, 1, 1);
    var v := if GlyphPixelSet(f.bitmap, g, xx, yy) then Some(color) else None;
    assert ws == GlyphRows(GlyphBits(f.bitmap, g), g, x, y, color, g.height);
    GlyphRowsLastWrite(GlyphBits(f.bitmap, g), g, x, y, color, xx, yy);
    PaintAllShows(buf, rot, ws, At(x + g.xOffset, xx), At(y + g.yOffset, yy), v, px, py);
  }

  /**
   * A custom glyph whose writes are all on the panel leaves every pixel
   * outside the image of its width x height box at (x + xOffset, y + yOffset)
   * unchanged: custom fonts draw no background.
   */
  lemma GlyphFrame(buf: seq<bv8>, rot: int, f: GFXfont, x: int, y: int, c: uint8, color: int,
                   sx: int, sy: int, px: int, py: int)
    requires |buf| == BUFFER_SIZE && ValidRotation(rot) && WellFormed(f) && InRange(f, c)
    requires AllInBounds(GlyphWrites(f, x, y, c, color, sx, sy), rot)
    requires InPhysical(px, py)
    requires var g := GlyphOf(f, c);
             forall qx, qy :: x + g.xOffset <= qx < x + g.xOffset + g.width && y + g.yOffset <= qy < y + g.yOffset + g.height
                              ==> Transform(rot, qx, qy) != (px, py)
    ensures PixelAt(PaintAll(buf, rot, GlyphWrites(f, x, y, c, color, sx, sy)), px, py) == PixelAt(buf, px, py)
  {
    var g := GlyphOf(f, c);
    GlyphRowsBox(GlyphBits(f.bitmap, g), g, x, y, color, g.height);
    PaintAllUntouched(buf, rot, GlyphWrites(f, x, y, c, color, sx, sy), px, py);
  }

  /**
   * The glyph walk reads only the ceil(width * height / 8) bytes starting at
   * the glyph's bitmapOffset: two bitmaps that agree there draw the same pixels.
   */
  lemma GlyphWindowOnly(b1: seq<bv8>, b2: seq<bv8>, g: GFXglyph, x: int, y: int, color: int)
    requires GlyphFits(b1, g) && GlyphFits(b2, g)
    requires forall i :: g.bitmapOffset <= i < g.bitmapOffset + GlyphBytes(g) ==> b1[i] == b2[i]
    ensures GlyphRows(GlyphBits(b1, g), g, x, y, color, g.height) == GlyphRows(GlyphBits(b2, g), g, x, y, color, g.height)
  {
    assert GlyphWindow(b1, g) == GlyphWindow(b2, g);
  }

  // ---------------------------------------------------------------------
  // drawChar, dispatching on the active font
  // ---------------------------------------------------------------------

  /** Codes the rasterizer may be given: any code for the classic font, an in-range code for a custom font. */
  predicate Drawable(font: Font, c: uint8)
  {
    font.Custom? ==> InRange(font.gfx, c)
  }

  /** All pixel writes of `drawChar(x, y, c, color, bg, sx, sy)` with the given font and logical panel size. */
  function CharWrites(font: Font, width: int, height: int, x: int, y: int, c: uint8,
                      color: int, bg: int, sx: int, sy: int): (ws: seq<PixelWrite>)
    requires FontWellFormed(font) && Drawable(font, c)
    ensures sx != 1 || sy != 1 ==> ws == []
  {
    match font
    case Classic(table) => ClassicWrites(table, width, height, x, y, c, color, bg, sx, sy)
    case Custom(f) => GlyphWrites(f, x, y, c, color, sx, sy)
  }

}
