/**
 * The cursor and line-layout state machine of `writeC(uint8_t)`, as
 * functions over a snapshot of the text style. One `Step` classifies a
 * code (newline, carriage return, drawable, dropped), decides the line
 * wrap, says where the glyph is drawn and where the cursor goes; `Run`
 * performs a sequence of codes in order.
 */
module Layout {
  import opened Bytes
  import opened Fonts
  import opened Raster

  /** Style, logical panel size and font that `writeC` reads; none of them change while text is written. */
  datatype Env = Env(
    width: int,
    height: int,
    sizeX: uint8,
    sizeY: uint8,
    wrap: bool,
    color: uint16,
    bg: uint16,
    font: Font)

  ghost predicate EnvValid(e: Env)
  {
    FontWellFormed(e.font) && 1 <= e.sizeX && 1 <= e.sizeY
  }

  datatype Cursor = Cursor(x: int, y: int)

  /** Where a code's glyph is drawn, if it is drawn, and where the cursor goes. */
  datatype Move = Move(draw: Option<Cursor>, next: Cursor)

  const NEWLINE: uint8 := 10
  const CARRIAGE_RETURN: uint8 := 13

  /**
   * Classic font: a newline moves to the start of the next 8 * size_y line,
   * a carriage return does nothing, and any other code is drawn once and
   * advances the cursor by the 6 * size_x cell pitch. With wrap on, a cell
   * that would pass the right edge first moves to the next line, so the
   * cell is drawn at x = 0 or ends at or before the edge.
   */
  function ClassicStep(width: int, sx: int, sy: int, wrap: bool, cur: Cursor, c: uint8): (m: Move)
    ensures c == NEWLINE ==> m == Move(None, Cursor(0, cur.y + 8 * sy))
    ensures c == CARRIAGE_RETURN ==> m == Move(None, cur)
    ensures c != NEWLINE && c != CARRIAGE_RETURN ==>
              && m.draw.Some?
              && m.next == Cursor(m.draw.value.x + 6 * sx, m.draw.value.y)
              && (wrap ==> m.draw.value.x == 0 || m.draw.value.x + 6 * sx <= width)
              && (!wrap || cur.x + 6 * sx <= width ==> m.draw.value == cur)
              && (wrap && cur.x + 6 * sx > width ==> m.draw.value == Cursor(0, cur.y + 8 * sy))
  {
    if c == NEWLINE then Move(None, Cursor(0, cur.y + sy * 8))
    else if c == CARRIAGE_RETURN then Move(None, cur)
    else
      var at := if wrap && cur.x + sx * 6 > width then Cursor(0, cur.y + sy * 8) else cur;
      Move(Some(at), Cursor(at.x + sx * 6, at.y))
  }

  /**
   * Custom font: a newline moves down by size_y * yAdvance, a carriage
   * return and any code outside [first, last] change nothing. An in-range
   * code is drawn only when its glyph has a nonzero width and height
   * (after the wrap test on x + size_x * (xOffset + width)); whether drawn
   * or not, it advances the cursor by exactly xAdvance * size_x.
   */
  function GlyphStep(width: int, sx: int, sy: int, wrap: bool, f: GFXfont, cur: Cursor, c: uint8): (m: Move)
    requires WellFormed(f)
    ensures c == NEWLINE ==> m == Move(None, Cursor(0, cur.y + sy * f.yAdvance))
    ensures c == CARRIAGE_RETURN ==> m == Move(None, cur)
    ensures c != NEWLINE && !InRange(f, c) ==> m == Move(None, cur)
    ensures c != NEWLINE && c != CARRIAGE_RETURN && InRange(f, c) ==>
              var g := GlyphOf(f, c);
              && (m.draw.Some? <==> g.width > 0 && g.height > 0)
              && (m.draw.None? ==> m.next == Cursor(cur.x + g.xAdvance * sx, cur.y))
              && (m.draw.Some? ==>
                    && m.next == Cursor(m.draw.value.x + g.xAdvance * sx, m.draw.value.y)
                    && (wrap ==> m.draw.value.x == 0 || m.draw.value.x + sx * (g.xOffset + g.width) <= width)
                    && (!wrap || cur.x + sx * (g.xOffset + g.width) <= width ==> m.draw.value == cur)
                    && (wrap && cur.x + sx * (g.xOffset + g.width) > width ==>
                          m.draw.value == Cursor(0, cur.y + sy * f.yAdvance)))
  {
    if c == NEWLINE then Move(None, Cursor(0, cur.y + sy * f.yAdvance))
    else if c == CARRIAGE_RETURN then Move(None, cur)
    else if !(f.first <= c && c <= f.last) then Move(None, cur)
    else
      var g := GlyphPtr(f, c - f.first);
      if g.width > 0 && g.height > 0 then
        var at := if wrap && cur.x + sx * (g.xOffset + g.width) > width then Cursor(0, cur.y + sy * f.yAdvance) else cur;
        Move(Some(at), Cursor(at.x + g.xAdvance * sx, at.y))
      else
        Move(None, Cursor(cur.x + g.xAdvance * sx, cur.y))
  }

  /** One `writeC(c)` on the active font. A code is only ever drawn when the rasterizer accepts it. */
  function Step(e: Env, cur: Cursor, c: uint8): (m: Move)
    requires EnvValid(e)
    ensures m.draw.Some? ==> Drawable(e.font, c) && c != NEWLINE && c != CARRIAGE_RETURN
  {
    match e.font
    case Classic(_) => ClassicStep(e.width, e.sizeX, e.sizeY, e.wrap, cur, c)
    case Custom(f) => GlyphStep(e.width, e.sizeX, e.sizeY, e.wrap, f, cur, c)
  }

  /** The pixel writes of one `writeC(c)`: those of the single `drawChar` it makes, if any. */
  function StepWrites(e: Env, cur: Cursor, c: uint8): seq<PixelWrite>
    requires EnvValid(e)
  {
    var m := Step(e, cur, c);
    match m.draw
    case None => []
    case Some(at) => CharWrites(e.font, e.width, e.height, at.x, at.y, c, e.color, e.bg, e.sizeX, e.sizeY)
  }

  datatype RunResult = RunResult(cursor: Cursor, writes: seq<PixelWrite>)

  /** The cursor after, and all pixel writes of, `writeC` on each code in order. */
  function Run(e: Env, cur: Cursor, codes: seq<uint8>): RunResult
    requires EnvValid(e)
    decreases |codes|
  {
    if codes == [] then RunResult(cur, [])
    else
      var prev := Run(e, cur, codes[..|codes| - 1]);
      var c := codes[|codes| - 1];
      RunResult(Step(e, prev.cursor, c).next, prev.writes + StepWrites(e, prev.cursor, c))
  }

  /** Running one more code extends the run by that code's step. */
  lemma {:induction false} RunSnoc(e: Env, cur: Cursor, codes: seq<uint8>, c: uint8)
    requires EnvValid(e)
    ensures var prev := Run(e, cur, codes);
            Run(e, cur, codes + [c]) ==
            RunResult(Step(e, prev.cursor, c).next, prev.writes + StepWrites(e, prev.cursor, c))
  {
    assert (codes + [c])[..|codes|] == codes;
  }

  /** Running `a` and then `b` from where `a` left the cursor is running `a + b`. */
  lemma {:induction false} RunAppend(e: Env, cur: Cursor, a: seq<uint8>, b: seq<uint8>)
    requires EnvValid(e)
    ensures var ra := Run(e, cur, a);
            var rb := Run(e, ra.cursor, b);
            Run(e, cur, a + b) == RunResult(rb.cursor, ra.writes + rb.writes)
    decreases |b|
  {
    if b == [] {
      assert a + b == a;
    } else {
      var b' := b[..|b| - 1];
      var c := b[|b| - 1];
      assert b == b' + [c];
      RunAppend(e, cur, a, b');
      RunAppendSnoc(e, cur, a, b', c);
    }
  }

  /** The inductive step of RunAppend: one more code at the end of `b`. */
  lemma {:induction false} RunAppendSnoc(e: Env, cur: Cursor, a: seq<uint8>, b: seq<uint8>, c: uint8)
    requires EnvValid(e)
    requires var ra := Run(e, cur, a);
             var rb := Run(e, ra.cursor, b);
             Run(e, cur, a + b) == RunResult(rb.cursor, ra.writes + rb.writes)
    ensures var ra := Run(e, cur, a);
            var rb := Run(e, ra.cursor, b + [c]);
            Run(e, cur, a + (b + [c])) == RunResult(rb.cursor, ra.writes + rb.writes)
  {
    var ra := Run(e, cur, a);
    var rb := Run(e, ra.cursor, b);
    var mid := Run(e, cur, a + b);
    var sw := StepWrites(e, mid.cursor, c);
    assert Run(e, cur, a + (b + [c])) == RunResult(Step(e, mid.cursor, c).next, mid.writes + sw) by {
      assert a + (b + [c]) == (a + b) + [c];
      RunSnoc(e, cur, a + b, c);
    }
    assert Run(e, ra.cursor, b + [c]) == RunResult(Step(e, rb.cursor, c).next, rb.writes + sw) by {
      RunSnoc(e, ra.cursor, b, c);
    }
    ConcatAssoc(ra.writes, rb.writes, sw);
  }

  /**
   * Regrouping a concatenation. Proved on its own, where the solver sees only
   * three sequences; stated inline in `RunAppendSnoc` it costs that proof
   * several times its resources.
   */
  lemma ConcatAssoc<T>(a: seq<T>, b: seq<T>, c: seq<T>)
    ensures (a + b) + c == a + (b + c)
  {
  }

  /** The writes of a prefix of the codes are a prefix of the writes of all of them. */
  lemma {:induction false} RunPrefix(e: Env, cur: Cursor, codes: seq<uint8>, k: nat)
    requires EnvValid(e) && k <= |codes|
    ensures Run(e, cur, codes[..k]).writes <= Run(e, cur, codes).writes
    decreases |codes|
  {
    if k < |codes| {
      var codes' := codes[..|codes| - 1];
      assert codes'[..k] == codes[..k];
      RunPrefix(e, cur, codes', k);
    } else {
      assert codes[..k] == codes;
    }
  }

  /**
   * With wrap off and the classic font, codes other than newline and
   * carriage return never break the line: each moves the cursor right by
   * 6 * size_x, however far past the right edge that goes.
   */
  lemma {:induction false} ClassicNoWrapAdvance(e: Env, cur: Cursor, codes: seq<uint8>)
    requires EnvValid(e) && e.font.Classic? && !e.wrap
    requires forall k :: 0 <= k < |codes| ==> codes[k] != NEWLINE && codes[k] != CARRIAGE_RETURN
    ensures Run(e, cur, codes).cursor == Cursor(cur.x + 6 * e.sizeX * |codes|, cur.y)
    decreases |codes|
  {
    if codes != [] {
      var codes' := codes[..|codes| - 1];
      ClassicNoWrapAdvance(e, cur, codes');
    }
  }

  /** Forty printable codes from x = 0 at size 1 with wrap off leave the cursor at x = 240, past the 176-pixel width. */
  lemma FortyCodesWithoutWrap(e: Env, y: int, codes: seq<uint8>)
    requires EnvValid(e) && e.font.Classic? && !e.wrap && e.sizeX == 1 && e.width == RAW_WIDTH
    requires |codes| == 40
    requires forall k :: 0 <= k < |codes| ==> codes[k] != NEWLINE && codes[k] != CARRIAGE_RETURN
    ensures Run(e, Cursor(0, y), codes).cursor == Cursor(240, y)
    ensures Run(e, Cursor(0, y), codes).cursor.x > e.width
  {
    ClassicNoWrapAdvance(e, Cursor(0, y), codes);
  }

  /**
   * With wrap on and the classic font, a cursor that starts on the line
   * (0 <= x <= width, the line holding at least one cell) stays on it.
   */
  lemma {:induction false} ClassicWrapKeepsCursorOnLine(e: Env, cur: Cursor, codes: seq<uint8>)
    requires EnvValid(e) && e.font.Classic? && e.wrap && 6 * e.sizeX <= e.width
    requires 0 <= cur.x <= e.width
    ensures 0 <= Run(e, cur, codes).cursor.x <= e.width
    decreases |codes|
  {
    if codes != [] {
      ClassicWrapKeepsCursorOnLine(e, cur, codes[..|codes| - 1]);
    }
  }

  /**
   * With wrap on, the classic font at size 1 and the cursor on the line,
   * every pixel written lies horizontally on the panel: the wrap test
   * keeps each 5-column cell inside the width.
   */
  lemma {:induction false} ClassicWrapWritesInsideWidth(e: Env, cur: Cursor, codes: seq<uint8>)
    requires EnvValid(e) && e.font.Classic? && e.wrap && e.sizeX == 1 && 6 <= e.width
    requires 0 <= cur.x <= e.width
    ensures forall w {:trigger w in Run(e, cur, codes).writes} :: w in Run(e, cur, codes).writes ==> 0 <= w.x < e.width
    decreases |codes|
  {
    if codes != [] {
      var codes' := codes[..|codes| - 1];
      var c := codes[|codes| - 1];
      var prev := Run(e, cur, codes');
      var m := Step(e, prev.cursor, c);
      ClassicWrapWritesInsideWidth(e, cur, codes');
      ClassicWrapKeepsCursorOnLine(e, cur, codes');
      var last := StepWrites(e, prev.cursor, c);
      assert Run(e, cur, codes).writes == prev.writes + last;
      if m.draw.Some? {
        var at := m.draw.value;
        assert 0 <= at.x && at.x + 6 <= e.width;
        ClassicCellsBox(e.font.table, at.x, at.y, c, e.color, e.bg, 40);
        assert forall w :: w in last ==> at.x <= w.x < at.x + 5;
      } else {
        assert last == [];
      }
    }
  }
}
