/** The framebuffer text console of src/drivers/renderer.cpp (class `Renderer`, whose static
    fields become the fields of one object). The framebuffer memory is a 2-D array of 32-bit
    pixels: `pixels[row, column]` is the source's `fbAddress[row * (fbPitch / 4) + column]`,
    the pitch covering at least the width so that rows do not overlap. `fbAddress` is kept as
    the number the source computes, 0 being the null pointer that switches drawing off. The
    ghost `log` records the `printChar` and `clear` calls made, in order: it is how `print`'s
    effect is stated. */
module Console {
  import opened Bits
  import opened Wrappers
  import opened Boot
  import opened CStrings
  import opened Ansi

  const PSF1_MAGIC0: u8 := 0x36
  const PSF1_MAGIC1: u8 := 0x04
  const PSF1_HEADER_SIZE: nat := 4
  const GLYPH_WIDTH: u32 := 8
  const NEWLINE: u8 := 0x0A
  const CARRIAGE_RETURN: u8 := 0x0D

  /** `Font`: the glyph bitmaps (one byte per row, bit 7 leftmost) and their geometry. */
  datatype Font = Font(glyphs: seq<u8>, width: u32, height: u32, glyphCount: u32)

  const NO_FONT: Font := Font([], 0, 0, 0)

  /** The number of glyphs a PSF1 mode byte announces: 512 when bit 0 is set. */
  function GlyphCount(mode: u8): (r: u32)
    ensures r == 512 <==> TestBit(mode, 0)
    ensures r == 256 <==> !TestBit(mode, 0)
  {
    if TestBit(mode, 0) then 512 else 256
  }

  /** renderer.cpp:18-28 on the embedded PSF1 file: the font when the two magic bytes are
      0x36 0x04, none otherwise. The glyphs follow the 4-byte header; a glyph is 8 pixels wide
      and `charSize` rows high. */
  function LoadFont(file: seq<u8>): (r: Option<Font>)
    requires |file| >= PSF1_HEADER_SIZE
    ensures r.Some? <==> file[0] == PSF1_MAGIC0 && file[1] == PSF1_MAGIC1
    ensures r.Some? ==> r.value.width == GLYPH_WIDTH && r.value.height == file[3]
                        && r.value.glyphCount == GlyphCount(file[2])
                        && file == file[..PSF1_HEADER_SIZE] + r.value.glyphs
  {
    if file[0] != PSF1_MAGIC0 || file[1] != PSF1_MAGIC1 then None
    else Some(Font(file[PSF1_HEADER_SIZE..], GLYPH_WIDTH, file[3], GlyphCount(file[2])))
  }

  /** A font the console can draw with: every announced glyph is present. */
  predicate FontLoaded(f: Font)
  {
    f.width == GLYPH_WIDTH && 1 <= f.height < 256 && (f.glyphCount == 256 || f.glyphCount == 512)
    && f.glyphCount * f.height <= |f.glyphs|
  }

  /** What the embedded file must satisfy: a full header, and when the magic matches, a
      non-zero glyph height and all announced glyphs. */
  predicate FontFileUsable(file: seq<u8>)
  {
    |file| >= PSF1_HEADER_SIZE
    && (file[0] == PSF1_MAGIC0 && file[1] == PSF1_MAGIC1 ==>
          1 <= file[3] && GlyphCount(file[2]) * file[3] <= |file| - PSF1_HEADER_SIZE)
  }

  lemma LoadedFontUsable(file: seq<u8>)
    requires FontFileUsable(file) && LoadFont(file).Some?
    ensures FontLoaded(LoadFont(file).value)
  {
  }

  /** One coordinate of `setCursor`: kept when it names a cell of a line of `cells` cells,
      otherwise the last cell; with no cell at all the `- 1` wraps. */
  function Clamp(v: u32, cells: u64): (r: u32)
    ensures cells >= 1 ==> r < cells && (v < cells ==> r == v) && (v >= cells ==> r == cells - 1)
    ensures cells == 0 ==> r == TWO_32 - 1
  {
    if v >= cells then Trunc32(Wrap64(cells - 1)) else v
  }

  /** The cursor after `printChar(c)` from (x, y) on a `cols` x `rows` grid, and the cell the
      glyph goes to (none for '\n' and '\r'). */
  datatype Put = Put(x: u32, y: u32, cell: Option<(u32, u32)>)

  function PutChar(c: u8, x: u32, y: u32, cols: u64, rows: u64): Put
  {
    if c == NEWLINE then Put(0, Trunc32(y + 1), None)
    else if c == CARRIAGE_RETURN then Put(0, y, None)
    else
      var cell := WrapCell(x, y, cols, rows);
      Put(Trunc32(cell.0 + 1), cell.1, Some(cell))
  }

  /** The cell a drawn byte goes to from cursor (x, y): the start of the next line when x is
      past the end of its line, and the last line when below the grid (with no line at all,
      the `- 1` wraps to the largest row). */
  function WrapCell(x: u32, y: u32, cols: u64, rows: u64): (r: (u32, u32))
    ensures r.0 < cols || (cols == 0 && r.0 == 0)
    ensures r.1 < rows || (rows == 0 && r.1 == TWO_32 - 1)
  {
    var wrapped := x >= cols;
    var cx := if wrapped then 0 else x;
    var cy := if wrapped then Trunc32(y + 1) else y;
    (cx, if cy >= rows then Trunc32(Wrap64(rows - 1)) else cy)
  }

  /** renderer.cpp:45-74 in cursor terms: a newline goes to the start of the next line and a
      carriage return to the start of this one, neither drawing. Any other byte is drawn in a
      cell of the grid: the cursor's cell, or the start of the next line when the cursor is
      past the end of its line, but never below the last line (there is no scrolling); the
      cursor then moves one cell right. */
  lemma PutCharOnGrid(c: u8, x: u32, y: u32, cols: u64, rows: u64)
    requires 1 <= cols < TWO_32 && 1 <= rows < TWO_32 && y + 1 < TWO_32
    ensures var p := PutChar(c, x, y, cols, rows);
            (c == NEWLINE ==> p == Put(0, y + 1, None))
            && (c == CARRIAGE_RETURN ==> p == Put(0, y, None))
            && (c != NEWLINE && c != CARRIAGE_RETURN ==>
                  p.cell.Some?
                  && var (cx, cy) := p.cell.value;
                  cx < cols && cy < rows && p.x == cx + 1 && p.y == cy
                  && (x < cols ==> cx == x) && (x >= cols ==> cx == 0)
                  && (x < cols && y < rows ==> cy == y)
                  && (y + 1 >= rows ==> cy == (if x < cols && y < rows then y else rows - 1)))
  {
  }

  /** Printing plain bytes along a line that has room for them puts them in consecutive
      cells. */
  lemma {:induction false} PutCharsInLine(t: seq<u8>, x: u32, y: u32, cols: u64, rows: u64)
    requires 1 <= cols < TWO_32 && y < rows < TWO_32 && x + |t| <= cols
    requires forall i :: 0 <= i < |t| ==> t[i] != NEWLINE && t[i] != CARRIAGE_RETURN
    ensures PutChars(t, x, y, cols, rows) == (x + |t|, y)
    decreases |t|
  {
    if t != [] {
      assert PutChar(t[0], x, y, cols, rows) == Put(x + 1, y, Some((x, y)));
      PutCharsInLine(t[1..], x + 1, y, cols, rows);
    }
  }

  /** Where the cursor ends after printing t from (x, y). */
  function PutChars(t: seq<u8>, x: u32, y: u32, cols: u64, rows: u64): (u32, u32)
    decreases |t|
  {
    if t == [] then (x, y)
    else
      var p := PutChar(t[0], x, y, cols, rows);
      PutChars(t[1..], p.x, p.y, cols, rows)
  }

  /** The last colour `clear` was called with in outs, if any. */
  function LastClear(outs: seq<Output>): (r: Option<u32>)
    ensures r.None? <==> forall i :: 0 <= i < |outs| ==> !outs[i].Clear?
    decreases |outs|
  {
    if outs == [] then None
    else if outs[|outs| - 1].Clear? then Some(outs[|outs| - 1].color)
    else LastClear(outs[..|outs| - 1])
  }

  /** Applying the fields so far and then one more is applying them all. */
  lemma ApplyOneMore(done: seq<seq<u8>>, field: seq<u8>, pen: Pen, defaults: Pen)
    ensures var before := ApplySgr(Codes(done), pen, defaults);
            var code := FieldCode(field) as int;
            ApplySgr(Codes(done + [field]), pen, defaults)
              == (ApplyCode(code, before.0, defaults), before.1 + CodeOutput(code, before.0))
  {
    var before := ApplySgr(Codes(done), pen, defaults);
    var code := FieldCode(field) as int;
    assert Codes(done + [field]) == Codes(done) + [code];
    ApplySgrAppend(Codes(done), [code], pen, defaults);
    ApplySgrOne(code, before.0, defaults);
  }

  /** A glyph row height and cursor row that leave the glyph's rows within 32 bits: the row
      is on the grid, or (with no full line) the wrapped last line. */
  lemma GlyphRowsFit(cy: u32, h: nat, rows: u64, fbHeight: u64)
    requires 1 <= h < 256 && fbHeight <= TWO_32 && rows == fbHeight / h
    requires cy < rows || (rows == 0 && cy == TWO_32 - 1)
    ensures Trunc32(cy * h) + h <= TWO_32
    ensures cy < rows ==> Trunc32(cy * h) == cy * h && cy * h + h <= fbHeight
  {
    if cy < rows {
      assert cy * h + h == (cy + 1) * h;
      assert (cy + 1) * h <= rows * h;
      assert rows * h <= fbHeight;
    } else {
      assert cy * h == (h - 1) * TWO_32 + (TWO_32 - h);
    }
  }

  lemma GlyphColumnsFit(cx: u32, cols: u64, fbWidth: u64)
    requires fbWidth <= TWO_32 && cols == fbWidth / 8 && (cx < cols || cx == 0)
    ensures cx * 8 + 8 <= TWO_32
    ensures cx < cols ==> cx * 8 + 8 <= fbWidth
  {
  }

  lemma GlyphIndex(ch: nat, y: nat, h: nat, count: nat, size: nat)
    requires ch < count && y < h && count * h <= size
    ensures ch * h + y < size
  {
    assert ch * h + y < ch * h + h == (ch + 1) * h;
    assert (ch + 1) * h <= count * h;
  }

  class Renderer {
    var fbWidth: u64
    var fbHeight: u64
    var fbPitch: u64
    var fbAddress: u64
    var cursorX: u32
    var cursorY: u32
    var font: Font
    const pixels: array2<u32>
    ghost var log: seq<Output>

    ghost predicate Valid()
      reads this
    {
      fbWidth <= pixels.Length1 && fbHeight <= pixels.Length0 && fbWidth <= TWO_32 && fbHeight <= TWO_32
      && (fbAddress != 0 ==> fbWidth <= fbPitch / 4 && FontLoaded(font))
    }

    /** The fields only `init` sets are as they were. */
    twostate predicate SameSetup()
      reads this
    {
      fbWidth == old(fbWidth) && fbHeight == old(fbHeight) && fbPitch == old(fbPitch)
      && fbAddress == old(fbAddress) && font == old(font)
    }

    /** Outside the cells `outs`' calls paint, the pixels are as they were. */
    twostate predicate PixelsAfter(outs: seq<Output>)
      reads this, pixels
    {
      var k := LastClear(outs);
      if fbAddress == 0 || k.None? then
        cursorX == old(cursorX) && cursorY == old(cursorY)
        && forall r, col :: 0 <= r < pixels.Length0 && 0 <= col < pixels.Length1 ==>
             pixels[r, col] == old(pixels[r, col])
      else
        cursorX == 0 && cursorY == 0
        && forall r, col :: 0 <= r < pixels.Length0 && 0 <= col < pixels.Length1 ==>
             pixels[r, col] == if r < fbHeight && col < fbWidth then k.value else old(pixels[r, col])
    }

    /** `cols` and `rows`: the character grid. */
    function Columns(): u64
      reads this
      requires font.width != 0
    {
      fbWidth / font.width
    }

    function Rows(): u64
      reads this
      requires font.height != 0
    {
      fbHeight / font.height
    }

    /** Pixel (r, col) lies in the glyph cell at (px, py), clipped to the framebuffer. */
    predicate InCell(r: int, col: int, px: nat, py: nat)
      reads this
    {
      py <= r < py + font.height && r < fbHeight && px <= col < px + font.width && col < fbWidth
    }

    /** The colour glyph ch gives pixel (r, col) of its cell: the foreground where the glyph's
        row has the bit for that column set (bit 7 is the leftmost column). */
    function GlyphColour(r: int, col: int, px: nat, py: nat, ch: u8, fg: u32, bg: u32): u32
      reads this
      requires Valid() && fbAddress != 0 && ch < font.glyphCount && InCell(r, col, px, py)
    {
      GlyphIndex(ch, r - py, font.height, font.glyphCount, |font.glyphs|);
      if TestBit(font.glyphs[ch * font.height + (r - py)], 7 - (col - px)) then fg else bg
    }

    /** The glyph for ch is drawn at (px, py): the pixels of its clipped cell hold its colours,
        all others are as they were. A byte past the font's glyphs draws nothing. */
    twostate predicate GlyphDrawn(px: nat, py: nat, ch: u8, fg: u32, bg: u32)
      reads this, pixels
      requires Valid() && fbAddress != 0
    {
      forall r, col :: 0 <= r < pixels.Length0 && 0 <= col < pixels.Length1 ==>
        pixels[r, col] == if ch < font.glyphCount && InCell(r, col, px, py)
                          then GlyphColour(r, col, px, py, ch, fg, bg) else old(pixels[r, col])
    }

    /** The statics before `init`: no framebuffer, no font, the cursor at the origin. */
    constructor (pixels: array2<u32>)
      ensures Valid() && this.pixels == pixels && log == []
      ensures fbAddress == 0 && fbWidth == 0 && fbHeight == 0 && fbPitch == 0
      ensures cursorX == 0 && cursorY == 0 && font == NO_FONT
    {
      this.pixels := pixels;
      fbWidth, fbHeight, fbPitch, fbAddress := 0, 0, 0, 0;
      cursorX, cursorY := 0, 0;
      font := NO_FONT;
      log := [];
    }

    /** renderer.cpp:8-29. Without a framebuffer nothing changes. Otherwise the first
        framebuffer's geometry is taken and its address moved into the higher half; a font
        file with the wrong magic switches drawing off (the address becomes null) and leaves
        the font as it was. `framebuffers` is the boot response's list, None without a
        response; its first entry must describe memory inside `pixels`. */
    method Init(framebuffers: Option<seq<Framebuffer>>, hhdm: u64, fontFile: seq<u8>)
      requires Valid() && FontFileUsable(fontFile)
      requires framebuffers.Some? && |framebuffers.value| >= 1 ==>
                 var fb := framebuffers.value[0];
                 fb.width <= pixels.Length1 && fb.height <= pixels.Length0
                 && fb.width <= TWO_32 && fb.height <= TWO_32 && fb.width <= fb.pitch / 4
      modifies this
      ensures Valid() && log == old(log) && cursorX == old(cursorX) && cursorY == old(cursorY)
      ensures framebuffers.None? || |framebuffers.value| == 0 ==> SameSetup()
      ensures framebuffers.Some? && |framebuffers.value| >= 1 ==>
                var fb := framebuffers.value[0];
                fbWidth == fb.width && fbHeight == fb.height && fbPitch == fb.pitch
                && (LoadFont(fontFile).None? ==> fbAddress == 0 && font == old(font))
                && (LoadFont(fontFile).Some? ==>
                      fbAddress == Wrap64(hhdm + fb.address) && font == LoadFont(fontFile).value)
    {
      if framebuffers.None? || |framebuffers.value| < 1 {
        return;
      }
      var fb := framebuffers.value[0];
      fbAddress := Wrap64(hhdm + fb.address);
      fbWidth := fb.width;
      fbHeight := fb.height;
      fbPitch := fb.pitch;
      if fontFile[0] != PSF1_MAGIC0 || fontFile[1] != PSF1_MAGIC1 {
        fbAddress := 0;
        return;
      }
      font := Font(fontFile[PSF1_HEADER_SIZE..], GLYPH_WIDTH, fontFile[3],
                   if TestBit(fontFile[2], 0) then 512 else 256);
      LoadedFontUsable(fontFile);
    }

    /** renderer.cpp:31-35: each coordinate clamped to the grid. The source divides by the
        glyph size without checking that a font is loaded. */
    method SetCursor(x: u32, y: u32)
      requires font.width != 0 && font.height != 0
      modifies this`cursorX, this`cursorY
      ensures cursorX == Clamp(x, Columns()) && cursorY == Clamp(y, Rows())
    {
      var cols := fbWidth / font.width;
      var rows := fbHeight / font.height;
      cursorX := if x >= cols then Trunc32(Wrap64(cols - 1)) else x;
      cursorY := if y >= rows then Trunc32(Wrap64(rows - 1)) else y;
    }

    /** renderer.cpp:37-43: without a framebuffer nothing is drawn; otherwise every visible
        pixel takes `color` and the cursor returns to the origin. */
    method Clear(color: u32)
      requires Valid()
      modifies this, pixels
      ensures Valid() && SameSetup() && log == old(log) + [Output.Clear(color)]
      ensures PixelsAfter([Output.Clear(color)])
    {
      log := log + [Output.Clear(color)];
      if fbAddress == 0 {
        return;
      }
      var y: u64 := 0;
      while y < fbHeight
        modifies pixels
        invariant y <= fbHeight
        invariant forall r, col :: 0 <= r < pixels.Length0 && 0 <= col < pixels.Length1 ==>
          pixels[r, col] == if r < y && col < fbWidth then color else old(pixels[r, col])
      {
        FillRow(y, color);
        y := y + 1;
      }
      cursorX, cursorY := 0, 0;
    }

    /** The inner loop of renderer.cpp:41 for row y. */
    method FillRow(y: u64, color: u32)
      requires Valid() && y < fbHeight
      modifies pixels
      ensures forall r, col :: 0 <= r < pixels.Length0 && 0 <= col < pixels.Length1 ==>
        pixels[r, col] == if r == y && col < fbWidth then color else old(pixels[r, col])
    {
      var x: u64 := 0;
      while x < fbWidth
        invariant x <= fbWidth
        invariant forall r, col :: 0 <= r < pixels.Length0 && 0 <= col < pixels.Length1 ==>
          pixels[r, col] == if r == y && col < x then color else old(pixels[r, col])
      {
        pixels[y, x] := color;
        x := x + 1;
      }
    }

    /** renderer.cpp:125-134: the glyph for ch at pixel (px, py), clipped to the framebuffer;
        nothing for a byte past the font's glyphs. The callers keep the cell within 32-bit
        coordinates. */
    method DrawGlyph(px: u32, py: u32, ch: u8, fg: u32, bg: u32)
      requires Valid() && fbAddress != 0
      requires px + font.width <= TWO_32 && py + font.height <= TWO_32
      modifies pixels
      ensures GlyphDrawn(px, py, ch, fg, bg)
    {
      if ch >= font.glyphCount {
        return;
      }
      var base := ch * font.height;
      var y: u32 := 0;
      while y < font.height && py + y < fbHeight
        invariant y <= font.height && (y == 0 || py + y <= fbHeight)
        invariant forall r, col :: 0 <= r < pixels.Length0 && 0 <= col < pixels.Length1 ==>
          pixels[r, col] == if r < py + y && InCell(r, col, px, py)
                            then GlyphColour(r, col, px, py, ch, fg, bg) else old(pixels[r, col])
      {
        GlyphIndex(ch, y, font.height, font.glyphCount, |font.glyphs|);
        DrawRow(py + y, px, font.glyphs[base + y], fg, bg);
        y := y + 1;
      }
    }

    /** The inner loop of renderer.cpp:132-133: row `row` of a glyph cell. */
    method DrawRow(row: u64, px: u32, bits: u8, fg: u32, bg: u32)
      requires Valid() && fbAddress != 0 && row < fbHeight && px + font.width <= TWO_32
      modifies pixels
      ensures forall r, col :: 0 <= r < pixels.Length0 && 0 <= col < pixels.Length1 ==>
        pixels[r, col] == if r == row && px <= col < px + font.width && col < fbWidth
                          then (if TestBit(bits, 7 - (col - px)) then fg else bg)
                          else old(pixels[r, col])
    {
      var x: u32 := 0;
      while x < font.width && px + x < fbWidth
        invariant x <= font.width && (x == 0 || px + x <= fbWidth)
        invariant forall r, col :: 0 <= r < pixels.Length0 && 0 <= col < pixels.Length1 ==>
          pixels[r, col] == if r == row && px <= col < px + x
                            then (if TestBit(bits, 7 - (col - px)) then fg else bg)
                            else old(pixels[r, col])
      {
        pixels[row, px + x] := if TestBit(bits, 7 - x) then fg else bg;
        x := x + 1;
      }
    }

    /** renderer.cpp:45-74: with a framebuffer, the cursor moves as `PutChar` says and the
        glyph is drawn at the cell it names (an 8-pixel column and a glyph-height row). */
    method PrintChar(ch: u8, fg: u32, bg: u32)
      requires Valid()
      modifies this, pixels
      ensures Valid() && SameSetup() && log == old(log) + [Glyph(ch, fg, bg)]
      ensures fbAddress == 0 ==> unchanged(pixels) && cursorX == old(cursorX) && cursorY == old(cursorY)
      ensures fbAddress != 0 ==>
        var p := PutChar(ch, old(cursorX), old(cursorY), Columns(), Rows());
        cursorX == p.x && cursorY == p.y
        && (p.cell.None? ==> unchanged(pixels))
        && (p.cell.Some? ==> GlyphDrawn(p.cell.value.0 * font.width, Trunc32(p.cell.value.1 * font.height), ch, fg, bg))
    {
      log := log + [Glyph(ch, fg, bg)];
      if fbAddress == 0 {
        return;
      }
      if ch == NEWLINE {
        cursorX := 0;
        cursorY := Trunc32(cursorY + 1);
        return;
      }
      if ch == CARRIAGE_RETURN {
        cursorX := 0;
        return;
      }
      WrapCursor();
      DrawAtCursor(ch, fg, bg);
    }

    /** renderer.cpp:61-70: the cursor moves to the cell the next glyph goes to. */
    method WrapCursor()
      requires Valid() && fbAddress != 0
      modifies this`cursorX, this`cursorY
      ensures (cursorX, cursorY) == WrapCell(old(cursorX), old(cursorY), Columns(), Rows())
    {
      var cols := fbWidth / font.width;
      var rows := fbHeight / font.height;
      if cursorX >= cols {
        cursorX := 0;
        cursorY := Trunc32(cursorY + 1);
      }
      if cursorY >= rows {
        cursorY := Trunc32(Wrap64(rows - 1));
      }
    }

    /** renderer.cpp:72-73: the glyph drawn at the cursor's cell, and the cursor one cell
        right. */
    method DrawAtCursor(ch: u8, fg: u32, bg: u32)
      requires Valid() && fbAddress != 0
      requires cursorX < Columns() || cursorX == 0
      requires cursorY < Rows() || (Rows() == 0 && cursorY == TWO_32 - 1)
      modifies this`cursorX, pixels
      ensures cursorX == old(cursorX) + 1
      ensures GlyphDrawn(old(cursorX) * font.width, Trunc32(cursorY * font.height), ch, fg, bg)
    {
      GlyphColumnsFit(cursorX, fbWidth / font.width, fbWidth);
      GlyphRowsFit(cursorY, font.height, fbHeight / font.height, fbHeight);
      DrawGlyph(cursorX * font.width, Trunc32(cursorY * font.height), ch, fg, bg);
      cursorX := cursorX + 1;
    }

    /** renderer.cpp:76-82: the glyph at cell (x, y) when there is a framebuffer, the byte is
        not '\n' or '\r' and the cell is on the grid; nothing otherwise. The cursor never
        moves. */
    method PrintCharAt(x: u32, y: u32, ch: u8, fg: u32, bg: u32)
      requires Valid()
      modifies pixels
      ensures (fbAddress == 0 || ch == NEWLINE || ch == CARRIAGE_RETURN
               || x >= Columns() || y >= Rows()) ==> unchanged(pixels)
      ensures fbAddress != 0 && ch != NEWLINE && ch != CARRIAGE_RETURN && x < Columns() && y < Rows() ==>
              GlyphDrawn(x * font.width, y * font.height, ch, fg, bg)
    {
      if fbAddress == 0 || ch == NEWLINE || ch == CARRIAGE_RETURN {
        return;
      }
      if x >= fbWidth / font.width || y >= fbHeight / font.height {
        return;
      }
      GlyphColumnsFit(x, fbWidth / font.width, fbWidth);
      GlyphRowsFit(y, font.height, fbHeight / font.height, fbHeight);
      DrawGlyph(x * font.width, y * font.height, ch, fg, bg);
    }

    /** renderer.cpp:136-260 on the C string `sq`: the colours (passed by reference in the
        source) become what `Escape` makes of the string, and the `clear` calls it makes are
        the ones `Escape` lists. */
    method EscapeAnsi(sq: array<u8>, fg: u32, bg: u32, fgDefault: u32, bgDefault: u32)
      returns (fgOut: u32, bgOut: u32)
      requires Valid() && Terminated(sq[..], 0)
      modifies this, pixels
      ensures Valid() && SameSetup()
      ensures var r := Escape(sq[..StrEnd(sq[..], 0)], Pen(fg, bg), Pen(fgDefault, bgDefault));
              Pen(fgOut, bgOut) == r.0 && log == old(log) + r.1
    {
      ghost var content := sq[..StrEnd(sq[..], 0)];
      fgOut, bgOut := fg, bg;
      if sq[0] != LEFT_BRACKET {
        return;
      }
      var buf, len := CopyParams(sq);
      ghost var params := buf[..len];
      assert params == Params(content);
      fgOut, bgOut := ApplyFields(buf, len, fg, bg, fgDefault, bgDefault);
    }

    /** renderer.cpp:141-144: the bytes after the '[' copied into a fresh 16-byte buffer, at
        most 15 of them, and a NUL after them. */
    static method CopyParams(sq: array<u8>) returns (buf: array<u8>, len: nat)
      requires Terminated(sq[..], 0) && sq[0] == LEFT_BRACKET
      ensures fresh(buf) && buf.Length == ESCAPE_SIZE && len < ESCAPE_SIZE && buf[len] == NUL
      ensures buf[..len] == Params(sq[..StrEnd(sq[..], 0)]) && NUL !in buf[..len]
    {
      ghost var e := StrEnd(sq[..], 0);
      buf := new u8[ESCAPE_SIZE];
      len := 0;
      var i := 1;
      while sq[i] != NUL && len < ESCAPE_MAX
        invariant 1 <= i <= e && len == i - 1 && len <= ESCAPE_MAX
        invariant buf[..len] == sq[1..i]
        decreases e - i
      {
        buf[len] := sq[i];
        len := len + 1;
        i := i + 1;
      }
      buf[len] := NUL;
      assert buf[..len] == sq[1..i];
      assert sq[..e][1..i] == sq[1..i];
    }

    /** renderer.cpp:146-259: the `strtok` loop over the copied parameters, each token's
        `atoi` value applied in turn (the switch is `ApplyCode`, and parameter 2 also clears
        the screen in the current background). */
    method ApplyFields(buf: array<u8>, len: nat, fg: u32, bg: u32, fgDefault: u32, bgDefault: u32)
      returns (fgOut: u32, bgOut: u32)
      requires Valid() && len < buf.Length && buf[len] == NUL && NUL !in buf[..len]
      modifies this, pixels, buf
      ensures Valid() && SameSetup()
      ensures var r := ApplySgr(Codes(Fields(old(buf[..len]))), Pen(fg, bg), Pen(fgDefault, bgDefault));
              Pen(fgOut, bgOut) == r.0 && log == old(log) + r.1
    {
      ghost var params := buf[..len];
      ghost var defaults := Pen(fgDefault, bgDefault);
      ghost var done: seq<seq<u8>> := [];
      fgOut, bgOut := fg, bg;
      var token, save, field := FirstToken(buf, len);
      while token.Some?
        invariant Valid() && SameSetup()
        invariant Scanning(buf[..], params, done, token, save, field)
        invariant var r := ApplySgr(Codes(done), Pen(fg, bg), defaults);
                  Pen(fgOut, bgOut) == r.0 && log == old(log) + r.1
        decreases if token.Some? then len + 1 - save.value else 0
      {
        ghost var before := ApplySgr(Codes(done), Pen(fg, bg), defaults);
        ApplyOneMore(done, field, Pen(fg, bg), defaults);
        ghost var f := field;
        fgOut, bgOut, token, save, field :=
          ApplyNext(buf, params, done, token.value, save.value, field, fgOut, bgOut, fgDefault, bgDefault,
                    old(log), before.1);
        done := done + [f];
      }
    }

    /** renderer.cpp:146: `strtok(buf, ";")` on the copied parameters. */
    static method FirstToken(buf: array<u8>, len: nat) returns (token: Option<nat>, save: Option<nat>, ghost field: seq<u8>)
      requires len < buf.Length && buf[len] == NUL && NUL !in buf[..len]
      modifies buf
      ensures Scanning(buf[..], old(buf[..len]), [], token, save, field)
    {
      ghost var params := buf[..len];
      assert Holds(buf[..], params, 0) by {
        assert buf[..][0..len] == params;
      }
      assert params[0..] == params;
      token, save, field := NextToken(buf, params, Some(0), None);
    }

    /** One turn of renderer.cpp:147-259: the token's parameter applied, and the next token
        taken from where `strtok` stopped. */
    method ApplyNext(buf: array<u8>, ghost params: seq<u8>, ghost done: seq<seq<u8>>, q: nat, p: nat,
                     ghost field: seq<u8>, fg: u32, bg: u32, fgDefault: u32, bgDefault: u32,
                     ghost start: seq<Output>, ghost outs: seq<Output>)
      returns (fgOut: u32, bgOut: u32, token: Option<nat>, save: Option<nat>, ghost next: seq<u8>)
      requires Valid() && Scanning(buf[..], params, done, Some(q), Some(p), field)
      requires log == start + outs
      modifies this, pixels, buf
      ensures Valid() && SameSetup()
      ensures Scanning(buf[..], params, done + [field], token, save, next)
      ensures token.Some? ==> p < save.value
      ensures var code := FieldCode(field) as int;
              Pen(fgOut, bgOut) == ApplyCode(code, Pen(fg, bg), Pen(fgDefault, bgDefault))
              && log == start + (outs + CodeOutput(code, Pen(fg, bg)))
    {
      fgOut, bgOut := ApplyToken(buf, q, field, fg, bg, fgDefault, bgDefault);
      AppendAssoc(start, outs, CodeOutput(FieldCode(field) as int, Pen(fg, bg)));
      ghost var s := buf[..];
      token, save, next := NextToken(buf, params, None, Some(p));
      ScanningStep(s, buf[..], params, done, p, field, token, save, next);
    }

    /** The body of renderer.cpp:147-259 for the NUL-terminated field at q: its `atoi` value
        applied to the colours. */
    method ApplyToken(buf: array<u8>, q: nat, ghost field: seq<u8>, fg: u32, bg: u32,
                      fgDefault: u32, bgDefault: u32)
      returns (fgOut: u32, bgOut: u32)
      requires Valid() && TokenHeld(buf[..], q, field)
      modifies this, pixels
      ensures Valid() && SameSetup()
      ensures var code := FieldCode(field) as int;
              Pen(fgOut, bgOut) == ApplyCode(code, Pen(fg, bg), Pen(fgDefault, bgDefault))
              && log == old(log) + CodeOutput(code, Pen(fg, bg)) && PixelsAfter(CodeOutput(code, Pen(fg, bg)))
    {
      assert buf[q..][..|field| + 1] == buf[..][q..q + |field| + 1] == (field + [NUL])[..|field| + 1];
      AtoiReadsToNul(buf[q..], field + [NUL], |field|);
      var code := Atoi(buf[q..]);
      fgOut, bgOut := ApplyParameter(code as int, fg, bg, fgDefault, bgDefault);
    }

    /** One case of the switch of renderer.cpp:149-257: parameter 2 clears the screen in
        the current background, the others set colours as `ApplyCode` says. */
    method ApplyParameter(code: int, fg: u32, bg: u32, fgDefault: u32, bgDefault: u32)
      returns (fgOut: u32, bgOut: u32)
      requires Valid()
      modifies this, pixels
      ensures Valid() && SameSetup()
      ensures Pen(fgOut, bgOut) == ApplyCode(code, Pen(fg, bg), Pen(fgDefault, bgDefault))
      ensures log == old(log) + CodeOutput(code, Pen(fg, bg)) && PixelsAfter(CodeOutput(code, Pen(fg, bg)))
    {
      if code == 2 {
        Clear(bg);
      }
      var pen := ApplyCode(code, Pen(fg, bg), Pen(fgDefault, bgDefault));
      fgOut, bgOut := pen.fg, pen.bg;
    }

    /** One `strtok(…, ";")` call on the parameters, from position `start` of `buf` (the
        first call passes the buffer, later ones continue from the saved position): the next
        field and the position after it, or none when only ';' bytes are left. The field is
        NUL-terminated in place. */
    static method NextToken(buf: array<u8>, ghost params: seq<u8>, str: Option<nat>, save: Option<nat>)
      returns (token: Option<nat>, newSave: Option<nat>, ghost field: seq<u8>)
      requires var start := if str.Some? then str else save;
               start.Some? && Holds(buf[..], params, start.value)
      modifies buf
      ensures var p := (if str.Some? then str else save).value;
              newSave.Some? && Holds(buf[..], params, newSave.value)
              && (token.None? ==> Fields(params[p..]) == [])
              && (token.Some? ==>
                    p < newSave.value
                    && Fields(params[p..]) == [field] + Fields(params[newSave.value..])
                    && TokenHeld(buf[..], token.value, field))
    {
      ghost var p := (if str.Some? then str else save).value;
      ghost var s := buf[..];
      SkipToField(s, params, p);
      token, newSave := Strtok(buf, str, DELIMS, save);
      ghost var q := SkipDelims(s, DELIMS, p);
      ghost var e := if s[q] == NUL then q else TokenEnd(s, DELIMS, q);
      field := StrtokField(s, buf[..], params, p, q, e, token, newSave);
    }

    /** renderer.cpp:84-116 on the C string `str` (up to its NUL): the loop of `Run` with the
        source's end-of-sequence test. Plain bytes are printed in the current colours; the
        bytes after an ESC are collected, at most 15, and handed to `escapeAnsi` once the
        sequence ends. */
    method Print(str: seq<u8>, fgDefault: u32, bgDefault: u32)
      requires Valid() && Terminated(str, 0)
      modifies this, pixels
      ensures Valid() && SameSetup()
      ensures log == old(log) + Run(Start(Pen(fgDefault, bgDefault)), str[..StrEnd(str, 0)],
                                    Pen(fgDefault, bgDefault), false).out
    {
      ghost var defaults := Pen(fgDefault, bgDefault);
      ghost var n := StrEnd(str, 0);
      var fg, bg := fgDefault, bgDefault;
      var inEscape := false;
      var escBuf := new u8[ESCAPE_SIZE](_ => NUL);
      var escLen: nat := 0;
      var i: nat := 0;
      while str[i] != NUL
        invariant i <= n && Valid() && SameSetup() && escBuf.Length == ESCAPE_SIZE
        invariant var st := Run(Start(defaults), str[..i], defaults, false);
                  Sane(st) && inEscape == st.inEscape && escLen == |st.esc| && escBuf[..escLen] == st.esc
                  && Pen(fg, bg) == st.pen && log == old(log) + st.out
        invariant NUL !in escBuf[..escLen]
        decreases n - i
      {
        ghost var st := Run(Start(defaults), str[..i], defaults, false);
        var c := str[i];
        assert str[..i + 1] == str[..i] + [c];
        RunSnoc(Start(defaults), str[..i], c, defaults, false);
        fg, bg, inEscape, escLen := PrintByte(escBuf, escLen, inEscape, c, fg, bg, fgDefault, bgDefault,
                                              old(log), st);
        i := i + 1;
      }
      assert str[..i] == str[..n];
    }

    /** One turn of renderer.cpp:91-115 on byte c, from the loop state st. */
    method PrintByte(escBuf: array<u8>, escLen: nat, inEscape: bool, c: u8, fg: u32, bg: u32,
                     fgDefault: u32, bgDefault: u32, ghost start: seq<Output>, ghost st: ScanState)
      returns (fgOut: u32, bgOut: u32, inEscapeOut: bool, newLen: nat)
      requires Valid() && escBuf.Length == ESCAPE_SIZE && c != NUL && Sane(st)
      requires inEscape == st.inEscape && escLen == |st.esc| && escBuf[..escLen] == st.esc
      requires Pen(fg, bg) == st.pen && log == start + st.out && NUL !in escBuf[..escLen]
      modifies this, pixels, escBuf
      ensures Valid() && SameSetup()
      ensures var next := Step(st, c, Pen(fgDefault, bgDefault), false);
              inEscapeOut == next.inEscape && newLen == |next.esc| && escBuf[..newLen] == next.esc
              && Pen(fgOut, bgOut) == next.pen && log == start + next.out
      ensures NUL !in escBuf[..newLen]
    {
      fgOut, bgOut, inEscapeOut, newLen := fg, bg, inEscape, escLen;
      if inEscape {
        fgOut, bgOut, newLen := EscapeByte(escBuf, escLen, c, fg, bg, fgDefault, bgDefault);
        inEscapeOut := newLen != 0;
        ghost var next := Step(ScanState(true, st.esc, st.pen, []), c, Pen(fgDefault, bgDefault), false);
        StepInEscape(st, c, Pen(fgDefault, bgDefault));
        AppendAssoc(start, st.out, next.out);
      } else if c == ESC {
        inEscapeOut := true;
        newLen := 0;
      } else {
        PrintChar(c, fg, bg);
        AppendAssoc(start, st.out, [Glyph(c, fg, bg)]);
      }
    }

    /** renderer.cpp:96-103: byte c inside an escape sequence is collected while there is
        room; when it ends the sequence (a final byte, or 15 bytes held) the bytes are handed
        to `escapeAnsi` and none are held any more. */
    method EscapeByte(escBuf: array<u8>, escLen: nat, c: u8, fg: u32, bg: u32, fgDefault: u32, bgDefault: u32)
      returns (fgOut: u32, bgOut: u32, newLen: nat)
      requires Valid() && escBuf.Length == ESCAPE_SIZE && escLen < ESCAPE_MAX && c != NUL
      requires NUL !in escBuf[..escLen]
      modifies this, pixels, escBuf
      ensures Valid() && SameSetup()
      ensures var st := Step(ScanState(true, old(escBuf[..escLen]), Pen(fg, bg), []), c,
                             Pen(fgDefault, bgDefault), false);
              newLen == |st.esc| && escBuf[..newLen] == st.esc && (st.inEscape <==> newLen != 0)
              && Pen(fgOut, bgOut) == st.pen && log == old(log) + st.out
      ensures NUL !in escBuf[..newLen]
    {
      ghost var esc := escBuf[..escLen] + [c];
      escBuf[escLen] := c;
      newLen := escLen + 1;
      assert escBuf[..newLen] == esc;
      fgOut, bgOut := fg, bg;
      if !(IsFinalByte(c) || newLen >= ESCAPE_MAX) {
        return;
      }
      escBuf[newLen] := NUL;
      assert escBuf[..][..newLen] == esc;
      assert StrEnd(escBuf[..], 0) == newLen;
      fgOut, bgOut := EscapeAnsi(escBuf, fg, bg, fgDefault, bgDefault);
      newLen := 0;
    }

    /** renderer.cpp:118-123: `setCursor` then `print`. */
    method PrintAt(x: u32, y: u32, str: seq<u8>, fgDefault: u32, bgDefault: u32)
      requires Valid() && Terminated(str, 0) && font.width != 0 && font.height != 0
      modifies this, pixels
      ensures Valid() && SameSetup()
      ensures log == old(log) + Run(Start(Pen(fgDefault, bgDefault)), str[..StrEnd(str, 0)],
                                    Pen(fgDefault, bgDefault), false).out
    {
      SetCursor(x, y);
      Print(str, fgDefault, bgDefault);
    }
  }

  /** Inside a sequence, a step appends to the output what the same step from an empty
      output produces. */
  lemma StepInEscape(st: ScanState, c: u8, defaults: Pen)
    requires st.inEscape
    ensures var next := Step(ScanState(true, st.esc, st.pen, []), c, defaults, false);
            Step(st, c, defaults, false) == ScanState(next.inEscape, next.esc, next.pen, st.out + next.out)
  {
  }

  lemma AppendAssoc(a: seq<Output>, b: seq<Output>, c: seq<Output>)
    ensures a + b + c == a + (b + c)
  {
  }

  /** The NUL-terminated token `field` starts at q in s. */
  ghost predicate TokenHeld(s: seq<u8>, q: nat, field: seq<u8>)
  {
    q + |field| < |s| && s[q + |field|] == NUL && s[q..q + |field|] == field
  }

  /** The state of `escapeAnsi`'s token loop over `params`: `done` are the fields applied,
      `field` (when there is a token) the one at hand, and the rest lies after `save`. */
  ghost predicate Scanning(s: seq<u8>, params: seq<u8>, done: seq<seq<u8>>, token: Option<nat>,
                           save: Option<nat>, field: seq<u8>)
  {
    save.Some? && Holds(s, params, save.value)
    && (token.None? ==> Fields(params) == done)
    && (token.Some? ==>
          Fields(params) == done + [field] + Fields(params[save.value..]) && TokenHeld(s, token.value, field))
  }

  /** A `strtok` call from the saved position, taking s to t, moves the loop on by one field. */
  lemma ScanningStep(s: seq<u8>, t: seq<u8>, params: seq<u8>, done: seq<seq<u8>>, p: nat, f: seq<u8>,
                     token: Option<nat>, save: Option<nat>, field: seq<u8>)
    requires p <= |params| && Fields(params) == done + [f] + Fields(params[p..])
    requires save.Some? && Holds(t, params, save.value)
    requires token.None? ==> Fields(params[p..]) == []
    requires token.Some? ==>
               p < save.value && Fields(params[p..]) == [field] + Fields(params[save.value..])
               && TokenHeld(t, token.value, field)
    ensures Scanning(t, params, done + [f], token, save, field)
  {
    if token.Some? {
      assert done + [f] + ([field] + Fields(params[save.value..]))
          == (done + [f]) + [field] + Fields(params[save.value..]);
    } else {
      assert done + [f] + [] == done + [f];
    }
  }

  /** What one `strtok` call from position p, taking `s` to `t`, means for the fields of
      the parameters held there: q is where the delimiters end, e where the token ends. */
  lemma StrtokField(s: seq<u8>, t: seq<u8>, params: seq<u8>, p: nat, q: nat, e: nat,
                    token: Option<nat>, newSave: Option<nat>)
    returns (field: seq<u8>)
    requires Holds(s, params, p) && Terminated(s, p) && Terminated(DELIMS, 0)
    requires q == SkipDelims(s, DELIMS, p)
    requires s[q] == NUL ==> token == None && newSave == Some(q) && t == s
    requires s[q] != NUL ==> Terminated(s, q) && e == TokenEnd(s, DELIMS, q)
    requires s[q] != NUL ==>
               token == Some(q) && q < e < |s|
               && (s[e] == NUL ==> newSave == Some(e) && t == s)
               && (s[e] != NUL ==> newSave == Some(e + 1) && t == s[e := NUL])
    ensures newSave.Some? && Holds(t, params, newSave.value)
    ensures token.None? ==> Fields(params[p..]) == []
    ensures token.Some? ==>
              p < newSave.value && Fields(params[p..]) == [field] + Fields(params[newSave.value..])
              && TokenHeld(t, token.value, field)
  {
    var len := |params|;
    SkipToField(s, params, p);
    if s[q] == NUL {
      field := [];
      assert params[len..] == [];
      return;
    }
    field := StrtokSplit(s, t, params, q, e, newSave);
  }

  /** The token case of `StrtokField`: the token from q to e is the next field, and the
      save pointer lands at the start of the one after it. */
  lemma StrtokSplit(s: seq<u8>, t: seq<u8>, params: seq<u8>, q: nat, e: nat, newSave: Option<nat>)
    returns (field: seq<u8>)
    requires Holds(s, params, q) && q < |params| && params[q] != SEMICOLON
    requires Terminated(s, q) && Terminated(DELIMS, 0) && e == TokenEnd(s, DELIMS, q) && e < |s|
    requires s[e] == NUL ==> newSave == Some(e) && t == s
    requires s[e] != NUL ==> newSave == Some(e + 1) && t == s[e := NUL]
    ensures newSave.Some? && Holds(t, params, newSave.value) && q < newSave.value
    ensures Fields(params[q..]) == [field] + Fields(params[newSave.value..]) && TokenHeld(t, q, field)
  {
    var len := |params|;
    TokenToFieldEnd(s, params, q);
    TokenCut(s, params, q, e);
    field := params[q..e];
    assert |field| == e - q && q + |field| == e;
    if e < len {
      assert newSave == Some(e + 1) && t == s[e := NUL];
      assert t[e] == NUL && t[q..e] == field;
    } else {
      assert newSave == Some(e) && t == s && params[e..] == [];
      assert t[e] == NUL && t[q..e] == field;
    }
  }
}
