/** The framebuffer console: the glyph rasteriser writes a scaled 5x12 cell through a moving pointer, and
    the character output moves the cursor. */
module FrameBuffer {
  import opened Arithmetic
  import opened Bytes

  const FONT_WIDTH: nat := 5
  const FONT_HEIGHT: nat := 12
  const HALF: nat := 6

  /** `c` shifted right by `k` bytes. */
  function ShiftBytes(c: nat, k: nat): nat {
    if k == 0 then c else ShiftBytes(c, k - 1) / 256
  }

  /** Byte `k` of a colour. */
  function ColorByte(c: nat, k: nat): byte {
    (ShiftBytes(c, k) % 256) as byte
  }

  function ShiftBits(d: nat, k: nat): nat {
    if k == 0 then d else ShiftBits(d, k - 1) / 2
  }

  /** Bit `k` of a glyph word. */
  predicate Bit(d: nat, k: nat) {
    ShiftBits(d, k) % 2 == 1
  }

  lemma {:induction false} ShiftBitsAdds(d: nat, a: nat, b: nat)
    ensures ShiftBits(ShiftBits(d, a), b) == ShiftBits(d, a + b)
  {
    if b > 0 {
      ShiftBitsAdds(d, a, b - 1);
    }
  }

  /** The screen: pixels of `bpp` bytes, `width` to a row. */
  datatype Screen = Screen(width: nat, height: nat, bpp: nat, scale: nat) {
    predicate Valid() {
      bpp > 0 && scale > 0 && FONT_WIDTH * scale <= width
    }

    /** Bytes in one row of pixels. */
    function Pitch(): nat {
      Times(width, bpp)
    }

    function Size(): nat {
      Times(height, Pitch())
    }

    /** Character columns, and the line count from FbConReset. */
    function Columns(): nat
      requires Valid()
    {
      width / (FONT_WIDTH + 1) / scale
    }

    function MaxY(): nat {
      if height == 0 then 0 else (height - 1) / FONT_HEIGHT
    }

    /** Large enough for two lines of text below each other. */
    predicate Usable() {
      Valid() && 2 * scale < MaxY()
    }

    /** Bytes in one row of a cell. */
    function RowBytes(): nat {
      Times(FONT_WIDTH * scale, bpp)
    }
  }

  /** The column, in font pixels, of byte `o` of a row. */
  function FontColumn(g: Screen, o: nat): nat
    requires g.Valid()
  {
    Quot(Quot(o, g.bpp), g.scale)
  }

  /** Byte `k` of pixel column `x` * scale + `j`. */
  lemma ColumnOf(g: Screen, x: nat, j: nat, k: nat)
    requires g.Valid() && j < g.scale && k < g.bpp
    ensures var o := Times(Times(x, g.scale) + j, g.bpp) + k;
            Rem(o, g.bpp) == k && FontColumn(g, o) == x
  {
    QuotRemOf(Times(x, g.scale) + j, g.bpp, k);
    QuotRemOf(x, g.scale, j);
  }

  lemma PixelInRow(g: Screen, x: nat, j: nat)
    requires g.Valid() && x < FONT_WIDTH && j < g.scale
    ensures Times(Times(x, g.scale) + j, g.bpp) + g.bpp == Times(Times(x, g.scale) + j + 1, g.bpp) <= g.RowBytes()
  {
    TimesGrows(x + 1, FONT_WIDTH, g.scale);
    TimesIs(FONT_WIDTH, g.scale);
    TimesGrows(Times(x, g.scale) + j + 1, FONT_WIDTH * g.scale, g.bpp);
  }

  /** What is painted: a background, or the set bits of a glyph word. */
  datatype Paint = Background(color: nat) | Foreground(color: nat, data: nat)

  /** The byte that a row with this paint has at `o`, if the paint covers it. */
  function PaintedByte(g: Screen, p: Paint, o: nat, before: byte): byte
    requires g.Valid()
  {
    if p.Background? || Bit(p.data, FontColumn(g, o)) then ColorByte(p.color, Rem(o, g.bpp)) else before
  }

  /** A glyph word shifted right, a background as it is. */
  function ShiftedPaint(p: Paint, n: nat): Paint {
    if p.Background? then p else p.(data := ShiftBits(p.data, n))
  }

  /** The paint of font row `y`: five bits a row. */
  function RowPaint(p: Paint, y: nat): Paint {
    ShiftedPaint(p, FONT_WIDTH * y)
  }

  lemma NextRowPaint(p: Paint, y: nat)
    ensures ShiftedPaint(RowPaint(p, y), FONT_WIDTH) == RowPaint(p, y + 1)
  {
    if p.Foreground? {
      ShiftBitsAdds(p.data, FONT_WIDTH * y, FONT_WIDTH);
    }
  }

  /** Everything from `at` up to `end` is as `target` says and everything else as before. */
  ghost predicate RowPainted(g: Screen, p: Paint, before: seq<byte>, after: seq<byte>, at: nat, end: nat)
    requires g.Valid()
  {
    && |after| == |before|
    && forall q: nat | q < |before| :: after[q] ==
         if at <= q < end then PaintedByte(g, p, q - at, before[q]) else before[q]
  }

  const BLACK: nat := 0xff00_0000

  /** The screen and the cursor. */
  datatype View = View(pixels: seq<byte>, x: nat, y: nat)

  function BlackByte(g: Screen, q: nat): byte
    requires g.Valid()
  {
    ColorByte(BLACK, Rem(q, g.bpp))
  }

  function Cleared(g: Screen, size: nat): (s: seq<byte>)
    requires g.Valid()
    ensures |s| == size && forall q: nat | q < size :: s[q] == BlackByte(g, q)
  {
    seq(size, (q: nat) => BlackByte(g, q))
  }

  function Drawn(g: Screen, before: seq<byte>, at: nat, glyph: Glyph, colors: Colors): (s: seq<byte>)
    requires g.Valid()
    ensures |s| == |before|
    ensures forall q: nat | q < |before| :: s[q] == GlyphByte(g, at, glyph, colors, q, before[q])
  {
    seq(|before|, (q: nat) requires q < |before| => GlyphByte(g, at, glyph, colors, q, before[q]))
  }

  /** Where FbConPutCharWithFactor puts a cell: lines are twelve pixel rows high, columns six scaled
      pixels wide. */
  function CellAddress(g: Screen, x: nat, y: nat): nat {
    Times(FONT_HEIGHT * y, g.Pitch()) + Times((FONT_WIDTH + 1) * Times(x, g.scale), g.bpp)
  }

  /** The cursor positions that output can reach. */
  predicate CursorOk(g: Screen, x: nat, y: nat)
    requires g.Valid()
  {
    (x == 0 || x < g.Columns()) && (y == 0 || y + g.scale < g.MaxY())
  }

  /** What one character does: control characters, a skipped leading space, or a glyph; then, at the end
      of a line, a new line, and at the end of the screen a cleared screen on which the same character is
      put again. */
  function Put(g: Screen, v: View, c: nat, title: bool, font: seq<Glyph>, colors: Colors): (r: View)
    requires g.Usable() && CursorOk(g, v.x, v.y) && |font| == 96
    ensures CursorOk(g, r.x, r.y) && |r.pixels| == |v.pixels|
    decreases v.y, 1
  {
    if c > 127 || (c < 32 && c != 10 && c != 13) then v
    else if c == 13 then v.(x := 0)
    else if c == 10 then NewLine(g, v, v, c, title, font, colors)
    else if v.x == 0 && c == 32 && !title then v
    else
      var drawn := View(Drawn(g, v.pixels, CellAddress(g, v.x, v.y), font[c - 32], colors), v.x + 1, v.y);
      if drawn.x < g.Columns() then drawn else NewLine(g, v, drawn, c, title, font, colors)
  }

  function NewLine(g: Screen, start: View, v: View, c: nat, title: bool, font: seq<Glyph>, colors: Colors): (r: View)
    requires g.Usable() && CursorOk(g, start.x, start.y) && |font| == 96 && v.y == start.y
    ensures CursorOk(g, r.x, r.y) && |r.pixels| == |v.pixels|
    decreases v.y, 0
  {
    if v.y + g.scale < g.MaxY() - g.scale then View(v.pixels, 0, v.y + g.scale)
    else Put(g, View(Cleared(g, |v.pixels|), 0, 0), c, title, font, colors)
  }

  /** Every reachable cell lies within the frame buffer. */
  lemma CellOnScreen(g: Screen, x: nat, y: nat)
    requires g.Usable() && CursorOk(g, x, y)
    ensures CellFits(g, CellAddress(g, x, y), FONT_HEIGHT * g.scale, g.Size())
  {
    var columns, rows := (FONT_WIDTH + 1) * Times(x, g.scale), FONT_HEIGHT * y;
    ColumnsFit(g, x);
    TimesAdds(columns, FONT_WIDTH * g.scale, g.bpp);
    TimesGrows(columns + FONT_WIDTH * g.scale, g.width, g.bpp);
    TimesAdds(rows, FONT_HEIGHT * g.scale - 1, g.Pitch());
    TimesGrows(rows + FONT_HEIGHT * g.scale, g.height, g.Pitch());
  }

  lemma ColumnsFit(g: Screen, x: nat)
    requires g.Valid() && (x == 0 || x < g.Columns())
    ensures (FONT_WIDTH + 1) * Times(x, g.scale) + FONT_WIDTH * g.scale <= g.width
  {
    if x > 0 {
      var m := g.width / (FONT_WIDTH + 1);
      QuotRemAre(m, g.scale);
      TimesQuotRem(m, g.scale);
      TimesGrows(x + 1, g.Columns(), g.scale);
    }
  }

  lemma AllPixels(g: Screen)
    ensures Times(Times(g.width, g.height), g.bpp) == g.Size()
  {
    TimesIs(g.width, g.height);
    TimesIs(g.width * g.height, g.bpp);
    TimesIs(g.width, g.bpp);
    TimesIs(g.height, g.width * g.bpp);
    assert g.width * g.height * g.bpp == g.height * (g.width * g.bpp);
  }

  lemma PixelOnScreen(g: Screen, i: nat, j: nat)
    requires i < g.width && j < g.height
    ensures Times(Times(i, g.height) + j + 1, g.bpp) <= g.Size()
  {
    AllPixels(g);
    TimesGrows(i + 1, g.width, g.height);
    TimesGrows(Times(i, g.height) + j + 1, Times(g.width, g.height), g.bpp);
  }

  lemma HalvesFit(g: Screen, at: nat, length: nat)
    requires g.Valid() && CellFits(g, at, FONT_HEIGHT * g.scale, length)
    ensures CellFits(g, at, HALF * g.scale, length)
    ensures CellFits(g, at + Times(HALF * g.scale, g.Pitch()), HALF * g.scale, length)
  {
    TimesGrows(HALF * g.scale - 1, FONT_HEIGHT * g.scale - 1, g.Pitch());
    TimesAdds(HALF * g.scale, HALF * g.scale - 1, g.Pitch());
  }

  /** Byte `q` is in one of the first `rows` pixel rows of the cell at `at`. */
  predicate InCell(g: Screen, at: nat, rows: nat, q: nat)
    requires g.Valid()
  {
    PitchPositive(g);
    q >= at && Quot(q - at, g.Pitch()) < rows && Rem(q - at, g.Pitch()) < g.RowBytes()
  }

  lemma PitchPositive(g: Screen)
    requires g.Valid()
    ensures 0 < g.RowBytes() <= g.Pitch()
  {
    TimesGrows(FONT_WIDTH * g.scale, g.width, g.bpp);
    TimesGrows(1, FONT_WIDTH * g.scale, g.bpp);
    assert Times(1, g.bpp) == Times(0, g.bpp) + g.bpp;
  }

  /** The last row of the cell ends within the frame buffer. */
  predicate CellFits(g: Screen, at: nat, rows: nat, length: nat)
    requires g.Valid()
  {
    rows > 0 ==> at + Times(rows - 1, g.Pitch()) + g.RowBytes() <= length
  }

  lemma RowFits(g: Screen, at: nat, y: nat, i: nat, length: nat)
    requires g.Valid() && CellFits(g, at, HALF * g.scale, length) && y < HALF && i < g.scale
    ensures at + Times(Times(y, g.scale) + i, g.Pitch()) + g.RowBytes() <= length
  {
    TimesGrows(y + 1, HALF, g.scale);
    TimesIs(HALF, g.scale);
    TimesGrows(Times(y, g.scale) + i, HALF * g.scale - 1, g.Pitch());
  }

  ghost predicate CellPainted(g: Screen, p: Paint, before: seq<byte>, after: seq<byte>, at: nat, rows: nat)
    requires g.Valid()
  {
    && |after| == |before|
    && forall q: nat | q < |before| :: after[q] == CellByte(g, p, at, rows, q, before[q])
  }

  function CellByte(g: Screen, p: Paint, at: nat, rows: nat, q: nat, before: byte): byte
    requires g.Valid()
  {
    PitchPositive(g);
    if InCell(g, at, rows, q)
    then PaintedByte(g, RowPaint(p, Quot(Quot(q - at, g.Pitch()), g.scale)), Rem(q - at, g.Pitch()), before)
    else before
  }

  lemma OneMoreRow(
    g: Screen, p: Paint, before: seq<byte>, mid: seq<byte>, after: seq<byte>, at: nat, y: nat, i: nat)
    requires g.Valid() && i < g.scale
    requires CellPainted(g, p, before, mid, at, Times(y, g.scale) + i)
    requires var start := at + Times(Times(y, g.scale) + i, g.Pitch());
             RowPainted(g, RowPaint(p, y), mid, after, start, start + g.RowBytes())
    ensures CellPainted(g, p, before, after, at, Times(y, g.scale) + i + 1)
  {
    PitchPositive(g);
    var r := Times(y, g.scale) + i;
    var start := at + Times(r, g.Pitch());
    QuotRemOf(y, g.scale, i);
    forall q: nat | q < |before|
      ensures after[q] == CellByte(g, p, at, r + 1, q, before[q])
    {
      if start <= q < start + g.RowBytes() {
        QuotRemOf(r, g.Pitch(), q - start);
      } else if q >= at {
        TimesQuotRem(q - at, g.Pitch());
      }
    }
  }

  // ----- A whole glyph -----

  datatype Glyph = Glyph(upper: nat, lower: nat)

  datatype Colors = Colors(foreground: nat, background: nat)

  /** What byte `q` is after the glyph has been drawn at `at`. */
  function GlyphByte(g: Screen, at: nat, glyph: Glyph, colors: Colors, q: nat, before: byte): byte
    requires g.Valid()
  {
    PitchPositive(g);
    if !InCell(g, at, FONT_HEIGHT * g.scale, q) then before
    else
      var y := Quot(Quot(q - at, g.Pitch()), g.scale);
      var o := Rem(q - at, g.Pitch());
      var lit := if y < HALF then Bit(glyph.upper, FONT_WIDTH * y + FontColumn(g, o))
                 else Bit(glyph.lower, FONT_WIDTH * (y - HALF) + FontColumn(g, o));
      ColorByte(if lit then colors.foreground else colors.background, Rem(o, g.bpp))
  }

  /** The lower half of a cell is the rows from six font rows on. */
  lemma LowerHalf(g: Screen, at: nat, q: nat)
    requires g.Valid()
    ensures var low := at + Times(HALF * g.scale, g.Pitch());
            && g.Pitch() > 0
            && (q >= low ==>
                  && Quot(q - at, g.Pitch()) == HALF * g.scale + Quot(q - low, g.Pitch())
                  && Rem(q - at, g.Pitch()) == Rem(q - low, g.Pitch()))
            && (at <= q < low ==> Quot(q - at, g.Pitch()) < HALF * g.scale)
  {
    PitchPositive(g);
    var low := at + Times(HALF * g.scale, g.Pitch());
    if q >= low {
      QuotRemShift(HALF * g.scale, g.Pitch(), q - low);
    } else if q >= at {
      QuotBelow(q - at, HALF * g.scale, g.Pitch());
    }
  }

  lemma FontRowOfHalf(g: Screen, r: nat)
    requires g.Valid()
    ensures r < HALF * g.scale <==> Quot(r, g.scale) < HALF
    ensures Quot(HALF * g.scale + r, g.scale) == HALF + Quot(r, g.scale)
  {
    TimesIs(HALF, g.scale);
    QuotBelow(r, HALF, g.scale);
    QuotRemShift(HALF, g.scale, r);
  }

  /** Four passes, two of background and two of glyph, make a glyph. */
  lemma PassesMakeGlyph(g: Screen, at: nat, glyph: Glyph, colors: Colors, q: nat, before: byte)
    requires g.Valid()
    ensures var rows := HALF * g.scale;
            var low := at + Times(rows, g.Pitch());
            var b1 := CellByte(g, Background(colors.background), at, rows, q, before);
            var b2 := CellByte(g, Background(colors.background), low, rows, q, b1);
            var b3 := CellByte(g, Foreground(colors.foreground, glyph.upper), at, rows, q, b2);
            CellByte(g, Foreground(colors.foreground, glyph.lower), low, rows, q, b3)
            == GlyphByte(g, at, glyph, colors, q, before)
  {
    LowerHalf(g, at, q);
    if q >= at {
      var r, o := Quot(q - at, g.Pitch()), Rem(q - at, g.Pitch());
      FontRowOfHalf(g, r);
      if r >= HALF * g.scale {
        FontRowOfHalf(g, r - HALF * g.scale);
      }
      var y := Quot(r, g.scale);
      ShiftBitsAdds(glyph.upper, FONT_WIDTH * y, FontColumn(g, o));
      if y >= HALF {
        ShiftBitsAdds(glyph.lower, FONT_WIDTH * (y - HALF), FontColumn(g, o));
      }
    }
  }

  /** Byte `k` of the pixel in row `r` and column `c`, counted from the pixel at `at`. */
  function PixelByte(g: Screen, at: nat, r: nat, c: nat, k: nat): nat {
    at + (r * g.width + c) * g.bpp + k
  }

  lemma PixelByteIs(g: Screen, at: nat, r: nat, c: nat, k: nat)
    ensures PixelByte(g, at, r, c, k) == at + Times(r, g.Pitch()) + (Times(c, g.bpp) + k)
  {
    TimesIs(r, g.Pitch());
    TimesIs(g.width, g.bpp);
    TimesIs(c, g.bpp);
    Distribute(r, g.width, c, g.bpp);
  }

  lemma Distribute(r: nat, width: nat, c: nat, bpp: nat)
    ensures (r * width + c) * bpp == r * (width * bpp) + c * bpp
  {
    assert (r * width) * bpp == r * (width * bpp);
  }

  lemma ByteInCell(g: Screen, at: nat, r: nat, c: nat, k: nat)
    requires g.Valid() && c < FONT_WIDTH * g.scale && k < g.bpp
    ensures var (d, o) := (PixelByte(g, at, r, c, k) - at, Times(c, g.bpp) + k);
            && g.Pitch() > 0 && d >= 0
            && Quot(d, g.Pitch()) == r && Rem(d, g.Pitch()) == o < g.RowBytes()
            && Quot(o, g.bpp) == c && Rem(o, g.bpp) == k
  {
    PitchPositive(g);
    PixelByteIs(g, at, r, c, k);
    TimesGrows(c + 1, FONT_WIDTH * g.scale, g.bpp);
    QuotRemOf(r, g.Pitch(), Times(c, g.bpp) + k);
    QuotRemOf(c, g.bpp, k);
  }

  lemma PixelInCell(g: Screen, at: nat, r: nat, c: nat, k: nat)
    requires g.Valid() && r < FONT_HEIGHT * g.scale && c < FONT_WIDTH * g.scale && k < g.bpp
    ensures InCell(g, at, FONT_HEIGHT * g.scale, PixelByte(g, at, r, c, k))
  {
    ByteInCell(g, at, r, c, k);
  }

  lemma FontRow(g: Screen, r: nat)
    requires g.Valid() && r < FONT_HEIGHT * g.scale
    ensures Quot(r, g.scale) == r / g.scale < FONT_HEIGHT
    ensures r / g.scale % HALF == if r / g.scale < HALF then r / g.scale else r / g.scale - HALF
  {
    QuotRemAre(r, g.scale);
    TimesIs(FONT_HEIGHT, g.scale);
    QuotBelow(r, FONT_HEIGHT, g.scale);
  }

  /** Pixel (r, c) of the cell is foreground exactly when bit (r / scale mod 6) * 5 + c / scale of the word
      for its half is set, and background otherwise. */
  lemma GlyphPixel(g: Screen, at: nat, glyph: Glyph, colors: Colors, r: nat, c: nat, k: nat, before: byte)
    requires g.Valid() && r < FONT_HEIGHT * g.scale && c < FONT_WIDTH * g.scale && k < g.bpp
    ensures var word := if r / g.scale < HALF then glyph.upper else glyph.lower;
            var lit := Bit(word, r / g.scale % HALF * FONT_WIDTH + c / g.scale);
            GlyphByte(g, at, glyph, colors, PixelByte(g, at, r, c, k), before)
            == ColorByte(if lit then colors.foreground else colors.background, k)
  {
    PixelInCell(g, at, r, c, k);
    ByteInCell(g, at, r, c, k);
    FontRow(g, r);
    QuotRemAre(c, g.scale);
  }

  /** The cell is made of exactly these pixels; drawing a glyph leaves all other bytes as they were. */
  lemma GlyphElsewhere(g: Screen, at: nat, glyph: Glyph, colors: Colors, q: nat, before: byte)
    requires g.Valid()
    ensures (exists r: nat, c: nat, k: nat ::
               r < FONT_HEIGHT * g.scale && c < FONT_WIDTH * g.scale && k < g.bpp && q == PixelByte(g, at, r, c, k))
            || GlyphByte(g, at, glyph, colors, q, before) == before
  {
    PitchPositive(g);
    if InCell(g, at, FONT_HEIGHT * g.scale, q) {
      var r, c, k := PixelOfByte(g, at, q);
    }
  }

  // ----- Cells on the screen -----

  lemma CellPixelAt(g: Screen, x: nat, y: nat, r: nat, c: nat, k: nat)
    ensures PixelByte(g, CellAddress(g, x, y), r, c, k) == PixelByte(g, 0, 12 * y + r, 6 * Times(x, g.scale) + c, k)
  {
    PixelByteIs(g, CellAddress(g, x, y), r, c, k);
    PixelByteIs(g, 0, 12 * y + r, 6 * Times(x, g.scale) + c, k);
    TimesAdds(12 * y, r, g.Pitch());
    TimesAdds(6 * Times(x, g.scale), c, g.bpp);
  }

  /** Pixel (r, c) of the cell at cursor (x, y) is pixel (12 y + r, 6 x scale + c) of the screen. */
  lemma CellPixel(g: Screen, x: nat, y: nat, r: nat, c: nat, k: nat)
    ensures PixelByte(g, CellAddress(g, x, y), r, c, k) == PixelByte(g, 0, 12 * y + r, 6 * (x * g.scale) + c, k)
  {
    TimesIs(x, g.scale);
    CellPixelAt(g, x, y, r, c, k);
  }

  /** A byte of the screen tells the row and the column of its pixel. */
  lemma RowAndColumn(g: Screen, row: nat, column: nat, k: nat)
    requires g.Valid() && column < g.width && k < g.bpp
    ensures var q := PixelByte(g, 0, row, column, k);
            g.Pitch() > 0 && q >= 0 && Quot(q, g.Pitch()) == row && Quot(Rem(q, g.Pitch()), g.bpp) == column
  {
    PitchPositive(g);
    PixelByteIs(g, 0, row, column, k);
    TimesGrows(column + 1, g.width, g.bpp);
    QuotRemOf(row, g.Pitch(), Times(column, g.bpp) + k);
    QuotRemOf(column, g.bpp, k);
  }

  lemma PixelOfByte(g: Screen, at: nat, q: nat) returns (r: nat, c: nat, k: nat)
    requires g.Valid() && InCell(g, at, FONT_HEIGHT * g.scale, q)
    ensures r < FONT_HEIGHT * g.scale && c < FONT_WIDTH * g.scale && k < g.bpp && q == PixelByte(g, at, r, c, k)
  {
    PitchPositive(g);
    r := Quot(q - at, g.Pitch());
    var o := Rem(q - at, g.Pitch());
    c, k := Quot(o, g.bpp), Rem(o, g.bpp);
    TimesQuotRem(q - at, g.Pitch());
    TimesQuotRem(o, g.bpp);
    QuotBelow(o, FONT_WIDTH * g.scale, g.bpp);
    PixelByteIs(g, at, r, c, k);
  }

  /** Where on the screen a byte of a cell is. */
  lemma CellCovers(g: Screen, x: nat, y: nat, q: nat) returns (row: nat, column: nat)
    requires g.Valid() && (x == 0 || x < g.Columns())
    requires InCell(g, CellAddress(g, x, y), FONT_HEIGHT * g.scale, q)
    ensures g.Pitch() > 0 && row == Quot(q, g.Pitch()) && column == Quot(Rem(q, g.Pitch()), g.bpp)
    ensures 12 * y <= row < 12 * y + 12 * g.scale
    ensures 6 * Times(x, g.scale) <= column < 6 * Times(x, g.scale) + 5 * g.scale
  {
    var r, c, k := PixelOfByte(g, CellAddress(g, x, y), q);
    ColumnsFit(g, x);
    row, column := 12 * y + r, 6 * Times(x, g.scale) + c;
    CellPixelAt(g, x, y, r, c, k);
    RowAndColumn(g, row, column, k);
  }

  /** Cells of different columns of a line, and cells of different lines, share no byte. */
  lemma CellsAreDisjoint(g: Screen, x: nat, y: nat, x': nat, y': nat, q: nat)
    requires g.Valid() && (x == 0 || x < g.Columns()) && (x' == 0 || x' < g.Columns())
    requires (y == y' && x < x') || y + g.scale <= y'
    ensures !(InCell(g, CellAddress(g, x, y), FONT_HEIGHT * g.scale, q)
              && InCell(g, CellAddress(g, x', y'), FONT_HEIGHT * g.scale, q))
  {
    if InCell(g, CellAddress(g, x, y), FONT_HEIGHT * g.scale, q)
       && InCell(g, CellAddress(g, x', y'), FONT_HEIGHT * g.scale, q)
    {
      var row, column := CellCovers(g, x, y, q);
      var row', column' := CellCovers(g, x', y', q);
      if x < x' {
        TimesGrows(x + 1, x', g.scale);
      }
      assert false;
    }
  }

  /** `n` columns fit the screen exactly if they are six scaled pixels each; the line limit is the number of
      whole lines of twelve rows above the last row. */
  lemma Limits(g: Screen, n: nat)
    requires g.Valid()
    ensures n <= g.Columns() <==> 6 * n * g.scale <= g.width
    ensures g.height > 0 ==> (n <= g.MaxY() <==> 12 * n < g.height)
  {
    var m := g.width / 6;
    QuotRemAre(m, g.scale);
    TimesIs(n, g.scale);
    if n > 0 {
      QuotBelow(m, n, g.scale);
    }
    assert 6 * n * g.scale == 6 * Times(n, g.scale);
  }

  // ----- Bits and bytes -----

  lemma TwiceTimes(h: nat, a: nat)
    ensures (2 * h) * a == h * (2 * a) && (2 * h + 1) * a == h * (2 * a) + a
  {
  }

  lemma QuotientOf(n: nat, a: nat) returns (q: nat, r: nat)
    requires a > 0
    ensures q == n / a && r < a && n == q * a + r
  {
    q, r := n / a, n % a;
  }

  lemma HalfAgain(n: nat, a: nat)
    requires a > 0
    ensures n / a / 2 == n / (2 * a)
  {
    var q, r := QuotientOf(n, a);
    var h, odd := QuotientOf(q, 2);
    TwiceTimes(h, a);
    DivModUnique(n, h, 2 * a, if odd == 0 then r else a + r);
  }

  /** Bit `k` is the digit of 2 to the k. */
  lemma {:induction false} ShiftBitsIs(d: nat, k: nat)
    ensures ShiftBits(d, k) == d / Pow2(k)
    ensures Bit(d, k) <==> d / Pow2(k) % 2 == 1
  {
    if k > 0 {
      ShiftBitsIs(d, k - 1);
      HalfAgain(d, Pow2(k - 1));
    }
  }

  /** The bytes of a colour are its digits to base 256, lowest first. */
  lemma ColorBytes(c: nat)
    requires c < WORD_32
    ensures c == ColorByte(c, 0) as nat + ColorByte(c, 1) as nat * 0x100 + ColorByte(c, 2) as nat * 0x1_0000
                 + ColorByte(c, 3) as nat * 0x100_0000
  {
    assert ShiftBytes(c, 1) == ShiftBytes(c, 0) / 256 && ShiftBytes(c, 2) == ShiftBytes(c, 1) / 256;
    assert ShiftBytes(c, 3) == ShiftBytes(c, 2) / 256 < 256;
  }

  /** Black is zero but for the last of four bytes, the alpha value. */
  lemma {:induction false} BlackBytes(g: Screen, q: nat)
    requires g.Valid()
    ensures BlackByte(g, q) == if q % g.bpp == 3 then 0xFF else 0
  {
    QuotRemAre(q, g.bpp);
    BlackShifted(Rem(q, g.bpp));
  }

  lemma {:induction false} BlackShifted(k: nat)
    ensures ColorByte(BLACK, k) == if k == 3 then 0xFF else 0
    ensures k > 3 ==> ShiftBytes(BLACK, k) == 0
  {
    if k <= 3 {
      assert ShiftBytes(BLACK, 1) == 0xff_0000 && ShiftBytes(BLACK, 2) == 0xff00 && ShiftBytes(BLACK, 3) == 0xff;
    } else {
      BlackShifted(k - 1);
    }
  }

  // ----- The console -----

  class Console {
    const g: Screen
    const fb: array<byte>
    /** m_Position. */
    var x: nat
    var y: nat

    constructor (screen: Screen)
      ensures g == screen && fresh(fb) && fb.Length == screen.Size() && x == 0 && y == 0
    {
      g := screen;
      fb := new byte[screen.Size()];
      x, y := 0, 0;
    }

    /** The bytes of one pixel, lowest first. */
    method PaintPixel(at: nat, color: nat) returns (next: nat)
      requires at + g.bpp <= fb.Length
      modifies fb
      ensures next == at + g.bpp
      ensures forall q: nat | q < fb.Length :: fb[q] ==
                if at <= q < next then ColorByte(color, q - at) else old(fb[q])
    {
      next := at;
      var c, k := color, 0;
      while k < g.bpp
        invariant k <= g.bpp && next == at + k && c == ShiftBytes(color, k)
        invariant forall q: nat | q < fb.Length :: fb[q] ==
                    if at <= q < next then ColorByte(color, q - at) else old(fb[q])
      {
        fb[next] := (c % 256) as byte;
        c := c / 256;
        next := next + 1;
        k := k + 1;
      }
    }

    /** One row of a cell: five font pixels, each `scale` pixels wide. */
    method PaintRow(at: nat, p: Paint) returns (next: nat, rest: Paint)
      requires g.Valid() && at + g.RowBytes() <= fb.Length
      modifies fb
      ensures next == at + g.RowBytes() && rest == ShiftedPaint(p, FONT_WIDTH)
      ensures RowPainted(g, p, old(fb[..]), fb[..], at, next)
    {
      next, rest := at, p;
      var x := 0;
      ghost var before := fb[..];
      while x < FONT_WIDTH
        invariant x <= FONT_WIDTH && next == at + Times(Times(x, g.scale), g.bpp)
        invariant rest == ShiftedPaint(p, x)
        invariant RowPainted(g, p, before, fb[..], at, next)
      {
        next := PaintFontPixel(at, next, p, x, rest.Background? || rest.data % 2 == 1, before);
        if rest.Foreground? {
          rest := rest.(data := rest.data / 2);
        }
        x := x + 1;
      }
      TimesIs(FONT_WIDTH, g.scale);
    }

    /** `scale` pixels of one font pixel; a clear bit of a glyph leaves them alone. */
    method PaintFontPixel(ghost at: nat, start: nat, p: Paint, ghost x: nat, lit: bool, ghost before: seq<byte>)
      returns (next: nat)
      requires lit == (p.Background? || Bit(p.data, x))
      requires g.Valid() && x < FONT_WIDTH && at + g.RowBytes() <= fb.Length
      requires start == at + Times(Times(x, g.scale), g.bpp)
      requires RowPainted(g, p, before, fb[..], at, start)
      modifies fb
      ensures next == at + Times(Times(x + 1, g.scale), g.bpp)
      ensures RowPainted(g, p, before, fb[..], at, next)
    {
      next := start;
      var j := 0;
      while j < g.scale
        invariant j <= g.scale && next == at + Times(Times(x, g.scale) + j, g.bpp)
        invariant RowPainted(g, p, before, fb[..], at, next)
      {
        PixelInRow(g, x, j);
        ghost var from, mid := next, fb[..];
        if lit {
          next := PaintPixel(next, p.color);
        } else {
          next := next + g.bpp;
        }
        forall q: nat | from <= q < next
          ensures fb[q] == PaintedByte(g, p, q - at, before[q])
        {
          ColumnOf(g, x, j, q - from);
        }
        j := j + 1;
      }
    }

    /** Six font rows, each `scale` pixel rows high, from `at` down. */
    method PaintHalf(at: nat, p: Paint) returns (next: nat)
      requires g.Valid() && CellFits(g, at, HALF * g.scale, fb.Length)
      modifies fb
      ensures next == at + Times(HALF * g.scale, g.Pitch())
      ensures CellPainted(g, p, old(fb[..]), fb[..], at, HALF * g.scale)
    {
      next := at;
      var y := 0;
      var paint := p;
      ghost var before := fb[..];
      while y < HALF
        invariant y <= HALF && next == at + Times(Times(y, g.scale), g.Pitch()) && paint == RowPaint(p, y)
        invariant CellPainted(g, p, before, fb[..], at, Times(y, g.scale))
      {
        next, paint := PaintFontRow(at, next, p, paint, y, before);
        y := y + 1;
      }
      TimesIs(HALF, g.scale);
    }

    /** One row of pixels, and the step over the rest of the screen to the next one. */
    method PaintPixelRow(
      ghost at: nat, start: nat, ghost p: Paint, paint: Paint, ghost y: nat, ghost i: nat, ghost before: seq<byte>)
      returns (next: nat, rest: Paint)
      requires g.Valid() && CellFits(g, at, HALF * g.scale, fb.Length) && y < HALF && i < g.scale
      requires start == at + Times(Times(y, g.scale) + i, g.Pitch()) && paint == RowPaint(p, y)
      requires CellPainted(g, p, before, fb[..], at, Times(y, g.scale) + i)
      modifies fb
      ensures next == at + Times(Times(y, g.scale) + i + 1, g.Pitch()) && rest == RowPaint(p, y + 1)
      ensures CellPainted(g, p, before, fb[..], at, Times(y, g.scale) + i + 1)
    {
      ghost var mid := fb[..];
      RowFits(g, at, y, i, fb.Length);
      next, rest := PaintRow(start, paint);
      NextRowPaint(p, y);
      OneMoreRow(g, p, before, mid, fb[..], at, y, i);
      TimesAdds(g.width - FONT_WIDTH * g.scale, FONT_WIDTH * g.scale, g.bpp);
      next := next + Times(g.width - FONT_WIDTH * g.scale, g.bpp);
    }

    /** One font row. */
    method PaintFontRow(ghost at: nat, start: nat, ghost p: Paint, paint: Paint, ghost y: nat, ghost before: seq<byte>)
      returns (next: nat, rest: Paint)
      requires g.Valid() && CellFits(g, at, HALF * g.scale, fb.Length)
      requires y < HALF && start == at + Times(Times(y, g.scale), g.Pitch()) && paint == RowPaint(p, y)
      requires CellPainted(g, p, before, fb[..], at, Times(y, g.scale))
      modifies fb
      ensures next == at + Times(Times(y + 1, g.scale), g.Pitch()) && rest == RowPaint(p, y + 1)
      ensures CellPainted(g, p, before, fb[..], at, Times(y + 1, g.scale))
    {
      next, rest := start, paint;
      var i := 0;
      while i < g.scale
        invariant i <= g.scale && next == at + Times(Times(y, g.scale) + i, g.Pitch())
        invariant i > 0 ==> rest == RowPaint(p, y + 1)
        invariant CellPainted(g, p, before, fb[..], at, Times(y, g.scale) + i)
      {
        next, rest := PaintPixelRow(at, next, p, paint, y, i, before);
        i := i + 1;
      }
    }

    /** FbConDrawglyph: clear both halves of the cell, then paint the set bits of both words. */
    method DrawGlyph(at: nat, glyph: Glyph, colors: Colors)
      requires g.Valid() && CellFits(g, at, FONT_HEIGHT * g.scale, fb.Length)
      modifies fb
      ensures forall q: nat | q < fb.Length :: fb[q] == GlyphByte(g, at, glyph, colors, q, old(fb[q]))
    {
      HalvesFit(g, at, fb.Length);
      ghost var s0 := fb[..];
      var low := PaintHalf(at, Background(colors.background));
      ghost var s1 := fb[..];
      var end := PaintHalf(low, Background(colors.background));
      ghost var s2 := fb[..];
      low := PaintHalf(at, Foreground(colors.foreground, glyph.upper));
      ghost var s3 := fb[..];
      end := PaintHalf(low, Foreground(colors.foreground, glyph.lower));
      ghost var s4 := fb[..];
      forall q: nat | q < fb.Length
        ensures s4[q] == GlyphByte(g, at, glyph, colors, q, s0[q])
      {
        PassesMakeGlyph(g, at, glyph, colors, q, s0[q]);
      }
    }

    ghost function Look(): View
      reads this, fb
    {
      View(fb[..], x, y)
    }

    /** Write black over the whole frame buffer, pixel after pixel. */
    method ResetFb()
      requires g.Valid() && fb.Length == g.Size()
      modifies fb
      ensures fb[..] == Cleared(g, fb.Length)
    {
      var pixels := 0;
      var i := 0;
      while i < g.width
        invariant i <= g.width && pixels == Times(Times(i, g.height), g.bpp)
        invariant forall q: nat | q < fb.Length && q < pixels :: fb[q] == BlackByte(g, q)
      {
        var j := 0;
        while j < g.height
          invariant j <= g.height && pixels == Times(Times(i, g.height) + j, g.bpp)
          invariant forall q: nat | q < fb.Length && q < pixels :: fb[q] == BlackByte(g, q)
        {
          PixelOnScreen(g, i, j);
          ghost var from := pixels;
          pixels := PaintPixel(pixels, BLACK);
          forall q: nat | from <= q < pixels
            ensures fb[q] == BlackByte(g, q)
          {
            QuotRemOf(Times(i, g.height) + j, g.bpp, q - from);
          }
          j := j + 1;
        }
        i := i + 1;
      }
      AllPixels(g);
    }

    /** FbConPutCharWithFactor for a console that has been initialized. */
    method PutChar(c: nat, title: bool, font: seq<Glyph>, colors: Colors)
      requires g.Usable() && fb.Length == g.Size() && CursorOk(g, x, y)
      requires c < 256 && |font| == 96
      modifies this, fb
      ensures CursorOk(g, x, y)
      ensures Look() == Put(g, old(Look()), c, title, font, colors)
    {
      ghost var goal := Put(g, Look(), c, title, font, colors);
      while true
        invariant CursorOk(g, x, y) && goal == Put(g, Look(), c, title, font, colors)
        decreases y
      {
        if c > 127 {
          return;
        }
        if c < 32 {
          if c == 13 {
            x := 0;
            return;
          } else if c != 10 {
            return;
          }
        } else {
          if x == 0 && c == 32 && !title {
            return;
          }
          ghost var before := fb[..];
          CellOnScreen(g, x, y);
          var pixels := CellAddress(g, x, y);
          DrawGlyph(pixels, font[c - 32], colors);
          assert fb[..] == Drawn(g, before, pixels, font[c - 32], colors);
          x := x + 1;
          if x < g.Columns() {
            return;
          }
        }
        y := y + g.scale;
        x := 0;
        if y < g.MaxY() - g.scale {
          return;
        }
        ResetFb();
        y := 0;
      }
    }
  }

  // ----- What one character does -----

  /** A character that has a glyph and is not a space that is saved. */
  predicate Shows(c: nat, x: nat, title: bool) {
    32 <= c <= 127 && (x > 0 || c != 32 || title)
  }

  /** The line below the cursor's is still on the screen. */
  predicate HasNextLine(g: Screen, y: nat) {
    y + 2 * g.scale < g.MaxY()
  }

  /** Only the bytes of the cell at the cursor differ. */
  ghost predicate OnlyCell(g: Screen, before: View, after: View)
    requires g.Valid()
  {
    && |after.pixels| == |before.pixels|
    && forall q: nat | q < |before.pixels| ::
         InCell(g, CellAddress(g, before.x, before.y), FONT_HEIGHT * g.scale, q)
         || after.pixels[q] == before.pixels[q]
  }

  /** Unless it ends the screen, a character that shows changes only its cell; the cursor moves on by one
      column, or to the start of the next line. */
  lemma PutShows(g: Screen, v: View, c: nat, title: bool, font: seq<Glyph>, colors: Colors)
    requires g.Usable() && CursorOk(g, v.x, v.y) && |font| == 96
    requires Shows(c, v.x, title) && (v.x + 1 < g.Columns() || HasNextLine(g, v.y))
    ensures var r := Put(g, v, c, title, font, colors);
            && r.pixels == Drawn(g, v.pixels, CellAddress(g, v.x, v.y), font[c - 32], colors) && OnlyCell(g, v, r)
            && (if v.x + 1 < g.Columns() then r.x == v.x + 1 && r.y == v.y else r.x == 0 && r.y == v.y + g.scale)
  {
  }

  /** Everything else draws nothing: unless it is a newline that ends the screen, all pixels stay. */
  lemma PutDrawsNothing(g: Screen, v: View, c: nat, title: bool, font: seq<Glyph>, colors: Colors)
    requires g.Usable() && CursorOk(g, v.x, v.y) && |font| == 96
    requires !Shows(c, v.x, title) && (c == 10 ==> HasNextLine(g, v.y))
    ensures var r := Put(g, v, c, title, font, colors);
            && r.pixels == v.pixels
            && r.x == (if c == 10 || c == 13 then 0 else v.x)
            && r.y == (if c == 10 then v.y + g.scale else v.y)
  {
  }

  /** A character that ends the screen leaves nothing of what it showed: all bytes are black but those of the
      first cell, and that cell holds the character if it shows there. */
  lemma PutEndsScreen(g: Screen, v: View, c: nat, title: bool, font: seq<Glyph>, colors: Colors)
    requires g.Usable() && CursorOk(g, v.x, v.y) && |font| == 96
    requires !HasNextLine(g, v.y) && (c == 10 || (Shows(c, v.x, title) && v.x + 1 >= g.Columns()))
    ensures var r := Put(g, v, c, title, font, colors);
            var home := View(Cleared(g, |v.pixels|), 0, 0);
            && OnlyCell(g, home, r)
            && (!Shows(c, 0, title) ==> r.pixels == home.pixels)
            && (Shows(c, 0, title) ==>
                  r.pixels == Drawn(g, home.pixels, CellAddress(g, 0, 0), font[c - 32], colors))
  {
    var home := View(Cleared(g, |v.pixels|), 0, 0);
    assert Put(g, v, c, title, font, colors) == Put(g, home, c, title, font, colors);
    if Shows(c, 0, title) {
      PutShows(g, home, c, title, font, colors);
    } else {
      PutDrawsNothing(g, home, c, title, font, colors);
    }
  }
}
