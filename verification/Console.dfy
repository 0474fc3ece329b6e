/** Pixels and the console on them (src/drivers/framebuffer.rs). */
module Framebuffers {
  import opened Machine
  import opened Layout

  const FONT_WIDTH: nat := 8
  const FONT_HEIGHT: nat := 16

  /** Eight rows of eight dots for every byte. */
  type Font = f: seq<seq<byte>> | |f| == 256 &&
    (forall c :: 0 <= c < 256 ==> |f[c]| == 8) witness seq(256, _ => seq(8, _ => 0))

  function Power(k: nat): (r: nat)
    ensures r > 0
  {
    if k == 0 then 1 else 2 * Power(k - 1)
  }

  /** Bit k of a byte. */
  predicate Bit(b: byte, k: nat) { b / Power(k) % 2 == 1 }

  lemma {:induction false} ShiftAndMask(b: bv8)
    ensures (b >> 7) & 1 == b / 128 % 2 && (b >> 6) & 1 == b / 64 % 2 && (b >> 5) & 1 == b / 32 % 2 &&
      (b >> 4) & 1 == b / 16 % 2
    ensures (b >> 3) & 1 == b / 8 % 2 && (b >> 2) & 1 == b / 4 % 2 && (b >> 1) & 1 == b / 2 % 2 && b & 1 == b % 2
  {
  }

  /** The dot of a glyph at a pixel of its cell: rows are doubled, the leftmost dot is the highest bit. */
  predicate Lit(font: Font, c: byte, dy: nat, dx: nat)
    requires dy < FONT_HEIGHT && dx < FONT_WIDTH
  {
    Bit(font[c][dy / 2], 7 - dx)
  }

  /**
   On the bytes of the font: the r-th row of a glyph, counted from the top, is
   shown in pixel rows 2r and 2r + 1 of its cell, and its k-th dot from the left
   is the bit of weight 128, 64, down to 1.
  */
  lemma {:induction false} GlyphDots(font: Font, c: byte, r: nat, d: nat, k: nat)
    requires r < 8 && d < 2 && k < 8
    ensures Lit(font, c, 2 * r + d, k) <==> font[c][r] / [128, 64, 32, 16, 8, 4, 2, 1][k] % 2 == 1
  {
    Powers();
    assert (2 * r + d) / 2 == r;
  }

  lemma {:induction false} Powers()
    ensures Power(0) == 1 && Power(1) == 2 && Power(2) == 4 && Power(3) == 8
    ensures Power(4) == 16 && Power(5) == 32 && Power(6) == 64 && Power(7) == 128
  {
    assert Power(2) == 2 * Power(1) && Power(4) == 2 * Power(3) && Power(6) == 2 * Power(5);
  }

  lemma {:induction false} SameOffset(pitch: nat, y: nat, x: nat, y': nat, x': nat)
    requires 4 * x + 4 <= pitch && 4 * x' + 4 <= pitch && pitch * y + 4 * x == pitch * y' + 4 * x'
    ensures y == y' && x == x'
  {
    DivMod(pitch * y + 4 * x, pitch, y, 4 * x);
    DivMod(pitch * y' + 4 * x', pitch, y', 4 * x');
  }

  lemma {:induction false} OffsetInside(pitch: nat, height: nat, y: nat, x: nat)
    requires y < height && 4 * x + 4 <= pitch
    ensures pitch * y + 4 * x + 4 <= pitch * height
  {
    MulMonotone(pitch, y + 1, height);
  }

  /**
   The byte offset of a pixel, y * pitch + x * 4 in 32-bit arithmetic, is
   different for every pixel, as long as a row fits the pitch and the whole
   framebuffer has no more than 4 GiB.
  */
  lemma {:induction false} OffsetsAreDistinct(pitch: nat, height: nat, y: nat, x: nat, y': nat, x': nat)
    requires y < height && y' < height && 4 * x + 4 <= pitch && 4 * x' + 4 <= pitch && pitch * height <= TWO32
    requires (pitch * y + 4 * x) % TWO32 == (pitch * y' + 4 * x') % TWO32
    ensures y == y' && x == x'
  {
    OffsetInside(pitch, height, y, x);
    OffsetInside(pitch, height, y', x');
    SameOffset(pitch, y, x, y', x');
  }

  /** Rows of 32-bit words; a row may be longer than the visible width. */
  class Framebuffer {
    const width: nat
    const height: nat
    const pixels: array2<u32>

    ghost predicate Valid()
    {
      pixels.Length0 == height && width <= pixels.Length1
    }

    constructor (pixels: array2<u32>, width: nat)
      requires width <= pixels.Length1
      ensures Valid() && this.pixels == pixels && this.width == width && height == pixels.Length0
    {
      this.pixels, this.width, this.height := pixels, width, pixels.Length0;
    }

    method PutPixel(x: nat, y: nat, color: u32)
      requires Valid() && x < width && y < height
      modifies pixels
      ensures forall py, px :: 0 <= py < height && 0 <= px < width ==>
        pixels[py, px] == if py == y && px == x then color else old(pixels[py, px])
    {
      pixels[y, x] := color;
    }

    method Clear(color: u32)
      requires Valid()
      modifies pixels
      ensures forall py, px :: 0 <= py < height && 0 <= px < width ==> pixels[py, px] == color
    {
      for y := 0 to height
        invariant forall py, px :: 0 <= py < y && 0 <= px < width ==> pixels[py, px] == color
      {
        for x := 0 to width
          invariant forall py, px :: 0 <= py < y && 0 <= px < width ==> pixels[py, px] == color
          invariant forall px :: 0 <= px < x ==> pixels[y, px] == color
        {
          PutPixel(x, y, color);
        }
      }
    }

    /** The overlapping copy of whole rows upwards. */
    method CopyUp(rows: nat)
      requires Valid() && 0 < rows < height
      modifies pixels
      ensures forall py, px :: 0 <= py < height - rows && 0 <= px < width ==>
        pixels[py, px] == old(pixels[py + rows, px])
    {
      forall y, x | 0 <= y < height - rows && 0 <= x < pixels.Length1 {
        pixels[y, x] := pixels[y + rows, x];
      }
    }

    /** Every pixel moves up by so many rows; the background follows from below. */
    method ScrollRows(rows: nat, bg: u32)
      requires Valid()
      modifies pixels
      ensures forall py, px :: 0 <= py < height && 0 <= px < width ==>
        pixels[py, px] == if py + rows < height then old(pixels[py + rows, px]) else bg
    {
      if rows == 0 {
        return;
      }
      if rows >= height {
        Clear(bg);
        return;
      }
      CopyUp(rows);
      var start := height - rows;
      for y := start to height
        invariant forall py, px :: 0 <= py < start && 0 <= px < width ==> pixels[py, px] == old(pixels[py + rows, px])
        invariant forall py, px :: start <= py < y && 0 <= px < width ==> pixels[py, px] == bg
      {
        for x := 0 to width
          invariant forall py, px :: 0 <= py < start && 0 <= px < width ==> pixels[py, px] == old(pixels[py + rows, px])
          invariant forall py, px :: start <= py < y && 0 <= px < width ==> pixels[py, px] == bg
          invariant forall px :: 0 <= px < x ==> pixels[y, px] == bg
        {
          pixels[y, x] := bg;
        }
      }
    }

    /** One line of a glyph, clipped at the right edge. */
    method DrawLine(x: nat, y: nat, bits: byte, fg: u32, bg: u32)
      requires Valid() && y < height
      modifies pixels
      ensures forall py, px :: 0 <= py < height && 0 <= px < width ==>
        pixels[py, px] ==
          if py == y && x <= px < x + 8 then (if Bit(bits, 7 - (px - x)) then fg else bg) else old(pixels[py, px])
    {
      for col := 0 to 8
        invariant forall py, px :: 0 <= py < height && 0 <= px < width ==>
          pixels[py, px] ==
            if py == y && x <= px < x + col then (if Bit(bits, 7 - (px - x)) then fg else bg) else old(pixels[py, px])
      {
        var px := x + col;
        if px >= width {
          continue;
        }
        PutPixel(px, y, if Bit(bits, 7 - col) then fg else bg);
      }
    }

    method DrawGlyphLine(x: nat, y: nat, font: Font, c: byte, row: nat, dy: nat, fg: u32, bg: u32)
      requires Valid() && row < 8 && dy < 2
      modifies pixels
      ensures forall py, px :: 0 <= py < height && 0 <= px < width ==>
        pixels[py, px] ==
          if py == y + (2 * row + dy) && x <= px < x + FONT_WIDTH then (if Lit(font, c, py - y, px - x) then fg else bg)
          else old(pixels[py, px])
    {
      var py := y + row * 2 + dy;
      if py >= height {
        return;
      }
      DrawLine(x, py, font[c][row], fg, bg);
      assert (2 * row + dy) / 2 == row;
    }

    /** A glyph with its rows doubled, clipped at the right and the bottom edge. */
    method DrawChar(x: nat, y: nat, font: Font, c: byte, fg: u32, bg: u32)
      requires Valid()
      modifies pixels
      ensures forall py, px :: 0 <= py < height && 0 <= px < width ==>
        pixels[py, px] ==
          if y <= py < y + FONT_HEIGHT && x <= px < x + FONT_WIDTH
          then (if Lit(font, c, py - y, px - x) then fg else bg)
          else old(pixels[py, px])
      ensures forall py, px :: y <= py < Min(y + 16, height) && x <= px < Min(x + 8, width) ==>
        pixels[py, px] ==
          if font[c][(py - y) / 2] / [128, 64, 32, 16, 8, 4, 2, 1][px - x] % 2 == 1 then fg else bg
    {
      for row := 0 to 8
        invariant Drawn(x, y, font, c, fg, bg, 2 * row)
      {
        for dy := 0 to 2
          invariant Drawn(x, y, font, c, fg, bg, 2 * row + dy)
        {
          DrawGlyphLine(x, y, font, c, row, dy, fg, bg);
        }
      }
      forall py, px | y <= py < Min(y + 16, height) && x <= px < Min(x + 8, width)
        ensures pixels[py, px] ==
          if font[c][(py - y) / 2] / [128, 64, 32, 16, 8, 4, 2, 1][px - x] % 2 == 1 then fg else bg
      {
        GlyphDots(font, c, (py - y) / 2, (py - y) % 2, px - x);
      }
    }

    /** The first lines of a glyph are drawn and everything else is as before. */
    twostate predicate Drawn(x: nat, y: nat, font: Font, c: byte, fg: u32, bg: u32, lines: nat)
      requires Valid() && lines <= FONT_HEIGHT
      reads pixels
    {
      forall py, px :: 0 <= py < height && 0 <= px < width ==>
        pixels[py, px] ==
          if y <= py < y + lines && x <= px < x + FONT_WIDTH then (if Lit(font, c, py - y, px - x) then fg else bg)
          else old(pixels[py, px])
    }
  }
}

/** The scrolling console. */
module Consoles {
  import opened Machine
  import opened Wrappers
  import opened Framebuffers
  import opened Terminal

  predicate Shaped(s: Screen) {
    |s.grid| == s.rows && forall r :: 0 <= r < s.rows ==> |s.grid[r]| == s.cols
  }

  /** The colour of a pixel: its cell's glyph, or background where no cell or no character is. */
  function PixelOf(s: Screen, font: Font, fg: u32, bg: u32, y: nat, x: nat): u32
    requires Shaped(s)
  {
    var r, c := y / FONT_HEIGHT, x / FONT_WIDTH;
    if r < s.rows && c < s.cols && s.grid[r][c].Some? then
      if Lit(font, s.grid[r][c].value, y % FONT_HEIGHT, x % FONT_WIDTH) then fg else bg
    else bg
  }

  /**
   The picture of a screen on the bytes of the font: a cell has 16 by 8 pixels,
   and the rows of its glyph follow each other from the top.
  */
  lemma {:induction false} CellPixels(s: Screen, font: Font, fg: u32, bg: u32, row: nat, col: nat, r: nat, d: nat,
        k: nat)
    requires Shaped(s) && row < s.rows && col < s.cols && r < 8 && d < 2 && k < 8
    ensures PixelOf(s, font, fg, bg, 16 * row + 2 * r + d, 8 * col + k) ==
      match s.grid[row][col]
      case None => bg
      case Some(c) => if font[c][r] / [128, 64, 32, 16, 8, 4, 2, 1][k] % 2 == 1 then fg else bg
  {
    CellOf(16 * row + 2 * r + d, FONT_HEIGHT, row);
    CellOf(8 * col + k, FONT_WIDTH, col);
    if s.grid[row][col].Some? {
      GlyphDots(font, s.grid[row][col].value, r, d, k);
    }
  }

  /** A drawn character changes the pixels of its cell and no other. */
  lemma {:induction false} ShownPixels(s: Screen, font: Font, fg: u32, bg: u32, c: byte, y: nat, x: nat)
    requires Ok(s)
    ensures var py, px := FONT_HEIGHT * s.row, FONT_WIDTH * s.col;
      PixelOf(Shown(s, c), font, fg, bg, y, x) ==
        if py <= y < py + FONT_HEIGHT && px <= x < px + FONT_WIDTH
        then (if Lit(font, c, y - py, x - px) then fg else bg)
        else PixelOf(s, font, fg, bg, y, x)
  {
    CellOf(y, FONT_HEIGHT, s.row);
    CellOf(x, FONT_WIDTH, s.col);
  }

  lemma {:induction false} CellOf(p: nat, size: nat, k: nat)
    requires size == FONT_HEIGHT || size == FONT_WIDTH
    ensures size * k <= p < size * k + size <==> p / size == k
    ensures p / size == k ==> p % size == p - size * k
  {
  }

  /**
   A scrolled grid looks like the old picture moved up by one row of cells, on
   every height; cells do not reach below.
  */
  lemma {:induction false} ScrolledPixels(s: Screen, font: Font, fg: u32, bg: u32, height: nat, y: nat, x: nat)
    requires Shaped(s) && s.row + 1 >= s.rows > 0 && s.rows == Max(height / FONT_HEIGHT, 1) && y < height
    ensures Shaped(Newline(s))
    ensures PixelOf(Newline(s), font, fg, bg, y, x) ==
      if y + FONT_HEIGHT < height then PixelOf(s, font, fg, bg, y + FONT_HEIGHT, x) else bg
  {
    NextRow(y);
    var r := y / FONT_HEIGHT;
    if y + FONT_HEIGHT >= height {
      LastRow(y, height, s.rows);
    }
  }

  lemma {:induction false} NextRow(y: nat)
    ensures (y + FONT_HEIGHT) / FONT_HEIGHT == y / FONT_HEIGHT + 1 && (y + FONT_HEIGHT) % FONT_HEIGHT == y % FONT_HEIGHT
  {
  }

  lemma {:induction false} LastRow(y: nat, height: nat, rows: nat)
    requires y < height <= y + FONT_HEIGHT && rows == Max(height / FONT_HEIGHT, 1)
    ensures y / FONT_HEIGHT + 1 >= rows
  {
  }

  class Console {
    const fb: Framebuffer
    const font: Font
    const fg: u32
    const bg: u32
    const cols: nat
    const rows: nat
    var col: nat
    var row: nat
    ghost var grid: seq<seq<Cell>>

    ghost function View(): Screen
      reads this
    {
      Screen(cols, rows, grid, row, col)
    }

    /** The pixels are the picture of the screen. */
    ghost predicate Rendered(s: Screen)
      requires fb.Valid() && Shaped(s)
      reads fb.pixels
    {
      forall y, x :: 0 <= y < fb.height && 0 <= x < fb.width ==> fb.pixels[y, x] == PixelOf(s, font, fg, bg, y, x)
    }

    ghost predicate Sized()
    {
      fb.Valid() && rows == Max(fb.height / FONT_HEIGHT, 1) && cols == Max(fb.width / FONT_WIDTH, 1)
    }

    /** The cursor is in range and the pixels always equal the rendering of the character grid. */
    ghost predicate Valid()
      reads this, fb.pixels
    {
      Sized() && Ok(View()) && Rendered(View())
    }

    /** On a cleared framebuffer of any size, even one smaller than a character. */
    constructor (fb: Framebuffer, font: Font, fg: u32, bg: u32)
      requires fb.Valid()
      requires forall y, x :: 0 <= y < fb.height && 0 <= x < fb.width ==> fb.pixels[y, x] == bg
      ensures Valid() && this.fb == fb &&
        View() == BlankScreen(Max(fb.width / FONT_WIDTH, 1), Max(fb.height / FONT_HEIGHT, 1))
    {
      this.fb, this.font, this.fg, this.bg := fb, font, fg, bg;
      cols := Max(fb.width / FONT_WIDTH, 1);
      rows := Max(fb.height / FONT_HEIGHT, 1);
      row, col := 0, 0;
      grid := seq(Max(fb.height / FONT_HEIGHT, 1), _ => BlankRow(Max(fb.width / FONT_WIDTH, 1)));
    }

    /** The picture of a screen whose last line is left becomes the picture of the next one. */
    method ScrollPicture(ghost s: Screen)
      requires Sized() && Shaped(s) && Rendered(s) && s.rows == rows && s.row + 1 >= rows
      modifies fb.pixels
      ensures Shaped(Newline(s)) && Rendered(Newline(s))
    {
      fb.ScrollRows(FONT_HEIGHT, bg);
      forall y, x | 0 <= y < fb.height && 0 <= x < fb.width
        ensures Shaped(Newline(s)) && fb.pixels[y, x] == PixelOf(Newline(s), font, fg, bg, y, x)
      {
        ScrolledPixels(s, font, fg, bg, fb.height, y, x);
      }
    }

    method NewLine()
      requires Sized() && Shaped(View()) && row < rows && Rendered(View())
      modifies this`row, this`col, this`grid, fb.pixels
      ensures Sized() && View() == Newline(old(View())) && Shaped(View()) && Rendered(View())
    {
      ghost var s := View();
      grid := Newline(s).grid;
      col := 0;
      row := row + 1;
      if row >= rows {
        ScrollPicture(s);
        row := rows - 1;
      }
    }

    method DrawAtCursor(c: byte)
      requires Valid()
      modifies this`col, this`grid, fb.pixels
      ensures Sized() && View() == Shown(old(View()), c) && Shaped(View()) && Rendered(View())
    {
      ghost var s := View();
      var x := col * FONT_WIDTH;
      var y := row * FONT_HEIGHT;
      fb.DrawChar(x, y, font, c, fg, bg);
      grid := Shown(s, c).grid;
      col := col + 1;
      forall py, px | 0 <= py < fb.height && 0 <= px < fb.width
        ensures fb.pixels[py, px] == PixelOf(View(), font, fg, bg, py, px)
      {
        ShownPixels(s, font, fg, bg, c, py, px);
      }
    }

    method PutChar(c: byte)
      requires Valid()
      modifies this`row, this`col, this`grid, fb.pixels
      ensures Valid() && View() == Put(old(View()), c)
    {
      if c == NEWLINE {
        NewLine();
        return;
      }
      DrawAtCursor(c);
      if col >= cols {
        NewLine();
      }
    }

    method WriteStr(text: seq<byte>)
      requires Valid()
      modifies this`row, this`col, this`grid, fb.pixels
      ensures Valid() && View() == Typed(old(View()), text, |text|)
    {
      for i := 0 to |text|
        invariant Valid() && View() == Typed(old(View()), text, i)
      {
        PutChar(text[i]);
      }
    }
  }

  /** Whatever a console was given, the visible pixels of each cell are those of the glyph it holds. */
  lemma {:induction false} ConsoleShowsGlyphs(console: Console, row: nat, col: nat, r: nat, d: nat, k: nat)
    requires console.Valid() && row < console.rows && col < console.cols && r < 8 && d < 2 && k < 8
    requires 16 * row + 2 * r + d < console.fb.height && 8 * col + k < console.fb.width
    ensures console.fb.pixels[16 * row + 2 * r + d, 8 * col + k] ==
      match console.grid[row][col]
      case None => console.bg
      case Some(c) =>
        if console.font[c][r] / [128, 64, 32, 16, 8, 4, 2, 1][k] % 2 == 1 then console.fg else console.bg
  {
    CellPixels(console.View(), console.font, console.fg, console.bg, row, col, r, d, k);
  }

  /** A console started on any framebuffer and given any text shows the picture of the text's last lines. */
  method ShowText(fb: Framebuffer, font: Font, fg: u32, bg: u32, text: seq<byte>) returns (console: Console)
    requires fb.Valid()
    modifies fb.pixels
    ensures console.Valid() && console.fb == fb && fresh(console)
    ensures ShowsEnd(console.View(), Lines(text, |text|, Max(fb.width / FONT_WIDTH, 1)))
  {
    fb.Clear(bg);
    console := new Console(fb, font, fg, bg);
    console.WriteStr(text);
    ScreenShowsLastLines(Max(fb.width / FONT_WIDTH, 1), Max(fb.height / FONT_HEIGHT, 1), text, |text|);
  }
}
