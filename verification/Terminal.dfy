/** The character screen that the framebuffer console implements (src/drivers/framebuffer.rs), as a value. */
module Terminal {
  import opened Machine
  import opened Wrappers
  import opened Layout

  const NEWLINE: byte := 10

  /** A cell is blank or shows a character. */
  type Cell = Option<byte>

  datatype Screen = Screen(cols: nat, rows: nat, grid: seq<seq<Cell>>, row: nat, col: nat)

  function BlankRow(cols: nat): seq<Cell> { seq(cols, _ => None) }

  function BlankScreen(cols: nat, rows: nat): Screen {
    Screen(cols, rows, seq(rows, _ => BlankRow(cols)), 0, 0)
  }

  /** The grid has its size and the cursor lies inside it. */
  predicate Ok(s: Screen) {
    && s.row < s.rows == |s.grid| && s.col < s.cols
    && forall r :: 0 <= r < s.rows ==> |s.grid[r]| == s.cols
  }

  function Newline(s: Screen): Screen
    requires |s.grid| == s.rows && 0 < s.rows
  {
    if s.row + 1 >= s.rows then s.(grid := s.grid[1..] + [BlankRow(s.cols)], row := s.rows - 1, col := 0)
    else s.(row := s.row + 1, col := 0)
  }

  /** The character appears at the cursor. */
  function Shown(s: Screen, c: byte): Screen
    requires Ok(s)
  {
    s.(grid := s.grid[s.row := s.grid[s.row][s.col := Some(c)]], col := s.col + 1)
  }

  function Put(s: Screen, c: byte): (t: Screen)
    requires Ok(s)
    ensures Ok(t) && t.rows == s.rows && t.cols == s.cols
  {
    if c == NEWLINE then Newline(s)
    else if s.col + 1 >= s.cols then Newline(Shown(s, c))
    else Shown(s, c)
  }

  /** The screen after the first n bytes of a text. */
  function Typed(s: Screen, text: seq<byte>, n: nat): (t: Screen)
    requires Ok(s) && n <= |text|
    ensures Ok(t) && t.rows == s.rows && t.cols == s.cols
  {
    if n == 0 then s else Put(Typed(s, text, n - 1), text[n - 1])
  }

  // ---- What the screen shows: the end of the wrapped text -------------------

  /** One more byte on paper of a given width: a full line is followed by a new one, as is a newline. */
  function Grown(lines: seq<seq<byte>>, c: byte, cols: nat): seq<seq<byte>>
    requires lines != []
  {
    var k := |lines| - 1;
    if c == NEWLINE then lines + [[]]
    else
      var longer := lines[k := lines[k] + [c]];
      if |lines[k]| + 1 >= cols then longer + [[]] else longer
  }

  /** The first n bytes of a text as lines. */
  function Lines(text: seq<byte>, n: nat, cols: nat): (lines: seq<seq<byte>>)
    requires n <= |text|
    ensures lines != []
  {
    if n == 0 then [[]] else Grown(Lines(text, n - 1, cols), text[n - 1], cols)
  }

  /** A line at the left of a row, blanks after it. */
  function RowOf(line: seq<byte>, cols: nat): seq<Cell>
    requires |line| <= cols
  {
    seq(cols, c requires 0 <= c < cols => if c < |line| then Some(line[c]) else None)
  }

  /**
   Screen row r shows the line that is as far above the last line as r is above
   the cursor; rows below the cursor are blank.
  */
  ghost predicate ShowsEnd(s: Screen, lines: seq<seq<byte>>) {
    && s.row < s.rows == |s.grid| && lines != [] && (forall k :: 0 <= k < |lines| ==> |lines[k]| <= s.cols)
    && s.row == Min(|lines| - 1, s.rows - 1) && s.col == |lines[|lines| - 1]|
    && (forall r :: 0 <= r <= s.row ==> s.grid[r] == RowOf(lines[|lines| - 1 - s.row + r], s.cols))
    && (forall r :: s.row < r < s.rows ==> s.grid[r] == BlankRow(s.cols))
  }

  /** A character goes to the end of the last line. */
  lemma {:induction false} ShownAddsToLine(s: Screen, lines: seq<seq<byte>>, c: byte)
    requires Ok(s) && ShowsEnd(s, lines)
    ensures ShowsEnd(Shown(s, c), lines[|lines| - 1 := lines[|lines| - 1] + [c]])
  {
    var k := |lines| - 1;
    assert s.grid[s.row][s.col := Some(c)] == RowOf(lines[k] + [c], s.cols);
  }

  /** A new line starts empty, and the oldest visible line leaves a full screen. */
  lemma {:induction false} NewlineAddsLine(s: Screen, lines: seq<seq<byte>>)
    requires ShowsEnd(s, lines)
    ensures ShowsEnd(Newline(s), lines + [[]])
  {
    assert RowOf([], s.cols) == BlankRow(s.cols);
  }

  lemma {:induction false} PutGrows(s: Screen, lines: seq<seq<byte>>, c: byte)
    requires Ok(s) && ShowsEnd(s, lines)
    ensures ShowsEnd(Put(s, c), Grown(lines, c, s.cols))
  {
    if c == NEWLINE {
      NewlineAddsLine(s, lines);
    } else {
      ShownAddsToLine(s, lines, c);
      if s.col + 1 >= s.cols {
        NewlineAddsLine(Shown(s, c), lines[|lines| - 1 := lines[|lines| - 1] + [c]]);
      }
    }
  }

  lemma {:induction false} BlankShowsNothing(cols: nat, rows: nat)
    requires 0 < cols && 0 < rows
    ensures Ok(BlankScreen(cols, rows)) && ShowsEnd(BlankScreen(cols, rows), [[]])
  {
    assert RowOf([], cols) == BlankRow(cols);
  }

  /** After any text the screen shows exactly the last lines of it, wrapped at the screen's width. */
  lemma {:induction false} ScreenShowsLastLines(cols: nat, rows: nat, text: seq<byte>, n: nat)
    requires 0 < cols && 0 < rows && n <= |text|
    ensures ShowsEnd(Typed(BlankScreen(cols, rows), text, n), Lines(text, n, cols))
  {
    if n == 0 {
      BlankShowsNothing(cols, rows);
    } else {
      ScreenShowsLastLines(cols, rows, text, n - 1);
      PutGrows(Typed(BlankScreen(cols, rows), text, n - 1), Lines(text, n - 1, cols), text[n - 1]);
    }
  }

  function Flattened(lines: seq<seq<byte>>): seq<byte> {
    if lines == [] then [] else Flattened(lines[..|lines| - 1]) + lines[|lines| - 1]
  }

  function Printable(text: seq<byte>, n: nat): seq<byte>
    requires n <= |text|
  {
    if n == 0 then []
    else if text[n - 1] == NEWLINE then Printable(text, n - 1)
    else Printable(text, n - 1) + [text[n - 1]]
  }

  lemma {:induction false} FlattenedSnoc(lines: seq<seq<byte>>, line: seq<byte>)
    ensures Flattened(lines + [line]) == Flattened(lines) + line
  {
    assert (lines + [line])[..|lines|] == lines;
  }

  lemma {:induction false} GrownKeepsText(lines: seq<seq<byte>>, c: byte, cols: nat)
    requires lines != []
    ensures Flattened(Grown(lines, c, cols)) == Flattened(lines) + if c == NEWLINE then [] else [c]
  {
    var k := |lines| - 1;
    FlattenedSnoc(lines, []);
    var longer := lines[k := lines[k] + [c]];
    assert longer[..k] == lines[..k];
    FlattenedSnoc(longer, []);
  }

  /** Wrapping loses, adds and reorders nothing: the lines in sequence are the text without its newlines. */
  lemma {:induction false} LinesKeepText(text: seq<byte>, n: nat, cols: nat)
    requires n <= |text|
    ensures Flattened(Lines(text, n, cols)) == Printable(text, n)
  {
    if n > 0 {
      LinesKeepText(text, n - 1, cols);
      GrownKeepsText(Lines(text, n - 1, cols), text[n - 1], cols);
    }
  }

  // ---- Where lines break ---------------------------------------------------

  /** A newline ends a line, and the text after it is wrapped by itself. */
  lemma {:induction false} LinesSplitAtNewline(text: seq<byte>, m: nat, n: nat, cols: nat)
    requires m < n <= |text| && text[m] == 10
    ensures Lines(text, n, cols) == Lines(text, m, cols) + Lines(text[m + 1..], n - m - 1, cols)
  {
    var before, after := Lines(text, m, cols), text[m + 1..];
    if n == m + 1 {
      assert Lines(after, 0, cols) == [[]];
    } else {
      LinesSplitAtNewline(text, m, n - 1, cols);
      GrownAfter(before, Lines(after, n - m - 2, cols), text[n - 1], cols);
      assert after[n - m - 2] == text[n - 1];
    }
  }

  /** A character changes the last line only. */
  lemma {:induction false} GrownAfter(before: seq<seq<byte>>, lines: seq<seq<byte>>, c: byte, cols: nat)
    requires lines != []
    ensures Grown(before + lines, c, cols) == before + Grown(lines, c, cols)
  {
    var all, k := before + lines, |lines| - 1;
    assert all[|before| + k := all[|before| + k] + [c]] == before + lines[k := lines[k] + [c]];
  }

  /** Text without newlines breaks after every so many characters as the screen has columns. */
  lemma {:induction false} LinesOfPlainText(text: seq<byte>, n: nat, cols: nat)
    requires n <= |text| && cols > 0 && (forall i :: 0 <= i < n ==> text[i] != 10)
    ensures n % cols <= n && |Lines(text, n, cols)| == n / cols + 1
    ensures Lines(text, n, cols)[n / cols] == text[n - n % cols..n]
    ensures forall j :: 0 <= j < n / cols ==> Lines(text, n, cols)[j] == PlainLine(text, j, cols)
  {
    if n > 0 {
      LinesOfPlainText(text, n - 1, cols);
      NextColumn(n - 1, cols);
      var lines, k := Lines(text, n - 1, cols), (n - 1) / cols;
      var start := n - 1 - (n - 1) % cols;
      assert text[start..n - 1] + [text[n - 1]] == text[start..n];
      if (n - 1) % cols + 1 == cols {
        LineStart(n - 1, cols);
      }
    }
  }

  function PlainLine(text: seq<byte>, j: nat, cols: nat): seq<byte> {
    if cols * j + cols <= |text| then text[cols * j..cols * j + cols] else []
  }

  lemma {:induction false} LineStart(i: nat, cols: nat)
    requires cols > 0
    ensures i - i % cols == cols * (i / cols)
  {
  }

  lemma {:induction false} NextColumn(i: nat, cols: nat)
    requires cols > 0
    ensures i % cols + 1 == cols ==> (i + 1) / cols == i / cols + 1 && (i + 1) % cols == 0
    ensures i % cols + 1 < cols ==> (i + 1) / cols == i / cols && (i + 1) % cols == i % cols + 1
  {
    var q, r := i / cols, i % cols;
    if r + 1 == cols {
      DivMod(i + 1, cols, q + 1, 0);
    } else {
      DivMod(i + 1, cols, q, r + 1);
    }
  }
}
