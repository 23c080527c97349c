/** print.c: the 80x25 text screen, proved to show the tail of an unbounded, lazily wrapped transcript. */
module Transcript {
  datatype Cell = Cell(ch: char, color: nat)

  const COLS: nat := 80
  const ROWS: nat := 25

  type Line = seq<Cell>

  // ---------- the transcript, one character at a time ----------

  predicate IsNewline(c: Cell) {
    c.ch == '\n'
  }

  /** A character goes to the end of the last line; a full line is wrapped only when the next character comes. */
  function Put(lines: seq<Line>, c: Cell): (r: seq<Line>)
    requires lines != []
    ensures r != []
  {
    var n := |lines| - 1;
    if IsNewline(c) then lines + [[]]
    else if |lines[n]| >= 80 then lines + [[c]]
    else lines[..n] + [lines[n] + [c]]
  }

  function PutAll(lines: seq<Line>, text: seq<Cell>): (r: seq<Line>)
    requires lines != []
    ensures r != []
    decreases |text|
  {
    if text == [] then lines else PutAll(Put(lines, text[0]), text[1..])
  }

  /** What print_clear_char does when the last line is not empty */
  function Erase(lines: seq<Line>): seq<Line>
    requires lines != [] && lines[|lines| - 1] != []
  {
    var n := |lines| - 1;
    lines[..n] + [lines[n][..|lines[n]| - 1]]
  }

  /** Wrapping before the character or with it gives the same transcript. */
  lemma PutWrapped(lines: seq<Line>, c: Cell)
    requires lines != [] && |lines[|lines| - 1]| >= 80 && !IsNewline(c)
    ensures Put(lines + [[]], c) == Put(lines, c)
  {
    PutLast(lines, [], c);
    assert [] + [c] == [c];
  }

  // ---------- the transcript as a whole ----------

  /** A paragraph in lines of 80; the last one is the rest, and may be full */
  function Chunks(p: seq<Cell>): seq<Line>
    decreases |p|
  {
    if |p| <= 80 then [p] else [p[..80]] + Chunks(p[80..])
  }

  /** The length of the text before its first newline */
  function Paragraph(text: seq<Cell>): (i: nat)
    ensures i <= |text|
    decreases |text|
  {
    if text == [] || IsNewline(text[0]) then 0 else 1 + Paragraph(text[1..])
  }

  /** The lines of a whole text: its paragraphs, each in lines of 80 */
  function Layout(text: seq<Cell>): seq<Line>
    decreases |text|
  {
    var i := Paragraph(text);
    if i == |text| then Chunks(text) else Chunks(text[..i]) + Layout(text[i + 1..])
  }

  predicate Plain(p: seq<Cell>) {
    forall i :: 0 <= i < |p| ==> !IsNewline(p[i])
  }

  lemma {:induction false} ParagraphOf(p: seq<Cell>, rest: seq<Cell>)
    requires Plain(p) && (rest == [] || IsNewline(rest[0]))
    ensures Paragraph(p + rest) == |p|
    decreases |p|
  {
    if p == [] {
      assert p + rest == rest;
    } else {
      assert (p + rest)[1..] == p[1..] + rest;
      ParagraphOf(p[1..], rest);
    }
  }

  lemma {:induction false} ParagraphPlain(text: seq<Cell>)
    ensures Plain(text[..Paragraph(text)])
    ensures Paragraph(text) < |text| ==> IsNewline(text[Paragraph(text)])
    decreases |text|
  {
    if text != [] && !IsNewline(text[0]) {
      ParagraphPlain(text[1..]);
      var i := Paragraph(text[1..]);
      assert text[..i + 1] == [text[0]] + text[1..][..i];
    }
  }

  lemma LayoutOf(p: seq<Cell>, rest: seq<Cell>)
    requires Plain(p) && (rest == [] || IsNewline(rest[0]))
    ensures Layout(p + rest) == if rest == [] then Chunks(p) else Chunks(p) + Layout(rest[1..])
  {
    ParagraphOf(p, rest);
    var text := p + rest;
    assert text[..|p|] == p;
    if rest == [] {
      assert text == p;
    } else {
      assert text[|p| + 1..] == rest[1..];
    }
  }

  lemma ChunksFull(full: seq<Cell>, p: seq<Cell>)
    requires |full| == 80 && p != []
    ensures Chunks(full + p) == [full] + Chunks(p)
  {
    assert (full + p)[..80] == full && (full + p)[80..] == p;
  }

  /** A full line at the front of a longer paragraph is a line of its own. */
  lemma LayoutFull(full: seq<Cell>, text: seq<Cell>)
    requires |full| == 80 && Plain(full) && text != [] && !IsNewline(text[0])
    ensures Layout(full + text) == [full] + Layout(text)
  {
    var i := Paragraph(text);
    ParagraphPlain(text);
    var p, rest := text[..i], text[i..];
    assert text == p + rest;
    assert full + text == (full + p) + rest;
    LayoutOf(full + p, rest);
    LayoutOf(p, rest);
    ChunksFull(full, p);
    if rest != [] {
      SeqAssoc([full], Chunks(p), Layout(rest[1..]));
    }
  }

  lemma SeqAssoc<T>(a: seq<T>, b: seq<T>, c: seq<T>)
    ensures (a + b) + c == a + (b + c)
  {
  }

  lemma PutLast(lines: seq<Line>, cur: Line, c: Cell)
    requires !IsNewline(c)
    ensures Put(lines + [cur], c) == if |cur| >= 80 then lines + [cur] + [[c]] else lines + [cur + [c]]
  {
    assert (lines + [cur])[..|lines|] == lines;
  }

  /** Printing character by character lays out the whole text. */
  lemma {:induction false} PutAllIsLayout(lines: seq<Line>, cur: seq<Cell>, text: seq<Cell>)
    requires Plain(cur) && |cur| <= 80
    ensures PutAll(lines + [cur], text) == lines + Layout(cur + text)
    decreases |text|
  {
    LayoutOf(cur, []);
    if text == [] {
      assert cur + text == cur + [] == cur;
    } else {
      var c, rest := text[0], text[1..];
      if IsNewline(c) {
        PutAllIsLayout(lines + [cur], [], rest);
        assert [] + rest == rest;
        LayoutOf(cur, text);
        SeqAssoc(lines, [cur], Layout(rest));
      } else {
        PutLast(lines, cur, c);
        if |cur| == 80 {
          PutAllIsLayout(lines + [cur], [c], rest);
          assert [c] + rest == text;
          LayoutFull(cur, text);
          SeqAssoc(lines, [cur], Layout(text));
        } else {
          PutAllIsLayout(lines, cur + [c], rest);
          SeqAssoc(cur, [c], rest);
          assert [c] + rest == text;
        }
      }
    }
  }

  // ---------- the screen ----------

  /** Screen row r of the buffer */
  function Row(b: seq<Cell>, r: nat): seq<Cell>
    requires |b| == 2000 && r < 25
  {
    b[80 * r..80 * r + 80]
  }

  /** A row shows a line: its cells, then blanks. */
  ghost predicate RowShows(row: seq<Cell>, line: Line) {
    |line| <= |row| == 80 && row[..|line|] == line && forall c :: |line| <= c < 80 ==> row[c].ch == ' '
  }

  /** The number of lines that have scrolled off */
  function Above(lines: seq<Line>): nat {
    if |lines| > 25 then |lines| - 25 else 0
  }

  function LineAt(lines: seq<Line>, i: nat): Line {
    if i < |lines| then lines[i] else []
  }

  /** The screen shows the last 25 lines of the transcript, and the cursor is at its end. */
  ghost predicate Shows(b: seq<Cell>, row: nat, col: nat, lines: seq<Line>) {
    && |b| == 2000 && lines != []
    && row == |lines| - 1 - Above(lines) && col == |lines[|lines| - 1]|
    && forall r: nat :: r < 25 ==> RowShows(Row(b, r), LineAt(lines, Above(lines) + r))
  }

  /** The cursor is on the screen, or just behind the last column. */
  lemma CursorInside(b: seq<Cell>, row: nat, col: nat, lines: seq<Line>)
    requires Shows(b, row, col, lines)
    ensures row < 25 && col <= 80 && LineAt(lines, Above(lines) + row) == lines[|lines| - 1]
  {
    assert RowShows(Row(b, row), LineAt(lines, Above(lines) + row));
  }

  lemma OffScreen(b: seq<Cell>, row: nat, col: nat)
    requires col > 80
    ensures !exists ls: seq<Line> :: Shows(b, row, col, ls)
  {
    forall ls: seq<Line> | Shows(b, row, col, ls)
      ensures false
    {
      CursorInside(b, row, col, ls);
    }
  }

  lemma RowsAfterWrite(b: seq<Cell>, r: nat, c: nat, x: Cell)
    requires |b| == 2000 && r < 25 && c < 80
    ensures var b' := b[c + 80 * r := x];
            && Row(b', r) == Row(b, r)[c := x]
            && forall q: nat :: q < 25 && q != r ==> Row(b', q) == Row(b, q)
  {
    var b' := b[c + 80 * r := x];
    forall q: nat | q < 25 && q != r
      ensures Row(b', q) == Row(b, q)
    {
      if q < r {
        assert 80 * q + 80 <= 80 * r;
      } else {
        assert 80 * r + 80 <= 80 * q;
      }
    }
  }

  /** Writing a character at the cursor extends the last line. */
  lemma ShowsPut(b: seq<Cell>, row: nat, col: nat, lines: seq<Line>, x: Cell)
    requires Shows(b, row, col, lines) && col < 80 && !IsNewline(x)
    ensures row < 25 && Shows(b[col + 80 * row := x], row, col + 1, Put(lines, x))
  {
    CursorInside(b, row, col, lines);
    RowsAfterWrite(b, row, col, x);
    var n := |lines| - 1;
    var b', lines' := b[col + 80 * row := x], lines[..n] + [lines[n] + [x]];
    assert lines' == Put(lines, x) && Above(lines') == Above(lines);
    forall r: nat | r < 25
      ensures RowShows(Row(b', r), LineAt(lines', Above(lines) + r))
    {
      assert RowShows(Row(b, r), LineAt(lines, Above(lines) + r));
      if r == row {
        assert LineAt(lines', n) == lines[n] + [x];
      } else {
        assert LineAt(lines', Above(lines) + r) == LineAt(lines, Above(lines) + r);
      }
    }
  }

  /** Blanking the cell before the cursor takes the last character back. */
  lemma ShowsErase(b: seq<Cell>, row: nat, col: nat, lines: seq<Line>, x: Cell)
    requires Shows(b, row, col, lines) && col > 0 && x.ch == ' '
    ensures row < 25 && col <= 80 && Shows(b[col - 1 + 80 * row := x], row, col - 1, Erase(lines))
  {
    CursorInside(b, row, col, lines);
    RowsAfterWrite(b, row, col - 1, x);
    var b', lines' := b[col - 1 + 80 * row := x], Erase(lines);
    forall r: nat | r < 25
      ensures RowShows(Row(b', r), LineAt(lines', Above(lines') + r))
    {
      assert RowShows(Row(b, r), LineAt(lines, Above(lines) + r));
    }
  }

  /** A new line while there are rows below */
  lemma ShowsNextRow(b: seq<Cell>, row: nat, col: nat, lines: seq<Line>)
    requires Shows(b, row, col, lines) && row < 24
    ensures Shows(b, row + 1, 0, lines + [[]])
  {
    var lines' := lines + [[]];
    forall r: nat | r < 25
      ensures RowShows(Row(b, r), LineAt(lines', Above(lines') + r))
    {
      assert RowShows(Row(b, r), LineAt(lines, Above(lines) + r));
    }
  }

  /** A new line on the last row: everything moves up and the last row is blank. */
  lemma ShowsScrolled(b: seq<Cell>, col: nat, lines: seq<Line>, b': seq<Cell>)
    requires Shows(b, 24, col, lines) && |b'| == 2000
    requires forall k :: 0 <= k < 1920 ==> b'[k] == b[k + 80]
    requires forall k :: 1920 <= k < 2000 ==> b'[k].ch == ' '
    ensures Shows(b', 24, 0, lines + [[]])
  {
    var lines' := lines + [[]];
    forall r: nat | r < 25
      ensures RowShows(Row(b', r), LineAt(lines', Above(lines') + r))
    {
      if r < 24 {
        assert RowShows(Row(b, r + 1), LineAt(lines, Above(lines) + (r + 1)));
        assert Row(b', r) == Row(b, r + 1);
      }
    }
  }

  lemma ShowsCleared(b: seq<Cell>)
    requires |b| == 2000 && forall k :: 0 <= k < 2000 ==> b[k].ch == ' '
    ensures Shows(b, 0, 0, [[]])
  {
  }

  // ---------- the buffer, cell by cell ----------

  /** The number of lines that n cells take: n / 80, rounded up, and one for nothing */
  function LinesFor(n: nat): nat {
    if n == 0 then 1 else (n + 79) / 80
  }

  /** Line i of a paragraph is its cells from 80 i on, 80 at most. */
  lemma {:induction false} ChunkAt(p: seq<Cell>, i: nat)
    requires i < LinesFor(|p|)
    ensures |Chunks(p)| == LinesFor(|p|)
    ensures Chunks(p)[i] == p[80 * i..if 80 * i + 80 < |p| then 80 * i + 80 else |p|]
    decreases |p|
  {
    if |p| > 80 {
      if i == 0 {
        ChunkAt(p[80..], 0);
      } else {
        ChunkAt(p[80..], i - 1);
        assert Chunks(p)[i] == Chunks(p[80..])[i - 1];
      }
    } else {
      assert p[0..|p|] == p;
    }
  }

  /** On a cleared screen, a text of at most 2000 characters without a newline stands in the first cells of the buffer,
      in order, with blanks behind, and the cursor is behind it: in a full row it stays, behind the last column. */
  lemma TextOnScreen(b: seq<Cell>, row: nat, col: nat, text: seq<Cell>)
    requires Plain(text) && |text| <= 2000 && Shows(b, row, col, PutAll([[]], text))
    ensures forall k :: 0 <= k < |text| ==> b[k] == text[k]
    ensures forall k :: |text| <= k < 2000 ==> b[k].ch == ' '
    ensures 80 * row + col == |text| && (text != [] ==> col > 0)
  {
    PlainLayout(text);
    var lines := Chunks(text);
    ChunkAt(text, 0);
    ShownAt(b, row, col, lines, 0);
    CursorBehind(text, lines, row, col);
    forall k | 0 <= k < 2000
      ensures k < |text| ==> b[k] == text[k]
      ensures |text| <= k ==> b[k].ch == ' '
    {
      CellShown(b, row, col, text, lines, k / 80, k % 80, k);
    }
  }

  /** As long as nothing has scrolled off */
  lemma ShownAt(b: seq<Cell>, row: nat, col: nat, lines: seq<Line>, r: nat)
    requires Shows(b, row, col, lines) && |lines| <= 25 && r < 25
    ensures row == |lines| - 1 && col == |lines[row]| && RowShows(Row(b, r), LineAt(lines, r))
  {
    assert RowShows(Row(b, r), LineAt(lines, Above(lines) + r));
  }

  lemma CursorBehind(text: seq<Cell>, lines: seq<Line>, row: nat, col: nat)
    requires |text| <= 2000 && lines == Chunks(text) && row + 1 == |lines| && col == |lines[row]|
    ensures 80 * row + col == |text| && (text != [] ==> col > 0)
  {
    ChunkAt(text, LinesFor(|text|) - 1);
  }

  lemma PlainLayout(text: seq<Cell>)
    requires Plain(text)
    ensures PutAll([[]], text) == Chunks(text)
  {
    var none: seq<Line>, empty: seq<Cell> := [], [];
    PutAllIsLayout(none, empty, text);
    LayoutOf(text, empty);
    assert empty + text == text == text + empty;
    assert none + [empty] == [empty] && none + Chunks(text) == Chunks(text);
  }

  lemma RowCell(row: seq<Cell>, line: Line, c: nat)
    requires RowShows(row, line) && c < 80
    ensures if c < |line| then row[c] == line[c] else row[c].ch == ' '
  {
    if c < |line| {
      assert row[c] == row[..|line|][c];
    }
  }

  /** Cell c of line r, if there is one, is cell 80 r + c of the text. */
  lemma LineCell(text: seq<Cell>, r: nat, c: nat, k: nat)
    requires k == 80 * r + c && c < 80
    ensures k < |text| ==> r < |Chunks(text)| && c < |Chunks(text)[r]| && Chunks(text)[r][c] == text[k]
    ensures k >= |text| ==> c >= |LineAt(Chunks(text), r)|
  {
    ChunkAt(text, 0);
    if r < LinesFor(|text|) {
      ChunkAt(text, r);
    }
  }

  lemma CellShown(b: seq<Cell>, row: nat, col: nat, text: seq<Cell>, lines: seq<Line>, r: nat, c: nat, k: nat)
    requires lines == Chunks(text) && |lines| <= 25 && Shows(b, row, col, lines)
    requires r < 25 && c < 80 && k == 80 * r + c
    ensures k < |b|
    ensures k < |text| ==> b[k] == text[k]
    ensures k >= |text| ==> b[k].ch == ' '
  {
    ShownAt(b, row, col, lines, r);
    RowIs(b, r, c, k);
    LineCell(text, r, c, k);
    RowCell(Row(b, r), LineAt(lines, r), c);
  }

  lemma RowIs(b: seq<Cell>, r: nat, c: nat, k: nat)
    requires |b| == 2000 && r < 25 && c < 80 && k == 80 * r + c
    ensures Row(b, r)[c] == b[k]
  {
  }

  /** print_clear_char takes back what print_char has just printed, if and only if that was no newline and no new line
      was begun for it. */
  lemma EraseUndoes(lines: seq<Line>, c: Cell)
    requires lines != []
    ensures var after := Put(lines, c);
            after[|after| - 1] != [] && Erase(after) == lines <==> !IsNewline(c) && |lines[|lines| - 1]| < 80
  {
    var n := |lines| - 1;
    if !IsNewline(c) && |lines[n]| < 80 {
      var line := lines[n] + [c];
      assert line[..|line| - 1] == lines[n];
      assert lines[..n] + [lines[n]] == lines;
      assert (lines[..n] + [line])[..n] == lines[..n];
    }
  }
}

module Console {
  import opened Transcript
  import opened Bits

  class Console {
    const buffer: array<Cell>
    var row: nat
    var col: nat
    var color: nat
    ghost var lines: seq<Line>   // the transcript since the last print_clear

    ghost predicate Valid()
      reads this, buffer
    {
      Shows(buffer[..], row, col, lines)
    }

    constructor (buffer: array<Cell>)
      requires buffer.Length == 2000
      ensures this.buffer == buffer && row == 0 && col == 0
    {
      this.buffer := buffer;
      row, col, color, lines := 0, 0, 15, [[]];
    }

    /** clear_row also resets the cursor. */
    method ClearRow(currRow: nat)
      requires buffer.Length == 2000 && currRow < 25
      modifies this`row, this`col, buffer
      ensures row == 0 && col == 0
      ensures forall k :: 0 <= k < 2000 && (k < 80 * currRow || 80 * currRow + 80 <= k) ==> buffer[k] == old(buffer[k])
      ensures forall k :: 80 * currRow <= k < 80 * currRow + 80 ==> buffer[k] == Cell(' ', color)
    {
      var empty := Cell(' ', color);
      var c := 0;
      while c < COLS
        invariant 0 <= c <= 80
        invariant forall k ::
                    0 <= k < 2000 && (k < 80 * currRow || 80 * currRow + c <= k) ==> buffer[k] == old(buffer[k])
        invariant forall k :: 80 * currRow <= k < 80 * currRow + c ==> buffer[k] == empty
      {
        buffer[c + 80 * currRow] := empty;
        c := c + 1;
      }
      col := 0;
      row := 0;
    }

    method Clear()
      requires buffer.Length == 2000
      modifies this`row, this`col, this`lines, buffer
      ensures Valid() && lines == [[]]
    {
      var i := 0;
      while i < ROWS
        invariant 0 <= i <= 25
        invariant forall k :: 0 <= k < 80 * i ==> buffer[k].ch == ' '
        invariant i > 0 ==> row == 0 && col == 0
      {
        ClearRow(i);
        i := i + 1;
      }
      lines := [[]];
      ShowsCleared(buffer[..]);
    }

    method Newline()
      requires Valid()
      modifies this`row, this`col, this`lines, buffer
      ensures Valid() && lines == old(lines) + [[]] && col == 0
      ensures old(row) < 24 ==> row == old(row) + 1 && buffer[..] == old(buffer[..])
      ensures old(row) == 24 ==> row == 24 && buffer.Length == 2000
                                 && (forall k :: 0 <= k < 1920 ==> buffer[k] == old(buffer[k + 80]))
                                 && forall k :: 1920 <= k < 2000 ==> buffer[k] == Cell(' ', color)
    {
      CursorInside(buffer[..], row, col, lines);
      ghost var b0, col0 := buffer[..], col;
      col := 0;
      if row < ROWS - 1 {
        ShowsNextRow(b0, row, col0, lines);
        row := row + 1;
        lines := lines + [[]];
        return;
      }
      ScrollUp();
      ClearRow(ROWS - 1);
      row := ROWS - 1;
      ShowsScrolled(b0, col0, lines, buffer[..]);
      lines := lines + [[]];
    }

    /** The copy loops of print_newline: each row goes one row up. */
    method ScrollUp()
      requires buffer.Length == 2000
      modifies buffer
      ensures forall k :: 0 <= k < 1920 ==> buffer[k] == old(buffer[k + 80])
    {
      var crow := 1;
      while crow < ROWS
        invariant 1 <= crow <= 25
        invariant forall k :: 0 <= k < 80 * (crow - 1) ==> buffer[k] == old(buffer[k + 80])
        invariant forall k :: 80 * (crow - 1) <= k < 2000 ==> buffer[k] == old(buffer[k])
      {
        var c := 0;
        while c < COLS
          invariant 0 <= c <= 80
          invariant forall k :: 0 <= k < 80 * (crow - 1) + c ==> buffer[k] == old(buffer[k + 80])
          invariant forall k :: 80 * (crow - 1) + c <= k < 2000 ==> buffer[k] == old(buffer[k])
        {
          buffer[c + 80 * (crow - 1)] := buffer[c + 80 * crow];
          c := c + 1;
        }
        crow := crow + 1;
      }
    }

    method PrintChar(character: char)
      requires Valid()
      modifies this`row, this`col, this`lines, buffer
      ensures Valid() && lines == Put(old(lines), Cell(character, color))
    {
      if character == '\n' {
        Newline();
        return;
      }
      ghost var lines0 := lines;
      CursorInside(buffer[..], row, col, lines);
      if col >= COLS {
        Newline();
        PutWrapped(lines0, Cell(character, color));
      }
      PutCell(Cell(character, color));
    }

    /** The end of print_char: a character in the current row */
    method PutCell(x: Cell)
      requires Valid() && col < 80 && x.ch != '\n'
      modifies this`col, this`lines, buffer
      ensures Valid() && lines == Put(old(lines), x)
    {
      CursorInside(buffer[..], row, col, lines);
      ghost var b0, col0 := buffer[..], col;
      var at := col + 80 * row;
      buffer[at] := x;
      col := col + 1;
      PutIs(b0, row, col0, lines, x, at, buffer[..], col);
      lines := Put(lines, x);
    }

    method PrintStr(str: string)
      requires Valid()
      modifies this`row, this`col, this`lines, buffer
      ensures Valid() && lines == PutAll(old(lines), Colored(str, color))
    {
      var i := 0;
      while i < |str|
        invariant 0 <= i <= |str| && Valid()
        invariant PutAll(lines, Colored(str[i..], color)) == PutAll(old(lines), Colored(str, color))
      {
        assert Colored(str[i..], color)[1..] == Colored(str[i + 1..], color);
        PrintChar(str[i]);
        i := i + 1;
      }
      assert Colored(str[i..], color) == [];
    }

    /** print_clear_char.  At column 0 the cursor wraps around, and the screen shows no transcript any more. */
    method ClearChar()
      requires Valid() && (col > 0 || row > 0)
      modifies this`col, this`lines, buffer
      ensures old(col) > 0 ==> Valid() && lines == Erase(old(lines))
      ensures (exists ls: seq<Line> :: Shows(buffer[..], row, col, ls)) <==> old(col) > 0
    {
      CursorInside(buffer[..], row, col, lines);
      ghost var b0, col0 := buffer[..], col;
      EraseAt(row, col);
      col := Wrap(col - 1);
      var at := Wrap(col + 80 * row);
      var empty := Cell(' ', color);
      buffer[at] := empty;
      assert buffer[..] == b0[at := empty];
      Erased(b0, col0, at, empty);
    }

    /** The transcript after print_clear_char, if there is one */
    ghost method Erased(b0: seq<Cell>, col0: nat, at: nat, empty: Cell)
      requires Shows(b0, row, col0, lines) && empty.ch == ' ' && at < |b0| && at == col0 - 1 + 80 * row
      requires buffer[..] == b0[at := empty] && (if col0 > 0 then col == col0 - 1 else col > 80)
      modifies this`lines
      ensures col0 > 0 ==> Valid() && lines == Erase(old(lines))
      ensures (exists ls: seq<Line> :: Shows(buffer[..], row, col, ls)) <==> col0 > 0
    {
      if col0 > 0 {
        ShowsErase(b0, row, col0, lines, empty);
        lines := Erase(lines);
      } else {
        OffScreen(buffer[..], row, col);
      }
    }

    /** print_int: its 20-character buffer always has room. */
    method PrintInt(number: nat)
      requires Valid() && number < U64
      modifies this`row, this`col, this`lines, buffer
      ensures Valid() && lines == PutAll(old(lines), Colored(Decimal(number), color))
    {
      ghost var text := Decimal(number);
      if number == 0 {
        PrintChar('0');
        PutAllOne(old(lines), Colored(text, color));
        return;
      }
      var digits, count := DigitsBackwards(number);
      var i := count - 1;
      ghost var was := lines;
      while i >= 0
        invariant -1 <= i < count && Valid()
        invariant PutAll(lines, Colored(Reversed(digits[..i + 1]), color)) == PutAll(was, Colored(text, color))
      {
        assert digits[..i + 1] == digits[..i] + [digits[i]];
        ReversedSnoc(digits[..i], digits[i]);
        assert Colored(Reversed(digits[..i + 1]), color)[1..] == Colored(Reversed(digits[..i]), color);
        PrintChar(digits[i]);
        i := i - 1;
      }
    }

    method SetColor(foreground: nat, background: nat)
      modifies this`color
      ensures color == (foreground + background * 16) % 256
    {
      color := (foreground + background * 16) % 256;
    }
  }

  /** For instance, after a newline at the top of a blank screen: the cell before the row is cleared, and the cursor,
      2^64 - 1 columns to the right, is at the end of no transcript. */
  lemma ClearCharAtColumnZero(b: seq<Cell>, x: Cell, ls: seq<Line>)
    requires |b| == 2000 && x.ch == ' ' && forall k :: 0 <= k < 2000 ==> b[k].ch == ' '
    ensures Shows(b, 1, 0, [[], []])
    ensures !Shows(b[79 := x], 1, Wrap(-1), ls)
  {
    ShowsCleared(b);
    var top: seq<Line> := [[]];
    ShowsNextRow(b, 0, 0, top);
    assert top + [[]] == [[], []];
    if Shows(b[79 := x], 1, Wrap(-1), ls) {
      CursorInside(b[79 := x], 1, Wrap(-1), ls);
    }
  }

  lemma PutIs(b: seq<Cell>, row: nat, col: nat, lines: seq<Line>, x: Cell, at: nat, b1: seq<Cell>, col1: nat)
    requires Shows(b, row, col, lines) && col < 80 && !IsNewline(x)
    requires at == col + 80 * row && at < |b| && b1 == b[at := x] && col1 == col + 1
    ensures Shows(b1, row, col1, Put(lines, x))
  {
    ShowsPut(b, row, col, lines, x);
  }

  /** The unsigned arithmetic of print_clear_char */
  lemma EraseAt(row: nat, col: nat)
    requires row < 25 && col <= 80 && (col > 0 || row > 0)
    ensures col > 0 ==> Wrap(col - 1) == col - 1
    ensures col == 0 ==> Wrap(col - 1) > 80
    ensures Wrap(Wrap(col - 1) + 80 * row) == col - 1 + 80 * row < 2000
  {
  }

  /** A string printed in one colour */
  function Colored(str: string, color: nat): (r: seq<Cell>)
    ensures |r| == |str| && forall i :: 0 <= i < |str| ==> r[i] == Cell(str[i], color)
  {
    seq(|str|, i requires 0 <= i < |str| => Cell(str[i], color))
  }

  // ---------- decimal numbers ----------

  function Leading(n: nat): string {
    if n == 0 then "" else Decimal(n)
  }

  lemma DigitStep(n: nat, done: string)
    requires n > 0
    ensures Leading(n) + Reversed(done) == Leading(n / 10) + Reversed(done + [DigitOf(n % 10)])
  {
    ReversedSnoc(done, DigitOf(n % 10));
  }

  lemma TwentyDigits()
    ensures U64 <= PowerOfTen(20)
  {
    assert PowerOfTen(4) == 10000;
    assert PowerOfTen(8) == 10000 * PowerOfTen(4);
    assert PowerOfTen(12) == 10000 * PowerOfTen(8);
    assert PowerOfTen(16) == 10000 * PowerOfTen(12);
    assert PowerOfTen(20) == 10000 * PowerOfTen(16);
  }

  /** The first loop of print_int, last digit first */
  method DigitsBackwards(number: nat) returns (digits: array<char>, count: nat)
    requires 0 < number < U64
    ensures fresh(digits) && count <= digits.Length && Reversed(digits[..count]) == Decimal(number)
  {
    var n := number;
    digits := new char[20];
    count := 0;
    TwentyDigits();
    while n > 0
      invariant 0 <= n && count <= 20 && n < PowerOfTen(20 - count)
      invariant Decimal(number) == Leading(n) + Reversed(digits[..count])
    {
      ghost var done := digits[..count];
      digits[count] := DigitOf(n % 10);
      count := count + 1;
      assert digits[..count] == done + [DigitOf(n % 10)];
      DigitStep(n, done);
      n := n / 10;
    }
  }

  function DigitOf(d: nat): char
    requires d < 10
  {
    '0' + d as char
  }

  function PowerOfTen(k: nat): nat {
    if k == 0 then 1 else 10 * PowerOfTen(k - 1)
  }

  /** The decimal numeral of n */
  function Decimal(n: nat): (r: string)
    ensures r != ""
  {
    (if n < 10 then "" else Decimal(n / 10)) + [DigitOf(n % 10)]
  }

  /** The number that a numeral stands for */
  function ValueOf(s: string): int {
    if s == "" then 0 else 10 * ValueOf(s[..|s| - 1]) + (s[|s| - 1] as int - '0' as int)
  }

  /** The numeral reads back as the number and has no leading zero. */
  lemma {:induction false} DecimalIsNumeral(n: nat)
    ensures ValueOf(Decimal(n)) == n
    ensures forall i :: 0 <= i < |Decimal(n)| ==> '0' <= Decimal(n)[i] <= '9'
    ensures n > 0 ==> Decimal(n)[0] != '0'
  {
    if n >= 10 {
      DecimalIsNumeral(n / 10);
      assert Decimal(n)[..|Decimal(n)| - 1] == Decimal(n / 10);
    }
  }

  function Reversed(s: string): (r: string)
    ensures |r| == |s|
  {
    if s == "" then "" else Reversed(s[1..]) + [s[0]]
  }

  lemma {:induction false} ReversedSnoc(s: string, c: char)
    ensures Reversed(s + [c]) == [c] + Reversed(s)
  {
    if s == "" {
      assert s + [c] == [c];
    } else {
      assert (s + [c])[1..] == s[1..] + [c];
      ReversedSnoc(s[1..], c);
    }
  }

  lemma PutAllOne(lines: seq<Line>, text: seq<Cell>)
    requires lines != [] && |text| == 1
    ensures PutAll(lines, text) == Put(lines, text[0])
  {
  }
}
