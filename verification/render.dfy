/**
 * The frame `editorRefreshScreen` assembles (before the single `write`
 * that sends it), as a function of the editor state: hide the cursor, go
 * home, draw every screen row, place the cursor, show it again.
 */
module Render {
  import opened Bytes
  import opened Decimal
  import opened Document

  /** What drawing depends on: the rows, the window and the cursor. */
  datatype Screen = Screen(
    rows: seq<Row>,
    rowOffset: int,
    screenRows: int,
    screenColumns: int,
    cursorX: int,
    cursorY: int)

  /** The states the editor can draw: a window at or below the top, sizes that are not negative. */
  predicate Drawable(s: Screen)
  {
    && s.rowOffset >= 0 && s.screenRows >= 0 && s.screenColumns >= 0
    && forall i :: 0 <= i < |s.rows| ==> WellFormed(s.rows[i])
  }

  /** `ESC [ ? 25 l`, hide the cursor. */
  const HideCursor: seq<Byte> := [ESC, LeftBracket, '?' as int, '2' as int, '5' as int, 'l' as int]
  /** `ESC [ H`, cursor to the top left. */
  const CursorHome: seq<Byte> := [ESC, LeftBracket, 'H' as int]
  /** `ESC [ K`, erase to the end of the line. */
  const EraseLine: seq<Byte> := [ESC, LeftBracket, 'K' as int]
  /** `ESC [ ? 25 h`, show the cursor. */
  const ShowCursor: seq<Byte> := [ESC, LeftBracket, '?' as int, '2' as int, '5' as int, 'h' as int]
  const CrLf: seq<Byte> := [CR, NL]
  const Space: Byte := ' ' as int
  /** `"kilo editor -- version %s"` with `KILO_VERSION` "0.0.1". */
  const WelcomeText: seq<Byte> := Ascii("kilo editor -- version 0.0.1")

  /** The byte counts `editorRefreshScreen` and `editorDrawRows` pass with these sequences. */
  lemma EscapeLengths()
    ensures |HideCursor| == 6 && |CursorHome| == 3 && |EraseLine| == 3 && |ShowCursor| == 6 && |CrLf| == 2
  {
  }

  function Spaces(n: nat): seq<Byte>
  {
    seq(n, i => Space)
  }

  /**
   * The welcome line: the message cut to the screen width, centred by a
   * `~` and spaces in front of it.
   */
  function Welcome(screenColumns: int): (r: seq<Byte>)
    requires screenColumns >= 0
    ensures |r| <= screenColumns
  {
    var len := Min(|WelcomeText|, screenColumns);
    var padding := (screenColumns - len) / 2;
    (if padding != 0 then [Tilde] + Spaces(padding - 1) else []) + WelcomeText[..len]
  }

  /** A document row cut to the screen width. */
  function RowText(row: Row, screenColumns: int): (r: seq<Byte>)
    requires WellFormed(row) && screenColumns >= 0
    ensures |r| <= screenColumns && |r| <= |row.chars| && r == row.chars[..|r|]
    ensures r == row.chars || |r| == screenColumns
  {
    row.chars[..Min(row.size, screenColumns)]
  }

  /** What screen row y shows, before its erase-to-end-of-line. */
  function ScreenLine(s: Screen, y: int): (r: seq<Byte>)
    requires Drawable(s) && 0 <= y
    ensures |r| <= s.screenColumns || r == [Tilde]
  {
    var fileRow := y + s.rowOffset;
    if fileRow >= |s.rows| then
      if |s.rows| == 0 && y == s.screenRows / 3 then Welcome(s.screenColumns) else [Tilde]
    else RowText(s.rows[fileRow], s.screenColumns)
  }

  /** Screen row y as `editorDrawRows` appends it: erased to its end, then a line break unless it is the last. */
  function DrawnRow(s: Screen, y: int): (r: seq<Byte>)
    requires Drawable(s) && 0 <= y
    ensures |r| >= 3
  {
    ScreenLine(s, y) + EraseLine + (if y < s.screenRows - 1 then CrLf else [])
  }

  /** The first n screen rows as `editorDrawRows` appends them. */
  function DrawnRows(s: Screen, n: nat): (r: seq<Byte>)
    requires Drawable(s) && n <= s.screenRows
    ensures |r| >= 3 * n
  {
    if n == 0 then [] else DrawnRows(s, n - 1) + DrawnRow(s, n - 1)
  }

  /** `ESC [ row ; col H`, the cursor to a 1-based position. */
  function CursorTo(row: int, col: int): (r: seq<Byte>)
    ensures |r| >= 6 && r[..2] == [ESC, LeftBracket]
  {
    [ESC, LeftBracket] + FormatInt(row) + [Semicolon] + FormatInt(col) + ['H' as int]
  }

  /** The whole frame. */
  function Frame(s: Screen): (r: seq<Byte>)
    requires Drawable(s)
    ensures |r| >= 15
  {
    FrameOf(DrawnRows(s, s.screenRows), CursorTo(s.cursorY - s.rowOffset + 1, s.cursorX + 1))
  }

  /** A frame with the given screen rows and cursor escape. */
  function FrameOf(rows: seq<Byte>, cursor: seq<Byte>): (r: seq<Byte>)
    ensures |r| == 9 + |rows| + |cursor| + 6
  {
    HideCursor + CursorHome + rows + cursor + ShowCursor
  }

  /**
   * Rows are cut, never wrapped: a document row shows its first bytes, all
   * of it when it fits and exactly the screen width when it does not; and
   * no screen row is wider than the screen.
   */
  lemma ScreenLineFits(s: Screen, y: int)
    requires Drawable(s) && 0 <= y && s.screenColumns >= 1
    ensures |ScreenLine(s, y)| <= s.screenColumns
    ensures y + s.rowOffset < |s.rows| ==>
      var chars, line := s.rows[y + s.rowOffset].chars, ScreenLine(s, y);
      && line == chars[..|line|]
      && (line == chars || |line| == s.screenColumns)
  {
    if y + s.rowOffset >= |s.rows| && |s.rows| == 0 && y == s.screenRows / 3 {
      WelcomeCentred(s.screenColumns);
    }
  }

  /**
   * The welcome line is the message, cut to the width, after a run of
   * padding that starts with `~` and goes on with spaces; the padding is
   * half the room left, so the message is centred (the space after it
   * exceeds the padding by at most one).
   */
  lemma WelcomeCentred(screenColumns: int)
    requires screenColumns >= 0
    ensures var w, len := Welcome(screenColumns), Min(|WelcomeText|, screenColumns);
      var lead := |w| - len;
      && 0 <= lead && w[lead..] == WelcomeText[..len]
      && lead <= screenColumns - |w| <= lead + 1
      && (lead > 0 ==> w[0] == Tilde && forall i :: 1 <= i < lead ==> w[i] == Space)
  {
  }

  /** On an 80-column screen the welcome line is `~`, 25 spaces and the 28-byte message. */
  lemma WelcomeOn80Columns()
    ensures |WelcomeText| == 28
    ensures Welcome(80) == [Tilde] + Spaces(25) + WelcomeText
  {
    assert WelcomeText[..28] == WelcomeText;
  }

  /** The number of times b occurs in s. */
  function Count(b: Byte, s: seq<Byte>): nat
  {
    if s == [] then 0 else (if s[0] == b then 1 else 0) + Count(b, s[1..])
  }

  lemma {:induction false} CountConcat(b: Byte, s: seq<Byte>, t: seq<Byte>)
    ensures Count(b, s + t) == Count(b, s) + Count(b, t)
    decreases |s|
  {
    if s != [] {
      assert (s + t)[1..] == s[1..] + t;
      CountConcat(b, s[1..], t);
    } else {
      assert s + t == t;
    }
  }

  /** The occurrences of b in four strings put together add up. */
  lemma CountConcat4(b: Byte, p: seq<Byte>, q: seq<Byte>, r: seq<Byte>, t: seq<Byte>)
    ensures Count(b, p + q + r + t) == Count(b, p) + Count(b, q) + Count(b, r) + Count(b, t)
  {
    CountConcat(b, p, q);
    CountConcat(b, p + q, r);
    CountConcat(b, p + q + r, t);
  }

  lemma {:induction false} CountAbsent(b: Byte, s: seq<Byte>)
    requires forall i :: 0 <= i < |s| ==> s[i] != b
    ensures Count(b, s) == 0
    decreases |s|
  {
    if s != [] {
      CountAbsent(b, s[1..]);
    }
  }

  predicate NoNewline(s: seq<Byte>)
  {
    forall i :: 0 <= i < |s| ==> s[i] != NL
  }

  /** No screen row holds a `\n` when no document row does. */
  lemma ScreenLineOneLine(s: Screen, y: int)
    requires Drawable(s) && 0 <= y
    requires forall k :: 0 <= k < |s.rows| ==> NoNewline(s.rows[k].chars)
    ensures Count(NL, ScreenLine(s, y)) == 0
  {
    var line := ScreenLine(s, y);
    if y + s.rowOffset >= |s.rows| && |s.rows| == 0 && y == s.screenRows / 3 {
      WelcomeOneLine(s.screenColumns);
    } else if y + s.rowOffset < |s.rows| {
      var chars := s.rows[y + s.rowOffset].chars;
      assert NoNewline(chars);
      assert line == chars[..|line|];
      assert NoNewline(line);
    }
    CountAbsent(NL, line);
  }

  /** The welcome line holds no `\n`. */
  lemma WelcomeOneLine(screenColumns: int)
    requires screenColumns >= 0
    ensures NoNewline(Welcome(screenColumns))
  {
    var len := Min(|WelcomeText|, screenColumns);
    var padding := (screenColumns - len) / 2;
    var lead: seq<Byte> := if padding != 0 then [Tilde] + Spaces(padding - 1) else [];
    var text := WelcomeText[..len];
    WelcomeTextOneLine();
    assert NoNewline(text);
    assert NoNewline(lead);
    assert Welcome(screenColumns) == lead + text;
  }

  lemma WelcomeTextOneLine()
    ensures NoNewline(WelcomeText)
  {
    AsciiOneLine("kilo editor -- version 0.0.1");
  }

  /** Text with no line feed character encodes to bytes with no line feed. */
  lemma AsciiOneLine(s: string)
    requires forall i :: 0 <= i < |s| ==> s[i] as int < 256 && s[i] != '\n'
    ensures NoNewline(Ascii(s))
  {
  }

  /** The cursor escape holds no line break. */
  lemma CursorToOneLine(row: int, col: int)
    ensures Count(NL, CursorTo(row, col)) == 0
  {
    var lead: seq<Byte> := [ESC, LeftBracket];
    var r, c := FormatInt(row), FormatInt(col);
    CountAbsent(NL, r);
    CountAbsent(NL, c);
    CountAbsent(NL, lead);
    CountAbsent(NL, [Semicolon]);
    CountAbsent(NL, ['H' as int]);
    CountConcat(NL, lead, r);
    CountConcat(NL, lead + r, [Semicolon]);
    CountConcat(NL, lead + r + [Semicolon], c);
    CountConcat(NL, lead + r + [Semicolon] + c, ['H' as int]);
  }

  lemma LineBreaks()
    ensures Count(NL, CrLf) == 1
    ensures Count(NL, EraseLine) == 0
    ensures Count(NL, HideCursor + CursorHome) == 0
    ensures Count(NL, ShowCursor) == 0
  {
    assert Count(NL, CrLf[1..][1..]) == 0;
    assert Count(NL, CrLf[1..]) == 1;
    CountAbsent(NL, EraseLine);
    CountAbsent(NL, HideCursor + CursorHome);
    CountAbsent(NL, ShowCursor);
  }

  /** A drawn screen row ends in a line break unless it is the screen's last. */
  lemma DrawnRowLines(s: Screen, y: int)
    requires Drawable(s) && 0 <= y
    requires forall k :: 0 <= k < |s.rows| ==> NoNewline(s.rows[k].chars)
    ensures Count(NL, DrawnRow(s, y)) == if y < s.screenRows - 1 then 1 else 0
  {
    var line := ScreenLine(s, y);
    var sep: seq<Byte> := if y < s.screenRows - 1 then CrLf else [];
    ScreenLineOneLine(s, y);
    LineBreaks();
    CountConcat(NL, line, EraseLine);
    CountConcat(NL, line + EraseLine, sep);
    assert Count(NL, sep) == if y < s.screenRows - 1 then 1 else 0;
  }

  /** Each of the first n screen rows but the screen's last is followed by a line break. */
  lemma {:induction false} DrawnRowsLines(s: Screen, n: nat)
    requires Drawable(s) && n <= s.screenRows
    requires forall k :: 0 <= k < |s.rows| ==> NoNewline(s.rows[k].chars)
    ensures Count(NL, DrawnRows(s, n)) == if 0 < n == s.screenRows then n - 1 else n
  {
    if n > 0 {
      DrawnRowsLines(s, n - 1);
      DrawnRowLines(s, n - 1);
      CountConcat(NL, DrawnRows(s, n - 1), DrawnRow(s, n - 1));
    }
  }

  /**
   * A frame of a document without `\n` bytes puts each screen row on a
   * line of its own: it holds exactly one line break between consecutive
   * rows and none anywhere else.
   */
  lemma FrameLines(s: Screen)
    requires Drawable(s)
    requires forall k :: 0 <= k < |s.rows| ==> NoNewline(s.rows[k].chars)
    ensures Count(NL, Frame(s)) == if s.screenRows == 0 then 0 else s.screenRows - 1
  {
    FrameBreaksAreRowBreaks(s);
    DrawnRowsLines(s, s.screenRows);
  }

  /** The only line breaks of a frame are those between its drawn rows. */
  lemma FrameBreaksAreRowBreaks(s: Screen)
    requires Drawable(s)
    ensures Count(NL, Frame(s)) == Count(NL, DrawnRows(s, s.screenRows))
  {
    var row, col := s.cursorY - s.rowOffset + 1, s.cursorX + 1;
    LineBreaks();
    CursorToOneLine(row, col);
    BreaksOnlyInside(HideCursor + CursorHome, DrawnRows(s, s.screenRows), CursorTo(row, col), ShowCursor);
  }

  /** Put between strings without line breaks, a string keeps its line breaks and no more. */
  lemma BreaksOnlyInside(head: seq<Byte>, middle: seq<Byte>, cursor: seq<Byte>, tail: seq<Byte>)
    requires Count(NL, head) == 0 && Count(NL, cursor) == 0 && Count(NL, tail) == 0
    ensures Count(NL, head + middle + cursor + tail) == Count(NL, middle)
  {
    CountConcat4(NL, head, middle, cursor, tail);
  }
}
