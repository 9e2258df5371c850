/**
 * The editor state `E` and the operations that update it in place:
 * loading rows, scrolling, moving the cursor, dispatching a key, and
 * assembling a frame in an append buffer.
 */
module Editor {
  import opened Bytes
  import opened Wrappers
  import opened KeyDecoder
  import opened Document
  import opened AppendBuffer
  import opened Viewport
  import opened Render

  /** What dispatching a key leads to: go on, or quit after drawing a last frame. */
  datatype Dispatch = Continue | Quit(finalFrame: seq<Byte>)

  /** `CTRL_KEY('q')`, the quit key. */
  const QuitKey: Byte := CtrlKey('q' as int)

  /** The quit key is byte 0x11, which Ctrl-Q sends whichever the case of the letter. */
  lemma QuitKeyValue()
    ensures QuitKey == 0x11 && QuitKey == CtrlKey('Q' as int)
  {
  }

  /** Rows without line feeds, followed by the rows loaded from a file, hold no line feed. */
  lemma LoadedRowsOneLine(rows: seq<Row>, content: seq<Byte>)
    requires forall k :: 0 <= k < |rows| ==> NoNewline(rows[k].chars)
    ensures var all := rows + RowsOf(Lines(content));
      forall k :: 0 <= k < |all| ==> NoNewline(all[k].chars)
  {
    RowsOfFile(content);
    var added := RowsOf(Lines(content));
    forall k | 0 <= k < |rows + added|
      ensures NoNewline((rows + added)[k].chars)
    {
      if k >= |rows| {
        assert (rows + added)[k].chars == Lines(content)[k - |rows|];
      }
    }
  }

  /** `struct editorState`, without the saved terminal settings. */
  class EditorState {
    var cursorX: int
    var cursorY: int
    var rowOffset: int
    var screenRows: int
    var screenColumns: int
    var totalRows: int
    var rows: seq<Row>

    /**
     * The row count matches the rows, each row's size its bytes; the
     * cursor is on a row of the document or the one after it; the window
     * starts at or below the top; the screen sizes are not negative.
     */
    ghost predicate Valid()
      reads this
    {
      && totalRows == |rows|
      && (forall i :: 0 <= i < |rows| ==> WellFormed(rows[i]))
      && 0 <= cursorY <= totalRows
      && rowOffset >= 0 && screenRows >= 0 && screenColumns >= 0
    }

    /** No row holds a line feed, as is so for every row `editorOpen` loads. */
    ghost predicate OneLineRows()
      reads this
    {
      forall k :: 0 <= k < |rows| ==> NoNewline(rows[k].chars)
    }

    function Position(): Cursor
      reads this
    {
      Cursor(cursorX, cursorY)
    }

    function View(): Screen
      reads this
    {
      Screen(rows, rowOffset, screenRows, screenColumns, cursorX, cursorY)
    }

    /** `initEditor`, given the window size `getWindowSize` found. */
    constructor (screenRows: nat, screenColumns: nat)
      ensures Valid()
      ensures cursorX == 0 && cursorY == 0 && rowOffset == 0
      ensures totalRows == 0 && rows == [] && OneLineRows()
      ensures this.screenRows == screenRows && this.screenColumns == screenColumns
    {
      cursorX, cursorY := 0, 0;
      rowOffset := 0;
      totalRows := 0;
      rows := [];
      this.screenRows := screenRows;
      this.screenColumns := screenColumns;
    }

    /** `editorAppendRow(s, length)`: a new last row holding the first length bytes of s. */
    method AppendRow(s: seq<Byte>, length: nat)
      requires Valid() && length <= |s|
      modifies this`rows, this`totalRows
      ensures Valid()
      ensures rows == old(rows) + [Row(length, s[..length])]
      ensures totalRows == old(totalRows) + 1
    {
      rows := rows + [Row(length, s[..length])];
      totalRows := totalRows + 1;
    }

    /**
     * `editorOpen`: appends one row per line of the file, in order, each
     * without its trailing `\n` and `\r` bytes. `file` is the file's
     * contents, None when `fopen` fails; then nothing is loaded and the
     * result is false (the source calls `die`).
     */
    method Open(file: Option<seq<Byte>>) returns (loaded: bool)
      requires Valid()
      modifies this`rows, this`totalRows
      ensures Valid()
      ensures loaded == file.Some?
      ensures rows == old(rows) + (if file.Some? then RowsOf(Lines(file.value)) else [])
      ensures old(OneLineRows()) ==> OneLineRows()
    {
      if file.None? {
        return false;
      }
      var content := file.value;
      ghost var lines := Lines(content);
      var pos := 0;
      ghost var k := 0;
      LoadStart(content);
      while pos < |content|
        invariant Valid()
        invariant Remaining(content, pos, k)
        invariant rows == old(rows) + RowsOf(lines[..k])
        decreases |content| - pos
      {
        var line := GetLine(content, pos, k);
        pos, k := pos + |line|, k + 1;
        var linelen := StripLineEnd(line);
        AppendRow(line, linelen);
        RowsOfSnoc(lines, k - 1);
      }
      LoadEnd(content, k);
      assert lines[..k] == lines;
      if old(OneLineRows()) {
        LoadedRowsOneLine(old(rows), content);
      }
      return true;
    }

    /**
     * `getline` on the file at position pos: the next line, up to and
     * including its `\n`, which is the next piece of the file and loads
     * as the next line.
     */
    static method GetLine(content: seq<Byte>, pos: nat, ghost k: nat) returns (line: seq<Byte>)
      requires Remaining(content, pos, k) && pos < |content|
      ensures line != [] && pos + |line| <= |content|
      ensures Remaining(content, pos + |line|, k + 1)
      ensures k < |Lines(content)| && Lines(content)[k] == Stripped(line)
    {
      var n := LineLength(content[pos..]);
      LoadStep(content, pos, k, n);
      line := content[pos..pos + n];
    }

    /** The loop of `editorOpen` that drops the trailing `\n` and `\r` bytes of a line. */
    static method StripLineEnd(line: seq<Byte>) returns (linelen: nat)
      ensures linelen <= |line| && line[..linelen] == Stripped(line)
    {
      linelen := |line|;
      while linelen > 0 && IsLineEnd(line[linelen - 1])
        invariant linelen <= |line|
        invariant Stripped(line[..linelen]) == Stripped(line)
      {
        StripOne(line, linelen);
        linelen := linelen - 1;
      }
    }

    /** `editorScroll`: moves the window so that the cursor's row is on screen. */
    method Scroll()
      requires Valid()
      modifies this`rowOffset
      ensures Valid()
      ensures rowOffset == ScrollOffset(cursorY, old(rowOffset), screenRows)
    {
      if cursorY < rowOffset {
        rowOffset := cursorY;
      }
      if cursorY >= rowOffset + screenRows {
        rowOffset := cursorY - screenRows + 1;
      }
    }

    /** `editorDrawRows`: appends every screen row to buf. */
    method DrawRows(buf: Buffer)
      requires Valid() && buf.Valid()
      modifies buf
      ensures buf.Valid()
      ensures buf.b == old(buf.b) + DrawnRows(View(), screenRows)
    {
      ghost var screen := View();
      var y := 0;
      while y < screenRows
        invariant 0 <= y <= screenRows
        invariant buf.Valid() && buf.b == old(buf.b) + DrawnRows(screen, y)
      {
        DrawScreenRow(buf, y);
        assert View() == screen;
        assert DrawnRows(screen, y + 1) == DrawnRows(screen, y) + DrawnRow(screen, y);
        AppendAssoc(old(buf.b), DrawnRows(screen, y), DrawnRow(screen, y));
        y := y + 1;
      }
    }

    /** One pass of the loop of `editorDrawRows`: row y, erased to its end, then a line break unless it is the last. */
    method DrawScreenRow(buf: Buffer, y: nat)
      requires Valid() && buf.Valid() && y < screenRows
      modifies buf
      ensures buf.Valid()
      ensures buf.b == old(buf.b) + DrawnRow(View(), y)
    {
      EscapeLengths();
      DrawLine(buf, y);
      buf.Append(EraseLine, 3, true);
      ghost var erased := buf.b;
      assert erased == old(buf.b) + ScreenLine(View(), y) + EraseLine;
      if y < screenRows - 1 {
        buf.Append(CrLf, 2, true);
        assert buf.b == erased + CrLf;
      }
    }

    /** One screen row of `editorDrawRows`, before its erase-to-end-of-line. */
    method DrawLine(buf: Buffer, y: nat)
      requires Valid() && buf.Valid()
      modifies buf
      ensures buf.Valid()
      ensures buf.b == old(buf.b) + ScreenLine(View(), y)
    {
      var fileRow := y + rowOffset;
      if fileRow >= totalRows {
        if totalRows == 0 && y == screenRows / 3 {
          DrawWelcome(buf);
        } else {
          buf.Append([Tilde], 1, true);
        }
      } else {
        var len := rows[fileRow].size;
        if len > screenColumns {
          len := screenColumns;
        }
        buf.Append(rows[fileRow].chars, len, true);
      }
    }

    /** The welcome branch of `editorDrawRows`: the centred banner. */
    method DrawWelcome(buf: Buffer)
      requires Valid() && buf.Valid()
      modifies buf
      ensures buf.Valid()
      ensures buf.b == old(buf.b) + Welcome(screenColumns)
    {
      var welcome := WelcomeText;
      var welcomelen := |welcome|;
      if welcomelen > screenColumns {
        welcomelen := screenColumns;
      }
      var padding := (screenColumns - welcomelen) / 2;
      ghost var lead: seq<Byte> := if padding != 0 then [Tilde] + Spaces(padding - 1) else [];
      assert welcomelen == Min(|WelcomeText|, screenColumns);
      assert Welcome(screenColumns) == lead + WelcomeText[..welcomelen];
      DrawPadding(buf, padding);
      ghost var padded := buf.b;
      buf.Append(welcome, welcomelen, true);
      assert buf.b == padded + WelcomeText[..welcomelen];
      AppendAssoc(old(buf.b), lead, WelcomeText[..welcomelen]);
    }

    /** The centring in front of the welcome message: a `~`, then spaces, padding bytes in all. */
    static method DrawPadding(buf: Buffer, padding: nat)
      requires buf.Valid()
      modifies buf
      ensures buf.Valid()
      ensures buf.b == old(buf.b) + (if padding != 0 then [Tilde] + Spaces(padding - 1) else [])
    {
      if padding == 0 {
        return;
      }
      buf.Append([Tilde], 1, true);
      var left := padding - 1;
      ghost var lead := buf.b;
      while left != 0
        invariant 0 <= left <= padding - 1
        invariant buf.Valid() && buf.b == lead + Spaces(padding - 1 - left)
      {
        buf.Append([Space], 1, true);
        assert Spaces(padding - left) == Spaces(padding - 1 - left) + [Space];
        left := left - 1;
      }
    }

    /**
     * `editorRefreshScreen` up to its `write`: scrolls, then returns the
     * frame it assembles in a fresh append buffer.
     */
    method RefreshScreen() returns (frame: seq<Byte>)
      requires Valid()
      modifies this`rowOffset
      ensures Valid()
      ensures rowOffset == ScrollOffset(cursorY, old(rowOffset), screenRows)
      ensures frame == Frame(View())
      ensures screenRows >= 1 ==> 1 <= cursorY - rowOffset + 1 <= screenRows
      ensures OneLineRows() ==> Count(NL, frame) == if screenRows == 0 then 0 else screenRows - 1
    {
      Scroll();
      frame := DrawFrame();
      ghost var screen := View();
      assert frame == Frame(screen);
      if OneLineRows() {
        assert forall k :: 0 <= k < |screen.rows| ==> NoNewline(screen.rows[k].chars);
        FrameLines(screen);
      }
    }

    /** The part of `editorRefreshScreen` after the scroll: the frame, assembled in a fresh append buffer. */
    method DrawFrame() returns (frame: seq<Byte>)
      requires Valid()
      ensures frame == FrameOf(DrawnRows(View(), screenRows), CursorTo((cursorY - rowOffset) + 1, cursorX + 1))
    {
      EscapeLengths();
      var buf := new Buffer();
      buf.Append(HideCursor, 6, true);
      buf.Append(CursorHome, 3, true);
      assert buf.b == HideCursor + CursorHome;
      DrawRows(buf);
      DrawCursor(buf);
      frame := buf.b;
    }

    /** The end of the frame: the cursor moved to its place on the screen, and shown again. */
    method DrawCursor(buf: Buffer)
      requires buf.Valid()
      modifies buf
      ensures buf.Valid()
      ensures buf.b == old(buf.b) + CursorTo((cursorY - rowOffset) + 1, cursorX + 1) + ShowCursor
    {
      EscapeLengths();
      var cursorPosition := CursorTo((cursorY - rowOffset) + 1, cursorX + 1);
      ghost var start := buf.b;
      buf.Append(cursorPosition, |cursorPosition|, true);
      ghost var placed := buf.b;
      assert placed == start + cursorPosition;
      buf.Append(ShowCursor, 6, true);
      assert buf.b == placed + ShowCursor;
    }

    /** `editorMoveCursor`: one step of an arrow key; other keys do nothing. */
    method MoveCursor(key: Key)
      requires Valid()
      modifies this`cursorX, this`cursorY
      ensures Valid()
      ensures Position() == Moved(old(Position()), key, screenColumns, totalRows)
    {
      match key {
        case ArrowLeft =>
          if cursorX != 0 {
            cursorX := cursorX - 1;
          }
        case ArrowRight =>
          if cursorX != screenColumns - 1 {
            cursorX := cursorX + 1;
          }
        case ArrowUp =>
          if cursorY != 0 {
            cursorY := cursorY - 1;
          }
        case ArrowDown =>
          if cursorY != totalRows {
            cursorY := cursorY + 1;
          }
        case _ =>
      }
    }

    /**
     * `editorProcessKeypress` for an already decoded key. Ctrl-Q draws a
     * last frame and quits (the source exits); every other key updates
     * the cursor as `AfterKey` says, and nothing else.
     */
    method ProcessKeypress(key: Key) returns (outcome: Dispatch)
      requires Valid()
      modifies this`cursorX, this`cursorY, this`rowOffset
      ensures Valid()
      ensures key == Char(QuitKey) ==>
        && outcome.Quit?
        && Position() == old(Position())
        && rowOffset == ScrollOffset(cursorY, old(rowOffset), screenRows)
        && outcome.finalFrame == Frame(View())
      ensures key != Char(QuitKey) ==>
        && outcome == Continue
        && rowOffset == old(rowOffset)
        && Position() == AfterKey(old(Position()), key, screenRows, screenColumns, totalRows)
    {
      if key == Char(QuitKey) {
        var frame := RefreshScreen();
        return Quit(frame);
      }
      outcome := Continue;
      match key {
        case HomeKey =>
          cursorX := 0;
        case EndKey =>
          cursorX := screenColumns - 1;
        case PageUp =>
          PageMove(ArrowUp);
        case PageDown =>
          PageMove(ArrowDown);
        case ArrowUp =>
          MoveCursor(key);
        case ArrowDown =>
          MoveCursor(key);
        case ArrowLeft =>
          MoveCursor(key);
        case ArrowRight =>
          MoveCursor(key);
        case _ =>
      }
    }

    /** The PAGE_UP / PAGE_DOWN case: `screenRows` steps of one arrow key. */
    method PageMove(direction: Key)
      requires Valid()
      modifies this`cursorX, this`cursorY
      ensures Valid()
      ensures Position() == MoveTimes(old(Position()), direction, screenRows, screenColumns, totalRows)
    {
      var times := screenRows;
      while times != 0
        invariant Valid()
        invariant 0 <= times <= screenRows
        invariant Position() == MoveTimes(old(Position()), direction, screenRows - times, screenColumns, totalRows)
      {
        times := times - 1;
        MoveCursor(direction);
      }
    }
  }
}
