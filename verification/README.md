# kilo core, modelled in Dafny

This project models the core of `kilo.c`, a small terminal viewer. It covers four parts.

- **Key reading.** It decodes the bytes a raw-mode terminal delivers into keys: literal bytes and the named keys of `enum editorKey`, which come from `ESC [ x`, `ESC O x` and `ESC [ d ~` sequences.
- **Cursor report parsing.** It parses the terminal's cursor position report (`ESC [ row ; col R`).
- **File loading.** It loads a file into rows, one per `getline` line, with trailing `\n` and `\r` removed.
- **The editor state and the frame.** The editor state (`struct editorState`) is a class whose methods scroll, move the cursor and dispatch a decoded key. It assembles each frame in an append buffer: hide the cursor, go home, draw every screen row, place the cursor, show it again.

Pure logic becomes functions:
- `Decode`: the key decoder
- `Collected` and `ParseReport`: the reply parser
- `Lines`: the loader
- `ScrollOffset`, `Moved`, `AfterKey`: the cursor and window arithmetic
- `Frame`: the frame

The imperative parts of the source are methods proved against those functions:
- the retry loop of `editorReadKey`
- the collecting loop of `getCursorPosition` over a 32-byte array
- the `getline` and strip loops of `editorOpen`
- the drawing loops
- `appendToBuffer` on a `Buffer` class
- the page-move loop

Lemmas then prove what the source promises about those functions:
- the escape table is decoded exactly
- timeouts are skipped
- a well-formed report parses back to its row and column
- loading gives back the lines of a file written from them
- scrolling keeps the cursor on screen
- moves keep the cursor in bounds
- frame layout: line breaks and welcome centring

External effects become parameters:
- Terminal reads are a sequence of `ReadOutcome`s: a byte, a timeout, or an error. Reads past the end of the sequence time out.
- The file is its contents, or `None` when `fopen` fails.
- The window size is given to the constructor.
- The frame is returned rather than written.

The arrow keys stop at an edge by testing for equality with the edge (`!=` at kilo.c lines 285, 290, 295 and 300), not by clamping. So they keep the cursor in bounds only when it starts in bounds, which is what `Viewport.Moved` states.

## Model

| member | source | states |
|---|---|---|
| KeyDecoder.Code | kilo.c:22-32 | a literal byte keeps its value below 256; the named keys are 1000..1008 |
| Bytes.CtrlKey | kilo.c:20 | `CTRL_KEY` gives a control byte below 32 that keeps the key's low five bits, so a byte already below 32 is unchanged |
| KeyDecoder.CodeInjective | kilo.c:22-32 | distinct keys have distinct codes, so the switch on the int code is a switch on the key |
| KeyDecoder.Idle | kilo.c:85-87 | the number of leading timeouts lies within the input, and the read after them is not a timeout |
| KeyDecoder.IdleSkipsTimeouts | kilo.c:85-87 | every read before that point timed out |
| KeyDecoder.TildeKey | kilo.c:97-108 | a digit with no case of its own decodes to ESC |
| KeyDecoder.CsiKey | kilo.c:110-117 | a letter with no case of its own decodes to ESC |
| KeyDecoder.Ss3Key | kilo.c:119-124 | a letter other than H or F decodes to ESC |
| KeyDecoder.Sequence | kilo.c:89-129 | at most 3 follow-on reads; a byte other than ESC is its own key with no follow-on read; any literal result is the first byte itself |
| KeyDecoder.Decode | kilo.c:82-130 | waits exactly when every read times out; is fatal exactly when the first non-timeout read fails; otherwise makes at most 4 reads after the timeouts, starting at a read that delivered a byte |
| KeyDecoder.ReadKey | kilo.c:82-130 | the retry loop followed by the escape decoding computes `Decode` |
| KeyTable.LiteralByte | kilo.c:127-129 | a first byte other than ESC is returned unchanged after one read |
| KeyTable.LoneEscape | kilo.c:92-93 | ESC followed by a timeout, or by nothing, is ESC after two reads |
| KeyTable.EscapeTableComplete | kilo.c:89-124 | every sequence of the escape table decodes to its key, reading exactly its bytes |
| KeyTable.CsiInTable | kilo.c:110-117 | each `ESC [ x` case is the table's entry |
| KeyTable.Ss3InTable | kilo.c:119-124 | each `ESC O x` case is the table's entry |
| KeyTable.TildeInTable | kilo.c:97-108 | each `ESC [ d ~` case is the table's entry |
| KeyTable.SequenceAgreesWithTable | kilo.c:89-126 | after ESC, a named key comes only from a table sequence whose every byte was read |
| KeyTable.DecodedLiteralIsFirstByte | kilo.c:89-129 | a decoded literal is the first byte that arrived, so unmatched or partial sequences give ESC |
| KeyTable.DecodedNamedKeyIsInTable | kilo.c:82-130 | a decoded named key comes from reads that all delivered bytes and that spell its table sequence |
| KeyTable.DecodedBySequence | kilo.c:89-129 | a decoded key is the escape decoding of the first byte after the timeouts |
| KeyTable.EscapeAt | kilo.c:89-126 | a named-key sequence starting at read k lies within the input and is in the table |
| KeyTable.PayloadCons | kilo.c:89-93 | proof helper for `EscapeAt`: the bytes of a read list that starts with a byte read are that byte and the bytes of the rest |
| KeyTable.OneTimeout | kilo.c:85-87 | one timeout before the first byte only adds one read |
| KeyTable.TimeoutsSkipped | kilo.c:85-87 | any number of leading timeouts only add to the count of reads |
| Decimal.Digits | kilo.c:272 | the `%d` text of a natural number is a non-empty digit string with no leading zero |
| Decimal.FormatInt | kilo.c:272 | the `%d` text of an int is a non-empty run of digits, after a minus sign when the int is negative (what the digits denote is `FormatIntValue`) |
| Decimal.FormatIntValue | kilo.c:272 | the `%d` text of n denotes n: its digits read back as n, or as -n after the minus sign of a negative n |
| Decimal.DigitRun | kilo.c:147 | the leading digit run is all digits and is followed by a non-digit or the end |
| Decimal.ValueOf | kilo.c:147 | the number `%d` converts from a run of digits, most significant first; k digits denote less than 10^k |
| Decimal.ScanNat | kilo.c:147 | `%d` fails exactly when no digit comes first; otherwise it reads the whole leading digit run |
| Decimal.ValueOfDigits | kilo.c:147 | reading back the digits of n gives n |
| Decimal.DigitRunOf | kilo.c:147 | a digit run followed by a non-digit is scanned to its end |
| Decimal.ScanDigits | kilo.c:147 | scanning what `%d` printed gives back the number and its length |
| CursorReport.Collected | kilo.c:139-143 | the loop keeps at most its room in bytes |
| CursorReport.CollectedWithinInput | kilo.c:139-143 | it never keeps more bytes than there were reads |
| CursorReport.CollectedIsReply | kilo.c:139-143 | each kept byte is the byte of its read and is not `R`; stopping early means a read gave no byte or gave `R` |
| CursorReport.ParseReport | kilo.c:146-147 | success requires the reply to start with ESC `[` |
| CursorReport.ScanPair | kilo.c:147 | `"%d;%d"` fails when the first `%d` fails; success means a first number, a `;` right after its digits, and a second number read from the bytes after the `;` |
| CursorReport.ScanPairOf | kilo.c:147 | `"%d;%d"` on two printed numbers followed by a non-digit yields those two numbers |
| CursorReport.ScanPairOfScans | kilo.c:147 | proof helper for `ScanPairOf`: a successful scan, a `;` right after it and a second successful scan give the pair |
| CursorReport.GetCursorPosition | kilo.c:132-150 | the position is the parse of what the loop collected, and the read count includes the read that ended the loop |
| CursorReport.ReadReply | kilo.c:139-144 | the array's first i cells (at most 31) hold exactly the collected reply |
| CursorReport.CollectedStep | kilo.c:139-143 | one turn of the loop: keep the byte and go on, or stop |
| CursorReport.ReplyStep | kilo.c:139-143 | read i either delivers the reply's next byte or ends the reply |
| CursorReport.CollectedUpToR | kilo.c:139-143 | bytes without an `R`, then an `R`, are collected up to the `R` |
| CursorReport.ReportBody | kilo.c:139-147 | the reply before its final `R` is `ESC [`, the row digits, `;` and the column digits; the whole reply is this body followed by `R` |
| CursorReport.BodyHasNoR | kilo.c:141-142 | no byte before the final `R` of a reply is an `R`, so the collecting loop does not stop early |
| CursorReport.ParseBody | kilo.c:146-147 | the body of a well-formed reply parses to its row and column |
| CursorReport.ReportRoundTrip | kilo.c:139-149 | a reply `ESC [ r ; c R` that fits the buffer yields rows r and columns c |
| Document.LineLength | kilo.c:187 | a `getline` line lies within the rest of the file and is non-empty when any bytes remain |
| Document.LineLengthShape | kilo.c:187 | the line ends at its first `\n`, or at the end of the file |
| Document.Stripped | kilo.c:188-190 | removes only a trailing run of `\n`/`\r` bytes, all of them, and keeps the prefix |
| Document.SplitLines | kilo.c:187 | successive `getline` calls give no more lines than there are bytes, and no lines exactly for an empty file |
| Document.Lines | kilo.c:180-195 | `editorOpen` makes one row per `getline` line, so no more rows than bytes and no rows exactly for an empty file |
| Document.SplitLinesConcat | kilo.c:187 | successive `getline` lines are the whole file, in order |
| Document.SplitLinesPieces | kilo.c:187 | each line is non-empty, has `\n` only as its last byte, and has one there unless it is the last line |
| Document.RowsOfFile | kilo.c:180-195 | an empty file gives no rows; row k is line k without its line-end run, and holds no `\n` |
| Document.LoadTerminated | kilo.c:187-192 | writing lines out with `\n` after each and loading the file gives the lines back |
| Document.MixedLineEndings | kilo.c:187-192 | `foo\r\nbar\nbaz` loads as `foo`, `bar`, `baz` |
| Document.FirstLine | kilo.c:187-192 | a line ended by `\r`s and `\n` is the first row, and the rest of the file gives the remaining rows |
| Document.LastLine | kilo.c:187-192 | a last line without an ending is the last row |
| Document.StrippedLoadable | kilo.c:188-190 | stripping line-end bytes from a loadable line gives the line back |
| Document.LineOfLoadable | kilo.c:187 | a line without `\n`, followed by `\n`, is one `getline` line |
| Document.LineLengthUnterminated | kilo.c:187 | a final line without `\n` is one `getline` line |
| Document.LinesCons | kilo.c:187-192 | the rows of a file are the first line's row followed by the rows of the rest |
| Document.ConcatSnoc | kilo.c:187 | proof helper for `LoadStep`: concatenating one more line extends the concatenation |
| Document.PiecesCons | kilo.c:187 | the first k lines are the first line followed by the first k-1 lines of the rest |
| Document.SplitLinesSuffix | kilo.c:187 | what remains after the first k lines splits into the lines after them |
| Document.LoadStart | kilo.c:187 | before any `getline`, no bytes and no lines have been read |
| Document.LoadEnd | kilo.c:187 | when the file is used up, every line has been read |
| Document.LoadStep | kilo.c:187-191 | the next `getline` returns the next line, and its row is that line stripped |
| Document.StripOne | kilo.c:188-190 | dropping one trailing line-end byte leaves the stripped line unchanged |
| Document.RowsOfSnoc | kilo.c:191 | the rows of one more line |
| AppendBuffer.Buffer.constructor | kilo.c:216 | `BUFFER_INIT` is empty |
| AppendBuffer.Buffer.Append | kilo.c:203-210 | a successful append adds the first len bytes of s; a failed one changes nothing |
| Viewport.ScrollOffset | kilo.c:220-227 | with at least one screen row the cursor's row is on screen; a window already showing the cursor is kept; the offset stays non-negative |
| Viewport.ScrollMovesLeast | kilo.c:220-227 | of all windows that show the cursor, the one chosen is nearest the old one |
| Viewport.Moved | kilo.c:282-305 | an arrow changes one coordinate by at most 1 and keeps an in-bounds cursor in bounds; RIGHT at the last column and DOWN at `totalRows` do nothing; other keys do nothing |
| Viewport.UpTimes | kilo.c:294-298 | n UP moves go up n rows, but not past the top |
| Viewport.DownTimes | kilo.c:299-303 | n DOWN moves go down n rows, but not past `totalRows` |
| Viewport.MoveTimes | kilo.c:327-329 | repeated LEFT/RIGHT moves keep the row and repeated UP/DOWN moves keep the column; a key that is not an arrow moves nothing; an in-bounds cursor stays in bounds |
| Viewport.AfterKey | kilo.c:310-339 | HOME, END, LEFT and RIGHT keep the row; PAGE_UP, PAGE_DOWN, UP and DOWN keep the column; HOME goes to column 0 and END to column `screenColumns - 1` |
| Viewport.DispatchKeepsBounds | kilo.c:316-339 | every dispatched key keeps the cursor in bounds |
| Viewport.UnhandledKeysIgnored | kilo.c:310-339 | keys with no case (DEL and literal bytes other than Ctrl-Q) leave the cursor where it is |
| Render.EscapeLengths | kilo.c:254-275 | the byte counts passed with the escape strings are their lengths |
| Render.Welcome | kilo.c:234-244 | the welcome banner is never wider than the screen |
| Render.RowText | kilo.c:249-251 | a document row cut to the width: a prefix of the row, no wider than the screen, and either the whole row or exactly the screen width |
| Render.ScreenLine | kilo.c:232-252 | a screen row is the banner, a lone `~` or the document row cut to the width, so it is no wider than the screen unless it is the lone `~` |
| Render.DrawnRow | kilo.c:254-257 | a drawn row carries at least the 3 bytes of `ESC [ K` after its text |
| Render.DrawnRows | kilo.c:229-259 | the first n drawn rows hold at least 3 bytes per row |
| Render.CursorTo | kilo.c:272 | the cursor escape `ESC [ row ; col H` starts with `ESC [` and is at least 6 bytes long |
| CursorEscape.CursorToReadsBack | kilo.c:272 | the cursor escape carries the position it was given: its `row ; col` text, parsed as `getCursorPosition` parses a reply (kilo.c:146-147), gives back row and col |
| Render.Frame | kilo.c:264-275 | the frame of a screen state holds at least the 15 bytes of its fixed escapes around the rows and the cursor escape |
| Render.FrameOf | kilo.c:264-275 | a frame is 9 bytes of hide and home, the rows, the cursor escape and 6 bytes of show-cursor |
| Render.ScreenLineFits | kilo.c:229-252 | no screen row is wider than the screen; a document row shows its first bytes, all of them or exactly the screen width |
| Render.WelcomeCentred | kilo.c:234-244 | the banner is the message cut to the width, after padding of `~` and spaces that is half the remaining room |
| Render.WelcomeOn80Columns | kilo.c:234-244 | on 80 columns the banner is `~`, 25 spaces and the 28-byte message |
| Render.CountConcat | kilo.c:254-256 | proof helper for the line-break lemmas of the frame: line breaks in a concatenation add up |
| Render.CountConcat4 | kilo.c:264-275 | proof helper for `BreaksOnlyInside`: line breaks in a concatenation of four strings add up |
| Render.CountAbsent | kilo.c:254-256 | proof helper for the line-break lemmas of the frame: a string with no `\n` has no line break |
| Render.ScreenLineOneLine | kilo.c:229-252 | for a document without `\n`, no screen row holds a line break |
| Render.WelcomeOneLine | kilo.c:234-244 | the welcome banner holds no line break |
| Render.WelcomeTextOneLine | kilo.c:236 | the welcome message holds no line break |
| Render.CursorToOneLine | kilo.c:271-273 | the cursor escape holds no line break |
| Render.LineBreaks | kilo.c:254-275 | only `\r\n` among the fixed escape strings holds a line break |
| Render.DrawnRowLines | kilo.c:254-257 | when no document row holds `\n`, a drawn row holds one line break if it is not the screen's last and none if it is |
| Render.DrawnRowsLines | kilo.c:229-259 | when no document row holds `\n`, the first n drawn rows hold one line break per row, except that the screen's last row adds none |
| Render.FrameBreaksAreRowBreaks | kilo.c:261-276 | the only line breaks of a frame are those of its drawn rows |
| Render.BreaksOnlyInside | kilo.c:264-275 | proof helper for `FrameBreaksAreRowBreaks`: a string between strings without line breaks keeps its line breaks and gains none |
| Render.FrameLines | kilo.c:261-276 | when no document row holds `\n`, a frame holds exactly `screenRows - 1` line breaks, one between each pair of consecutive screen rows, and a 0-row screen's frame holds none |
| Editor.EditorState.constructor | kilo.c:344-352 | `initEditor`: cursor at the origin, no rows (so none holds `\n`), the given window size |
| Editor.EditorState.AppendRow | kilo.c:167-176 | one new last row holding the first length bytes, `totalRows` up by one, earlier rows unchanged |
| Editor.EditorState.Open | kilo.c:180-195 | appends the rows of the file's lines, in order; a file that cannot be opened loads nothing and reports failure; if no row held `\n` before, none does after |
| Editor.LoadedRowsOneLine | kilo.c:180-195 | rows without `\n`, followed by the rows `editorOpen` loads from any file, still hold no `\n` |
| Editor.EditorState.GetLine | kilo.c:187 | the next `getline` line is the next line of the file |
| Editor.EditorState.StripLineEnd | kilo.c:188-190 | the strip loop's length is that of the stripped line |
| Editor.EditorState.Scroll | kilo.c:220-227 | sets the row offset to `ScrollOffset` and changes nothing else |
| Editor.EditorState.DrawRows | kilo.c:229-259 | appends exactly the drawn screen rows |
| Editor.EditorState.DrawScreenRow | kilo.c:231-258 | one pass appends the row, `ESC [ K` and, unless it is the last row, `\r\n` |
| Editor.EditorState.DrawLine | kilo.c:232-252 | appends the welcome line, a `~` or the row cut to the width |
| Editor.EditorState.DrawWelcome | kilo.c:234-244 | appends the centred welcome banner |
| Editor.EditorState.DrawPadding | kilo.c:238-243 | appends a `~` and then spaces, `padding` bytes in all |
| Editor.EditorState.RefreshScreen | kilo.c:261-279 | scrolls, then returns the frame, in which the cursor's screen row is between 1 and `screenRows`; when no row holds `\n`, as after `initEditor` and `Open`, the frame holds `screenRows - 1` line breaks (none on a 0-row screen) |
| Editor.EditorState.DrawFrame | kilo.c:264-276 | hide the cursor, go home, the rows, move to the cursor's 1-based screen position, show the cursor |
| Editor.EditorState.DrawCursor | kilo.c:271-275 | appends the cursor move and the show-cursor escape |
| Editor.EditorState.MoveCursor | kilo.c:282-305 | moves the cursor as `Moved` says and changes nothing else |
| Editor.EditorState.ProcessKeypress | kilo.c:307-339 | Ctrl-Q returns a final frame and quits; every other key moves the cursor as `AfterKey` says (HOME to column 0, END to the last column, the pages by `screenRows` moves, the arrows by one) and leaves the window alone |
| Editor.QuitKeyValue | kilo.c:311 | the quit key `CTRL_KEY('q')` is byte 0x11, the same as Ctrl-Q |
| Editor.EditorState.PageMove | kilo.c:324-330 | `screenRows` moves of one arrow key |

## Left out

- Raw mode (`enableRawMode`, `disableRawMode`, `atexit`): terminal settings with no behaviour of their own to state.
- `die` and `exit`. Ctrl-Q returns `Dispatch.Quit` with the last frame. A failed first read is `KeyResult.Fatal`. A failed `fopen` makes `Open` return false.
- Window-size detection (`getWindowSize`, `ioctl`, and the `ESC [ 999 C ESC [ 999 B` and `ESC [ 6 n` writes): foreign calls. The sizes are constructor parameters. Only the parsing of the reply is modelled.
- The `read`, `write`, `fopen`, `getline` and `fclose` calls and `errno`: replaced by input sequences, file contents, and returned frames.
- Read errors of `getline` after the file is open: the file's contents are given whole.
- `malloc`, `realloc`, `free`, `freeBuffer` and NUL termination: rows and buffers are sequences.
- Buffer.Append: the allocation outcome is a parameter, and the frame assembly always passes success. So the model does not cover a frame with bytes missing after a failed `realloc`.
- Decimal.ScanNat: reads only unsigned decimal digit runs. It leaves out `sscanf`'s leading white space, signs and overflow.
- CursorReport.ParseReport: the same restriction applies to the row and column it reads.
- Bytes.Byte: bytes are unsigned. The widening of a signed `char` at or above 0x80 in `return c` is platform-dependent and is not modelled.
- The main loop (`main`): non-terminating I/O orchestration. Its steps are `Open`, `RefreshScreen` and `ProcessKeypress`.
- Editor.EditorState.RefreshScreen: the line-break count of the frame holds under `OneLineRows`, which `initEditor` and `Open` keep. It is not part of `Valid`, because `editorAppendRow` itself accepts any bytes; in the source only `editorOpen` calls it, always with a stripped line.
- Editor.EditorState: `int` fields are unbounded. 32-bit overflow of the cursor, the offset and the counts is not modelled.
- KeyDecoder.ReadKey: a read stream is a finite list, and reads past its end time out. An all-timeout stream gives `Waiting`, where the source would go on retrying forever.
