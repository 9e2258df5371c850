/**
 * The cursor escape `editorRefreshScreen` writes and the cursor position
 * report `getCursorPosition` parses use the same `row ; col` text.
 */
module CursorEscape {
  import opened Bytes
  import opened Wrappers
  import opened Decimal
  import opened CursorReport
  import opened Render

  /**
   * The cursor escape carries the position it was given: read the way a
   * terminal's `ESC [ row ; col R` reply is read, it gives back row and col.
   */
  lemma CursorToReadsBack(row: nat, col: nat)
    ensures ScanPair(CursorTo(row, col)[2..]) == Some((row, col))
    ensures ParseReport(CursorTo(row, col)) == Some((row, col))
  {
    var head: seq<Byte> := [ESC, LeftBracket];
    var d1, d2, h := Digits(row), Digits(col), ['H' as int];
    var tail := d1 + ([Semicolon] + (d2 + h));
    calc {
      CursorTo(row, col);
      head + d1 + [Semicolon] + d2 + h;
      { AppendAssoc(head + d1 + [Semicolon], d2, h); }
      head + d1 + [Semicolon] + (d2 + h);
      { AppendAssoc(head + d1, [Semicolon], d2 + h); }
      head + d1 + ([Semicolon] + (d2 + h));
      { AppendAssoc(head, d1, [Semicolon] + (d2 + h)); }
      head + tail;
    }
    assert CursorTo(row, col)[2..] == tail;
    ScanPairOf(row, col, h);
  }
}
