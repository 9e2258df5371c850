/**
 * The cursor and the scrolling window as values: what `editorScroll`,
 * `editorMoveCursor` and the key dispatch of `editorProcessKeypress` do
 * to the cursor position and the row offset.
 */
module Viewport {
  import opened Bytes
  import opened KeyDecoder

  /** The cursor: a screen column x and a document row y. */
  datatype Cursor = Cursor(x: int, y: int)

  /** The bounds the cursor keeps: a column on the screen, a row of the document or the one after it. */
  predicate InBounds(c: Cursor, screenColumns: int, totalRows: int)
  {
    0 <= c.x <= screenColumns - 1 && 0 <= c.y <= totalRows
  }

  function Distance(a: int, b: int): nat
  {
    if a <= b then b - a else a - b
  }

  /**
   * `editorScroll`: the row offset after moving the window up to a cursor
   * above it, then down to a cursor below it.
   */
  function ScrollOffset(cursorY: int, rowOffset: int, screenRows: int): (r: int)
    ensures screenRows >= 1 ==> r <= cursorY < r + screenRows
    ensures rowOffset <= cursorY < rowOffset + screenRows ==> r == rowOffset
    ensures 0 <= rowOffset && 0 <= cursorY ==> 0 <= r
  {
    var up := if cursorY < rowOffset then cursorY else rowOffset;
    if cursorY >= up + screenRows then cursorY - screenRows + 1 else up
  }

  /** Of all the windows that show the cursor, scrolling picks one nearest the old one. */
  lemma ScrollMovesLeast(cursorY: int, rowOffset: int, screenRows: int, other: int)
    requires other <= cursorY < other + screenRows
    ensures Distance(ScrollOffset(cursorY, rowOffset, screenRows), rowOffset) <= Distance(other, rowOffset)
  {
  }

  predicate IsArrow(key: Key)
  {
    key == ArrowLeft || key == ArrowRight || key == ArrowUp || key == ArrowDown
  }

  /** `editorMoveCursor`: one step of an arrow key, stopping at the edges. */
  function Moved(c: Cursor, key: Key, screenColumns: int, totalRows: int): (r: Cursor)
    ensures r.x == c.x || r.y == c.y
    ensures -1 <= r.x - c.x <= 1 && -1 <= r.y - c.y <= 1
    ensures !IsArrow(key) ==> r == c
    ensures (key == ArrowLeft || key == ArrowRight) ==> r.y == c.y
    ensures (key == ArrowUp || key == ArrowDown) ==> r.x == c.x
    ensures InBounds(c, screenColumns, totalRows) ==> InBounds(r, screenColumns, totalRows)
    ensures 0 <= c.y <= totalRows ==> 0 <= r.y <= totalRows
    ensures key == ArrowRight && c.x == screenColumns - 1 ==> r == c
    ensures key == ArrowDown && c.y == totalRows ==> r == c
  {
    match key
    case ArrowLeft => if c.x != 0 then Cursor(c.x - 1, c.y) else c
    case ArrowRight => if c.x != screenColumns - 1 then Cursor(c.x + 1, c.y) else c
    case ArrowUp => if c.y != 0 then Cursor(c.x, c.y - 1) else c
    case ArrowDown => if c.y != totalRows then Cursor(c.x, c.y + 1) else c
    case _ => c
  }

  /** n steps of the same arrow key. */
  function MoveTimes(c: Cursor, key: Key, n: nat, screenColumns: int, totalRows: int): (r: Cursor)
    ensures (key == ArrowLeft || key == ArrowRight) ==> r.y == c.y
    ensures (key == ArrowUp || key == ArrowDown) ==> r.x == c.x
    ensures !IsArrow(key) ==> r == c
    ensures InBounds(c, screenColumns, totalRows) ==> InBounds(r, screenColumns, totalRows)
  {
    if n == 0 then c else Moved(MoveTimes(c, key, n - 1, screenColumns, totalRows), key, screenColumns, totalRows)
  }

  function Max(a: int, b: int): int { if a < b then b else a }

  /** n steps up from a row at or below the top go up n rows, but not past the top. */
  lemma {:induction false} UpTimes(c: Cursor, n: nat, screenColumns: int, totalRows: int)
    requires 0 <= c.y
    ensures MoveTimes(c, ArrowUp, n, screenColumns, totalRows) == Cursor(c.x, Max(0, c.y - n))
  {
    if n > 0 {
      UpTimes(c, n - 1, screenColumns, totalRows);
    }
  }

  /** n steps down from a row at or above the end go down n rows, but not past the end. */
  lemma {:induction false} DownTimes(c: Cursor, n: nat, screenColumns: int, totalRows: int)
    requires c.y <= totalRows
    ensures MoveTimes(c, ArrowDown, n, screenColumns, totalRows) == Cursor(c.x, Min(totalRows, c.y + n))
  {
    if n > 0 {
      DownTimes(c, n - 1, screenColumns, totalRows);
    }
  }

  /** What a key other than Ctrl-Q does to the cursor in `editorProcessKeypress`. */
  function AfterKey(c: Cursor, key: Key, screenRows: nat, screenColumns: int, totalRows: int): (r: Cursor)
    ensures (key == HomeKey || key == EndKey || key == ArrowLeft || key == ArrowRight) ==> r.y == c.y
    ensures (key == PageUp || key == PageDown || key == ArrowUp || key == ArrowDown) ==> r.x == c.x
    ensures key == HomeKey ==> r.x == 0
    ensures key == EndKey ==> r.x == screenColumns - 1
  {
    match key
    case HomeKey => Cursor(0, c.y)
    case EndKey => Cursor(screenColumns - 1, c.y)
    case PageUp => MoveTimes(c, ArrowUp, screenRows, screenColumns, totalRows)
    case PageDown => MoveTimes(c, ArrowDown, screenRows, screenColumns, totalRows)
    case _ => Moved(c, key, screenColumns, totalRows)
  }

  /**
   * Every key keeps the cursor in bounds: on the screen's columns and on
   * the document's rows or the one after them.
   */
  lemma DispatchKeepsBounds(c: Cursor, key: Key, screenRows: nat, screenColumns: int, totalRows: int)
    requires InBounds(c, screenColumns, totalRows)
    ensures InBounds(AfterKey(c, key, screenRows, screenColumns, totalRows), screenColumns, totalRows)
  {
    if key == PageUp {
      UpTimes(c, screenRows, screenColumns, totalRows);
    } else if key == PageDown {
      DownTimes(c, screenRows, screenColumns, totalRows);
    }
  }

  /** Keys the dispatch does not handle leave the cursor where it is. */
  lemma UnhandledKeysIgnored(c: Cursor, key: Key, screenRows: nat, screenColumns: int, totalRows: int)
    requires key.Char? || key == DelKey
    ensures AfterKey(c, key, screenRows, screenColumns, totalRows) == c
  {
  }
}
