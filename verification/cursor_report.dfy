/**
 * The parsing half of `getCursorPosition`: the terminal's answer to the
 * cursor position query `ESC [ 6 n` is `ESC [ row ; col R` (CPR, the
 * report of ECMA-48, section 8.3.14 "ACTIVE POSITION REPORT"), read one
 * byte at a time into a 32-byte buffer.
 */
module CursorReport {
  import opened Bytes
  import opened Wrappers
  import opened Decimal

  const LetterR: Byte := 'R' as int

  /** `sizeof(buf)`: the reply buffer, one byte of which is kept for the terminating NUL. */
  const BufferSize: nat := 32

  /**
   * The bytes the collecting loop keeps from a stream of reads when it has
   * room for `room` more: it stops at the first read without a byte, at
   * the first `R` (which is not kept), or when the room is used up.
   */
  function Collected(input: seq<ReadOutcome>, room: nat): (r: seq<Byte>)
    ensures |r| <= room
    decreases room
  {
    if room == 0 then []
    else match At(input, 0)
      case Data(b) => if b == LetterR then [] else [b] + Collected(input[1..], room - 1)
      case _ => []
  }

  /** The loop never keeps more bytes than there were reads. */
  lemma {:induction false} CollectedWithinInput(input: seq<ReadOutcome>, room: nat)
    ensures |Collected(input, room)| <= |input|
    decreases room
  {
    if room > 0 && At(input, 0).Data? && At(input, 0).b != LetterR {
      CollectedWithinInput(input[1..], room - 1);
    }
  }

  /**
   * What the loop keeps: at most `room` bytes, each delivered by the read
   * at its position and none an `R`; and if it stopped early, the next
   * read gave no byte or gave the `R`.
   */
  lemma {:induction false} CollectedIsReply(input: seq<ReadOutcome>, room: nat)
    ensures var r := Collected(input, room);
      && |r| <= |input|
      && (forall i :: 0 <= i < |r| ==> input[i] == Data(r[i]) && r[i] != LetterR)
      && (|r| < room ==> !At(input, |r|).Data? || At(input, |r|).b == LetterR)
    decreases room
  {
    if room > 0 && At(input, 0).Data? && At(input, 0).b != LetterR {
      CollectedIsReply(input[1..], room - 1);
      var r := Collected(input, room);
      assert r == [At(input, 0).b] + Collected(input[1..], room - 1);
      assert At(input, |r|) == At(input[1..], |r| - 1);
    }
  }

  /**
   * `sscanf(&buf[2], "%d;%d", rows, cols) == 2`, for unsigned digit runs:
   * a number, a `;`, a number; what follows is not looked at.
   */
  function ScanPair(s: seq<Byte>): (r: Option<(nat, nat)>)
    ensures ScanNat(s).None? ==> r.None?
    ensures r.Some? ==> ScanNat(s).Some? && r.value.0 == ScanNat(s).value.0
    ensures r.Some? ==> var k := ScanNat(s).value.1;
      && k < |s| && s[k] == Semicolon
      && ScanNat(s[k + 1..]).Some? && r.value.1 == ScanNat(s[k + 1..]).value.0
  {
    match ScanNat(s)
    case None => None
    case Some((rows, k)) =>
      if k < |s| && s[k] == Semicolon then
        match ScanNat(s[k + 1..])
        case None => None
        case Some((cols, _)) => Some((rows, cols))
      else None
  }

  /**
   * The check after the loop: the reply must start with `ESC [`, and two
   * numbers separated by `;` must follow.
   */
  function ParseReport(received: seq<Byte>): (r: Option<(nat, nat)>)
    ensures r.Some? ==> |received| >= 2 && received[0] == ESC && received[1] == LeftBracket
  {
    if |received| < 2 || received[0] != ESC || received[1] != LeftBracket then None
    else ScanPair(received[2..])
  }

  /**
   * `getCursorPosition` after the query has been written: fills a 32-byte
   * buffer from the reads, NUL-terminates it and parses it. Returns the
   * position (None where the source returns -1) and the number of reads.
   */
  method GetCursorPosition(input: seq<ReadOutcome>) returns (pos: Option<(nat, nat)>, consumed: nat)
    ensures pos == ParseReport(Collected(input, BufferSize - 1))
    ensures var n := |Collected(input, BufferSize - 1)|;
      consumed == if n < BufferSize - 1 then n + 1 else n
  {
    var buf := new Byte[BufferSize];
    var i;
    i, consumed := ReadReply(input, buf);
    buf[i] := 0;
    pos := ParseReport(buf[..i]);
  }

  /**
   * The collecting loop of `getCursorPosition`: stores the reply's bytes in
   * buf up to the first `R`, the first read without a byte, or the last
   * byte before the terminating NUL. Returns how many bytes it stored and
   * how many reads it made.
   */
  method ReadReply(input: seq<ReadOutcome>, buf: array<Byte>) returns (i: nat, consumed: nat)
    requires buf.Length == BufferSize
    modifies buf
    ensures i < buf.Length && buf[..i] == Collected(input, BufferSize - 1)
    ensures consumed == if i < BufferSize - 1 then i + 1 else i
  {
    ghost var reply := Collected(input, BufferSize - 1);
    CollectedWithinInput(input, BufferSize - 1);
    assert input[0..] == input;
    i := 0;
    consumed := 0;
    while i < buf.Length - 1
      invariant i <= |reply| <= |input|
      invariant forall j :: 0 <= j < i ==> buf[j] == reply[j]
      invariant reply[i..] == Collected(input[i..], BufferSize - 1 - i)
      invariant consumed == i
    {
      ReplyStep(input, reply, i, BufferSize - 1 - i);
      var o := At(input, i);
      consumed := consumed + 1;
      if !o.Data? {
        break;
      }
      buf[i] := o.b;
      if buf[i] == LetterR {
        break;
      }
      i := i + 1;
    }
    assert buf[..i] == reply;
  }

  /** One turn of the collecting loop, at read i. */
  lemma CollectedStep(input: seq<ReadOutcome>, i: nat, room: nat)
    requires i <= |input| && room > 0
    ensures Collected(input[i..], room) ==
      if At(input, i).Data? && At(input, i).b != LetterR
      then [At(input, i).b] + Collected(input[i + 1..], room - 1)
      else []
  {
    assert At(input[i..], 0) == At(input, i);
    if i < |input| {
      assert input[i..][1..] == input[i + 1..];
    }
  }

  /**
   * One turn of the collecting loop against the reply it collects: read i
   * either delivers the reply's next byte, or ends the reply.
   */
  lemma ReplyStep(input: seq<ReadOutcome>, reply: seq<Byte>, i: nat, room: nat)
    requires i <= |input| && room > 0 && i <= |reply|
    requires reply[i..] == Collected(input[i..], room)
    ensures if At(input, i).Data? && At(input, i).b != LetterR
      then i < |reply| && reply[i] == At(input, i).b && reply[i + 1..] == Collected(input[i + 1..], room - 1)
      else i == |reply|
  {
    CollectedStep(input, i, room);
    if At(input, i).Data? && At(input, i).b != LetterR {
      assert reply[i..][0] == reply[i];
      assert reply[i + 1..] == reply[i..][1..];
    }
  }

  /** The reply to be expected: `ESC [ row ; col R`. */
  function Report(row: nat, col: nat): seq<Byte>
  {
    [ESC, LeftBracket] + Digits(row) + [Semicolon] + Digits(col) + [LetterR]
  }

  /** Reads that deliver bytes without an `R`, then an `R`, are collected up to the `R`. */
  lemma {:induction false} CollectedUpToR(s: seq<Byte>, rest: seq<ReadOutcome>, room: nat)
    requires |s| <= room
    requires forall i :: 0 <= i < |s| ==> s[i] != LetterR
    ensures Collected(Received(s + [LetterR]) + rest, room) == s
    decreases |s|
  {
    var input := Received(s + [LetterR]) + rest;
    if s == [] {
      assert At(input, 0) == Data(LetterR);
    } else {
      assert At(input, 0) == Data(s[0]);
      assert input[1..] == Received(s[1..] + [LetterR]) + rest;
      CollectedUpToR(s[1..], rest, room - 1);
    }
  }

  /** The reply without its final `R`. */
  function ReportBody(row: nat, col: nat): (r: seq<Byte>)
    ensures Report(row, col) == r + [LetterR]
  {
    [ESC, LeftBracket] + Digits(row) + [Semicolon] + Digits(col)
  }

  /** Nothing before the final `R` of a reply is an `R`. */
  lemma BodyHasNoR(row: nat, col: nat)
    ensures forall i :: 0 <= i < |ReportBody(row, col)| ==> ReportBody(row, col)[i] != LetterR
  {
    var body := ReportBody(row, col);
    forall i | 0 <= i < |body| ensures body[i] != LetterR {
      if 2 <= i < 2 + |Digits(row)| {
        assert body[i] == Digits(row)[i - 2];
      } else if 2 + |Digits(row)| < i {
        assert body[i] == Digits(col)[i - 3 - |Digits(row)|];
      }
    }
  }

  /** The reply without its `R` parses to its row and column. */
  lemma ParseBody(row: nat, col: nat)
    ensures ParseReport(ReportBody(row, col)) == Some((row, col))
  {
    var t := ReportBody(row, col)[2..];
    assert t == Digits(row) + ([Semicolon] + Digits(col));
    ScanDigits(row, [Semicolon] + Digits(col));
    assert t[|Digits(row)| + 1..] == Digits(col) + [];
    ScanDigits(col, []);
  }

  /** Two numbers printed with `%d;%d` and followed by a non-digit scan back as that pair. */
  lemma ScanPairOf(a: nat, b: nat, rest: seq<Byte>)
    requires rest == [] || !IsDigit(rest[0])
    ensures ScanPair(Digits(a) + ([Semicolon] + (Digits(b) + rest))) == Some((a, b))
  {
    ScanDigits(a, [Semicolon] + (Digits(b) + rest));
    ScanDigits(b, rest);
    ScanPairOfScans(Digits(a), Digits(b) + rest, a, b);
  }

  /** `"%d;%d"` on a number x, a `;` and a number y yields the two numbers. */
  lemma ScanPairOfScans(x: seq<Byte>, y: seq<Byte>, a: nat, b: nat)
    requires ScanNat(x + ([Semicolon] + y)) == Some((a, |x|))
    requires ScanNat(y).Some? && ScanNat(y).value.0 == b
    ensures ScanPair(x + ([Semicolon] + y)) == Some((a, b))
  {
    var s := x + ([Semicolon] + y);
    assert s[|x|] == Semicolon;
    assert s[|x| + 1..] == y;
  }

  /** A reply of the expected form that fits the buffer yields its row and column. */
  lemma ReportRoundTrip(row: nat, col: nat, rest: seq<ReadOutcome>)
    requires |Report(row, col)| <= BufferSize
    ensures ParseReport(Collected(Received(Report(row, col)) + rest, BufferSize - 1)) == Some((row, col))
  {
    BodyHasNoR(row, col);
    CollectedUpToR(ReportBody(row, col), rest, BufferSize - 1);
    ParseBody(row, col);
  }
}
