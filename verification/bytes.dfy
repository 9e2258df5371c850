/**
 * Bytes as the viewer reads and writes them, and the outcome of one
 * one-byte `read` on the raw-mode terminal.
 */
module Bytes {
  /** One byte of terminal input or output (the source's `char`, taken unsigned). */
  type Byte = b: int | 0 <= b < 256

  const ESC: Byte := 0x1b
  const NL: Byte := 0x0a
  const CR: Byte := 0x0d
  const LeftBracket: Byte := '[' as int
  const Tilde: Byte := '~' as int
  const Semicolon: Byte := ';' as int
  const Zero: Byte := '0' as int

  /** A decimal digit `0` to `9`. */
  predicate IsDigit(b: Byte)
  {
    Zero <= b <= Zero + 9
  }

  function Min(a: int, b: int): int { if a < b then a else b }

  /** The bytes of an ASCII string literal of the program. */
  function Ascii(s: string): seq<Byte>
  {
    seq(|s|, i requires 0 <= i < |s| => (s[i] as int) % 256)
  }

  /** The source's `CTRL_KEY(k)`, `k & 0x1f`. */
  function CtrlKey(k: Byte): (r: Byte)
    ensures r < 32
    ensures k < 32 ==> r == k
    ensures (k - r) % 32 == 0
  {
    k % 32
  }

  /**
   * What one `read(STDIN_FILENO, &c, 1)` gives back under the raw-mode
   * settings: one byte, nothing before the 100 ms timeout (a return of 0
   * or -1 with EAGAIN), or any other read error.
   */
  datatype ReadOutcome = Data(b: Byte) | NoData | Failed

  /**
   * The outcome of the read at position i of a stream of reads. A stream
   * is a finite list of outcomes; past its end the terminal sends
   * nothing more, so every further read times out.
   */
  function At(input: seq<ReadOutcome>, i: nat): ReadOutcome
  {
    if i < |input| then input[i] else NoData
  }

  /** The reads that deliver the bytes of s one at a time. */
  function Received(s: seq<Byte>): seq<ReadOutcome>
  {
    seq(|s|, i requires 0 <= i < |s| => Data(s[i]))
  }

  /** Concatenation of byte strings is associative. */
  lemma AppendAssoc(a: seq<Byte>, b: seq<Byte>, c: seq<Byte>)
    ensures (a + b) + c == a + (b + c)
  {
  }
}
