/**
 * `editorReadKey`: turns the reads of a raw-mode terminal into one key,
 * a literal byte or one of the named keys of `enum editorKey`.
 */
module KeyDecoder {
  import opened Bytes

  /** A decoded key: a literal byte, or a named key of `enum editorKey`. */
  datatype Key =
    | Char(c: Byte)
    | ArrowLeft | ArrowRight | ArrowUp | ArrowDown
    | DelKey | HomeKey | EndKey | PageUp | PageDown

  /** The int `editorReadKey` returns for a key (`ARROW_LEFT = 1000`, and so on). */
  function Code(k: Key): (code: int)
    ensures k.Char? <==> code < 256
    ensures k.Char? ==> code == k.c
    ensures !k.Char? ==> 1000 <= code <= 1008
  {
    match k
    case Char(c) => c
    case ArrowLeft => 1000
    case ArrowRight => 1001
    case ArrowUp => 1002
    case ArrowDown => 1003
    case DelKey => 1004
    case HomeKey => 1005
    case EndKey => 1006
    case PageUp => 1007
    case PageDown => 1008
  }

  /** Different keys have different codes, so dispatching on the code is dispatching on the key. */
  lemma CodeInjective(j: Key, k: Key)
    ensures Code(j) == Code(k) ==> j == k
  {
  }

  /**
   * The result of one call: the key and the number of reads it made,
   * `Waiting` when no byte ever arrives (the source keeps retrying), or
   * `Fatal` when the first byte's read fails (the source calls `die`).
   */
  datatype KeyResult = Decoded(key: Key, consumed: nat) | Waiting | Fatal

  /** The number of reads at the start of the stream that time out. */
  function Idle(input: seq<ReadOutcome>): (k: nat)
    ensures k <= |input|
    ensures k < |input| ==> input[k] != NoData
  {
    if input == [] || input[0] != NoData then 0 else 1 + Idle(input[1..])
  }

  /** Every read before the first one that is not a timeout timed out. */
  lemma {:induction false} IdleSkipsTimeouts(input: seq<ReadOutcome>)
    ensures forall i :: 0 <= i < Idle(input) ==> input[i] == NoData
    decreases |input|
  {
    if input != [] && input[0] == NoData {
      IdleSkipsTimeouts(input[1..]);
      assert forall i :: 1 <= i < |input| ==> input[i] == input[1..][i - 1];
    }
  }

  const LetterO: Byte := 'O' as int

  /** `ESC [ d ~`: the key a digit d stands for, ESC for the digits without a case. */
  function TildeKey(d: Byte): (k: Key)
    ensures k.Char? ==> k == Char(ESC)
  {
    if d == '1' as int then HomeKey
    else if d == '3' as int then DelKey
    else if d == '4' as int then EndKey
    else if d == '5' as int then PageUp
    else if d == '6' as int then PageDown
    else if d == '7' as int then HomeKey
    else if d == '8' as int then EndKey
    else Char(ESC)
  }

  /** `ESC [ x`: the key a letter x stands for, ESC for every other byte. */
  function CsiKey(x: Byte): (k: Key)
    ensures k.Char? ==> k == Char(ESC)
  {
    if x == 'A' as int then ArrowUp
    else if x == 'B' as int then ArrowDown
    else if x == 'C' as int then ArrowRight
    else if x == 'D' as int then ArrowLeft
    else if x == 'H' as int then HomeKey
    else if x == 'F' as int then EndKey
    else Char(ESC)
  }

  /** `ESC O x`: HOME for H, END for F, ESC for every other byte. */
  function Ss3Key(x: Byte): (k: Key)
    ensures k.Char? ==> k == Char(ESC)
  {
    if x == 'H' as int then HomeKey
    else if x == 'F' as int then EndKey
    else Char(ESC)
  }

  /**
   * The key that a first byte c starts, given the reads that follow it,
   * and the number of those follow-on reads the decoder makes.
   */
  function Sequence(c: Byte, rest: seq<ReadOutcome>): (r: (Key, nat))
    ensures r.1 <= 3
    ensures c != ESC ==> r == (Char(c), 0)
    ensures r.0.Char? ==> r.0 == Char(c)
  {
    if c != ESC then (Char(c), 0)
    else if !At(rest, 0).Data? then (Char(ESC), 1)
    else if !At(rest, 1).Data? then (Char(ESC), 2)
    else
      var s0, s1 := At(rest, 0).b, At(rest, 1).b;
      if s0 == LeftBracket then
        if IsDigit(s1) then
          if !At(rest, 2).Data? then (Char(ESC), 3)
          else if At(rest, 2).b == Tilde then (TildeKey(s1), 3)
          else (Char(ESC), 3)
        else (CsiKey(s1), 2)
      else if s0 == LetterO then (Ss3Key(s1), 2)
      else (Char(ESC), 2)
  }

  /**
   * The decoder as a whole: skip the reads that time out, fail on a read
   * error, otherwise decode from the first byte.
   */
  function Decode(input: seq<ReadOutcome>): (r: KeyResult)
    ensures r.Waiting? <==> Idle(input) == |input|
    ensures r.Fatal? <==> Idle(input) < |input| && input[Idle(input)] == Failed
    ensures r.Decoded? ==> Idle(input) < r.consumed <= Idle(input) + 4
    ensures r.Decoded? ==> input[Idle(input)].Data?
  {
    var k := Idle(input);
    if k == |input| then Waiting
    else if input[k] == Failed then Fatal
    else
      var d := Sequence(input[k].b, input[k + 1..]);
      Decoded(d.0, k + 1 + d.1)
  }

  /**
   * `editorReadKey` itself: the retry loop of the first read, then the
   * escape-sequence decoding of what follows.
   */
  method ReadKey(input: seq<ReadOutcome>) returns (r: KeyResult)
    ensures r == Decode(input)
  {
    var i := 0;
    while i < |input| && input[i] == NoData
      invariant i <= Idle(input)
    {
      i := i + 1;
    }
    IdleSkipsTimeouts(input);
    if i == |input| {
      // no byte ever arrives: the source goes on waiting
      return Waiting;
    }
    if input[i] == Failed {
      return Fatal;
    }
    var d := Sequence(input[i].b, input[i + 1..]);
    r := Decoded(d.0, i + 1 + d.1);
  }
}
