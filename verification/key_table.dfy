/**
 * The key sequences `editorReadKey` recognises, as a table, and the
 * properties of the decoder stated against it.
 */
module KeyTable {
  import opened Bytes
  import opened KeyDecoder

  /** Every escape sequence that decodes to a named key, with that key. */
  const EscapeSequences: map<seq<Byte>, Key> := map[
    [ESC, '[' as int, 'A' as int] := ArrowUp,
    [ESC, '[' as int, 'B' as int] := ArrowDown,
    [ESC, '[' as int, 'C' as int] := ArrowRight,
    [ESC, '[' as int, 'D' as int] := ArrowLeft,
    [ESC, '[' as int, 'H' as int] := HomeKey,
    [ESC, '[' as int, 'F' as int] := EndKey,
    [ESC, 'O' as int, 'H' as int] := HomeKey,
    [ESC, 'O' as int, 'F' as int] := EndKey,
    [ESC, '[' as int, '1' as int, '~' as int] := HomeKey,
    [ESC, '[' as int, '3' as int, '~' as int] := DelKey,
    [ESC, '[' as int, '4' as int, '~' as int] := EndKey,
    [ESC, '[' as int, '5' as int, '~' as int] := PageUp,
    [ESC, '[' as int, '6' as int, '~' as int] := PageDown,
    [ESC, '[' as int, '7' as int, '~' as int] := HomeKey,
    [ESC, '[' as int, '8' as int, '~' as int] := EndKey
  ]

  /** s is a sequence of the table and stands for key. */
  predicate InTable(s: seq<Byte>, key: Key)
  {
    s in EscapeSequences && EscapeSequences[s] == key
  }

  /** The bytes a run of reads delivered (a read without a byte counts as 0). */
  function Payload(o: seq<ReadOutcome>): seq<Byte>
  {
    seq(|o|, i requires 0 <= i < |o| => if o[i].Data? then o[i].b else 0)
  }

  /** `n` reads that time out. */
  function Timeouts(n: nat): seq<ReadOutcome>
  {
    seq(n, i => NoData)
  }

  /** The same result, `n` reads later. */
  function Delayed(r: KeyResult, n: nat): KeyResult
  {
    if r.Decoded? then Decoded(r.key, r.consumed + n) else r
  }

  /** A first byte other than ESC is the key, and only that one read is made. */
  lemma LiteralByte(c: Byte, rest: seq<ReadOutcome>)
    requires c != ESC
    ensures Decode([Data(c)] + rest) == Decoded(Char(c), 1)
  {
  }

  /** A lone ESC followed by a timeout (or by the end of input) is ESC itself. */
  lemma LoneEscape(rest: seq<ReadOutcome>)
    ensures Decode([Data(ESC), NoData] + rest) == Decoded(Char(ESC), 2)
    ensures Decode([Data(ESC)]) == Decoded(Char(ESC), 2)
  {
  }

  /** Every sequence of the table decodes to its key, reading exactly its bytes. */
  lemma EscapeTableComplete(s: seq<Byte>, rest: seq<ReadOutcome>)
    requires s in EscapeSequences
    ensures Decode(Received(s) + rest) == Decoded(EscapeSequences[s], |s|)
  {
    var input := Received(s) + rest;
    assert Idle(input) == 0 by {
      assert input[0] == Data(ESC);
    }
    assert input[1..] == Received(s[1..]) + rest;
  }

  lemma CsiInTable(x: Byte)
    requires !CsiKey(x).Char?
    ensures [ESC, LeftBracket, x] in EscapeSequences
    ensures EscapeSequences[[ESC, LeftBracket, x]] == CsiKey(x)
  {
    if x == 'A' as int {
    } else if x == 'B' as int {
    } else if x == 'C' as int {
    } else if x == 'D' as int {
    } else if x == 'H' as int {
    } else {
      assert x == 'F' as int;
    }
  }

  lemma Ss3InTable(x: Byte)
    requires !Ss3Key(x).Char?
    ensures [ESC, LetterO, x] in EscapeSequences
    ensures EscapeSequences[[ESC, LetterO, x]] == Ss3Key(x)
  {
    if x == 'H' as int {
    } else {
      assert x == 'F' as int;
    }
  }

  lemma TildeInTable(d: Byte)
    requires !TildeKey(d).Char?
    ensures [ESC, LeftBracket, d, Tilde] in EscapeSequences
    ensures EscapeSequences[[ESC, LeftBracket, d, Tilde]] == TildeKey(d)
  {
    if d == '1' as int {
    } else if d == '3' as int {
    } else if d == '4' as int {
    } else if d == '5' as int {
    } else if d == '6' as int {
    } else if d == '7' as int {
    } else {
      assert d == '8' as int;
    }
  }

  /**
   * After an ESC, a named key comes only from a sequence of the table,
   * every byte of which was read.
   */
  lemma SequenceAgreesWithTable(rest: seq<ReadOutcome>, key: Key, n: nat)
    requires Sequence(ESC, rest) == (key, n) && !key.Char?
    ensures n <= |rest|
    ensures forall j :: 0 <= j < n ==> rest[j].Data?
    ensures InTable([ESC] + Payload(rest[..n]), key)
  {
    var s0, s1 := At(rest, 0).b, At(rest, 1).b;
    if s0 == LeftBracket && IsDigit(s1) {
      var s2 := At(rest, 2).b;
      assert [ESC] + Payload(rest[..n]) == [ESC, s0, s1, s2];
      TildeInTable(s1);
    } else if s0 == LeftBracket {
      assert [ESC] + Payload(rest[..n]) == [ESC, s0, s1];
      CsiInTable(s1);
    } else {
      assert [ESC] + Payload(rest[..n]) == [ESC, s0, s1];
      Ss3InTable(s1);
    }
  }

  /**
   * A decoded literal is the first byte that arrived: a byte other than
   * ESC, or ESC itself for every unmatched or partial escape sequence.
   */
  lemma DecodedLiteralIsFirstByte(input: seq<ReadOutcome>)
    requires Decode(input).Decoded? && Decode(input).key.Char?
    ensures Decode(input).key == Char(input[Idle(input)].b)
  {
    var r, k := Decode(input), Idle(input);
    assert (r.key, r.consumed - k - 1) == Sequence(input[k].b, input[k + 1..]);
  }

  /**
   * The decoder returns a named key only for a sequence of the table,
   * every byte of which it read.
   */
  lemma DecodedNamedKeyIsInTable(input: seq<ReadOutcome>)
    requires Decode(input).Decoded? && !Decode(input).key.Char?
    ensures Decode(input).consumed <= |input|
    ensures forall j :: Idle(input) <= j < Decode(input).consumed ==> input[j].Data?
    ensures InTable(Payload(input[Idle(input)..Decode(input).consumed]), Decode(input).key)
  {
    var r, k := Decode(input), Idle(input);
    DecodedBySequence(input);
    var d := Sequence(input[k].b, input[k + 1..]);
    EscapeAt(input, k, d.0, d.1);
  }

  /** A decoded key is what the escape-sequence decoding makes of the first byte and the reads after it. */
  lemma DecodedBySequence(input: seq<ReadOutcome>)
    requires Decode(input).Decoded?
    ensures var r, k := Decode(input), Idle(input);
      && k < |input| && input[k].Data?
      && var d := Sequence(input[k].b, input[k + 1..]);
      r.key == d.0 && r.consumed == k + 1 + d.1
  {
    var k := Idle(input);
    assert k < |input| && input[k] != Failed;
    assert input[k].Data?;
  }

  /** An escape sequence for a named key that starts at read k, read in full. */
  lemma EscapeAt(input: seq<ReadOutcome>, k: nat, key: Key, n: nat)
    requires k < |input| && input[k].Data?
    requires Sequence(input[k].b, input[k + 1..]) == (key, n) && !key.Char?
    ensures k + 1 + n <= |input|
    ensures forall j :: k <= j < k + 1 + n ==> input[j].Data?
    ensures InTable(Payload(input[k..k + 1 + n]), key)
  {
    var rest := input[k + 1..];
    SequenceAgreesWithTable(rest, key, n);
    var w := input[k..k + 1 + n];
    assert w == [Data(ESC)] + rest[..n];
    PayloadCons(ESC, rest[..n]);
  }

  lemma PayloadCons(b: Byte, o: seq<ReadOutcome>)
    ensures Payload([Data(b)] + o) == [b] + Payload(o)
  {
  }

  /** One timeout before the first byte is skipped and adds one read. */
  lemma OneTimeout(input: seq<ReadOutcome>)
    ensures Decode([NoData] + input) == Delayed(Decode(input), 1)
  {
    var longer := [NoData] + input;
    assert longer[1..] == input;
    var k := Idle(input);
    assert Idle(longer) == 1 + k;
    if k < |input| {
      assert longer[1 + k + 1..] == input[k + 1..];
    }
  }

  /** Timeouts before the first byte are skipped and only add to the count of reads. */
  lemma {:induction false} TimeoutsSkipped(n: nat, input: seq<ReadOutcome>)
    ensures Decode(Timeouts(n) + input) == Delayed(Decode(input), n)
    decreases n
  {
    if n > 0 {
      var rest := Timeouts(n - 1) + input;
      assert Timeouts(n) + input == [NoData] + rest;
      var d := Decode(input);
      calc {
        Decode(Timeouts(n) + input);
        Decode([NoData] + rest);
        { OneTimeout(rest); }
        Delayed(Decode(rest), 1);
        { TimeoutsSkipped(n - 1, input); }
        Delayed(Delayed(d, n - 1), 1);
        Delayed(d, n);
      }
    } else {
      assert Timeouts(n) + input == input;
    }
  }
}
