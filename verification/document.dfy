/**
 * The document: the rows `editorOpen` reads from a file with `getline`,
 * each with its trailing `\n` and `\r` bytes removed.
 */
module Document {
  import opened Bytes

  /** The source's `row`: a byte string and its length. */
  datatype Row = Row(size: int, chars: seq<Byte>)

  /** The length field agrees with the bytes. */
  predicate WellFormed(r: Row)
  {
    r.size == |r.chars|
  }

  predicate IsLineEnd(b: Byte)
  {
    b == NL || b == CR
  }

  /**
   * The length of the line `getline` returns from the start of s: up to
   * and including the first `\n`, or all of s when it has none.
   */
  function LineLength(s: seq<Byte>): (n: nat)
    ensures n <= |s| && (s != [] ==> n >= 1)
  {
    if s == [] then 0 else if s[0] == NL then 1 else 1 + LineLength(s[1..])
  }

  /** The line `getline` returns ends at the first `\n`, or at the end of s when it has none. */
  lemma {:induction false} LineLengthShape(s: seq<Byte>)
    ensures var n := LineLength(s);
      && (forall i :: 0 <= i < n - 1 ==> s[i] != NL)
      && (n == |s| || s[n - 1] == NL)
      && (n < |s| ==> n >= 1 && s[n - 1] == NL)
    decreases |s|
  {
    if s != [] && s[0] != NL {
      LineLengthShape(s[1..]);
      assert forall i :: 1 <= i < |s| ==> s[i] == s[1..][i - 1];
    }
  }

  /** The lines successive `getline` calls return, in file order. */
  function SplitLines(s: seq<Byte>): (r: seq<seq<Byte>>)
    ensures |r| <= |s|
    ensures r == [] <==> s == []
    decreases |s|
  {
    if s == [] then [] else
      var n := LineLength(s);
      [s[..n]] + SplitLines(s[n..])
  }

  /** The concatenation of a list of byte strings. */
  function Concat(ls: seq<seq<Byte>>): seq<Byte>
  {
    if ls == [] then [] else ls[0] + Concat(ls[1..])
  }

  /**
   * The stripping loop of `editorOpen`: the line without its trailing run
   * of `\n` and `\r` bytes.
   */
  function Stripped(line: seq<Byte>): (r: seq<Byte>)
    ensures |r| <= |line| && r == line[..|r|]
    ensures forall i :: |r| <= i < |line| ==> IsLineEnd(line[i])
    ensures r == [] || !IsLineEnd(r[|r| - 1])
  {
    if line != [] && IsLineEnd(line[|line| - 1]) then Stripped(line[..|line| - 1]) else line
  }

  /** The rows `editorOpen` appends for a file with the given contents. */
  function Lines(content: seq<Byte>): (r: seq<seq<Byte>>)
    ensures |r| == |SplitLines(content)| <= |content|
    ensures r == [] <==> content == []
  {
    var pieces := SplitLines(content);
    seq(|pieces|, i requires 0 <= i < |pieces| => Stripped(pieces[i]))
  }

  /** The rows for a list of lines, each with its length. */
  function RowsOf(ls: seq<seq<Byte>>): seq<Row>
  {
    seq(|ls|, i requires 0 <= i < |ls| => Row(|ls[i]|, ls[i]))
  }

  /** The pieces `getline` returns are the whole file, in order. */
  lemma {:induction false} SplitLinesConcat(s: seq<Byte>)
    ensures Concat(SplitLines(s)) == s
    decreases |s|
  {
    if s != [] {
      var n := LineLength(s);
      SplitLinesConcat(s[n..]);
      assert SplitLines(s)[1..] == SplitLines(s[n..]);
      assert s == s[..n] + s[n..];
    }
  }

  /**
   * Piece k of the file: not empty, a `\n` only as its last byte, and a
   * `\n` there unless it is the last piece.
   */
  predicate IsPiece(ps: seq<seq<Byte>>, k: nat)
    requires k < |ps|
  {
    var p := ps[k];
    && p != []
    && (forall i :: 0 <= i < |p| - 1 ==> p[i] != NL)
    && (k < |ps| - 1 ==> p[|p| - 1] == NL)
  }

  /** Every piece `getline` returns has the shape of a line. */
  lemma {:induction false} SplitLinesPieces(s: seq<Byte>, k: nat)
    requires k < |SplitLines(s)|
    ensures IsPiece(SplitLines(s), k)
    decreases |s|
  {
    var n := LineLength(s);
    var ps := SplitLines(s);
    LineLengthShape(s);
    assert ps[1..] == SplitLines(s[n..]);
    if k > 0 {
      SplitLinesPieces(s[n..], k - 1);
      assert ps[k] == SplitLines(s[n..])[k - 1];
    } else if 0 < |ps| - 1 {
      assert s[n..] != [];
    }
  }

  /**
   * The rows hold no line-ending bytes where they end and no `\n` at all,
   * an empty file gives no rows, and each row is its line of the file
   * without the trailing `\n` and `\r` bytes.
   */
  lemma RowsOfFile(content: seq<Byte>)
    ensures Lines(content) == [] <==> content == []
    ensures |Lines(content)| == |SplitLines(content)|
    ensures forall k :: 0 <= k < |Lines(content)| ==>
      var row, piece := Lines(content)[k], SplitLines(content)[k];
      && |row| <= |piece| && row == piece[..|row|]
      && (forall i :: |row| <= i < |piece| ==> IsLineEnd(piece[i]))
      && (forall i :: 0 <= i < |row| ==> row[i] != NL)
      && (row == [] || !IsLineEnd(row[|row| - 1]))
  {
    forall k | 0 <= k < |Lines(content)|
      ensures forall i :: 0 <= i < |Lines(content)[k]| ==> Lines(content)[k][i] != NL
    {
      SplitLinesPieces(content, k);
    }
  }

  /** Each line followed by `\n`, in order: the contents of a file written from these lines. */
  function Terminated(ls: seq<seq<Byte>>): seq<Byte>
  {
    if ls == [] then [] else ls[0] + [NL] + Terminated(ls[1..])
  }

  /** A line that survives loading unchanged: no `\n` in it and no `\r` at its end. */
  predicate Loadable(l: seq<Byte>)
  {
    (forall i :: 0 <= i < |l| ==> l[i] != NL) && (l == [] || l[|l| - 1] != CR)
  }

  /** Writing lines out with `\n` after each and loading the file gives the lines back. */
  lemma {:induction false} LoadTerminated(ls: seq<seq<Byte>>)
    requires forall k :: 0 <= k < |ls| ==> Loadable(ls[k])
    ensures Lines(Terminated(ls)) == ls
    decreases |ls|
  {
    if ls != [] {
      FirstLine(ls[0], [NL], Terminated(ls[1..]));
      LoadTerminated(ls[1..]);
    }
  }

  /** The first getline piece of a loadable line followed by `\n` is that line and its `\n`. */
  lemma {:induction false} LineOfLoadable(l: seq<Byte>, rest: seq<Byte>)
    requires forall i :: 0 <= i < |l| ==> l[i] != NL
    ensures LineLength(l + [NL] + rest) == |l| + 1
    decreases |l|
  {
    if l != [] {
      assert (l + [NL] + rest)[1..] == l[1..] + [NL] + rest;
      LineOfLoadable(l[1..], rest);
    }
  }

  /** Lines of a non-empty file: the first piece's row, then the rows of the rest. */
  lemma LinesCons(s: seq<Byte>, n: nat)
    requires s != [] && n == LineLength(s)
    ensures Lines(s) == [Stripped(s[..n])] + Lines(s[n..])
  {
  }

  /** After pos bytes of content, `getline` has returned exactly the first k pieces. */
  predicate Remaining(content: seq<Byte>, pos: nat, k: nat)
  {
    pos <= |content| && k <= |SplitLines(content)| && pos == |Concat(SplitLines(content)[..k])|
  }

  lemma {:induction false} ConcatSnoc(ls: seq<seq<Byte>>, x: seq<Byte>)
    ensures Concat(ls + [x]) == Concat(ls) + x
    decreases |ls|
  {
    if ls == [] {
      assert [x][1..] == [];
    } else {
      assert (ls + [x])[1..] == ls[1..] + [x];
      ConcatSnoc(ls[1..], x);
    }
  }

  /** The first k pieces are the first line and the k - 1 pieces after it. */
  lemma PiecesCons(s: seq<Byte>, k: nat)
    requires s != [] && 0 < k <= |SplitLines(s)|
    ensures var n := LineLength(s); var tail := SplitLines(s[n..]);
      && |Concat(SplitLines(s)[..k])| == n + |Concat(tail[..k - 1])|
      && SplitLines(s)[k..] == tail[k - 1..]
  {
    var n := LineLength(s);
    var ps, tail := SplitLines(s), SplitLines(s[n..]);
    assert ps == [s[..n]] + tail;
    assert ps[..k][0] == s[..n];
    assert ps[..k][1..] == tail[..k - 1];
  }

  /** The pieces after the first k are the pieces of what follows them. */
  lemma {:induction false} SplitLinesSuffix(s: seq<Byte>, k: nat)
    requires k <= |SplitLines(s)|
    ensures |Concat(SplitLines(s)[..k])| <= |s|
    ensures SplitLines(s[|Concat(SplitLines(s)[..k])|..]) == SplitLines(s)[k..]
    decreases k
  {
    if k == 0 {
      assert SplitLines(s)[..k] == [];
      assert s[0..] == s;
    } else {
      var n := LineLength(s);
      var rest := s[n..];
      PiecesCons(s, k);
      SplitLinesSuffix(rest, k - 1);
      var m := |Concat(SplitLines(rest)[..k - 1])|;
      var p := |Concat(SplitLines(s)[..k])|;
      assert p == n + m;
      assert s[p..] == rest[m..];
      calc {
        SplitLines(s[p..]);
        SplitLines(rest[m..]);
        SplitLines(rest)[k - 1..];
        SplitLines(s)[k..];
      }
    }
  }

  /** Before the first `getline` call nothing has been returned. */
  lemma LoadStart(content: seq<Byte>)
    ensures Remaining(content, 0, 0)
  {
    assert SplitLines(content)[..0] == [];
  }

  /** At the end of the file every piece has been returned. */
  lemma LoadEnd(content: seq<Byte>, k: nat)
    requires Remaining(content, |content|, k)
    ensures k == |Lines(content)|
  {
    SplitLinesSuffix(content, k);
    assert content[|content|..] == [];
  }

  /**
   * One `getline` call of `editorOpen`: at position pos, where the pieces
   * left are the k-th on, the next line is piece k and its stripped form
   * is line k of the file.
   */
  lemma LoadStep(content: seq<Byte>, pos: nat, k: nat, n: nat)
    requires Remaining(content, pos, k) && pos < |content| && n == LineLength(content[pos..])
    ensures pos + n <= |content| && k < |Lines(content)|
    ensures Remaining(content, pos + n, k + 1)
    ensures Lines(content)[k] == Stripped(content[pos..pos + n])
  {
    SplitLinesSuffix(content, k);
    var pieces, rest := SplitLines(content), content[pos..];
    var tail := SplitLines(rest[n..]);
    assert SplitLines(rest) == [rest[..n]] + tail;
    assert pieces[k..] == [rest[..n]] + tail;
    assert pieces[k] == rest[..n] by {
      assert pieces[k..][0] == pieces[k];
    }
    assert pieces[k + 1..] == pieces[k..][1..];
    assert rest[n..] == content[pos + n..];
    assert rest[..n] == content[pos..pos + n];
    assert Lines(content)[k] == Stripped(pieces[k]);
    var line := content[pos..pos + n];
    assert pieces[k] == line;
    assert pieces[..k + 1] == pieces[..k] + [line];
    ConcatSnoc(pieces[..k], line);
  }

  /** Dropping one trailing line-end byte does not change the stripped line. */
  lemma StripOne(line: seq<Byte>, n: nat)
    requires 0 < n <= |line| && IsLineEnd(line[n - 1])
    ensures Stripped(line[..n - 1]) == Stripped(line[..n])
  {
    assert line[..n][..n - 1] == line[..n - 1];
  }

  /** The rows of one more line. */
  lemma RowsOfSnoc(ls: seq<seq<Byte>>, k: nat)
    requires k < |ls|
    ensures RowsOf(ls[..k + 1]) == RowsOf(ls[..k]) + [Row(|ls[k]|, ls[k])]
  {
  }

  /** Removing a run of line-end bytes from a loadable line gives the line back. */
  lemma {:induction false} StrippedLoadable(l: seq<Byte>, ends: seq<Byte>)
    requires Loadable(l)
    requires forall i :: 0 <= i < |ends| ==> IsLineEnd(ends[i])
    ensures Stripped(l + ends) == l
    decreases |ends|
  {
    if ends == [] {
      assert l + ends == l;
    } else {
      var shorter := ends[..|ends| - 1];
      assert (l + ends)[..|l + ends| - 1] == l + shorter;
      StrippedLoadable(l, shorter);
    }
  }

  /** A final line without `\n` is one `getline` piece. */
  lemma {:induction false} LineLengthUnterminated(l: seq<Byte>)
    requires forall i :: 0 <= i < |l| ==> l[i] != NL
    ensures LineLength(l) == |l|
    decreases |l|
  {
    if l != [] {
      LineLengthUnterminated(l[1..]);
    }
  }

  /**
   * A loadable line followed by `\r` bytes and a `\n` is the first row,
   * and the rest of the file gives the other rows.
   */
  lemma FirstLine(l: seq<Byte>, ending: seq<Byte>, rest: seq<Byte>)
    requires Loadable(l)
    requires ending != [] && ending[|ending| - 1] == NL
    requires forall i :: 0 <= i < |ending| - 1 ==> ending[i] == CR
    ensures Lines(l + ending + rest) == [l] + Lines(rest)
  {
    var s := l + ending + rest;
    var head := l + ending[..|ending| - 1];
    assert s == head + [NL] + rest;
    LineOfLoadable(head, rest);
    var n := |l| + |ending|;
    LinesCons(s, n);
    assert s[..n] == l + ending;
    StrippedLoadable(l, ending);
    assert s[n..] == rest;
  }

  /** A loadable, non-empty last line without an ending is the last row. */
  lemma LastLine(l: seq<Byte>)
    requires Loadable(l) && l != []
    ensures Lines(l) == [l]
  {
    LineLengthUnterminated(l);
    LinesCons(l, |l|);
    assert l[..|l|] == l + [];
    StrippedLoadable(l, []);
    assert l[|l|..] == [];
  }

  /**
   * Lines ending in `\r\n` and in `\n`, and a last line without an
   * ending, all load as the lines themselves: "foo\r\nbar\nbaz" gives
   * "foo", "bar", "baz".
   */
  lemma MixedLineEndings(foo: seq<Byte>, bar: seq<Byte>, baz: seq<Byte>)
    requires Loadable(foo) && Loadable(bar) && Loadable(baz) && baz != []
    ensures Lines(foo + [CR, NL] + bar + [NL] + baz) == [foo, bar, baz]
  {
    var t := bar + [NL] + baz;
    assert foo + [CR, NL] + bar + [NL] + baz == foo + [CR, NL] + t;
    FirstLine(foo, [CR, NL], t);
    FirstLine(bar, [NL], baz);
    LastLine(baz);
  }
}
