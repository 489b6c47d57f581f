/**
  The line splitter behind the ring buffer: lines keep their line break, and a
  last line without one is a line too.
 */
module LineScan {
  import opened Seqs
  import opened Utf8
  import opened Wrappers

  const NEWLINE: Byte := 0x0A

  // bufio.MaxScanTokenSize: a scanner's buffer does not grow beyond it.
  const MAX_TOKEN_SIZE := 65536

  /** bytes.IndexByte for the line break: where the first one stands, or -1. */
  function IndexNewline(s: Bytes): (i: int)
    ensures -1 <= i < |s|
    ensures i >= 0 ==> s[i] == NEWLINE
    ensures forall j :: 0 <= j < (if i < 0 then |s| else i) ==> s[j] != NEWLINE
  {
    if s == [] then -1
    else if s[0] == NEWLINE then 0
    else
      var i := IndexNewline(s[1..]);
      assert forall j :: 0 < j < |s| ==> s[j] == s[1..][j - 1];
      if i < 0 then -1 else i + 1
  }

  /** The split function: how far to advance and the token found, or that more data is needed. */
  function ScanLinesNoDropCR(data: Bytes, atEOF: bool): (r: (nat, Option<Bytes>))
    ensures r.0 <= |data|
    ensures r.1.Some? ==> r.0 > 0 && r.1.value == data[..r.0] && NEWLINE !in data[..r.0 - 1]
    ensures r.1.Some? ==> data[r.0 - 1] == NEWLINE || (atEOF && r.0 == |data|)
    ensures r.1.None? <==> data == [] || (!atEOF && NEWLINE !in data)
  {
    if atEOF && data == [] then (0, None)
    else
      var i := IndexNewline(data);
      if i >= 0 then (i + 1, Some(data[..i + 1]))
      else if atEOF then (|data|, if data == [] then None else Some(data))
      else (0, None)
  }

  // ----- lines

  predicate EndsLine(s: Bytes) {
    s != [] && s[|s| - 1] == NEWLINE
  }

  /** A line: it is not empty, and a line break can only be its last byte. */
  predicate IsLine(s: Bytes) {
    s != [] && NEWLINE !in s[..|s| - 1]
  }

  // The first line of a text.
  function FirstLine(s: Bytes): (l: Bytes)
    requires s != []
    ensures 0 < |l| <= |s| && l == s[..|l|]
    ensures IsLine(l)
    ensures |l| < |s| ==> EndsLine(l)
  {
    ScanLinesNoDropCR(s, true).1.value
  }

  function Lines(s: Bytes): (ls: seq<Bytes>)
    ensures s == [] <==> ls == []
  {
    if s == [] then [] else [FirstLine(s)] + Lines(s[|FirstLine(s)|..])
  }

  /** A sequence of lines all but the last of which are finished. */
  predicate AreLines(ls: seq<Bytes>) {
    && (forall i :: 0 <= i < |ls| ==> IsLine(ls[i]))
    && (forall i :: 0 <= i < |ls| - 1 ==> EndsLine(ls[i]))
  }

  /** The lines of a text are lines and make up the text. */
  lemma {:induction false} LinesOfText(s: Bytes)
    ensures AreLines(Lines(s)) && Concat(Lines(s)) == s
  {
    if s != [] {
      var l := FirstLine(s);
      var rest := Lines(s[|l|..]);
      LinesOfText(s[|l|..]);
      assert Lines(s)[1..] == rest;
      ConcatCons(Lines(s));
      SplitAt(s, |l|);
    }
  }

  lemma FirstLineOf(l: Bytes, t: Bytes)
    requires IsLine(l) && (t == [] || EndsLine(l))
    ensures FirstLine(l + t) == l
  {
    var s := l + t;
    var f := FirstLine(s);
    assert forall j :: 0 <= j < |l| - 1 ==> s[j] == l[..|l| - 1][j];
    assert forall j :: 0 <= j < |f| - 1 ==> s[j] == f[..|f| - 1][j];
    assert s[|f| - 1] == f[|f| - 1] && s[|l| - 1] == l[|l| - 1];
  }

  /** They are the only such sequence: there is one way to cut a text into lines. */
  lemma {:induction false} LinesUnique(ls: seq<Bytes>)
    requires AreLines(ls)
    ensures Lines(Concat(ls)) == ls
  {
    hide Lines, FirstLine, IsLine, EndsLine, Tokens;
    if ls == [] {
      NoLines();
    } else {
      var l, t := ls[0], Concat(ls[1..]);
      ConcatCons(ls);
      if |ls| == 1 {
        assert ls[1..] == [];
      }
      LinesUnique(ls[1..]);
      FirstLineOf(l, t);
      DropFront(l, t);
      LinesStep(l + t);
    }
  }

  /** `ts` goes on where `ls` stops: its first line continues an unfinished last one. */
  function Continue(ls: seq<Bytes>, ts: seq<Bytes>): seq<Bytes> {
    if ts != [] && ls != [] && !EndsLine(ls[|ls| - 1]) then
      ls[..|ls| - 1] + [ls[|ls| - 1] + ts[0]] + ts[1..]
    else
      ls + ts
  }

  lemma ContinueLines(ls: seq<Bytes>, ts: seq<Bytes>)
    requires AreLines(ls) && AreLines(ts)
    ensures AreLines(Continue(ls, ts))
  {
    if ts != [] && ls != [] && !EndsLine(ls[|ls| - 1]) {
      var x, y := ls[|ls| - 1], ts[0];
      assert NEWLINE !in x by {
        assert x == x[..|x| - 1] + [x[|x| - 1]];
      }
      assert (x + y)[..|x + y| - 1] == x + y[..|y| - 1];
      assert EndsLine(y) ==> EndsLine(x + y);
    }
  }

  lemma ContinueText(ls: seq<Bytes>, ts: seq<Bytes>)
    ensures Concat(Continue(ls, ts)) == Concat(ls) + Concat(ts)
  {
    if ts != [] && ls != [] && !EndsLine(ls[|ls| - 1]) {
      var init, x, y, rest := ls[..|ls| - 1], ls[|ls| - 1], ts[0], ts[1..];
      ConcatAppend(init + [x + y], rest);
      ConcatAppend(init, [x + y]);
      ConcatOne(x + y);
      ConcatCons(ts);
      var a := Concat(init);
      Assoc(a, x, y);
      Assoc(a + x, y, Concat(rest));
    } else {
      ConcatAppend(ls, ts);
    }
  }

  /** The lines of a text that arrives in two parts. */
  lemma LinesOfConcat(s: Bytes, t: Bytes)
    ensures Lines(s + t) == Continue(Lines(s), Lines(t))
  {
    LinesOfText(s);
    LinesOfText(t);
    ContinueLines(Lines(s), Lines(t));
    ContinueText(Lines(s), Lines(t));
    LinesUnique(Continue(Lines(s), Lines(t)));
  }

  // ----- the scanner

  /** No line break within a full buffer: the scanner gives up. */
  predicate TooLong(s: Bytes) {
    |s| >= MAX_TOKEN_SIZE && NEWLINE !in s[..MAX_TOKEN_SIZE]
  }

  /** The tokens that a scanner over `s` yields before it stops. */
  function Tokens(s: Bytes): (ts: seq<Bytes>)
    ensures ts <= Lines(s)
  {
    if s == [] || TooLong(s) then [] else [FirstLine(s)] + Tokens(s[|FirstLine(s)|..])
  }

  /** The part of a chunk that reaches the ring. */
  function Accepted(s: Bytes): Bytes {
    Concat(Tokens(s))
  }

  // A line the scanner can hold, together with its line break.
  predicate Fits(l: Bytes) {
    |l| < 65536 || (|l| == 65536 && EndsLine(l))
  }

  lemma TooLongIffFirst(s: Bytes)
    requires s != []
    ensures TooLong(s) <==> !Fits(FirstLine(s))
  {
    var l := FirstLine(s);
    if TooLong(s) && |l| <= MAX_TOKEN_SIZE {
      assert s[..MAX_TOKEN_SIZE][|l| - 1] == l[|l| - 1];
    }
    if |l| > MAX_TOKEN_SIZE || (|l| == MAX_TOKEN_SIZE && !EndsLine(l)) {
      forall j | 0 <= j < MAX_TOKEN_SIZE ensures s[j] != NEWLINE {
        if j < |l| - 1 {
          assert l[..|l| - 1][j] == s[j];
        }
      }
    }
  }

  // The token of every scan, and what is left behind it.
  lemma TokensStep(s: Bytes)
    requires s != [] && !TooLong(s)
    ensures Tokens(s) == [FirstLine(s)] + Tokens(s[|FirstLine(s)|..])
    ensures Accepted(s) == FirstLine(s) + Accepted(s[|FirstLine(s)|..])
  {
    ConcatCons(Tokens(s));
    assert Tokens(s)[1..] == Tokens(s[|FirstLine(s)|..]);
  }

  // What the first line contributes.
  lemma AcceptedStep(l: Bytes, rest: Bytes, accepted: Bytes)
    requires |accepted| <= |rest| && accepted == rest[..|accepted|]
    ensures (l + rest)[..|l + accepted|] == l + accepted
    ensures l + accepted == l + rest <==> accepted == rest
  {
    DropFront(l, accepted);
    DropFront(l, rest);
  }

  lemma LinesStep(s: Bytes)
    requires s != []
    ensures Lines(s) == [FirstLine(s)] + Lines(s[|FirstLine(s)|..])
    ensures FirstLine(s) + s[|FirstLine(s)|..] == s
  {
    SplitAt(s, |FirstLine(s)|);
  }

  lemma NoLines()
    ensures Accepted([]) == [] && Lines([]) == [] && forall s :: TooLong(s) ==> Accepted(s) == []
  {
  }

  /** The scanner accepts a beginning of the chunk, and all of it exactly if every line fits. */
  lemma {:induction false} AcceptedIff(s: Bytes)
    ensures |Accepted(s)| <= |s| && Accepted(s) == s[..|Accepted(s)|]
    ensures Accepted(s) == s <==> forall l :: l in Lines(s) ==> Fits(l)
  {
    hide *;
    NoLines();
    if s != [] {
      var l := FirstLine(s);
      var rest := s[|l|..];
      TooLongIffFirst(s);
      LinesStep(s);
      assert l in Lines(s);
      if !TooLong(s) {
        AcceptedIff(rest);
        TokensStep(s);
        AcceptedStep(l, rest, Accepted(rest));
        assert forall x :: x in Lines(s) <==> x == l || x in Lines(rest);
      }
    }
  }

  lemma {:induction false} AcceptedLines(s: Bytes)
    ensures AreLines(Tokens(s)) && Lines(Accepted(s)) == Tokens(s)
  {
    LinesOfText(s);
    assert AreLines(Tokens(s)) by {
      assert forall i :: 0 <= i < |Tokens(s)| ==> Tokens(s)[i] == Lines(s)[i];
    }
    LinesUnique(Tokens(s));
  }

  /** A scanner over the lines of one chunk. */
  class LineScanner {
    // What has not been read yet, and the token read last.
    var unread: Bytes
    var token: Bytes

    constructor CreateLineScanner(bts: Bytes)
      ensures unread == bts
    {
      unread := bts;
      token := [];
    }

    method Scan() returns (found: bool)
      modifies this
      ensures found <==> Tokens(old(unread)) != []
      ensures found ==> Tokens(old(unread)) == [token] + Tokens(unread)
      ensures !found ==> unread == old(unread)
    {
      if TooLong(unread) {
        return false;
      }
      var (advance, next) := ScanLinesNoDropCR(unread, true);
      if next.None? {
        return false;
      }
      token := next.value;
      unread := unread[advance..];
      return true;
    }

    method Text() returns (text: Bytes)
      ensures text == token
    {
      return token;
    }
  }
}
