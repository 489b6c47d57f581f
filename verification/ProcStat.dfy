/** Parsing of /proc/[pid]/stat. */
module ProcStat {
  import opened Seqs
  import opened Wrappers
  import opened Text

  const MAX_STAT_FILE_SIZE := 4096
  const MAX_STAT_FIELDS := 100
  const MIN_STAT_FIELDS := 22

  datatype Stat = Stat(ppid: string, pgrp: int, tpgid: int, utimeTicks: int, stimeTicks: int, startTicks: int)

  datatype Failure = NoParen | TooManyFields | TooFewFields | BadPgrp | BadTpgid | BadUtime | BadStime | BadStarttime

  // The one read of at most 4096 bytes.
  function Truncated(file: string): string {
    if |file| <= MAX_STAT_FILE_SIZE then file else file[..MAX_STAT_FILE_SIZE]
  }

  // The fields behind the command name, which ends at the last closing parenthesis.
  function FieldsBehindName(str: string): Option<seq<string>> {
    var lastParen := LastIndex(str, ')');
    if lastParen == -1 then None else Some(Fields(str[lastParen + 1..]))
  }

  /** What a list of fields says, or the first thing that is wrong with it. */
  function StatOf(fields: seq<string>): (r: Result<Stat, Failure>)
    ensures r.Ok? ==> MIN_STAT_FIELDS <= |fields| <= MAX_STAT_FIELDS && r.value.startTicks > 0
  {
    if |fields| > MAX_STAT_FIELDS then Err(TooManyFields)
    else if |fields| < MIN_STAT_FIELDS then Err(TooFewFields)
    else if ScanInt(fields[2]).None? then Err(BadPgrp)
    else if ScanInt(fields[5]).None? then Err(BadTpgid)
    else if ScanInt(fields[11]).None? then Err(BadUtime)
    else if ScanInt(fields[12]).None? then Err(BadStime)
    else if ScanInt(fields[19]).None? || ScanInt(fields[19]).value <= 0 then Err(BadStarttime)
    else Ok(Stat(fields[1], ScanInt(fields[2]).value, ScanInt(fields[5]).value, ScanInt(fields[11]).value,
                 ScanInt(fields[12]).value, ScanInt(fields[19]).value))
  }

  function Parsed(file: string): Result<Stat, Failure> {
    match FieldsBehindName(Truncated(file))
    case None => Err(NoParen)
    case Some(fields) => StatOf(fields)
  }

  /** The parser, which fills in the result field by field. */
  method ParseProcStat(file: string) returns (r: Result<Stat, Failure>)
    ensures r == Parsed(file)
  {
    var str := Truncated(file);
    var lastParen := LastIndex(str, ')');
    if lastParen == -1 {
      return Err(NoParen);
    }
    var fields := Fields(str[lastParen + 1..]);
    if |fields| > MAX_STAT_FIELDS {
      return Err(TooManyFields);
    }
    if |fields| < MIN_STAT_FIELDS {
      return Err(TooFewFields);
    }
    var stat := Stat(fields[1], 0, 0, 0, 0, 0);
    var n := ScanInt(fields[2]);
    if n.None? {
      return Err(BadPgrp);
    }
    stat := stat.(pgrp := n.value);
    n := ScanInt(fields[5]);
    if n.None? {
      return Err(BadTpgid);
    }
    stat := stat.(tpgid := n.value);
    n := ScanInt(fields[11]);
    if n.None? {
      return Err(BadUtime);
    }
    stat := stat.(utimeTicks := n.value);
    n := ScanInt(fields[12]);
    if n.None? {
      return Err(BadStime);
    }
    stat := stat.(stimeTicks := n.value);
    n := ScanInt(fields[19]);
    if n.None? || n.value <= 0 {
      return Err(BadStarttime);
    }
    stat := stat.(startTicks := n.value);
    return Ok(stat);
  }

  // ----- the kernel's line

  /** The fields behind the command name: the state, then numbers. */
  datatype Line = Line(pid: int, comm: string, state: string, numbers: seq<int>)

  predicate Canonical(l: Line) {
    IsWord(l.state) && ')' !in l.state
  }

  function RenderAll(ns: seq<int>): (ws: seq<string>)
    ensures |ws| == |ns|
  {
    seq(|ns|, i requires 0 <= i < |ns| => Render(ns[i]))
  }

  function FieldTexts(l: Line): (ws: seq<string>)
    ensures |ws| == 1 + |l.numbers|
  {
    [l.state] + RenderAll(l.numbers)
  }

  /** `pid (comm) state ppid pgrp session tty_nr tpgid ...`, ended by a line break. */
  function RenderLine(l: Line): string {
    Render(l.pid) + " (" + l.comm + ")" + (" " + Join(FieldTexts(l), " ") + "\n")
  }

  lemma FieldTextsAreWords(l: Line)
    requires Canonical(l)
    ensures forall w :: w in FieldTexts(l) ==> IsWord(w) && ')' !in w
  {
    forall w | w in FieldTexts(l) ensures IsWord(w) && ')' !in w {
      if w != l.state {
        var i :| 0 <= i < |l.numbers| && w == Render(l.numbers[i]);
        RenderIsWord(l.numbers[i]);
      }
    }
  }

  lemma {:induction false} JoinWithout(ws: seq<string>, c: char)
    requires c != ' ' && forall w :: w in ws ==> c !in w
    ensures c !in Join(ws, " ")
  {
    if |ws| > 1 {
      JoinWithout(ws[1..], c);
    }
  }

  // The last closing parenthesis is the one that ends the command name.
  lemma {:induction false} LastIndexOf(a: string, c: char, b: string)
    requires c !in b
    ensures LastIndex(a + [c] + b, c) == |a|
  {
    var s := a + [c] + b;
    assert s[|a|] == c;
    assert forall j :: |a| < j < |s| ==> s[j] == b[j - |a| - 1];
  }

  lemma FieldsOfLine(l: Line)
    requires Canonical(l)
    ensures FieldsBehindName(RenderLine(l)) == Some(FieldTexts(l))
  {
    hide Join, Fields, Render, LastIndex;
    var ws := FieldTexts(l);
    var front, back := Render(l.pid) + " (" + l.comm, " " + Join(ws, " ") + "\n";
    FieldTextsAreWords(l);
    JoinWithout(ws, ')');
    assert RenderLine(l) == front + ")" + back;
    LastIndexOf(front, ')', back);
    assert RenderLine(l)[|front| + 1..] == back;
    Assoc(" ", Join(ws, " "), "\n");
    FieldsBlank(Join(ws, " ") + "\n");
    FieldsJoin(ws, "\n");
  }

  /**
    The parser inverts the kernel's format: whatever the command name, with
    blanks, line breaks and parentheses, it finds every number again. It fails
    exactly if there are not 22 to 100 fields, if one of the numbers it needs is
    beyond 64 bits, or if the start time is not positive, and names the first of these.
   */
  lemma ParseInvertsRender(l: Line)
    requires Canonical(l) && |RenderLine(l)| <= 4096
    ensures var n := l.numbers;
            Parsed(RenderLine(l)) ==
            if |n| > 99 then Err(TooManyFields)
            else if |n| < 21 then Err(TooFewFields)
            else if !IsInt64(n[1]) then Err(BadPgrp)
            else if !IsInt64(n[4]) then Err(BadTpgid)
            else if !IsInt64(n[10]) then Err(BadUtime)
            else if !IsInt64(n[11]) then Err(BadStime)
            else if !IsInt64(n[18]) || n[18] <= 0 then Err(BadStarttime)
            else Ok(Stat(Render(n[0]), n[1], n[4], n[10], n[11], n[18]))
  {
    hide RenderLine, FieldsBehindName, ScanInt, Render;
    FieldsOfLine(l);
    forall n ensures ScanInt(Render(n)) == if IsInt64(n) then Some(n) else None {
      ScanRender(n, []);
      assert Render(n) + [] == Render(n);
    }
  }

  /** A file without a closing parenthesis in its first 4096 bytes is none of these lines. */
  lemma NoParenIff(file: string)
    ensures Parsed(file) == Err(NoParen) <==> forall i :: 0 <= i < |file| && i < 4096 ==> file[i] != ')'
  {
    var str := Truncated(file);
    assert forall i :: 0 <= i < |str| ==> str[i] == file[i];
  }
}
