/**
  The output path of an exec: what the pod writes goes through the filter into
  the ring buffer and then to every attached connection.
 */
module Pty {
  import opened Seqs
  import opened Utf8
  import opened Pieces
  import opened StreamFilter
  import opened ValidStreams
  import opened LineScan
  import opened LineRing
  import opened WsConn
  import opened Machine
  import opened Steps

  /** What each of a run of writes sends out. */
  function Outputs(chunks: seq<Bytes>): (outs: seq<Bytes>)
    ensures |outs| == |chunks|
  {
    if chunks == [] then []
    else
      var init, last := chunks[..|chunks| - 1], chunks[|chunks| - 1];
      Outputs(init) + [Rendered(Filter(Run(init).rest, last).pieces)]
  }

  /** The screen that a client gets after these writes. */
  function Screen(chunks: seq<Bytes>): Bytes {
    Content(TextAfter(Outputs(chunks)))
  }

  lemma OutputsSnoc(chunks: seq<Bytes>, p: Bytes)
    ensures Outputs(chunks + [p]) == Outputs(chunks) + [Rendered(Filter(Run(chunks).rest, p).pieces)]
  {
    assert (chunks + [p])[..|chunks|] == chunks;
  }

  /** Everything sent out, in one piece, is what the filter makes of the whole run. */
  lemma {:induction false} OutputsTogether(chunks: seq<Bytes>)
    ensures Concat(Outputs(chunks)) == Rendered(Run(chunks).pieces)
  {
    if chunks != [] {
      hide Rendered, Filter;
      var init, last := chunks[..|chunks| - 1], chunks[|chunks| - 1];
      var p := Filter(Run(init).rest, last);
      OutputsTogether(init);
      assert Outputs(chunks)[..|chunks| - 1] == Outputs(init);
      ConcatPieces(Run(init).pieces, p.pieces);
    } else {
      NothingRendered();
    }
  }

  lemma FilteredWellFormed(rest: Bytes, data: Bytes)
    requires rest != [] ==> RuneStart(rest[0])
    ensures WellFormed(Rendered(Filter(rest, data).pieces))
  {
    FilterAccounts(rest, data);
    RenderedWellFormed(Filter(rest, data).pieces);
  }

  /** Even when the scanner gives up on a chunk, what it accepted is well-formed. */
  lemma AcceptedWellFormed(s: Bytes)
    requires WellFormed(s)
    ensures WellFormed(Accepted(s))
  {
    AcceptedIff(s);
    AcceptedEnds(s);
    if Accepted(s) != [] && Accepted(s) != s {
      SplitAt(s, |Accepted(s)|);
      WellFormedAfterNewline(Accepted(s), s[|Accepted(s)|..]);
    }
  }

  lemma {:induction false} AcceptedEnds(s: Bytes)
    ensures Accepted(s) == [] || Accepted(s) == s || EndsLine(Accepted(s))
  {
    if s != [] && !TooLong(s) {
      hide TooLong, FirstLine, Accepted;
      var l := FirstLine(s);
      var rest := s[|l|..];
      AcceptedEnds(rest);
      TokensStep(s);
      SplitAt(s, |l|);
      if rest == [] {
        AcceptedIff(rest);
      }
    } else {
      assert Tokens(s) == [];
    }
  }

  /** What the ring accepts of well-formed outputs is well-formed. */
  lemma {:induction false} TextWellFormed(outs: seq<Bytes>)
    requires forall o :: o in outs ==> WellFormed(o)
    ensures WellFormed(TextAfter(outs))
  {
    if outs != [] {
      hide WellFormed, Accepted;
      var init, last := outs[..|outs| - 1], outs[|outs| - 1];
      assert last in outs && forall o :: o in init ==> o in outs;
      TextWellFormed(init);
      AcceptedWellFormed(last);
      WellFormedConcat(TextAfter(init), Accepted(last));
    }
  }

  // What is shown of it is too, as it starts behind a line break if not at the front.
  lemma ContentWellFormed(text: Bytes)
    requires WellFormed(text)
    ensures WellFormed(Content(text))
  {
    ContentIsSuffix(text);
    var k := |text| - |Content(text)|;
    if Content(text) != text {
      SplitAt(text, k);
      WellFormedAfterNewline(text[..k], text[k..]);
    }
  }

  lemma {:induction false} OutputsWellFormed(chunks: seq<Bytes>)
    ensures forall o :: o in Outputs(chunks) ==> WellFormed(o)
  {
    if chunks != [] {
      hide Filter, Rendered, WellFormed;
      var init, last := chunks[..|chunks| - 1], chunks[|chunks| - 1];
      OutputsWellFormed(init);
      RunRewritesInput(init);
      FilteredWellFormed(Run(init).rest, last);
    }
  }

  /** After any run of writes on any bytes, what a client is shown is well-formed UTF-8. */
  lemma ScreenWellFormed(chunks: seq<Bytes>)
    ensures WellFormed(Screen(chunks))
  {
    hide Content, WellFormed, Outputs, TextAfter;
    OutputsWellFormed(chunks);
    TextWellFormed(Outputs(chunks));
    ContentWellFormed(TextAfter(Outputs(chunks)));
  }

  lemma ScreenUnfold(chunks: seq<Bytes>)
    ensures Screen(chunks) == Content(TextAfter(Outputs(chunks)))
    ensures forall text :: Kept(text) == LastN(Lines(text), SIZE)
  {
  }

  // `s` is an end of `text`, and its lines are the last ones.
  predicate LastLines(s: Bytes, text: Bytes) {
    && |s| <= |text| && s == text[|text| - |s|..]
    && Lines(s) == LastN(Lines(text), SIZE)
  }

  /**
    It is the last 1000 lines of what the ring accepted, and that is everything
    that was broadcast exactly if the scanner can hold the lines.
   */
  lemma ScreenIsSuffix(chunks: seq<Bytes>)
    ensures LastLines(Screen(chunks), TextAfter(Outputs(chunks)))
    ensures TextAfter(Outputs(chunks)) == Concat(Outputs(chunks)) <==> AllFit(Outputs(chunks))
  {
    hide Lines, Content, TextAfter, Outputs, AllFit, Concat;
    ScreenUnfold(chunks);
    WholeTextIff(Outputs(chunks));
    ContentIsSuffix(TextAfter(Outputs(chunks)));
  }

  /**
    When the pod writes valid UTF-8, what the ring accepted is the raw output
    without the bytes held back, exactly if the scanner can hold the lines; the
    bytes held back are the unfinished last character if U+FFFD does not occur.
   */
  lemma ScreenIsRawOutput(chunks: seq<Bytes>)
    requires Extendable(Concat(chunks))
    ensures var raw, held := Concat(chunks), |Run(chunks).rest|;
            && held <= |raw|
            && (TextAfter(Outputs(chunks)) == raw[..|raw| - held] <==> AllFit(Outputs(chunks)))
            && (!HasPlaceholder(raw) ==> raw[..|raw| - held] == Body(raw))
  {
    var raw, rest := Concat(chunks), Run(chunks).rest;
    WholeTextIff(Outputs(chunks));
    OutputsTogether(chunks);
    ValidStreamVerbatim(chunks);
    DropFront(Concat(Outputs(chunks)), rest);
    if !HasPlaceholder(raw) {
      HeldBackIsUnfinishedCharacter(chunks);
      BodyAndTail(raw);
      DropFront(Body(raw), rest);
    }
  }

  // One more write, in terms of what the filter makes of its chunk.
  lemma WriteStep(chunks: seq<Bytes>, p: Bytes)
    ensures Run(chunks + [p]).rest == Filter(Run(chunks).rest, p).rest
    ensures Outputs(chunks + [p])[|chunks|] == Rendered(Filter(Run(chunks).rest, p).pieces)
    ensures TextAfter(Outputs(chunks + [p])) ==
            TextAfter(Outputs(chunks)) + Accepted(Rendered(Filter(Run(chunks).rest, p).pieces))
  {
    hide Filter, Rendered;
    RunSnoc(chunks, p);
    OutputsSnoc(chunks, p);
    TextStep(Outputs(chunks), Rendered(Filter(Run(chunks).rest, p).pieces));
  }

  class PtyHandlerImpl {
    const machineExec: MachineExec
    const filter: Utf8StreamFilter
    // Everything the pod has written.
    ghost var chunks: seq<Bytes>

    ghost predicate Valid()
      reads this, filter, machineExec, machineExec.ConnectionHandler, machineExec.ConnectionHandler.wsConns
      reads machineExec.Buffer, if machineExec.Buffer != null then {machineExec.Buffer.slots} else {}
    {
      && machineExec.Valid() && machineExec.Buffer != null
      && filter.rest == Run(chunks).rest
      && machineExec.Buffer.text == TextAfter(Outputs(chunks))
    }

    constructor CreatePtyHandlerImpl(machineExec: MachineExec, filter: Utf8StreamFilter)
      requires machineExec.Valid() && machineExec.Buffer != null && machineExec.Buffer.text == [] && filter.rest == []
      ensures Valid() && chunks == [] && this.machineExec == machineExec && this.filter == filter
    {
      this.machineExec, this.filter, chunks := machineExec, filter, [];
    }

    /** `failing` are the connections that refuse a write. */
    method Write(p: Bytes, failing: set<Conn>) returns (n: nat, ghost done: seq<Did>)
      requires Valid()
      modifies this, filter, machineExec.Buffer, machineExec.Buffer.slots
      modifies machineExec.ConnectionHandler, machineExec.ConnectionHandler.Conns()
      ensures Valid() && chunks == old(chunks) + [p] && n == |p|
      ensures var out := Outputs(chunks)[|chunks| - 1]; done == [Buffered(out), Sent(out)]
      ensures machineExec.ConnectionHandler.Conns() == Without(old(machineExec.ConnectionHandler.Conns()), failing)
      ensures forall c :: c in old(machineExec.ConnectionHandler.Conns()) ==>
                c.received == old(c.received) + if c in failing then [] else [Outputs(chunks)[|chunks| - 1]]
    {
      hide Filter, Rendered, Run, TextAfter, Outputs, Accepted, Without;
      hide LineRingBuffer.Valid, Distinct;
      ghost var before, conns := chunks, machineExec.ConnectionHandler.Conns();
      WriteStep(before, p);
      var filteredCharacters := filter.ProcessRaw(p);
      var buffered := machineExec.Buffer.Write(filteredCharacters, []);
      assert machineExec.ConnectionHandler.Conns() == conns;
      done := machineExec.ConnectionHandler.WriteDataToWsConnections(filteredCharacters, failing, buffered);
      assert forall c :: c in conns ==> old(c.received) + [] == old(c.received);
      chunks := before + [p];
      n := |p|;
    }
  }
}
