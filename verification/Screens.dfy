/** What a client is shown, in terms of the chunks the pod writes and of the loop that reads them. */
module Screens {
  import opened Seqs
  import opened Utf8
  import opened Pieces
  import opened StreamFilter
  import opened ValidStreams
  import opened LineScan
  import opened LineRing
  import opened Pty
  import opened SharedBuffer

  // ----- chunks whose output the scanner can hold

  lemma {:induction false} PartLength(xs: seq<Bytes>, x: Bytes)
    requires x in xs
    ensures |x| <= |Concat(xs)|
  {
    var init, last := xs[..|xs| - 1], xs[|xs| - 1];
    if x != last {
      assert xs == init + [last];
      PartLength(init, x);
    }
  }

  lemma ShortFits(s: Bytes)
    requires |s| < MAX_TOKEN_SIZE
    ensures forall l :: l in Lines(s) ==> Fits(l)
  {
    hide Lines;
    LinesOfText(s);
    forall l | l in Lines(s) ensures Fits(l) {
      PartLength(Lines(s), l);
    }
  }

  lemma OutputLength(rest: Bytes, data: Bytes)
    ensures |Rendered(Filter(rest, data).pieces)| <= 3 * (|rest| + |data|)
  {
    hide Filter, Rendered, Source;
    CallAccounts(rest, data);
    CallPieces(rest, data);
    RenderedWellFormed(Filter(rest, data).pieces);
  }

  /** On any bytes: three times the bytes of each call, held back or new, stay below the scanner's buffer. */
  predicate SmallCalls(chunks: seq<Bytes>) {
    forall k :: 0 <= k < |chunks| ==> 3 * (|Run(chunks[..k]).rest| + |chunks[k]|) < MAX_TOKEN_SIZE
  }

  lemma {:induction false} SmallCallsFit(chunks: seq<Bytes>)
    requires SmallCalls(chunks)
    ensures AllFit(Outputs(chunks))
  {
    if chunks != [] {
      hide Filter, Rendered, Run, Fits, Lines;
      var init, last := chunks[..|chunks| - 1], chunks[|chunks| - 1];
      assert forall k :: 0 <= k <= |init| ==> init[..k] == chunks[..k];
      SmallCallsFit(init);
      OutputLength(Run(init).rest, last);
      var out := Rendered(Filter(Run(init).rest, last).pieces);
      ShortFits(out);
      TextStep(Outputs(init), out);
    }
  }

  /** On valid UTF-8 without U+FFFD: each chunk and an unfinished character stay below it. */
  lemma {:induction false} ValidChunksFit(chunks: seq<Bytes>)
    requires Extendable(Concat(chunks)) && !HasPlaceholder(Concat(chunks))
    requires forall c :: c in chunks ==> |c| + 3 < MAX_TOKEN_SIZE
    ensures AllFit(Outputs(chunks))
  {
    if chunks != [] {
      hide Filter, Rendered, Run, Fits, Lines, Extendable, HasPlaceholder, WellFormed;
      var init, last := chunks[..|chunks| - 1], chunks[|chunks| - 1];
      assert last in chunks && forall c :: c in init ==> c in chunks;
      PrefixOfConcat(Concat(init), last);
      if HasPlaceholder(Concat(init)) {
        PlaceholderStays(Concat(init), last);
      }
      ValidChunksFit(init);
      ValidOutputLength(init, last);
      var out := Rendered(Filter(Run(init).rest, last).pieces);
      ShortFits(out);
      TextStep(Outputs(init), out);
    }
  }

  lemma ValidOutputLength(init: seq<Bytes>, data: Bytes)
    requires Extendable(Concat(init)) && !HasPlaceholder(Concat(init)) && Extendable(Concat(init) + data)
    ensures |Rendered(Filter(Run(init).rest, data).pieces)| <= 3 + |data|
  {
    hide Filter, Rendered, Run, Extendable, HasPlaceholder, WellFormed;
    ValidStreamVerbatim(init);
    RunRewritesInput(init);
    HeldBackIsUnfinishedCharacter(init);
    VerbatimStep(Run(init), Concat(init), data);
    FilterVerbatim(Run(init).rest, data);
  }

  /**
    Valid UTF-8 without U+FFFD, in chunks of up to 65532 bytes: a client is shown
    the last 1000 lines of the complete characters of everything written.
   */
  lemma ScreenIsBody(chunks: seq<Bytes>)
    requires Extendable(Concat(chunks)) && !HasPlaceholder(Concat(chunks))
    requires forall c :: c in chunks ==> |c| <= 65532
    ensures Screen(chunks) == Content(Body(Concat(chunks)))
  {
    hide Content, TextAfter, Outputs, AllFit, Run, Extendable, HasPlaceholder, Body;
    ScreenUnfold(chunks);
    ValidChunksFit(chunks);
    ScreenIsRawOutput(chunks);
  }

  // ----- bytes of which nothing is shown

  lemma {:induction false} StrayScan(s: Bytes, left: int)
    requires forall i :: 0 <= i < |s| ==> IsContinuation(s[i])
    ensures Scan(s, left).rest == []
    ensures |Rendered(Scan(s, left).pieces)| == 3 * |s|
    ensures NEWLINE !in Rendered(Scan(s, left).pieces)
  {
    if s == [] {
      NothingRendered();
    } else {
      hide Rendered, Scan;
      StrayStep(s, left);
      StrayScan(s[1..], left - 1);
      RenderedBefore(Replaced(s[0]), Scan(s[1..], left - 1));
    }
  }

  lemma StrayStep(s: Bytes, left: int)
    requires s != [] && IsContinuation(s[0])
    ensures Scan(s, left) == Scan(s[1..], left - 1).Before([Replaced(s[0])])
    ensures CharLen(s) == 0 && !WellFormed(s)
  {
  }

  lemma OneLine(s: Bytes)
    requires s != [] && NEWLINE !in s
    ensures Lines(s) == [s] && Content(s) == s
  {
    assert Concat([s]) == s by { ConcatOne(s); }
    assert AreLines([s]);
    LinesUnique([s]);
  }

  lemma StrayOutput(s: Bytes)
    requires s != [] && forall i :: 0 <= i < |s| ==> IsContinuation(s[i])
    ensures |Outputs([s])| == 1 && |Outputs([s])[0]| == 3 * |s| && NEWLINE !in Outputs([s])[0]
  {
    hide Filter, Rendered, Run;
    EmptyRun();
    OutputsSnoc([], s);
    assert [] + [s] == [s] && [] + s == s;
    StrayStep(s, |s|);
    StrayScan(s, |s|);
    ForcedScan(s);
  }

  lemma ForcedScan(s: Bytes)
    requires s != [] && !WellFormed(s)
    ensures Filter([], s) == Scan(s, |s|)
  {
    assert [] + s == s;
  }

  /**
    On arbitrary bytes a chunk can be too much for the scanner: of a chunk of
    continuation bytes a client is shown all placeholders, or nothing, exactly
    from 21846 bytes on. The loop that copies the stream reads up to 32768 at a time.
   */
  lemma StrayChunkShownIff(s: Bytes)
    requires s != [] && forall i :: 0 <= i < |s| ==> IsContinuation(s[i])
    ensures Screen([s]) == if |s| <= 21845 then Outputs([s])[0] else []
  {
    hide Outputs, Lines, Accepted, Content;
    var out := Outputs([s])[0];
    StrayOutput(s);
    assert Outputs([s]) == [out];
    OneOutput(out);
    OneLine(out);
    AcceptedIff(out);
    NoLines();
    if |s| <= 21845 {
      ShortFits(out);
    } else {
      assert TooLong(out);
      NothingShown();
    }
  }

  lemma OneOutput(out: Bytes)
    ensures TextAfter([out]) == Accepted(out)
  {
    assert [out][..0] == [] && [] + Accepted(out) == Accepted(out);
  }

  lemma NothingShown()
    ensures Content([]) == []
  {
    assert Lines([]) == [];
  }

  // ----- behind the loop that reads into one buffer

  /** What a client is shown after the loop has passed on these chunks. */
  function LoopScreen(mem: Bytes, chunks: seq<Bytes>): Bytes
    requires AllRead(mem, chunks)
  {
    Content(TextAfter(LoopOutputs(mem, chunks)))
  }

  lemma {:induction false} LoopOutputsWellFormed(mem: Bytes, chunks: seq<Bytes>)
    requires AllRead(mem, chunks)
    ensures forall o :: o in LoopOutputs(mem, chunks) ==> WellFormed(o)
  {
    if chunks != [] {
      hide Filter, Rendered, WellFormed, Loop;
      var init, last := chunks[..|chunks| - 1], chunks[|chunks| - 1];
      var c := Loop(mem, init);
      var held := BytesOf(Written(c.mem, 0, last), c.held);
      LoopOutputsWellFormed(mem, init);
      CallPieces(held, last);
      RenderedWellFormed(Filter(held, last).pieces);
    }
  }

  /** It is well-formed UTF-8, whatever reads overwrite. */
  lemma LoopScreenWellFormed(mem: Bytes, chunks: seq<Bytes>)
    requires AllRead(mem, chunks)
    ensures WellFormed(LoopScreen(mem, chunks))
  {
    hide Content, WellFormed, LoopOutputs, TextAfter;
    LoopOutputsWellFormed(mem, chunks);
    TextWellFormed(LoopOutputs(mem, chunks));
    ContentWellFormed(TextAfter(LoopOutputs(mem, chunks)));
  }

  lemma {:induction false} SameOutputs(mem: Bytes, chunks: seq<Bytes>)
    requires AllRead(mem, chunks) && NeverOverwrites(mem, chunks)
    ensures LoopOutputs(mem, chunks) == Outputs(chunks)
  {
    if chunks != [] {
      hide Filter, Rendered, Run, Loop, Survives;
      var init, last := chunks[..|chunks| - 1], chunks[|chunks| - 1];
      SameOutputs(mem, init);
      AgreesIff(mem, init);
      SurvivesIff(Loop(mem, init), last);
    }
  }

  /**
    If no read overwrites what is held back, as when all reads are short enough,
    it is the screen of the filter alone; so on valid UTF-8 without U+FFFD it is
    the last 1000 lines of the complete characters read.
   */
  lemma LoopScreenIsBody(mem: Bytes, chunks: seq<Bytes>)
    requires AllRead(mem, chunks) && NeverOverwrites(mem, chunks)
    ensures LoopScreen(mem, chunks) == Screen(chunks)
    ensures |mem| <= 65532 && Extendable(Concat(chunks)) && !HasPlaceholder(Concat(chunks)) ==>
              LoopScreen(mem, chunks) == Content(Body(Concat(chunks)))
  {
    hide Content, TextAfter, Outputs, LoopOutputs, Run, Extendable, HasPlaceholder, Body, NeverOverwrites;
    SameOutputs(mem, chunks);
    if |mem| <= 65532 && Extendable(Concat(chunks)) && !HasPlaceholder(Concat(chunks)) {
      ScreenIsBody(chunks);
    }
  }
}
