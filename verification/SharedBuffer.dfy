/**
  The filter behind the loop that copies the exec's stream to it. That loop
  reads into one buffer again and again, and what the filter holds back is a
  slice of the buffer: the next read can overwrite it.
 */
module SharedBuffer {
  import opened Seqs
  import opened Utf8
  import opened Pieces
  import opened StreamFilter
  import opened ValidStreams

  /** Where the held-back bytes are: in the reader's buffer, or in an array that append has made for them. */
  datatype Held = InBuffer(off: nat, len: nat) | Own(bytes: Bytes)

  datatype Copying = Copying(mem: Bytes, held: Held, pieces: seq<Piece>) {
    ghost predicate Valid() {
      held.InBuffer? ==> held.off + held.len <= |mem|
    }
  }

  // What these bytes are while the buffer's content is `mem`.
  function BytesOf(mem: Bytes, held: Held): Bytes
    requires held.InBuffer? ==> held.off + held.len <= |mem|
  {
    if held.InBuffer? then mem[held.off..held.off + held.len] else held.bytes
  }

  /** What the filter has put out and holds back, as the filter sees it now. */
  function Seen(c: Copying): Progress
    requires c.Valid()
  {
    Progress(c.pieces, BytesOf(c.mem, c.held))
  }

  // The loop passes on what it has read, which is not nothing and fits its buffer.
  predicate Reads(mem: Bytes, data: Bytes) {
    0 < |data| <= |mem|
  }

  // The buffer after `data` was written into it.
  function Written(mem: Bytes, at: nat, data: Bytes): (r: Bytes)
    requires at + |data| <= |mem|
    ensures |r| == |mem|
  {
    mem[..at] + data + mem[at + |data|..]
  }

  // A call accounts for its bytes, whatever the first of them is.
  lemma CallAccounts(rest: Bytes, data: Bytes)
    ensures Source(Filter(rest, data).pieces) + Filter(rest, data).rest == rest + data
  {
    if data != [] && WellFormed(rest + data) {
      RepairAccounts(rest + data);
    } else if data != [] {
      ScanAccounts(rest + data, |data|);
    }
  }

  /**
    One turn: a read to the front of the buffer, then a call of the filter.
    Behind held-back bytes the call appends the data, in place if there is room;
    what it holds back is the end of what it was given.
   */
  function Turn(c: Copying, data: Bytes): (r: Copying)
    requires c.Valid() && Reads(c.mem, data)
    ensures r.Valid() && |r.mem| == |c.mem|
  {
    var mem := Written(c.mem, 0, data);
    var held := BytesOf(mem, c.held);
    var p := Filter(held, data);
    CallAccounts(held, data);
    assert |Source(p.pieces) + p.rest| == |held + data|;
    var pieces, n := c.pieces + p.pieces, |p.rest|;
    if held == [] then Copying(mem, InBuffer(|data| - n, n), pieces)
    else if c.held.InBuffer? && c.held.off + c.held.len + |data| <= |mem| then
      var end := c.held.off + c.held.len;
      Copying(Written(mem, end, data), InBuffer(end + |data| - n, n), pieces)
    else Copying(mem, Own(p.rest), pieces)
  }

  predicate AllRead(mem: Bytes, chunks: seq<Bytes>) {
    forall i :: 0 <= i < |chunks| ==> Reads(mem, chunks[i])
  }

  /** The loop over all chunks, with a new filter and any content of the buffer. */
  function Loop(mem: Bytes, chunks: seq<Bytes>): (r: Copying)
    requires AllRead(mem, chunks)
    ensures r.Valid() && |r.mem| == |mem|
  {
    if chunks == [] then Copying(mem, Own([]), [])
    else Turn(Loop(mem, chunks[..|chunks| - 1]), chunks[|chunks| - 1])
  }

  /** A read leaves the held-back bytes alone: where it reaches them it happens to write the same. */
  predicate Survives(c: Copying, data: Bytes)
    requires c.Valid()
  {
    c.held.InBuffer? ==>
      forall i :: c.held.off <= i < c.held.off + c.held.len && i < |data| ==> data[i] == c.mem[i]
  }

  lemma SurvivesIff(c: Copying, data: Bytes)
    requires c.Valid() && Reads(c.mem, data)
    ensures Survives(c, data) <==> BytesOf(Written(c.mem, 0, data), c.held) == BytesOf(c.mem, c.held)
  {
    if c.held.InBuffer? {
      var was, now, off := BytesOf(c.mem, c.held), BytesOf(Written(c.mem, 0, data), c.held), c.held.off;
      assert forall k :: 0 <= k < c.held.len ==>
          was[k] == c.mem[off + k] && now[k] == if off + k < |data| then data[off + k] else c.mem[off + k];
      if Survives(c, data) {
        forall k | 0 <= k < c.held.len ensures now[k] == was[k] {
          assert off <= off + k < off + c.held.len && was[k] == c.mem[off + k];
        }
        assert now == was;
      }
      if now == was {
        forall i | off <= i < off + c.held.len && i < |data| ensures data[i] == c.mem[i] {
          assert now[i - off] == was[i - off];
        }
      }
    }
  }

  lemma EndOf(front: Bytes, end: Bytes, all: Bytes)
    requires front + end == all
    ensures |end| <= |all| && end == all[|all| - |end|..]
  {
  }

  // After the turn the filter holds back what the call on the bytes it found holds back.
  lemma TurnHolds(c: Copying, data: Bytes)
    requires c.Valid() && Reads(c.mem, data)
    ensures Seen(Turn(c, data)) == Filter(BytesOf(Written(c.mem, 0, data), c.held), data).Before(c.pieces)
  {
    hide Filter, Source;
    var mem := Written(c.mem, 0, data);
    var held := BytesOf(mem, c.held);
    var p := Filter(held, data);
    CallAccounts(held, data);
    EndOf(Source(p.pieces), p.rest, held + data);
    if held == [] {
      assert held + data == mem[..|data|];
    } else if c.held.InBuffer? && c.held.off + c.held.len + |data| <= |mem| {
      var end := c.held.off + c.held.len;
      assert Written(mem, end, data)[c.held.off..end + |data|] == held + data;
    }
  }

  /**
    Where a turn leaves what is held back: in the buffer exactly if there was
    nothing before, or if that was in the buffer with room for the chunk behind
    it. It ends where the chunk ends: at the front, or behind those bytes.
   */
  lemma WhereHeld(c: Copying, data: Bytes)
    requires c.Valid() && Reads(c.mem, data)
    ensures var nothing := c.held == Own([]) || (c.held.InBuffer? && c.held.len == 0);
            var fits := c.held.InBuffer? && c.held.off + c.held.len + |data| <= |c.mem|;
            var h := Turn(c, data).held;
            && (h.InBuffer? <==> nothing || fits)
            && (nothing ==> h.off + h.len == |data| && Turn(c, data).mem[..|data|] == data)
            && (!nothing && fits ==>
                  var end := c.held.off + c.held.len;
                  h.off + h.len == end + |data| && Turn(c, data).mem[end..end + |data|] == data)
  {
    hide Filter;
  }

  /** One turn comes to what the filter alone comes to, exactly if the held-back bytes survive the read. */
  lemma TurnIff(c: Copying, p: Progress, data: Bytes)
    requires c.Valid() && Reads(c.mem, data) && Seen(c) == p
    ensures Seen(Turn(c, data)) == Filter(p.rest, data).Before(p.pieces) <==> Survives(c, data)
  {
    hide Filter, Source, Turn, Survives;
    var held := BytesOf(Written(c.mem, 0, data), c.held);
    TurnHolds(c, data);
    SurvivesIff(c, data);
    CallAccounts(held, data);
    CallAccounts(p.rest, data);
    if Seen(Turn(c, data)) == Filter(p.rest, data).Before(p.pieces) {
      assert Filter(held, data).pieces == Filter(p.rest, data).pieces by {
        DropFront(c.pieces, Filter(held, data).pieces);
        DropFront(c.pieces, Filter(p.rest, data).pieces);
      }
      assert held == (held + data)[..|held|] && p.rest == (p.rest + data)[..|held|];
    }
  }

  /** Up to each chunk output and held-back bytes are those of the filter alone. */
  ghost predicate Agrees(mem: Bytes, chunks: seq<Bytes>)
    requires AllRead(mem, chunks)
  {
    && (chunks != [] ==> Agrees(mem, chunks[..|chunks| - 1]))
    && Seen(Loop(mem, chunks)) == Run(chunks)
  }

  /** Each read leaves alone what is held back at that time. */
  ghost predicate NeverOverwrites(mem: Bytes, chunks: seq<Bytes>)
    requires AllRead(mem, chunks)
  {
    chunks != [] ==>
      var init := chunks[..|chunks| - 1];
      NeverOverwrites(mem, init) && Survives(Loop(mem, init), chunks[|chunks| - 1])
  }

  /** All along the loop the filter behaves as if it owned what it holds back, exactly if no read overwrites that. */
  lemma {:induction false} AgreesIff(mem: Bytes, chunks: seq<Bytes>)
    requires AllRead(mem, chunks)
    ensures Agrees(mem, chunks) <==> NeverOverwrites(mem, chunks)
  {
    if chunks != [] {
      hide Filter, Turn, Survives;
      var init, last := chunks[..|chunks| - 1], chunks[|chunks| - 1];
      AgreesIff(mem, init);
      if Agrees(mem, init) {
        TurnIff(Loop(mem, init), Run(init), last);
      }
    }
  }

  /** Behind a chunk that left bytes held back comes a read that is shorter than that chunk by as many, or more. */
  predicate ShortReads(chunks: seq<Bytes>) {
    chunks != [] ==>
      var init, last := chunks[..|chunks| - 1], chunks[|chunks| - 1];
      && ShortReads(init)
      && (init == [] || Run(init).rest == [] || |last| + |Run(init).rest| <= |init[|init| - 1]|)
  }

  // What a turn leaves in the buffer lies at the end of the chunk, or behind.
  lemma TurnPlace(c: Copying, data: Bytes)
    requires c.Valid() && Reads(c.mem, data) && Turn(c, data).held.InBuffer?
    ensures Turn(c, data).held.off + Turn(c, data).held.len >= |data|
    ensures Turn(c, data).held.len == |Seen(Turn(c, data)).rest|
  {
    hide Filter;
  }

  lemma ShortReadSurvives(c: Copying, prev: Bytes, data: Bytes)
    requires c.Valid() && Reads(c.mem, prev)
    requires Seen(Turn(c, prev)).rest == [] || |data| + |Seen(Turn(c, prev)).rest| <= |prev|
    ensures Survives(Turn(c, prev), data)
  {
    hide Filter, Turn;
    if Turn(c, prev).held.InBuffer? {
      TurnPlace(c, prev);
    }
  }

  /** Reads that are short enough never overwrite anything: the lengths of the chunks and of what the filter holds back tell. */
  lemma {:induction false} ShortReadsSurvive(mem: Bytes, chunks: seq<Bytes>)
    requires AllRead(mem, chunks) && ShortReads(chunks)
    ensures NeverOverwrites(mem, chunks)
  {
    if chunks != [] {
      hide Filter, Turn, Run, Survives, BytesOf;
      var init, last := chunks[..|chunks| - 1], chunks[|chunks| - 1];
      ShortReadsSurvive(mem, init);
      AgreesIff(mem, init);
      if init != [] {
        ShortReadSurvives(Loop(mem, init[..|init| - 1]), init[|init| - 1], last);
      } else {
        FirstReadSurvives(mem, last);
      }
    }
  }

  lemma FirstReadSurvives(mem: Bytes, data: Bytes)
    ensures Survives(Loop(mem, []), data)
  {
  }

  // ----- what holds even when bytes are overwritten

  // A call's pieces are sound, whatever the first of its bytes is.
  lemma CallPieces(rest: Bytes, data: Bytes)
    ensures AllValid(Filter(rest, data).pieces)
  {
    if data != [] && !WellFormed(rest + data) {
      ScanAccounts(rest + data, |data|);
    }
  }

  lemma {:induction false} LoopPieces(mem: Bytes, chunks: seq<Bytes>)
    requires AllRead(mem, chunks)
    ensures AllValid(Loop(mem, chunks).pieces)
    ensures |Source(Loop(mem, chunks).pieces)| + |Seen(Loop(mem, chunks)).rest| == |Concat(chunks)|
  {
    if chunks != [] {
      hide Filter, Turn, Source, Rendered;
      var init, last := chunks[..|chunks| - 1], chunks[|chunks| - 1];
      var c := Loop(mem, init);
      var held := BytesOf(Written(c.mem, 0, last), c.held);
      LoopPieces(mem, init);
      TurnHolds(c, last);
      CallAccounts(held, last);
      CallPieces(held, last);
      ConcatPieces(c.pieces, Filter(held, last).pieces);
      assert |Source(Filter(held, last).pieces)| + |Filter(held, last).rest| == |held| + |last|;
    }
  }

  /**
    Whatever is overwritten: the output is well-formed, each byte that was read
    is counted once, as put out or as held back, and the output is no shorter
    than the bytes it stands for and at most three times as long.
   */
  lemma LoopWellFormed(mem: Bytes, chunks: seq<Bytes>)
    requires AllRead(mem, chunks)
    ensures var p := Seen(Loop(mem, chunks));
            && WellFormed(Rendered(p.pieces))
            && |p.rest| <= |Concat(chunks)|
            && |Concat(chunks)| - |p.rest| <= |Rendered(p.pieces)| <= 3 * (|Concat(chunks)| - |p.rest|)
  {
    LoopPieces(mem, chunks);
    RenderedWellFormed(Loop(mem, chunks).pieces);
  }

  /** What each turn puts out. */
  function LoopOutputs(mem: Bytes, chunks: seq<Bytes>): (outs: seq<Bytes>)
    requires AllRead(mem, chunks)
    ensures |outs| == |chunks|
  {
    if chunks == [] then []
    else
      var init, last := chunks[..|chunks| - 1], chunks[|chunks| - 1];
      var c := Loop(mem, init);
      LoopOutputs(mem, init) + [Rendered(Filter(BytesOf(Written(c.mem, 0, last), c.held), last).pieces)]
  }

  // ----- valid streams

  /** Up to each chunk output and held-back bytes are what was read, verbatim. */
  ghost predicate VerbatimThroughout(mem: Bytes, chunks: seq<Bytes>)
    requires AllRead(mem, chunks)
  {
    && (chunks != [] ==> VerbatimThroughout(mem, chunks[..|chunks| - 1]))
    && var p := Seen(Loop(mem, chunks)); Rendered(p.pieces) + p.rest == Concat(chunks)
  }

  // Every replaced byte makes the output longer than what it stands for.
  lemma {:induction false} SameLengthCopies(ps: seq<Piece>)
    ensures |Rendered(ps)| >= |Source(ps)|
    ensures |Rendered(ps)| == |Source(ps)| ==> Rendered(ps) == Source(ps)
  {
    if ps != [] {
      SameLengthCopies(ps[1..]);
    }
  }

  // Where output and held-back bytes are verbatim, so are consumed and held-back bytes.
  lemma VerbatimSource(p: Progress, fed: Bytes)
    requires Rendered(p.pieces) + p.rest == fed && |Source(p.pieces) + p.rest| == |fed|
    ensures Source(p.pieces) + p.rest == fed
  {
    hide Rendered, Source;
    SameLengthCopies(p.pieces);
  }

  lemma OverwrittenShows(mem: Bytes, init: seq<Bytes>, data: Bytes)
    requires AllRead(mem, init) && Reads(mem, data) && Seen(Loop(mem, init)) == Run(init)
    requires var p := Seen(Turn(Loop(mem, init), data)); Rendered(p.pieces) + p.rest == Concat(init) + data
    ensures Survives(Loop(mem, init), data)
  {
    hide Filter, Source, Rendered, Turn, Survives, Run, Concat, Loop;
    var c := Loop(mem, init);
    var held, p := BytesOf(Written(c.mem, 0, data), c.held), Seen(Turn(c, data));
    TurnHolds(c, data);
    CallAccounts(held, data);
    RunAccounts(init);
    var front := Source(c.pieces);
    ConcatPieces(c.pieces, Filter(held, data).pieces);
    Assoc(front, Source(Filter(held, data).pieces), p.rest);
    Assoc(front, Run(init).rest, data);
    VerbatimSource(p, Concat(init) + data);
    DropFront(front, held + data);
    DropFront(front, Run(init).rest + data);
    assert held == (held + data)[..|held|] && Run(init).rest == (Run(init).rest + data)[..|held|];
    SurvivesIff(c, data);
  }

  /** On valid streams: the output is verbatim all along, exactly if no read overwrites what is held back. */
  lemma {:induction false} VerbatimIff(mem: Bytes, chunks: seq<Bytes>)
    requires AllRead(mem, chunks) && Extendable(Concat(chunks))
    ensures VerbatimThroughout(mem, chunks) <==> NeverOverwrites(mem, chunks)
  {
    AgreesIff(mem, chunks);
    ValidStreamVerbatim(chunks);
    if chunks != [] {
      hide Filter, Turn, Survives, Rendered, Extendable;
      var init, last := chunks[..|chunks| - 1], chunks[|chunks| - 1];
      PrefixOfConcat(Concat(init), last);
      VerbatimIff(mem, init);
      if VerbatimThroughout(mem, chunks) {
        AgreesIff(mem, init);
        OverwrittenShows(mem, init, last);
      }
    }
  }

  // ----- a character that is lost

  lemma LoopOnce(mem: Bytes, data: Bytes)
    requires Reads(mem, data)
    ensures Loop(mem, [data]) == Turn(Copying(mem, Own([]), []), data)
  {
    assert [data][..0] == [];
  }

  lemma LoopTwice(mem: Bytes, a: Bytes, b: Bytes)
    requires Reads(mem, a) && Reads(mem, b)
    ensures Loop(mem, [a, b]) == Turn(Loop(mem, [a]), b)
  {
    assert [a, b][..1] == [a];
  }

  lemma StrayContinuations(s: Bytes)
    requires s == [0xA9, 0xA9]
    ensures Scan(s, 1) == Progress([Replaced(0xA9), Replaced(0xA9)], []) && !WellFormed(s)
  {
    assert s[1..] == [0xA9] && s[1..][1..] == [];
    assert Scan(s[1..], 0) == Progress([Replaced(0xA9)], []);
  }

  /** A character of two bytes, read one byte at a time: its first byte is overwritten by its second. */
  lemma SplitCharacterLost(mem: Bytes)
    requires mem != []
    ensures Loop(mem, [[0xC3], [0xA9]]).pieces == [Replaced(0xA9), Replaced(0xA9)]
  {
    hide Filter, Scan, WellFormed, Loop;
    var a: Bytes, b: Bytes := [0xC3], [0xA9];
    LoopOnce(mem, a);
    LoopTwice(mem, a, b);
    FirstHeld(a);
    var c := Loop(mem, [a]);
    assert c == Copying(Written(mem, 0, a), InBuffer(0, 1), []);
    assert BytesOf(Written(c.mem, 0, b), c.held) == b;
    TurnHolds(c, b);
    SecondReplaced(b);
  }

  lemma FirstHeld(a: Bytes)
    requires a == [0xC3]
    ensures Filter([], a) == Progress([], a)
  {
    assert [] + a == a && CharLen(a) == 0;
  }

  lemma SecondReplaced(b: Bytes)
    requires b == [0xA9]
    ensures Filter(b, b) == Progress([Replaced(0xA9), Replaced(0xA9)], [])
  {
    assert b + b == [0xA9, 0xA9];
    StrayContinuations(b + b);
  }
}
