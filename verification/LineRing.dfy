/**
  The ring buffer that keeps the last lines of an exec's output, so that a
  client that attaches again gets its screen back.
 */
module LineRing {
  import opened Seqs
  import opened Utf8
  import opened LineScan
  import opened Steps
  import opened Wrappers

  // lineBufferSize
  const SIZE := 1000

  // The ring's positions k steps after and one step before a position.
  function After(pos: nat, k: nat): nat
    requires pos < SIZE && k < SIZE
  {
    if pos + k < SIZE then pos + k else pos + k - SIZE
  }

  function Prev(pos: nat): nat
    requires pos < SIZE
  {
    if pos == 0 then SIZE - 1 else pos - 1
  }

  /** What a ring that has accepted `text` must hold: its last lines. */
  function Kept(text: Bytes): seq<Bytes> {
    LastN(Lines(text), SIZE)
  }

  /** What a client is shown of it. */
  function Content(text: Bytes): Bytes {
    Concat(Kept(text))
  }

  /** Read from the ring pointer on, the slots are empty ones and then the lines, oldest first. */
  predicate Layout(slots: seq<Option<Bytes>>, pos: nat, ls: seq<Bytes>) {
    && |slots| == SIZE && pos < SIZE && |ls| <= SIZE
    && forall k :: 0 <= k < SIZE ==>
         slots[After(pos, k)] == if k < SIZE - |ls| then None else Some(ls[k - (SIZE - |ls|)])
  }

  lemma PutLayout(slots: seq<Option<Bytes>>, pos: nat, ls: seq<Bytes>, line: Bytes)
    requires Layout(slots, pos, ls)
    ensures Layout(slots[pos := Some(line)], After(pos, 1), LastN(ls + [line], SIZE))
  {
    var now, next, ls' := slots[pos := Some(line)], After(pos, 1), LastN(ls + [line], SIZE);
    forall k | 0 <= k < SIZE
      ensures now[After(next, k)] == if k < SIZE - |ls'| then None else Some(ls'[k - (SIZE - |ls'|)])
    {
      if k < SIZE - 1 {
        assert After(next, k) == After(pos, k + 1) != pos;
      } else {
        assert After(next, k) == pos;
      }
    }
  }

  lemma LastSlot(slots: seq<Option<Bytes>>, pos: nat, ls: seq<Bytes>)
    requires Layout(slots, pos, ls)
    ensures slots[Prev(pos)] == if ls == [] then None else Some(ls[|ls| - 1])
  {
    assert Prev(pos) == After(pos, SIZE - 1);
  }

  lemma ExtendLayout(slots: seq<Option<Bytes>>, pos: nat, ls: seq<Bytes>, line: Bytes)
    requires Layout(slots, pos, ls) && ls != []
    ensures Layout(slots[Prev(pos) := Some(line)], pos, ls[..|ls| - 1] + [line])
  {
    var now, ls' := slots[Prev(pos) := Some(line)], ls[..|ls| - 1] + [line];
    forall k | 0 <= k < SIZE
      ensures now[After(pos, k)] == if k < SIZE - |ls'| then None else Some(ls'[k - (SIZE - |ls'|)])
    {
      if k < SIZE - 1 {
        assert After(pos, k) != Prev(pos);
      } else {
        assert After(pos, k) == Prev(pos);
      }
    }
  }

  // Dropping old lines first does not change what is kept later.
  lemma LastNTwice(ls: seq<Bytes>, ts: seq<Bytes>, n: nat)
    ensures LastN(LastN(ls, n) + ts, n) == LastN(ls + ts, n)
  {
  }

  lemma LastNContinue(ls: seq<Bytes>, ts: seq<Bytes>, n: nat)
    requires n > 0
    ensures LastN(Continue(LastN(ls, n), ts), n) == LastN(Continue(ls, ts), n)
  {
    var kept := LastN(ls, n);
    if ls != [] && ts != [] && !EndsLine(ls[|ls| - 1]) {
      var init, x := ls[..|ls| - 1], ls[|ls| - 1] + ts[0];
      LastNReplaceLast(ls, x, n);
      LastNTwice(kept[..|kept| - 1] + [x], ts[1..], n);
      LastNTwice(init + [x], ts[1..], n);
    } else {
      LastNTwice(ls, ts, n);
    }
  }

  lemma LastNReplaceLast(ls: seq<Bytes>, x: Bytes, n: nat)
    requires n > 0 && ls != []
    ensures LastN(ls, n)[|LastN(ls, n)| - 1] == ls[|ls| - 1]
    ensures LastN(ls, n)[..|LastN(ls, n)| - 1] + [x] == LastN(ls[..|ls| - 1] + [x], n)
  {
  }

  /** The kept lines after one more chunk follow from the kept lines before it. */
  lemma KeptStep(text: Bytes, chunk: Bytes)
    ensures Kept(text + Accepted(chunk)) == LastN(Continue(Kept(text), Tokens(chunk)), SIZE)
  {
    AcceptedLines(chunk);
    LinesOfConcat(text, Accepted(chunk));
    LastNContinue(Lines(text), Tokens(chunk), SIZE);
  }

  /** What is shown is an end of the text that starts at a line's start: everything, or exactly 1000 lines. */
  lemma ContentIsSuffix(text: Bytes)
    ensures |Content(text)| <= |text|
    ensures Content(text) == text[|text| - |Content(text)|..]
    ensures Lines(Content(text)) == Kept(text)
    ensures Content(text) == text || |Kept(text)| == 1000
    ensures Content(text) != text ==> EndsLine(text[..|text| - |Content(text)|])
  {
    var ls := Lines(text);
    LinesOfText(text);
    if |ls| > SIZE {
      var gone, kept := ls[..|ls| - SIZE], ls[|ls| - SIZE..];
      assert ls == gone + kept;
      ConcatAppend(gone, kept);
      assert AreLines(kept);
      LinesUnique(kept);
      LastEnds(gone);
      DropFront(Concat(gone), Concat(kept));
    }
  }

  /** What the ring has accepted after a run of writes. */
  function TextAfter(chunks: seq<Bytes>): Bytes {
    if chunks == [] then [] else TextAfter(chunks[..|chunks| - 1]) + Accepted(chunks[|chunks| - 1])
  }

  // Every line of every chunk is one that the scanner can hold.
  predicate AllFit(chunks: seq<Bytes>) {
    forall c :: c in chunks ==> forall l :: l in Lines(c) ==> Fits(l)
  }

  /**
    The ring sees the whole output exactly if the scanner can hold every line
    of every chunk. Then what it shows does not depend on the cuts between writes.
   */
  lemma {:induction false} WholeTextIff(chunks: seq<Bytes>)
    ensures |TextAfter(chunks)| <= |Concat(chunks)|
    ensures TextAfter(chunks) == Concat(chunks) <==> AllFit(chunks)
  {
    if chunks != [] {
      hide Lines, Fits, Accepted, AllFit, TextAfter;
      var init, last := chunks[..|chunks| - 1], chunks[|chunks| - 1];
      WholeTextIff(init);
      AcceptedIff(last);
      TextStep(init, last);
      assert chunks == init + [last];
      if TextAfter(chunks) == Concat(chunks) {
        DropFront(TextAfter(init), Accepted(last));
        DropFront(Concat(init), last);
      }
    }
  }

  lemma TextStep(init: seq<Bytes>, last: Bytes)
    ensures TextAfter(init + [last]) == TextAfter(init) + Accepted(last)
    ensures Concat(init + [last]) == Concat(init) + last
    ensures AllFit(init + [last]) <==> AllFit(init) && forall l :: l in Lines(last) ==> Fits(l)
  {
    assert (init + [last])[..|init|] == init;
    assert last in init + [last];
    assert forall c :: c in init ==> c in init + [last];
  }

  lemma ChunkIndependent(xs: seq<Bytes>, ys: seq<Bytes>)
    requires Concat(xs) == Concat(ys) && AllFit(xs) && AllFit(ys)
    ensures Content(TextAfter(xs)) == Content(TextAfter(ys)) == Content(Concat(xs))
  {
    WholeTextIff(xs);
    WholeTextIff(ys);
  }

  lemma LastEnds(ls: seq<Bytes>)
    requires ls != [] && EndsLine(ls[|ls| - 1])
    ensures EndsLine(Concat(ls))
  {
  }

  class LineRingBuffer {
    const slots: array<Option<Bytes>>
    // The ring pointer: the slot that is written next.
    var ring: nat
    // Every byte accepted so far.
    ghost var text: Bytes

    ghost predicate Valid()
      reads this, slots
    {
      Holds(Kept(text))
    }

    // The ring holds exactly these lines.
    ghost predicate Holds(ls: seq<Bytes>)
      reads this, slots
    {
      slots.Length == SIZE && Layout(slots[..], ring, ls)
    }

    constructor New()
      ensures Valid() && fresh(slots) && text == []
    {
      slots := new Option<Bytes>[SIZE](_ => None);
      ring := 0;
      text := [];
    }

    method Write(bts: Bytes, ghost did: seq<Did>) returns (ghost done: seq<Did>)
      requires Valid()
      modifies this, slots
      ensures done == did + [Buffered(bts)]
      ensures Valid() && text == old(text) + Accepted(bts)
    {
      hide Layout, Continue, Tokens, Lines, LastN, EndsLine, Accepted;
      done := did + [Buffered(bts)];
      ghost var before := Kept(text);
      KeptStep(text, bts);
      text := text + Accepted(bts);
      ghost var after := Kept(text);
      var scanner := new LineScanner.CreateLineScanner(bts);
      var found := scanner.Scan();
      if !found {
        ContinueNothing(before);
        return;
      }
      var nextText := scanner.Text();
      WriteFirst(nextText, before);
      ghost var now := LastN(Continue(before, [nextText]), SIZE);
      ContinueOneByOne(before, nextText, Tokens(scanner.unread));
      found := scanner.Scan();
      while found
        invariant fresh(scanner) && Holds(now) && Kept(text) == after
        invariant found ==> LastN(now + ([scanner.token] + Tokens(scanner.unread)), SIZE) == after
        invariant !found ==> now == after
        invariant text == old(text) + Accepted(bts) && done == did + [Buffered(bts)]
        decreases |Tokens(scanner.unread)|, found
      {
        var line := scanner.Text();
        Put(line, now);
        PutOneByOne(now, line, Tokens(scanner.unread));
        now := LastN(now + [line], SIZE);
        found := scanner.Scan();
      }
    }

    // The first token goes on with an unfinished last line, or into the next slot.
    method WriteFirst(nextText: Bytes, ghost ls: seq<Bytes>)
      requires Holds(ls)
      modifies `ring, slots
      ensures Holds(LastN(Continue(ls, [nextText]), SIZE))
    {
      var lastRing := Prev(ring);
      LastSlot(slots[..], ring, ls);
      var continues := ShouldContinueLastRing(lastRing);
      if continues {
        ExtendLayout(slots[..], ring, ls, ls[|ls| - 1] + nextText);
        slots[lastRing] := Some(slots[lastRing].value + nextText);
        assert Continue(ls, [nextText]) == ls[..|ls| - 1] + [ls[|ls| - 1] + nextText];
      } else {
        Put(nextText, ls);
      }
    }

    // The next slot takes a line, and the ring pointer moves on.
    method Put(line: Bytes, ghost ls: seq<Bytes>)
      requires Holds(ls)
      modifies `ring, slots
      ensures Holds(LastN(ls + [line], SIZE))
    {
      PutLayout(slots[..], ring, ls, line);
      slots[ring] := Some(line);
      ring := After(ring, 1);
    }

    lemma ContinueNothing(ls: seq<Bytes>)
      requires |ls| <= SIZE
      ensures LastN(Continue(ls, []), SIZE) == ls
    {
      assert ls + [] == ls;
    }

    lemma ContinueOneByOne(ls: seq<Bytes>, t: Bytes, ts: seq<Bytes>)
      ensures LastN(LastN(Continue(ls, [t]), SIZE) + ts, SIZE) == LastN(Continue(ls, [t] + ts), SIZE)
      ensures ts == [] ==> LastN(Continue(ls, [t]), SIZE) == LastN(Continue(ls, [t] + ts), SIZE)
    {
      hide Continue, LastN;
      ContinueFirst(ls, t, ts);
      LastNTwice(Continue(ls, [t]), ts, SIZE);
      assert ts == [] ==> Continue(ls, [t]) + ts == Continue(ls, [t]);
    }

    lemma ContinueFirst(ls: seq<Bytes>, t: Bytes, ts: seq<Bytes>)
      ensures Continue(ls, [t] + ts) == Continue(ls, [t]) + ts
    {
      hide EndsLine;
      assert ([t] + ts)[0] == t && ([t] + ts)[1..] == ts;
      if ls != [] && !EndsLine(ls[|ls| - 1]) {
        assert [t][1..] == [];
      } else {
        Assoc(ls, [t], ts);
      }
    }

    lemma PutOneByOne(now: seq<Bytes>, line: Bytes, ts: seq<Bytes>)
      ensures LastN(LastN(now + [line], SIZE) + ts, SIZE) == LastN(now + ([line] + ts), SIZE)
      ensures ts == [] ==> LastN(now + [line], SIZE) == LastN(now + ([line] + ts), SIZE)
    {
      Assoc(now, [line], ts);
      LastNTwice(now + [line], ts, SIZE);
      assert ts == [] ==> [line] + ts == [line];
    }

    method ShouldContinueLastRing(lastRing: nat) returns (r: bool)
      requires lastRing < slots.Length
      ensures r <==> slots[lastRing].Some? && !EndsLine(slots[lastRing].value)
    {
      if slots[lastRing].None? {
        return false;
      }
      return !EndsLine(slots[lastRing].value);
    }

    /** The last 1000 lines of everything accepted, however it was cut into writes. */
    method GetContent(ghost did: seq<Did>) returns (buffer: Bytes, ghost done: seq<Did>)
      requires Valid()
      ensures done == did + [ContentRead]
      ensures buffer == Content(text)
    {
      hide Layout, Lines, LastN;
      done := did + [ContentRead];
      ghost var ls := Kept(text);
      buffer := [];
      var k := 0;
      while k < SIZE
        invariant 0 <= k <= SIZE
        invariant buffer == Shown(ls, k) && done == did + [ContentRead]
      {
        ShowSlot(slots[..], ring, ls, k);
        var p := slots[After(ring, k)];
        if p.Some? {
          buffer := buffer + p.value;
        }
        k := k + 1;
      }
      assert ls[..|ls|] == ls;
    }

    // What has been read after the first k slots.
    ghost function Shown(ls: seq<Bytes>, k: nat): Bytes
      requires |ls| <= SIZE && k <= SIZE
    {
      if k < SIZE - |ls| then [] else Concat(ls[..k - (SIZE - |ls|)])
    }

    lemma ShowSlot(slots: seq<Option<Bytes>>, pos: nat, ls: seq<Bytes>, k: nat)
      requires Layout(slots, pos, ls) && k < SIZE
      ensures |slots| == SIZE && pos < SIZE
      ensures var p := slots[After(pos, k)];
              Shown(ls, k + 1) == if p.Some? then Shown(ls, k) + p.value else Shown(ls, k)
    {
      if k >= SIZE - |ls| {
        var i := k - (SIZE - |ls|);
        assert ls[..i + 1] == ls[..i] + [ls[i]];
        ConcatAppend(ls[..i], [ls[i]]);
        ConcatOne(ls[i]);
      }
    }
  }
}
