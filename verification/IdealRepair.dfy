/** What the output filter does on arbitrary bytes, and when that does not depend on the cuts. */
module IdealRepair {
  import opened Seqs
  import opened Utf8
  import opened Pieces
  import opened StreamFilter

  /**
    The last bytes contain a complete character that their handling replaces:
    it is not followed by the continuation bytes the branches look for.
   */
  predicate Lossy(s: Bytes) {
    if |s| < 2 then false
    else if !RuneStart(s[0]) then Lossy(s[1..])
    else if !IsContinuation(s[1]) then CharLen(s) > 0 || Lossy(s[1..])
    else if |s| > 2 && !IsContinuation(s[2]) then CharLen(s) > 0 || Lossy(s[2..])
    else false
  }

  /** The decode of `s` reaches lossy last bytes. */
  predicate LossyScan(s: Bytes, left: int) {
    s != [] && if StopsAt(s, left) then Lossy(s) else LossyScan(s[Width(s)..], left - Width(s))
  }

  /** One call replaces a byte of a complete character. */
  predicate LossyCall(rest: Bytes, data: Bytes) {
    data != [] && !WellFormed(rest + data) && LossyScan(rest + data, |data|)
  }

  // A step of the ideal repair that no further input changes.
  predicate Decided(s: Bytes, p: Piece) {
    s != [] &&
    if CharLen(s) > 0 then p == Copied(s[..CharLen(s)])
    else p == Replaced(s[0]) && !Unfinished(s)
  }

  lemma RepairStep(s: Bytes, p: Piece, t: Bytes)
    requires Decided(s, p)
    ensures |p.Source()| <= |s| && s[..|p.Source()|] == p.Source()
    ensures Repair(s + t) == [p] + Repair(s[|p.Source()|..] + t)
  {
    if CharLen(s) > 0 {
      CharLenStable(s, t);
      assert (s + t)[..CharLen(s)] == s[..CharLen(s)];
    } else {
      NoCharNoContinuation(s, t);
      assert (s + t)[1..] == s[1..] + t;
    }
  }

  lemma {:induction false} LastBytesIdeal(s: Bytes, t: Bytes)
    requires s != [] && !Lossy(s)
    ensures LastBytes(s).pieces <= Repair(s + t)
  {
    hide Repair;
    if !RuneStart(s[0]) {
      RepairStep(s, Replaced(s[0]), t);
      if |s| > 1 {
        LastBytesIdeal(s[1..], t);
      }
    } else if |s| == 1 {
      if s[0] < 0x80 {
        RepairStep(s, Copied(s), t);
      }
    } else if !IsContinuation(s[1]) {
      RepairStep(s, Replaced(s[0]), t);
      LastBytesIdeal(s[1..], t);
    } else if |s| > 2 && !IsContinuation(s[2]) {
      RepairStep(s, Replaced(s[0]), t);
      RepairStep(s[1..], Replaced(s[1]), t);
      assert s[1..][1..] == s[2..];
      LastBytesIdeal(s[2..], t);
    }
  }

  lemma {:induction false} LastBytesLossy(s: Bytes)
    requires s != [] && Lossy(s)
    ensures !(LastBytes(s).pieces <= Repair(s))
  {
    hide Repair;
    RepairNext(s);
    if CharLen(s) > 0 {
      assert LastBytes(s).pieces[0].Replaced? && FirstPiece(s).Copied?;
    } else if LastBytes(s).pieces <= Repair(s) {
      if !RuneStart(s[0]) || !IsContinuation(s[1]) {
        LastBytesLossy(s[1..]);
        PrefixBehind([Replaced(s[0])], LastBytes(s[1..]).pieces, Repair(s[1..]));
      } else {
        LastBytesLossy(s[2..]);
        RepairNext(s[1..]);
        assert Repair(s) == [Replaced(s[0]), Replaced(s[1])] + Repair(s[2..]) by { DropTwice(s, 1, 1); }
        PrefixBehind([Replaced(s[0]), Replaced(s[1])], LastBytes(s[2..]).pieces, Repair(s[2..]));
      }
    }
  }

  lemma ReadDecided(s: Bytes, left: int)
    requires s != [] && left <= |s| && !StopsAt(s, left)
    ensures Decided(s, FirstPiece(s))
  {
  }

  lemma {:induction false} ScanIdeal(s: Bytes, left: int, t: Bytes)
    requires left <= |s| && !LossyScan(s, left)
    ensures Scan(s, left).pieces <= Repair(s + t)
  {
    hide CharLen, Repair, LastBytes, StopsAt, FirstPiece, Lossy;
    if s != [] {
      var width := Width(s);
      if StopsAt(s, left) {
        LastBytesIdeal(s, t);
      } else {
        ReadDecided(s, left);
        RepairStep(s, FirstPiece(s), t);
        ScanIdeal(s[width..], left - width, t);
      }
    }
  }

  lemma {:induction false} ScanLossy(s: Bytes, left: int)
    requires LossyScan(s, left)
    ensures !(Scan(s, left).pieces <= Repair(s))
  {
    hide Repair, CharLen;
    var width := Width(s);
    if StopsAt(s, left) {
      LastBytesLossy(s);
    } else if Scan(s, left).pieces <= Repair(s) {
      RepairNext(s);
      ScanLossy(s[width..], left - width);
      PrefixBehind([FirstPiece(s)], Scan(s[width..], left - width).pieces, Repair(s[width..]));
    }
  }

  /** A call makes the ideal repair of what it consumes exactly if it is not lossy. */
  lemma IdealRepairIff(rest: Bytes, data: Bytes)
    ensures Filter(rest, data).pieces <= Repair(rest + data) <==> !LossyCall(rest, data)
  {
    if data != [] && !WellFormed(rest + data) {
      if LossyCall(rest, data) {
        ScanLossy(rest + data, |data|);
      } else {
        ScanIdeal(rest + data, |data|, []);
        assert (rest + data) + [] == rest + data;
      }
    }
  }

  lemma {:induction false} RepairStable(s: Bytes, t: Bytes)
    requires WellFormed(s)
    ensures Repair(s + t) == Repair(s) + Repair(t)
    decreases |s|
  {
    if s == [] {
      assert s + t == t;
    } else {
      RepairStep(s, FirstPiece(s), t);
      RepairStable(s[CharLen(s)..], t);
    }
  }

  lemma FilterIdeal(rest: Bytes, data: Bytes, t: Bytes)
    requires !LossyCall(rest, data)
    ensures Filter(rest, data).pieces <= Repair(rest + data + t)
  {
    if data != [] && WellFormed(rest + data) {
      RepairStable(rest + data, t);
    } else if data != [] {
      ScanIdeal(rest + data, |data|, t);
    }
  }

  // What the ideal repair does after some of its pieces.
  lemma {:induction false} RepairAfter(ps: seq<Piece>, s: Bytes)
    requires ps <= Repair(s)
    ensures |Source(ps)| <= |s| && Repair(s) == ps + Repair(s[|Source(ps)|..])
  {
    hide Repair, CharLen;
    if ps != [] {
      RepairNext(s);
      var width := Width(s);
      assert ps[0] == FirstPiece(s) && ps[1..] <= Repair(s[width..]);
      RepairAfter(ps[1..], s[width..]);
      DropTwice(s, width, |Source(ps[1..])|);
    }
  }

  lemma IdealStep(p: Progress, fed: Bytes, data: Bytes, t: Bytes)
    requires Accounts(p, fed) && p.pieces <= Repair(fed + (data + t))
    requires !LossyCall(p.rest, data)
    ensures Filter(p.rest, data).Before(p.pieces).pieces <= Repair(fed + data + t)
  {
    hide Filter, Rendered, Source, WellFormed, Repair, AllValid, LossyCall;
    var consumed, s := Source(p.pieces), fed + data + t;
    Assoc(fed, data, t);
    Assoc(consumed, p.rest, data + t);
    Assoc(p.rest, data, t);
    DropFront(consumed, p.rest + (data + t));
    RepairAfter(p.pieces, s);
    FilterIdeal(p.rest, data, t);
  }

  // No call of the run is lossy.
  predicate NeverLossy(chunks: seq<Bytes>) {
    chunks != [] ==>
      var init := chunks[..|chunks| - 1];
      NeverLossy(init) && !LossyCall(Run(init).rest, chunks[|chunks| - 1])
  }

  // A run without a lossy call puts out the ideal repair of the whole input, whatever follows.
  lemma {:induction false} RunIdeal(chunks: seq<Bytes>, t: Bytes)
    requires NeverLossy(chunks)
    ensures Run(chunks).pieces <= Repair(Concat(chunks) + t)
  {
    if chunks != [] {
      var init, last := chunks[..|chunks| - 1], chunks[|chunks| - 1];
      RunIdeal(init, last + t);
      RunAccounts(init);
      IdealStep(Run(init), Concat(init), last, t);
    }
  }

  // Pieces that cover only bytes that were there are a beginning of the repair of those.
  lemma {:induction false} RepairOfBeginning(ps: seq<Piece>, s: Bytes, t: Bytes)
    requires ps <= Repair(s + t) && Source(ps) <= s
    ensures ps <= Repair(s)
  {
    hide Repair, Unfinished;
    if ps != [] {
      RepairNext(s + t);
      UnfoldPieces(ps);
      SameFirstPiece(s, t);
      RepairNext(s);
      var width := Width(s);
      assert (s + t)[width..] == s[width..] + t;
      assert Source(ps[1..]) <= s[width..] by {
        assert Source(ps)[width..] == Source(ps[1..]);
      }
      RepairOfBeginning(ps[1..], s[width..], t);
    }
  }

  lemma SameFirstPiece(s: Bytes, t: Bytes)
    requires s + t != [] && FirstPiece(s + t).Source() <= s
    ensures s != [] && FirstPiece(s) == FirstPiece(s + t) && Width(s) == Width(s + t)
  {
    if CharLen(s) > 0 {
      CharLenStable(s, t);
    }
  }

  // What one more call adds to an ideal beginning is ideal exactly if the call is not lossy.
  lemma IdealCallIff(p: Progress, fed: Bytes, data: Bytes)
    requires Accounts(p, fed) && p.pieces <= Repair(fed + data)
    ensures Filter(p.rest, data).Before(p.pieces).pieces <= Repair(fed + data) <==> !LossyCall(p.rest, data)
  {
    hide Filter, Rendered, Source, WellFormed, Repair, AllValid, LossyCall;
    Assoc(Source(p.pieces), p.rest, data);
    DropFront(Source(p.pieces), p.rest + data);
    RepairAfter(p.pieces, fed + data);
    IdealRepairIff(p.rest, data);
    if Filter(p.rest, data).Before(p.pieces).pieces <= Repair(fed + data) {
      PrefixBehind(p.pieces, Filter(p.rest, data).pieces, Repair(p.rest + data));
    }
  }

  lemma IdealBefore(p: Progress, more: seq<Piece>, fed: Bytes, data: Bytes)
    requires Accounts(p, fed) && p.pieces + more <= Repair(fed + data)
    ensures p.pieces <= Repair(fed) && p.pieces <= Repair(fed + data)
  {
    assert p.pieces <= p.pieces + more;
    RepairOfBeginning(p.pieces, fed, data);
  }

  /**
    A run puts out the ideal repair of its whole input exactly if none of its
    calls is lossy, and then that is the ideal repair whatever follows.
   */
  lemma {:induction false} RunIdealIff(chunks: seq<Bytes>, t: Bytes)
    ensures Run(chunks).pieces <= Repair(Concat(chunks)) <==> NeverLossy(chunks)
    ensures NeverLossy(chunks) ==> Run(chunks).pieces <= Repair(Concat(chunks) + t)
  {
    if NeverLossy(chunks) {
      RunIdeal(chunks, t);
    }
    if chunks != [] {
      hide Filter, Rendered, Repair, LossyCall, Accounts;
      var init, last := chunks[..|chunks| - 1], chunks[|chunks| - 1];
      RunIdealIff(init, t);
      RunAccounts(init);
      if NeverLossy(chunks) {
        RunIdeal(chunks, []);
        assert Concat(chunks) + [] == Concat(chunks);
      } else if Run(chunks).pieces <= Repair(Concat(chunks)) {
        IdealBefore(Run(init), Filter(Run(init).rest, last).pieces, Concat(init), last);
        IdealCallIff(Run(init), Concat(init), last);
      }
    }
  }

  /** Two chunkings of one input, neither lossy: one output continues the other. */
  lemma ChunkIndependent(xs: seq<Bytes>, ys: seq<Bytes>)
    requires Concat(xs) == Concat(ys) && NeverLossy(xs) && NeverLossy(ys)
    ensures Run(xs).pieces <= Run(ys).pieces || Run(ys).pieces <= Run(xs).pieces
  {
    RunIdeal(xs, []);
    RunIdeal(ys, []);
  }

  // ----- the condition for a call that finds nothing held back

  /** The chunk ends in a byte that could start a longer character, an ASCII byte, and a byte that continues none. */
  predicate EndsLossy(s: Bytes) {
    |s| >= 3 && s[|s| - 3] >= 0xC0 && s[|s| - 2] < 0x80 && !IsContinuation(s[|s| - 1])
  }

  lemma ShorterLossy(s: Bytes)
    requires 0 < |s| < 3
    ensures Lossy(s) <==> |s| == 2 && s[0] < 0x80 && !IsContinuation(s[1])
  {
    if |s| == 2 {
      assert |s[1..]| == 1;
    }
  }

  // With three bytes or fewer left.
  lemma ShortLossy(s: Bytes)
    requires 0 < |s| < 4 && StopsAt(s, |s|)
    ensures Lossy(s) <==> EndsLossy(s)
  {
    hide Unfinished;
    if |s| > 1 {
      ShorterLossy(s[1..]);
    }
  }

  // A character does not reach over the start of another one.
  lemma EndsLossyBehind(s: Bytes)
    requires s != [] && (CharLen(s) > 0 || |s| > 3)
    ensures EndsLossy(s) <==> EndsLossy(s[Width(s)..])
  {
    if EndsLossy(s) {
      assert CharLen(s) > 0 ==> CharLen(s) <= |s| - 3;
    }
  }

  lemma {:induction false} FreshLossyIff(s: Bytes)
    ensures LossyScan(s, |s|) <==> EndsLossy(s)
    ensures EndsLossy(s) ==> !WellFormed(s)
  {
    if s != [] {
      hide Lossy, EndsLossy, Announced, SecondFits;
      if StopsAt(s, |s|) {
        ShortLossy(s);
        if CharLen(s) > 0 {
          PlaceholderNotLossy(s);
        }
      } else {
        FreshLossyIff(s[Width(s)..]);
        ReadOnNotLossy(s);
      }
    }
  }

  lemma PlaceholderNotLossy(s: Bytes)
    requires s != [] && |s| < 4 && CharLen(s) > 0 && ReadsAsError(s)
    ensures !EndsLossy(s)
  {
  }

  lemma ReadOnNotLossy(s: Bytes)
    requires s != [] && !StopsAt(s, |s|)
    ensures EndsLossy(s) <==> EndsLossy(s[Width(s)..])
  {
    if CharLen(s) > 0 || |s| > 3 {
      EndsLossyBehind(s);
    }
  }

  /** With nothing held back before it, a call is lossy exactly if its chunk ends so. */
  lemma FreshCallLossyIff(data: Bytes)
    ensures LossyCall([], data) <==> EndsLossy(data)
  {
    assert [] + data == data;
    FreshLossyIff(data);
  }

  lemma LastBytesExamples()
    ensures LastBytes([0xE1, 0x41, 0x42]) == Progress([Replaced(0xE1), Replaced(0x41), Copied([0x42])], [])
    ensures LastBytes([0xE1, 0x41]) == Progress([Replaced(0xE1), Copied([0x41])], [])
  {
    var a: Bytes, b: Bytes := [0xE1, 0x41, 0x42], [0xE1, 0x41];
    assert a[1..] == [0x41, 0x42] && a[1..][1..] == [0x42] && b[1..] == [0x41];
    assert LastBytes([0x41, 0x42]) == Progress([Replaced(0x41), Copied([0x42])], []);
  }

  lemma ShortChunk(s: Bytes)
    requires 0 < |s| < 4 && CharLen(s) == 0 && RuneStart(s[0])
    ensures Filter([], s) == LastBytes(s)
  {
    assert [] + s == s;
  }

  lemma AsciiChunk(b: Byte)
    requires b < 0x80
    ensures Filter([], [b]) == Progress([Copied([b])], [])
  {
    var s := [b];
    assert [] + s == s && s[1..] == [] && s[..1] == s;
    assert WellFormed(s) && Repair(s) == [Copied(s)];
  }

  /** Such bytes at the end of a chunk lose an ASCII character; cut differently, they do not. */
  lemma AsciiLost()
    ensures Run([[0xE1, 0x41, 0x42]]).pieces == [Replaced(0xE1), Replaced(0x41), Copied([0x42])]
    ensures Run([[0xE1, 0x41], [0x42]]).pieces == [Replaced(0xE1), Copied([0x41]), Copied([0x42])]
  {
    hide Filter, LastBytes, WellFormed, Repair, Scan;
    var a: Bytes, b: Bytes, c: Bytes := [0xE1, 0x41, 0x42], [0xE1, 0x41], [0x42];
    RunSnoc([], a);
    RunSnoc([], b);
    RunSnoc([b], c);
    assert [] + [a] == [a] && [] + [b] == [b] && [b] + [c] == [b, c];
    LastBytesExamples();
    ShortChunk(a);
    ShortChunk(b);
    AsciiChunk(0x42);
  }
}
