/** What the output filter does on valid UTF-8, cut anywhere. */
module ValidStreams {
  import opened Seqs
  import opened Utf8
  import opened Pieces
  import opened StreamFilter

  // The character at the front and the rest of an extendable stream.
  lemma ExtendableStep(s: Bytes)
    requires Extendable(s) && s != []
    ensures CharLen(s) > 0 ==> Extendable(s[CharLen(s)..])
    ensures CharLen(s) == 0 ==> Unfinished(s)
  {
    ExtendableIffTail(s);
    if CharLen(s) > 0 {
      ExtendableIffTail(s[CharLen(s)..]);
    }
  }

  lemma Reassemble(s: Bytes, w: Bytes, x: Bytes, rest: Bytes)
    requires |w| <= |s| && w == s[..|w|] && x + rest == s[|w|..]
    ensures (w + x) + rest == s
  {
    Assoc(w, x, rest);
    SplitAt(s, |w|);
  }

  // On an extendable stream a read either copies its bytes, or leaves everything to the next call.
  lemma ExtendableRead(s: Bytes, left: int)
    requires Extendable(s) && s != [] && left <= |s|
    ensures StopsAt(s, left) ==> LastBytes(s) == Progress([], s)
    ensures !StopsAt(s, left) ==> CharLen(s) > 0 && FirstPiece(s).Rendered() == s[..Width(s)]
    ensures CharLen(s) > 0 ==> (StopsAt(s, left) <==> PLACEHOLDER <= s && left < 4)
  {
    ExtendableStep(s);
  }

  lemma {:induction false} ScanVerbatim(s: Bytes, left: int)
    requires Extendable(s) && left <= |s|
    ensures Rendered(Scan(s, left).pieces) + Scan(s, left).rest == s
  {
    hide CharLen, Extendable, LastBytes, StopsAt, WellFormed, FirstPiece, Rendered;
    NothingRendered();
    if s != [] {
      ExtendableRead(s, left);
      if !StopsAt(s, left) {
        var width := Width(s);
        var p := Scan(s[width..], left - width);
        ExtendableStep(s);
        ScanVerbatim(s[width..], left - width);
        RenderedBefore(FirstPiece(s), p);
        Reassemble(s, s[..width], Rendered(p.pieces), p.rest);
      }
    }
  }

  lemma FilterVerbatim(rest: Bytes, data: Bytes)
    requires Extendable(rest + data)
    ensures Rendered(Filter(rest, data).pieces) + Filter(rest, data).rest == rest + data
  {
    if data != [] && WellFormed(rest + data) {
      RepairVerbatim(rest + data);
    } else if data != [] {
      ScanVerbatim(rest + data, |data|);
    }
  }

  // Extendability does not depend on the complete characters in front.
  lemma ExtendableConcat(w: Bytes, s: Bytes)
    requires WellFormed(w)
    ensures Extendable(w + s) <==> Extendable(s)
  {
    ExtendableIffTail(w + s);
    ExtendableIffTail(s);
    TailOfConcat(w, s);
  }

  // Output and held-back bytes are the input itself.
  ghost predicate Verbatim(p: Progress, fed: Bytes) {
    WellFormed(Rendered(p.pieces)) && Rendered(p.pieces) + p.rest == fed
  }

  lemma VerbatimStep(p: Progress, fed: Bytes, data: Bytes)
    requires Verbatim(p, fed) && Extendable(fed + data)
    ensures Extendable(p.rest + data)
    ensures Rendered(Filter(p.rest, data).Before(p.pieces).pieces) + Filter(p.rest, data).rest == fed + data
  {
    hide Filter, Rendered, Source, WellFormed, Extendable;
    var out, next := Rendered(p.pieces), Filter(p.rest, data);
    Assoc(out, p.rest, data);
    ExtendableConcat(out, p.rest + data);
    FilterVerbatim(p.rest, data);
    ConcatPieces(p.pieces, next.pieces);
    Assoc(out, Rendered(next.pieces), next.rest);
  }

  /**
    Whatever has arrived of a well-formed stream, cut into chunks at any byte
    positions: output and held-back bytes together are those bytes verbatim.
   */
  lemma {:induction false} ValidStreamVerbatim(chunks: seq<Bytes>)
    requires Extendable(Concat(chunks))
    ensures Rendered(Run(chunks).pieces) + Run(chunks).rest == Concat(chunks)
  {
    if chunks != [] {
      var init, last := chunks[..|chunks| - 1], chunks[|chunks| - 1];
      PrefixOfConcat(Concat(init), last);
      ValidStreamVerbatim(init);
      RunRewritesInput(init);
      VerbatimStep(Run(init), Concat(init), last);
    }
  }

  lemma PrefixOfConcat(s: Bytes, t: Bytes)
    requires Extendable(s + t)
    ensures Extendable(s)
  {
    PrefixExtendable(s + t, |s|);
    assert (s + t)[..|s|] == s;
  }

  /** A literal U+FFFD stands less than four bytes before the end of the chunk, or in the held-back bytes. */
  predicate LatePlaceholder(s: Bytes, left: int) {
    CharLen(s) > 0 && ((PLACEHOLDER <= s && left < 4) || LatePlaceholder(s[CharLen(s)..], left - CharLen(s)))
  }

  // The read loop stops: everything is held back, which is more than the tail if a placeholder stopped it.
  lemma StopHoldsTail(s: Bytes, left: int)
    requires Extendable(s) && s != [] && left <= |s| && StopsAt(s, left)
    ensures Scan(s, left).rest == s
    ensures s == Tail(s) <==> !LatePlaceholder(s, left)
  {
    hide Extendable, LastBytes, WellFormed, StopsAt;
    ExtendableRead(s, left);
    ExtendableStep(s);
  }

  lemma ReadOnHoldsTail(s: Bytes, left: int)
    requires Extendable(s) && s != [] && left <= |s| && !StopsAt(s, left)
    ensures CharLen(s) > 0 && Extendable(s[CharLen(s)..])
    ensures Scan(s, left).rest == Scan(s[CharLen(s)..], left - CharLen(s)).rest
    ensures Tail(s) == Tail(s[CharLen(s)..])
    ensures LatePlaceholder(s, left) == LatePlaceholder(s[CharLen(s)..], left - CharLen(s))
  {
    hide Extendable, LastBytes, WellFormed, StopsAt, BeginsChar;
    ExtendableRead(s, left);
    ExtendableStep(s);
  }

  lemma NothingHeld(left: int)
    ensures Scan([], left).rest == [] == Tail([]) && !LatePlaceholder([], left)
  {
  }

  lemma {:induction false} ScanHoldsTail(s: Bytes, left: int)
    requires Extendable(s) && left <= |s|
    ensures Scan(s, left).rest == Tail(s) <==> !LatePlaceholder(s, left)
    ensures |Tail(s)| <= |Scan(s, left).rest|
  {
    hide *;
    if s == [] {
      NothingHeld(left);
    } else if StopsAt(s, left) {
      StopHoldsTail(s, left);
    } else {
      ReadOnHoldsTail(s, left);
      ScanHoldsTail(s[CharLen(s)..], left - CharLen(s));
    }
  }

  /**
    When one call on a valid stream holds back exactly the unfinished
    character: unless the decode is forced and meets a literal U+FFFD near the end.
   */
  lemma HoldsExactlyTheTail(rest: Bytes, data: Bytes)
    requires Extendable(rest + data) && data != []
    ensures Filter(rest, data).rest == Tail(rest + data) <==>
            WellFormed(rest + data) || !LatePlaceholder(rest + data, |data|)
  {
    WellFormedIffNoTail(rest + data);
    if !WellFormed(rest + data) {
      ScanHoldsTail(rest + data, |data|);
    }
  }

  lemma {:induction false} PlaceholderInRest(w: Bytes, s: Bytes)
    requires WellFormed(w) && HasPlaceholder(s)
    ensures HasPlaceholder(w + s)
    decreases |w|
  {
    if w == [] {
      assert w + s == s;
    } else {
      CharLenStable(w, s);
      PlaceholderInRest(w[CharLen(w)..], s);
    }
  }

  lemma {:induction false} LateIsPlaceholder(s: Bytes, left: int)
    requires LatePlaceholder(s, left)
    ensures HasPlaceholder(s)
  {
    if !(PLACEHOLDER <= s && left < 4) {
      LateIsPlaceholder(s[CharLen(s)..], left - CharLen(s));
    }
  }

  lemma ExactTailStep(p: Progress, fed: Bytes, data: Bytes)
    requires Verbatim(p, fed) && p.rest == Tail(fed)
    requires Extendable(fed + data) && !HasPlaceholder(fed + data)
    ensures Filter(p.rest, data).rest == Tail(fed + data)
  {
    var out, d := Rendered(p.pieces), p.rest + data;
    Assoc(out, p.rest, data);
    ExtendableConcat(out, d);
    TailOfConcat(out, d);
    if data == [] {
      assert fed + data == fed;
    } else {
      if LatePlaceholder(d, |data|) {
        LateIsPlaceholder(d, |data|);
        PlaceholderInRest(out, d);
      }
      HoldsExactlyTheTail(p.rest, data);
    }
  }

  lemma {:induction false} PlaceholderStays(s: Bytes, t: Bytes)
    requires HasPlaceholder(s)
    ensures HasPlaceholder(s + t)
    decreases |s|
  {
    CharLenStable(s, t);
    if !(PLACEHOLDER <= s) {
      PlaceholderStays(s[CharLen(s)..], t);
    }
  }

  lemma TailShort(s: Bytes)
    requires Extendable(s)
    ensures |Tail(s)| <= 3
  {
    ExtendableIffTail(s);
  }

  /**
    On a valid stream without U+FFFD the filter holds back exactly the
    unfinished trailing character, at most three bytes, at every cut.
   */
  lemma {:induction false} HeldBackIsUnfinishedCharacter(chunks: seq<Bytes>)
    requires Extendable(Concat(chunks)) && !HasPlaceholder(Concat(chunks))
    ensures Run(chunks).rest == Tail(Concat(chunks))
    ensures |Run(chunks).rest| <= 3
  {
    if chunks != [] {
      hide HasPlaceholder, Extendable, Filter, WellFormed, Tail, Rendered, Repair, BeginsChar, Source, AllValid;
      var init, last := chunks[..|chunks| - 1], chunks[|chunks| - 1];
      PrefixOfConcat(Concat(init), last);
      if HasPlaceholder(Concat(init)) {
        PlaceholderStays(Concat(init), last);
      }
      HeldBackIsUnfinishedCharacter(init);
      ValidStreamVerbatim(init);
      RunRewritesInput(init);
      ExactTailStep(Run(init), Concat(init), last);
    }
    TailShort(Concat(chunks));
  }

  // A placeholder and an unfinished character, read with a short chunk: all of it is held back.
  lemma HeldBackExample(rest: Bytes, data: Bytes)
    requires 0 < |data| < 4 && PLACEHOLDER <= rest + data
    requires (rest + data)[3..] == [0xE1] || (rest + data)[3..] == [0xE1, 0x80]
    ensures Filter(rest, data) == Progress([], rest + data)
  {
    var d := rest + data;
    assert !WellFormed(d) by {
      assert CharLen(d) == 3 && CharLen(d[3..]) == 0;
    }
    assert StopsAt(d, |data|);
  }

  /** The held-back bytes can outgrow three when U+FFFD is in the stream: the chunk length leaves them out. */
  lemma HeldBackCanExceedThree()
    ensures Run([[0xEF], [0xBF, 0xBD, 0xE1], [0x80]]).rest == [0xEF, 0xBF, 0xBD, 0xE1, 0x80]
  {
    hide WellFormed, CharLen, Filter, StopsAt, Scan, Run;
    var a: Bytes, b: Bytes, c: Bytes := [0xEF], [0xBF, 0xBD, 0xE1], [0x80];
    assert Run([]) == Progress([], []) by { EmptyRun(); }
    RunSnoc([], a);
    LoneStart(0xEF);
    RunSnoc([a], b);
    HeldBackExample(a, b);
    RunSnoc([a, b], c);
    HeldBackExample(a + b, c);
    BeforeRest();
    assert [] + [a] == [a] && [a] + [b] == [a, b] && [a, b] + [c] == [a, b, c];
  }

  lemma LoneStart(b: Byte)
    requires RuneStart(b) && b >= 0x80
    ensures Filter([], [b]) == Progress([], [b])
  {
    assert CharLen([b]) == 0 && [] + [b] == [b];
  }
}
