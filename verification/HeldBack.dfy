/** How many bytes the output filter can hold back, on any bytes. */
module HeldBack {
  import opened Seqs
  import opened Utf8
  import opened Pieces
  import opened StreamFilter
  import opened ValidStreams

  // ----- one call

  // A start byte with two continuation bytes behind it, and at least one byte more.
  predicate HoldAt(s: Bytes, i: nat) {
    i + 3 < |s| && RuneStart(s[i]) && IsContinuation(s[i + 1]) && IsContinuation(s[i + 2])
  }

  /** Where the read loop stops, the last bytes contain such a place: all from the first one on is held back. */
  predicate HoldsLong(s: Bytes, left: int) {
    s != [] &&
    if StopsAt(s, left) then exists i :: 0 <= i < |s| && HoldAt(s, i)
    else HoldsLong(s[Width(s)..], left - Width(s))
  }

  /** A call that decodes and reaches such last bytes; one without data leaves what is held back. */
  predicate LongHold(rest: Bytes, data: Bytes) {
    if data == [] then |rest| > 3 else !WellFormed(rest + data) && HoldsLong(rest + data, |data|)
  }

  lemma HoldBehind(s: Bytes, n: nat)
    requires n <= |s| && forall i :: 0 <= i < n ==> !HoldAt(s, i)
    ensures (exists i :: 0 <= i < |s| && HoldAt(s, i)) <==>
            (exists i :: 0 <= i < |s[n..]| && HoldAt(s[n..], i))
  {
    assert forall i: nat :: HoldAt(s[n..], i) <==> HoldAt(s, i + n);
    if i :| 0 <= i < |s| && HoldAt(s, i) {
      assert HoldAt(s[n..], i - n);
    }
  }

  lemma {:induction false} LastBytesLong(s: Bytes)
    requires s != []
    ensures |LastBytes(s).rest| > 3 <==> exists i :: 0 <= i < |s| && HoldAt(s, i)
  {
    if |s| > 1 && (!RuneStart(s[0]) || !IsContinuation(s[1])) {
      LastBytesLong(s[1..]);
      HoldBehind(s, 1);
    } else if |s| > 2 && !IsContinuation(s[2]) {
      LastBytesLong(s[2..]);
      HoldBehind(s, 2);
    } else if |s| > 3 {
      assert HoldAt(s, 0);
    }
  }

  lemma {:induction false} ScanLong(s: Bytes, left: int)
    ensures |Scan(s, left).rest| > 3 <==> HoldsLong(s, left)
  {
    hide LastBytes, StopsAt, Width, HoldAt, FirstPiece;
    if s != [] {
      if StopsAt(s, left) {
        LastBytesLong(s);
      } else {
        ScanLong(s[Width(s)..], left - Width(s));
      }
    }
  }

  /**
    The documented "1 to 3 bytes", for every call on any bytes: at most three
    are held back exactly if the call is no long hold, which needs bytes held
    back before it.
   */
  lemma AtMostThreeIff(rest: Bytes, data: Bytes)
    ensures |Filter(rest, data).rest| <= 3 <==> !LongHold(rest, data)
    ensures LongHold(rest, data) ==> rest != []
  {
    if data != [] && !WellFormed(rest + data) {
      ScanLong(rest + data, |data|);
    }
    FilterHeldBackGrowth(rest, data);
  }

  // ----- bytes that stay

  /**
    Held-back bytes at which the read loop stops again and again: a literal
    U+FFFD, or a byte that starts no character, with two continuation bytes.
   */
  predicate Stuck(s: Bytes) {
    && |s| >= 3 && RuneStart(s[0]) && IsContinuation(s[1]) && IsContinuation(s[2])
    && (PLACEHOLDER <= s || (CharLen(s) == 0 && !Unfinished(s)))
  }

  /** What releases them: a chunk of at least four bytes, or one that makes all of them well-formed. */
  predicate Releases(held: Bytes, data: Bytes) {
    data != [] && (|data| >= 4 || WellFormed(held + data))
  }

  lemma StuckLonger(held: Bytes, data: Bytes)
    requires Stuck(held)
    ensures Stuck(held + data)
  {
    if CharLen(held) == 0 && !Unfinished(held) {
      NoCharNoContinuation(held, data);
    }
  }

  /** A call on such bytes puts out nothing and holds back all, exactly if it does not release them. */
  lemma StuckIff(held: Bytes, data: Bytes)
    requires Stuck(held)
    ensures Filter(held, data) == Progress([], held + data) <==> !Releases(held, data)
    ensures Releases(held, data) ==> Filter(held, data).pieces != []
  {
    hide CharLen, Repair, FirstPiece, BeginsChar;
    var s := held + data;
    StuckLonger(held, data);
    if data == [] {
      assert s == held;
    } else if WellFormed(s) {
      RepairNext(s);
    } else if |data| < 4 {
      assert StopsAt(s, |data|) && LastBytes(s) == Progress([], s);
    }
  }

  // None of the chunks releases what is held back when it arrives.
  predicate NoneReleases(held: Bytes, more: seq<Bytes>) {
    forall j :: 0 <= j < |more| ==> !Releases(held + Concat(more[..j]), more[j])
  }

  lemma NoneReleasesSnoc(held: Bytes, more: seq<Bytes>)
    requires more != []
    ensures var init := more[..|more| - 1];
            NoneReleases(held, more) <==> NoneReleases(held, init) && !Releases(held + Concat(init), more[|more| - 1])
  {
    hide Releases, Concat;
    var init := more[..|more| - 1];
    assert forall j :: 0 <= j < |init| ==> more[..j] == init[..j] && more[j] == init[j];
  }

  lemma {:induction false} PiecesGrow(chunks: seq<Bytes>, more: seq<Bytes>)
    ensures Run(chunks).pieces <= Run(chunks + more).pieces
  {
    if more == [] {
      assert chunks + more == chunks;
    } else {
      hide Filter;
      var init, last := more[..|more| - 1], more[|more| - 1];
      PiecesGrow(chunks, init);
      assert chunks + more == (chunks + init) + [last];
      RunSnoc(chunks + init, last);
    }
  }

  // With no further pieces, everything since is held back.
  lemma NoPiecesAllHeld(chunks: seq<Bytes>, more: seq<Bytes>)
    requires Run(chunks + more).pieces == Run(chunks).pieces
    ensures Run(chunks + more).rest == Run(chunks).rest + Concat(more)
  {
    hide Run, Source, Rendered;
    var out := Source(Run(chunks).pieces);
    RunAccounts(chunks);
    RunAccounts(chunks + more);
    ConcatAppend(chunks, more);
    Assoc(out, Run(chunks).rest, Concat(more));
    DropFront(out, Run(chunks + more).rest);
    DropFront(out, Run(chunks).rest + Concat(more));
  }

  /**
    The output stands still over all further chunks, exactly as long as none of
    them releases what is held back; then that grows by every byte that arrives.
   */
  lemma {:induction false} StandsStillIff(chunks: seq<Bytes>, more: seq<Bytes>)
    requires Stuck(Run(chunks).rest)
    ensures Run(chunks + more).pieces == Run(chunks).pieces <==> NoneReleases(Run(chunks).rest, more)
    ensures NoneReleases(Run(chunks).rest, more) ==> Run(chunks + more).rest == Run(chunks).rest + Concat(more)
  {
    var held := Run(chunks).rest;
    if more == [] {
      assert chunks + more == chunks && held + Concat(more) == held;
    } else {
      hide Run, Filter, Stuck, Releases, NoneReleases;
      var init, last := more[..|more| - 1], more[|more| - 1];
      assert chunks + more == (chunks + init) + [last];
      StandsStillIff(chunks, init);
      NoneReleasesSnoc(held, more);
      RunSnoc(chunks + init, last);
      PiecesGrow(chunks, init);
      if NoneReleases(held, init) {
        StuckLonger(held, Concat(init));
        StuckIff(held + Concat(init), last);
      }
      if Run(chunks + more).pieces == Run(chunks).pieces {
        NoPiecesAllHeld(chunks, more);
      }
    }
  }

  // ----- no bound

  // `n` equal chunks.
  function Times(chunk: Bytes, n: nat): (cs: seq<Bytes>)
    ensures |cs| == n && forall i :: 0 <= i < n ==> cs[i] == chunk
  {
    seq(n, i => chunk)
  }

  lemma TimesFirst(chunk: Bytes, n: nat, j: nat)
    requires j <= n
    ensures Times(chunk, n)[..j] == Times(chunk, j)
  {
  }

  lemma {:induction false} TimesLength(chunk: Bytes, n: nat)
    ensures |Concat(Times(chunk, n))| == n * |chunk|
  {
    if n > 0 {
      TimesLength(chunk, n - 1);
      TimesFirst(chunk, n, n - 1);
    }
  }

  lemma OverlongHeld(s: Bytes)
    requires s == [0xF0, 0x80, 0x80]
    ensures Filter([], s) == Progress([], s) && Stuck(s)
  {
    hide Run, Repair, FirstPiece;
    assert [] + s == s && CharLen(s) == 0;
    NotWellFormed(s);
    assert StopsAt(s, 3);
  }

  lemma NoBeginning()
    ensures Run([[0xF0, 0x80, 0x80]]) == Progress([], [0xF0, 0x80, 0x80])
  {
    var s: Bytes := [0xF0, 0x80, 0x80];
    EmptyRun();
    RunSnoc([], s);
    OverlongHeld(s);
    assert [] + [s] == [s];
  }

  /** Without any U+FFFD: three bytes that start no character, and ASCII typed one by one, of which none is shown. */
  lemma TypingNotShown(n: nat)
    ensures var chunks := [[0xF0, 0x80, 0x80]] + Times([0x41], n);
            Run(chunks).pieces == [] && |Run(chunks).rest| == n + 3
  {
    hide Run, Filter, Times, WellFormed;
    var s: Bytes, more := [0xF0, 0x80, 0x80], Times([0x41], n);
    NoBeginning();
    assert NoneReleases(s, more) by {
      forall j | 0 <= j < n ensures !Releases(s + Concat(more[..j]), more[j]) {
        NoCharNoContinuation(s, Concat(more[..j]) + more[j]);
        Assoc(s, Concat(more[..j]), more[j]);
        NotWellFormed(s + (Concat(more[..j]) + more[j]));
      }
    }
    StandsStillIff([s], more);
    TimesLength([0x41], n);
  }

  lemma NotWellFormed(s: Bytes)
    requires s != [] && CharLen(s) == 0
    ensures !WellFormed(s)
  {
  }

  // U+FFFD, then `n` times U+1000, then the first byte of another one.
  lemma ValidHeld(n: nat)
    ensures Tail([0xEF, 0xBF, 0xBD, 0xE1] + Concat(Times([0x80, 0x80, 0xE1], n))) == [0xE1]
  {
    var w := ValidPart(n);
    TailOfConcat(w, [0xE1]);
    assert Tail([0xE1]) == [0xE1];
  }

  lemma {:induction false} ValidPart(n: nat) returns (w: Bytes)
    ensures WellFormed(w) && w + [0xE1] == [0xEF, 0xBF, 0xBD, 0xE1] + Concat(Times([0x80, 0x80, 0xE1], n))
  {
    var front: Bytes, chunk: Bytes := [0xEF, 0xBF, 0xBD, 0xE1], [0x80, 0x80, 0xE1];
    if n == 0 {
      w := PLACEHOLDER;
      OneChar(w);
      assert Times(chunk, 0) == [];
    } else {
      var v := ValidPart(n - 1);
      TimesFirst(chunk, n, n - 1);
      w := v + [0xE1, 0x80, 0x80];
      OneChar([0xE1, 0x80, 0x80]);
      WellFormedConcat(v, [0xE1, 0x80, 0x80]);
      assert w + [0xE1] == (v + [0xE1]) + chunk;
    }
  }

  /** On valid streams there is no bound either, once a U+FFFD is held back. */
  lemma ValidStreamNotShown(n: nat)
    ensures var chunks := [[0xEF], [0xBF, 0xBD, 0xE1]] + Times([0x80, 0x80, 0xE1], n);
            Extendable(Concat(chunks)) && Run(chunks).pieces == [] && |Run(chunks).rest| == 3 * n + 4
  {
    hide Run, Filter, Times, WellFormed, Extendable, CharLen;
    var front: seq<Bytes>, s: Bytes, more := [[0xEF], [0xBF, 0xBD, 0xE1]], [0xEF, 0xBF, 0xBD, 0xE1], Times([0x80, 0x80, 0xE1], n);
    PlaceholderHeld();
    assert NoneReleases(s, more) by {
      forall j | 0 <= j < n ensures !Releases(s + Concat(more[..j]), more[j]) {
        ValidHeld(j + 1);
        TimesFirst([0x80, 0x80, 0xE1], n, j);
        TimesFirst([0x80, 0x80, 0xE1], n, j + 1);
        TimesFirst([0x80, 0x80, 0xE1], j + 1, j);
        Assoc(s, Concat(more[..j]), more[j]);
        WellFormedIffNoTail(s + Concat(more[..j + 1]));
      }
    }
    StandsStillIff(front, more);
    TimesLength([0x80, 0x80, 0xE1], n);
    RunAccounts(front + more);
    ValidHeld(n);
    assert Concat(front + more) == s + Concat(more);
    assert Unfinished([0xE1]);
    ExtendableIffTail(Concat(front + more));
  }

  lemma PlaceholderHeld()
    ensures Run([[0xEF], [0xBF, 0xBD, 0xE1]]) == Progress([], [0xEF, 0xBF, 0xBD, 0xE1])
  {
    hide WellFormed, CharLen, Filter, StopsAt, Scan, Run;
    var a: Bytes, b: Bytes := [0xEF], [0xBF, 0xBD, 0xE1];
    assert Run([]) == Progress([], []) by { EmptyRun(); }
    RunSnoc([], a);
    LoneStart(0xEF);
    RunSnoc([a], b);
    HeldBackExample(a, b);
    assert [] + [a] == [a] && [a] + [b] == [a, b];
  }

  // ----- flushing

  // The last bytes are ASCII from the first place at which the read loop could stop.
  predicate EndsPlain(s: Bytes, left: int) {
    forall i :: 0 <= i < |s| && i > left - 4 ==> s[i] < 0x80
  }

  lemma {:induction false} ScanPlainEnd(s: Bytes, left: int)
    requires left <= |s| && EndsPlain(s, left)
    ensures Scan(s, left).rest == []
  {
    if s != [] {
      var width := Width(s);
      assert !StopsAt(s, left);
      assert EndsPlain(s[width..], left - width);
      ScanPlainEnd(s[width..], left - width);
    }
  }

  lemma {:induction false} PlainWellFormed(s: Bytes)
    requires forall i :: 0 <= i < |s| ==> s[i] < 0x80
    ensures WellFormed(s)
  {
    if s != [] {
      PlainWellFormed(s[1..]);
    }
  }

  // Enough ASCII brings out everything that was held back.
  lemma PlainBringsOut(rest: Bytes, data: Bytes)
    requires |data| == |rest| + 4 && forall i :: 0 <= i < |data| ==> data[i] < 0x80
    ensures Source(Filter(rest, data).pieces) == rest + data && Filter(rest, data).rest == []
  {
    var s := rest + data;
    if WellFormed(s) {
      RepairAccounts(s);
    } else {
      ScanPlainEnd(s, |data|);
      ScanAccounts(s, |data|);
    }
  }

  /**
    `FlushBuffer` puts out a placeholder for each byte held back and leaves
    them: they come out again. It makes a difference to what some later call puts
    out that they were not cleared, exactly if there are any.
   */
  lemma FlushedAgainIff(rest: Bytes)
    ensures (exists data :: Rendered(Filter(rest, data).pieces) != Rendered(Filter([], data).pieces)) <==> rest != []
  {
    if rest != [] {
      hide Filter, Source, Rendered, Repair;
      var data: Bytes := seq(|rest| + 4, i => 0x41);
      PlainBringsOut(rest, data);
      CallLengths(rest, data);
      PlainWellFormed(data);
      PlainCopied(data);
      assert |Rendered(Filter(rest, data).pieces)| > |Rendered(Filter([], data).pieces)|;
    }
  }

  lemma CallLengths(rest: Bytes, data: Bytes)
    ensures |Rendered(Filter(rest, data).pieces)| >= |Source(Filter(rest, data).pieces)|
  {
    hide Rendered, Source, WellFormed;
    if data != [] && !WellFormed(rest + data) {
      ScanAccounts(rest + data, |data|);
    }
    RenderedWellFormed(Filter(rest, data).pieces);
  }

  lemma PlainCopied(data: Bytes)
    requires data != [] && WellFormed(data)
    ensures Rendered(Filter([], data).pieces) == data
  {
    assert [] + data == data;
    RepairVerbatim(data);
  }
}
