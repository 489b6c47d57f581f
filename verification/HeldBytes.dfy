/** Which of the last bytes of a chunk the output filter keeps for the next one, and what it makes of the others. */
module HeldBytes {
  import opened Seqs
  import opened Utf8
  import opened Pieces
  import opened StreamFilter

  /**
    Bytes that may be the beginning of a longer character: a byte that is neither
    a continuation nor a character alone, then continuations, as far as three bytes go.
   */
  predicate Waits(r: Bytes) {
    && r != [] && !(0x80 <= r[0] <= 0xBF)
    && (|r| == 1 ==> r[0] >= 0xC0)
    && (|r| > 1 ==> 0x80 <= r[1] <= 0xBF)
    && (|r| > 2 ==> 0x80 <= r[2] <= 0xBF)
  }

  /** `r` is the longest end of `s` that waits, or nothing if none does. */
  ghost predicate LongestWait(r: Bytes, s: Bytes) {
    && |r| <= |s| && r == s[|s| - |r|..]
    && (r == [] || Waits(r))
    && forall k :: 0 <= k <= |s| && Waits(s[k..]) ==> |s| - k <= |r|
  }

  // What precedes an end that is not cut off by it.
  lemma LongestWaitBehind(r: Bytes, s: Bytes, n: nat)
    requires n <= |s| && LongestWait(r, s[n..]) && forall k :: 0 <= k < n ==> !Waits(s[k..])
    ensures LongestWait(r, s)
  {
    DropTwice(s, n, |s| - n - |r|);
    forall k | 0 <= k <= |s| && Waits(s[k..]) ensures |s| - k <= |r| {
      assert k >= n;
      DropTwice(s, n, k - n);
      assert Waits(s[n..][k - n..]);
    }
  }

  lemma LongestWaitUnique(q: Bytes, r: Bytes, s: Bytes)
    requires LongestWait(q, s) && LongestWait(r, s)
    ensures q == r
  {
    assert q != [] ==> Waits(s[|s| - |q|..]);
    assert r != [] ==> Waits(s[|s| - |r|..]);
  }

  /** All bytes replaced, but an ASCII byte at the very end copied. */
  function Given(s: Bytes): (ps: seq<Piece>)
    ensures |ps| == |s|
  {
    seq(|s|, i requires 0 <= i < |s| => if i == |s| - 1 && s[i] < 0x80 then Copied([s[i]]) else Replaced(s[i]))
  }

  lemma GivenFront(s: Bytes, n: nat)
    requires n < |s|
    ensures Given(s)[n..] == Given(s[n..]) && Given(s)[..n] == AllReplaced(s[..n])
  {
  }

  // What the last bytes come to, given what a part of them comes to.
  predicate Comes(p: Progress, s: Bytes) {
    && |p.rest| <= |s|
    && p.pieces == if p.rest == [] then Given(s) else AllReplaced(s[..|s| - |p.rest|])
  }

  lemma ComesBehind(p: Progress, s: Bytes, n: nat)
    requires n < |s| && Comes(p, s[n..])
    ensures Comes(p.Before(AllReplaced(s[..n])), s)
  {
    if p.rest == [] {
      GivenFront(s, n);
      SplitAt(Given(s), n);
    } else {
      var m := |s| - |p.rest|;
      assert s[..n] + s[n..][..m - n] == s[..m];
      assert AllReplaced(s[..m]) == AllReplaced(s[..n]) + AllReplaced(s[n..m]);
    }
  }

  /**
    Of the last bytes the longest end that waits is held back. The others are put
    out: each is replaced, but an ASCII byte at the end of all is copied.
   */
  lemma {:induction false} LastBytesAre(s: Bytes)
    requires s != []
    ensures LongestWait(LastBytes(s).rest, s)
    ensures Comes(LastBytes(s), s)
  {
    hide *;
    var n := Dropped(s);
    if |s| == 1 {
      LastByteIs(s);
    } else if n == 0 {
      AllHeld(s);
    } else {
      LastBytesAre(s[n..]);
      DroppedStep(s);
      LongestWaitBehind(LastBytes(s[n..]).rest, s, n);
      ComesBehind(LastBytes(s[n..]), s, n);
    }
  }

  // How many bytes one step of the handling replaces before it goes on.
  function Dropped(s: Bytes): (n: nat)
    requires s != []
    ensures |s| > 1 ==> n < |s|
  {
    if |s| > 1 && (!RuneStart(s[0]) || !IsContinuation(s[1])) then 1
    else if |s| > 2 && !IsContinuation(s[2]) then 2
    else 0
  }

  lemma DroppedStep(s: Bytes)
    requires |s| > 1 && Dropped(s) > 0
    ensures var n := Dropped(s);
            && LastBytes(s) == LastBytes(s[n..]).Before(AllReplaced(s[..n]))
            && LastBytes(s).rest == LastBytes(s[n..]).rest
            && forall k :: 0 <= k < n ==> !Waits(s[k..])
  {
    assert AllReplaced(s[..1]) == [Replaced(s[0])];
    if Dropped(s) == 2 {
      assert AllReplaced(s[..2]) == [Replaced(s[0]), Replaced(s[1])];
    }
  }

  lemma AllHeld(s: Bytes)
    requires |s| > 1 && Dropped(s) == 0
    ensures LongestWait(LastBytes(s).rest, s) && Comes(LastBytes(s), s)
  {
    assert LastBytes(s) == Progress([], s);
    assert s[0..] == s && s[..0] == [] && Waits(s);
  }

  lemma LastByteIs(s: Bytes)
    requires |s| == 1
    ensures LongestWait(LastBytes(s).rest, s) && Comes(LastBytes(s), s)
  {
    assert s[0..] == s && s[1..] == [] && s == [s[0]];
  }

  // ----- calls

  /** The bytes at which the read loop stops, or nothing if it reads all. */
  function StoppedAt(s: Bytes, left: int): (t: Bytes)
    ensures |t| <= |s|
  {
    if s == [] then []
    else if ReadsAsError(s) && left < 4 && !(0x80 <= s[0] <= 0xBF) then s
    else StoppedAt(s[Width(s)..], left - Width(s))
  }

  /** The pieces with which it leaves the bytes before. */
  function ReadBefore(s: Bytes, left: int): seq<Piece> {
    if s == [] || StopsAt(s, left) then [] else [FirstPiece(s)] + ReadBefore(s[Width(s)..], left - Width(s))
  }

  lemma {:induction false} ScanIs(s: Bytes, left: int)
    ensures var t := StoppedAt(s, left);
            && Scan(s, left).pieces == ReadBefore(s, left) + (if t == [] then [] else LastBytes(t).pieces)
            && Scan(s, left).rest == if t == [] then [] else LastBytes(t).rest
  {
    hide LastBytes, ReadsAsError, FirstPiece, Width;
    if s != [] && !StopsAt(s, left) {
      var next, t := s[Width(s)..], StoppedAt(s, left);
      ScanIs(next, left - Width(s));
      Assoc([FirstPiece(s)], ReadBefore(next, left - Width(s)), if t == [] then [] else LastBytes(t).pieces);
    }
  }

  /** What a call stops at: nothing if it puts out all at once, or reads all. */
  function Undecided(rest: Bytes, data: Bytes): Bytes {
    if WellFormed(rest + data) then [] else StoppedAt(rest + data, |data|)
  }

  /**
    Every call holds back exactly the longest end that waits of the bytes it
    stops at, and puts out the others of them as placeholders, but for ASCII at the end.
   */
  lemma CallHolds(rest: Bytes, data: Bytes)
    requires data != []
    ensures LongestWait(Filter(rest, data).rest, Undecided(rest, data))
    ensures !WellFormed(rest + data) ==>
              Filter(rest, data).pieces == ReadBefore(rest + data, |data|) +
                if Filter(rest, data).rest == [] then Given(Undecided(rest, data))
                else AllReplaced(Undecided(rest, data)[..|Undecided(rest, data)| - |Filter(rest, data).rest|])
  {
    hide LastBytes, Given, StoppedAt, ReadBefore, Scan;
    var s := rest + data;
    if !WellFormed(s) {
      ScanIs(s, |data|);
      var t := StoppedAt(s, |data|);
      if t != [] {
        LastBytesAre(t);
      } else {
        NothingGiven();
      }
    }
  }

  lemma NothingGiven()
    ensures Given([]) == [] && AllReplaced([]) == []
  {
  }

  /** A cut-off character and a prompt: two placeholders and the prompt, nothing held back. */
  lemma PromptShown()
    ensures Run([[0xE2, 0x82, 0x24]]) == Progress([Replaced(0xE2), Replaced(0x82), Copied([0x24])], [])
  {
    var s: Bytes := [0xE2, 0x82, 0x24];
    EmptyRun();
    RunSnoc([], s);
    assert [] + [s] == [s] && [] + s == s;
    PromptCall(s);
  }

  lemma PromptCall(s: Bytes)
    requires s == [0xE2, 0x82, 0x24]
    ensures Filter([], s) == Progress([Replaced(0xE2), Replaced(0x82), Copied([0x24])], [])
  {
    assert [] + s == s && CharLen(s) == 0 && s[2..] == [0x24];
    assert LastBytes([0x24]) == Progress([Copied([0x24])], []);
    assert Filter([], s) == LastBytes(s);
  }
}
