/**
  The filter between the pod and everything that shows its output: it turns a
  byte stream that arrives in arbitrary chunks into UTF-8.
 */
module StreamFilter {
  import opened Seqs
  import opened Utf8
  import opened Pieces

  // ----- the filter as a function

  /** The pieces a call puts out, and the bytes it holds back for the next one. */
  datatype Progress = Progress(pieces: seq<Piece>, rest: Bytes) {
    function Before(ps: seq<Piece>): Progress {
      Progress(ps + pieces, rest)
    }
  }

  /** What `handleLastBytes` decides about the bytes it is given. */
  function LastBytes(s: Bytes): Progress
    requires s != []
  {
    if !RuneStart(s[0]) then
      if |s| == 1 then Progress([Replaced(s[0])], [])
      else LastBytes(s[1..]).Before([Replaced(s[0])])
    else if |s| == 1 then
      if s[0] < 0x80 then Progress([Copied(s)], []) else Progress([], s)
    else if !IsContinuation(s[1]) then
      LastBytes(s[1..]).Before([Replaced(s[0])])
    else if |s| > 2 && !IsContinuation(s[2]) then
      LastBytes(s[2..]).Before([Replaced(s[0]), Replaced(s[1])])
    else
      Progress([], s)
  }

  /**
    What the read loop makes of the unread bytes `s`. `left` is the length of
    the chunk minus the bytes read: the bytes held back before the call are not in it.
   */
  function Scan(s: Bytes, left: int): Progress {
    if s == [] then Progress([], [])
    else if StopsAt(s, left) then LastBytes(s)
    else Scan(s[Width(s)..], left - Width(s)).Before([FirstPiece(s)])
  }

  // The read loop hands over to the handling of the last bytes.
  predicate StopsAt(s: Bytes, left: int)
    requires s != []
  {
    ReadsAsError(s) && left < 4 && RuneStart(s[0])
  }

  /** One call of `ProcessRaw`. */
  function Filter(rest: Bytes, data: Bytes): Progress {
    if data == [] then Progress([], rest)
    else if WellFormed(rest + data) then Progress(Repair(rest + data), [])
    else Scan(rest + data, |data|)
  }

  /** A run of calls on a new filter. */
  function Run(chunks: seq<Bytes>): Progress {
    if chunks == [] then Progress([], [])
    else
      var before := Run(chunks[..|chunks| - 1]);
      Filter(before.rest, chunks[|chunks| - 1]).Before(before.pieces)
  }

  // ----- nothing is lost, duplicated, reordered or malformed

  /** `p` accounts for `s`: its pieces and what it holds back are `s`, in order. */
  ghost predicate Accounts(p: Progress, s: Bytes) {
    && Source(p.pieces) + p.rest == s
    && AllValid(p.pieces)
    && (p.rest != [] ==> RuneStart(p.rest[0]))
  }

  // Prefixing pieces to a progress prefixes their source to what it accounts for.
  lemma AccountsBefore(ps: seq<Piece>, p: Progress, s: Bytes, whole: Bytes)
    requires AllValid(ps) && Accounts(p, s) && whole == Source(ps) + s
    ensures Accounts(p.Before(ps), whole)
  {
    hide Rendered, Source;
    ConcatPieces(ps, p.pieces);
    Assoc(Source(ps), Source(p.pieces), p.rest);
  }

  lemma {:induction false} LastBytesAccounts(s: Bytes)
    requires s != []
    ensures Accounts(LastBytes(s), s)
  {
    SourceOfOne(Replaced(s[0]));
    if |s| == 1 {
      SourceOfOne(Copied(s));
    } else if !RuneStart(s[0]) || !IsContinuation(s[1]) {
      LastBytesAccounts(s[1..]);
      AccountsBefore([Replaced(s[0])], LastBytes(s[1..]), s[1..], s);
    } else if |s| > 2 && !IsContinuation(s[2]) {
      LastBytesAccounts(s[2..]);
      SourceOfTwo(Replaced(s[0]), Replaced(s[1]));
      assert s == [s[0], s[1]] + s[2..];
      AccountsBefore([Replaced(s[0]), Replaced(s[1])], LastBytes(s[2..]), s[2..], s);
    }
  }

  lemma {:induction false} ScanAccounts(s: Bytes, left: int)
    ensures Accounts(Scan(s, left), s)
  {
    hide CharLen, Rendered, LastBytes, StopsAt, FirstPiece, Width;
    if s != [] {
      var width := Width(s);
      if StopsAt(s, left) {
        LastBytesAccounts(s);
      } else {
        ScanAccounts(s[width..], left - width);
        SourceOfOne(FirstPiece(s));
        SplitAt(s, width);
        AccountsBefore([FirstPiece(s)], Scan(s[width..], left - width), s[width..], s);
      }
    }
  }

  lemma FilterAccounts(rest: Bytes, data: Bytes)
    requires rest != [] ==> RuneStart(rest[0])
    ensures Accounts(Filter(rest, data), rest + data)
  {
    if data == [] {
    } else if WellFormed(rest + data) {
      RepairAccounts(rest + data);
    } else {
      ScanAccounts(rest + data, |data|);
    }
  }

  // One more call keeps the account of the input.
  lemma AccountsStep(p: Progress, fed: Bytes, data: Bytes)
    requires Accounts(p, fed)
    ensures Accounts(Filter(p.rest, data).Before(p.pieces), fed + data)
  {
    hide Filter, Rendered, Source, WellFormed;
    FilterAccounts(p.rest, data);
    Assoc(Source(p.pieces), p.rest, data);
    AccountsBefore(p.pieces, Filter(p.rest, data), p.rest + data, fed + data);
  }

  lemma {:induction false} RunAccounts(chunks: seq<Bytes>)
    ensures Accounts(Run(chunks), Concat(chunks))
  {
    if chunks != [] {
      var init := chunks[..|chunks| - 1];
      RunAccounts(init);
      AccountsStep(Run(init), Concat(init), chunks[|chunks| - 1]);
    }
  }

  /**
    Any sequence of calls on any bytes: the input so far is what was consumed,
    then what is held back; the output rewrites what was consumed piece by
    piece, in order, so it is well-formed and of proportionate length.
   */
  lemma RunRewritesInput(chunks: seq<Bytes>)
    ensures Accounts(Run(chunks), Concat(chunks))
    ensures var p := Run(chunks);
            && WellFormed(Rendered(p.pieces))
            && |Source(p.pieces)| <= |Rendered(p.pieces)| <= 3 * |Source(p.pieces)|
  {
    RunAccounts(chunks);
    RenderedWellFormed(Run(chunks).pieces);
  }

  lemma RunSnoc(chunks: seq<Bytes>, data: Bytes)
    ensures Run(chunks + [data]) == Filter(Run(chunks).rest, data).Before(Run(chunks).pieces)
    ensures Concat(chunks + [data]) == Concat(chunks) + data
  {
    assert (chunks + [data])[..|chunks|] == chunks;
  }

  lemma EmptyRun()
    ensures Run([]) == Progress([], [])
  {
  }

  lemma BeforeRest()
    ensures forall p: Progress, ps :: p.Before(ps).rest == p.rest
  {
  }

  lemma NothingRendered()
    ensures Rendered([]) == [] && forall left :: Scan([], left) == Progress([], [])
  {
  }

  lemma RenderedBefore(piece: Piece, p: Progress)
    ensures Rendered(p.Before([piece]).pieces) == piece.Rendered() + Rendered(p.pieces)
  {
    SourceOfOne(piece);
    ConcatPieces([piece], p.pieces);
  }

  // What the read loop holds back reaches at most three bytes beyond those held back before.
  lemma {:induction false} HeldBackGrowth(s: Bytes, left: int)
    ensures |Scan(s, left).rest| <= |s|
    ensures left <= |s| ==> |Scan(s, left).rest| <= |s| - left + 3
  {
    if s != [] {
      var width := Width(s);
      if StopsAt(s, left) {
        LastBytesAccounts(s);
      } else {
        HeldBackGrowth(s[width..], left - width);
      }
    }
  }

  /** One call lengthens the held-back bytes by at most three. */
  lemma FilterHeldBackGrowth(rest: Bytes, data: Bytes)
    ensures |Filter(rest, data).rest| <= |rest| + 3
  {
    HeldBackGrowth(rest + data, |data|);
  }

  // ----- the filter as the program has it

  function AllReplaced(s: Bytes): (ps: seq<Piece>)
    ensures |ps| == |s|
  {
    seq(|s|, i requires 0 <= i < |s| => Replaced(s[i]))
  }

  lemma AllReplacedSnoc(s: Bytes, b: Byte)
    ensures Rendered(AllReplaced(s + [b])) == Rendered(AllReplaced(s)) + PLACEHOLDER
  {
    assert AllReplaced(s + [b]) == AllReplaced(s) + [Replaced(b)];
    ConcatPieces(AllReplaced(s), [Replaced(b)]);
    SourceOfOne(Replaced(b));
  }

  class Utf8StreamFilter {
    // The remainder of the data seen so far, for a character split between two chunks.
    var rest: Bytes

    constructor ()
      ensures rest == []
    {
      rest := [];
    }

    method ProcessRaw(data: Bytes) returns (result: Bytes)
      modifies this
      ensures result == Rendered(Filter(old(rest), data).pieces)
      ensures rest == Filter(old(rest), data).rest
    {
      hide Rendered, Scan, LastBytes, Repair, WellFormed, CharLen, DecodeRune, EncodeRune, ReadsAsError;
      var dataLen := |data|;
      if dataLen == 0 {
        NothingRendered();
        return [];
      }
      var all := data;
      if |rest| > 0 {
        all := rest + data;
        rest := [];
      }
      assert all == old(rest) + data;
      NothingRendered();
      if WellFormed(all) {
        RepairVerbatim(all);
        return all;
      }
      var processedBytes := 0;
      result := [];
      while processedBytes < |all|
        invariant 0 <= processedBytes <= |all| && rest == []
        invariant result + Rendered(Scan(all[processedBytes..], dataLen - processedBytes).pieces)
               == Rendered(Scan(all, dataLen).pieces)
        invariant Scan(all[processedBytes..], dataLen - processedBytes).rest == Scan(all, dataLen).rest
      {
        var unread := all[processedBytes..];
        var (ch, charLen) := DecodeRune(unread);
        ReadStep(unread, dataLen - processedBytes);
        DropTwice(all, processedBytes, charLen);
        Assoc(result, EncodeRune(ch), Rendered(Scan(unread[charLen..], dataLen - processedBytes - charLen).pieces));
        if ch == RUNE_ERROR {
          if dataLen - processedBytes < 4 {
            if RuneStart(all[processedBytes]) {
              var last := HandleLastBytes(unread);
              return result + last;
            } else {
              result := result + EncodeRune(RUNE_ERROR);
            }
          } else {
            result := result + EncodeRune(RUNE_ERROR);
          }
          processedBytes := processedBytes + charLen;
        } else {
          result := result + EncodeRune(ch);
          processedBytes := processedBytes + charLen;
        }
      }
    }

    lemma PlaceholderRune()
      ensures EncodeRune(RUNE_ERROR) == PLACEHOLDER
    {
    }

    // One turn of the read loop: what it reads, and the rune that renders its piece if it goes on.
    lemma ReadStep(s: Bytes, left: int)
      requires s != []
      ensures var (r, width) := DecodeRune(s);
              && width == Width(s)
              && (r == RUNE_ERROR <==> ReadsAsError(s))
              && (StopsAt(s, left) ==> Scan(s, left) == LastBytes(s))
              && (!StopsAt(s, left) ==>
                    && Rendered(Scan(s, left).pieces) == EncodeRune(r) + Rendered(Scan(s[width..], left - width).pieces)
                    && Scan(s, left).rest == Scan(s[width..], left - width).rest)
    {
      hide DecodeRune, CharLen, LastBytes, Rendered, EncodeRune;
      ErrorRune(s);
      PlaceholderRune();
      RenderedBefore(FirstPiece(s), Scan(s[Width(s)..], left - Width(s)));
      if CharLen(s) > 0 {
        EncodeDecode(s);
      }
    }

    method HandleLastBytes(dataRemainder: Bytes) returns (result: Bytes)
      requires dataRemainder != [] && rest == []
      modifies this
      ensures result == Rendered(LastBytes(dataRemainder).pieces)
      ensures rest == LastBytes(dataRemainder).rest
      decreases |dataRemainder|
    {
      var l := |dataRemainder|;
      LastBytesStep(dataRemainder);
      if !RuneStart(dataRemainder[0]) {
        result := EncodeRune(RUNE_ERROR);
        if l == 1 {
          return;
        }
        var more := HandleLastBytes(dataRemainder[1..]);
        return result + more;
      }
      if l == 1 {
        if IsUtf8SingleByteCharacter(dataRemainder[0]) {
          rest := [];
          return dataRemainder;
        }
        rest := dataRemainder;
        return [];
      }
      if l == 2 {
        if IsContinuation(dataRemainder[1]) {
          rest := dataRemainder;
          return [];
        }
        result := EncodeRune(RUNE_ERROR);
        var more := HandleLastBytes(dataRemainder[1..]);
        return result + more;
      }
      if !IsContinuation(dataRemainder[1]) {
        result := EncodeRune(RUNE_ERROR);
        var more := HandleLastBytes(dataRemainder[1..]);
        return result + more;
      }
      if !IsContinuation(dataRemainder[2]) {
        result := EncodeRune(RUNE_ERROR) + EncodeRune(RUNE_ERROR);
        var more := HandleLastBytes(dataRemainder[2..]);
        return result + more;
      }
      rest := dataRemainder;
      return [];
    }

    // How the replaced bytes in front of the recursive call are rendered.
    lemma LastBytesStep(s: Bytes)
      requires s != []
      ensures |s| > 1 ==>
        Rendered(LastBytes(s[1..]).Before([Replaced(s[0])]).pieces)
        == PLACEHOLDER + Rendered(LastBytes(s[1..]).pieces)
      ensures |s| > 2 ==>
        Rendered(LastBytes(s[2..]).Before([Replaced(s[0]), Replaced(s[1])]).pieces)
        == PLACEHOLDER + PLACEHOLDER + Rendered(LastBytes(s[2..]).pieces)
      ensures Rendered([Replaced(s[0])]) == PLACEHOLDER && Rendered([Copied(s)]) == s
    {
      SourceOfOne(Replaced(s[0]));
      SourceOfOne(Copied(s));
      if |s| > 1 {
        ConcatPieces([Replaced(s[0])], LastBytes(s[1..]).pieces);
      }
      if |s| > 2 {
        SourceOfOne(Replaced(s[1]));
        ConcatPieces([Replaced(s[0])], [Replaced(s[1])]);
        ConcatPieces([Replaced(s[0]), Replaced(s[1])], LastBytes(s[2..]).pieces);
      }
    }

    predicate IsUtf8SingleByteCharacter(arg: Byte) {
      arg < 0x80
    }

    /** One placeholder for every byte still held back; the bytes stay held back. */
    method FlushBuffer() returns (remainder: Bytes)
      ensures remainder == Rendered(AllReplaced(rest))
    {
      remainder := [];
      var i := 0;
      while i < |rest|
        invariant 0 <= i <= |rest|
        invariant remainder == Rendered(AllReplaced(rest[..i]))
      {
        assert rest[..i + 1] == rest[..i] + [rest[i]];
        AllReplacedSnoc(rest[..i], rest[i]);
        remainder := remainder + EncodeRune(RUNE_ERROR);
        i := i + 1;
      }
      assert rest[..|rest|] == rest;
    }
  }
}
