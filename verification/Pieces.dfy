/**
  The pieces in which the output filter works: every step copies a character or
  replaces one byte.
 */
module Pieces {
  import opened Seqs
  import opened Utf8

  /** What one step does to the input: copy a character, or replace one byte by the placeholder. */
  datatype Piece = Copied(chars: Bytes) | Replaced(b: Byte) {

    predicate Valid() {
      Copied? ==> chars != [] && CharLen(chars) == |chars|
    }

    function Source(): Bytes {
      if Copied? then chars else [b]
    }

    function Rendered(): Bytes {
      if Copied? then chars else PLACEHOLDER
    }
  }

  predicate AllValid(ps: seq<Piece>) {
    forall i :: 0 <= i < |ps| ==> ps[i].Valid()
  }

  function Source(ps: seq<Piece>): Bytes {
    if ps == [] then [] else ps[0].Source() + Source(ps[1..])
  }

  function Rendered(ps: seq<Piece>): Bytes {
    if ps == [] then [] else ps[0].Rendered() + Rendered(ps[1..])
  }

  lemma UnfoldPieces(ps: seq<Piece>)
    requires ps != []
    ensures Source(ps) == ps[0].Source() + Source(ps[1..])
    ensures Rendered(ps) == ps[0].Rendered() + Rendered(ps[1..])
  {
  }

  lemma {:induction false} ConcatPieces(ps: seq<Piece>, qs: seq<Piece>)
    ensures Source(ps + qs) == Source(ps) + Source(qs)
    ensures Rendered(ps + qs) == Rendered(ps) + Rendered(qs)
  {
    if ps == [] {
      assert ps + qs == qs;
    } else {
      hide *;
      ConcatPieces(ps[1..], qs);
      assert (ps + qs)[0] == ps[0] && (ps + qs)[1..] == ps[1..] + qs;
      UnfoldPieces(ps);
      UnfoldPieces(ps + qs);
      Assoc(ps[0].Source(), Source(ps[1..]), Source(qs));
      Assoc(ps[0].Rendered(), Rendered(ps[1..]), Rendered(qs));
    }
  }

  /** Whatever is rendered piece by piece is well-formed, and at most three times as long as its source. */
  lemma {:induction false} RenderedWellFormed(ps: seq<Piece>)
    requires AllValid(ps)
    ensures WellFormed(Rendered(ps))
    ensures |Source(ps)| <= |Rendered(ps)| <= 3 * |Source(ps)|
  {
    if ps != [] {
      RenderedWellFormed(ps[1..]);
      OneChar(ps[0].Rendered());
      WellFormedConcat(ps[0].Rendered(), Rendered(ps[1..]));
    }
  }

  /** The ideal repair: copy every character and replace every byte at which none starts. */
  function Repair(s: Bytes): (ps: seq<Piece>)
    ensures AllValid(ps)
  {
    if s == [] then []
    else if CharLen(s) > 0 then
      FirstChar(s);
      [Copied(s[..CharLen(s)])] + Repair(s[CharLen(s)..])
    else [Replaced(s[0])] + Repair(s[1..])
  }

  lemma SourceOfOne(p: Piece)
    ensures Source([p]) == p.Source() && Rendered([p]) == p.Rendered()
  {
    assert [p][1..] == [];
  }

  lemma SourceOfTwo(p: Piece, q: Piece)
    ensures Source([p, q]) == p.Source() + q.Source()
  {
    assert [p, q] == [p] + [q];
    ConcatPieces([p], [q]);
    SourceOfOne(p);
    SourceOfOne(q);
  }

  // The piece with which the read loop leaves the bytes at its front.
  function FirstPiece(s: Bytes): (p: Piece)
    requires s != []
    ensures p.Valid() && p.Source() == s[..Width(s)]
  {
    if CharLen(s) > 0 then FirstChar(s); Copied(s[..CharLen(s)]) else Replaced(s[0])
  }

  lemma RepairNothing()
    ensures Repair([]) == []
  {
  }

  lemma RepairNext(s: Bytes)
    requires s != [] || Repair(s) != []
    ensures s != [] && Repair(s) == [FirstPiece(s)] + Repair(s[Width(s)..])
  {
  }

  lemma {:induction false} RepairAccounts(s: Bytes)
    ensures Source(Repair(s)) == s
  {
    hide CharLen, Repair;
    if s == [] {
      RepairNothing();
    } else {
      RepairNext(s);
      RepairAccounts(s[Width(s)..]);
      SplitAt(s, Width(s));
    }
  }

  lemma {:induction false} RepairVerbatim(s: Bytes)
    requires WellFormed(s)
    ensures Rendered(Repair(s)) == s
  {
    if s != [] {
      RepairVerbatim(s[CharLen(s)..]);
    }
  }
}
