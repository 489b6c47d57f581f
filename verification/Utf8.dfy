/**
  UTF-8 as section 4 of RFC 3629 defines it, with the operations of Go's
  `utf8` package that the terminal output path uses.
 */
module Utf8 {
  import opened Seqs

  type Byte = b: int | 0 <= b < 256

  type Bytes = seq<Byte>

  // utf8.RuneError, also what a failed decode yields.
  const RUNE_ERROR := 0xFFFD

  // U+FFFD in UTF-8, the placeholder character.
  const PLACEHOLDER: Bytes := [0xEF, 0xBF, 0xBD]

  // UTF8-tail of the grammar.
  predicate IsContinuation(b: Byte) {
    0x80 <= b <= 0xBF
  }

  // utf8.RuneStart
  predicate RuneStart(b: Byte) {
    !IsContinuation(b)
  }

  // A Unicode scalar value: a code point that is not a surrogate.
  predicate IsScalar(r: int) {
    0 <= r < 0xD800 || 0xE000 <= r <= 0x10FFFF
  }

  /** The number of bytes that the first byte of a sequence announces; 0 for a byte that starts none. */
  function Announced(b: Byte): (n: nat)
  {
    if b < 0x80 then 1
    else if 0xC2 <= b <= 0xDF then 2
    else if 0xE0 <= b <= 0xEF then 3
    else if 0xF0 <= b <= 0xF4 then 4
    else 0
  }

  // The second bytes the grammar admits after a given first byte.
  predicate SecondFits(b0: Byte, b1: Byte) {
    if b0 == 0xE0 then 0xA0 <= b1 <= 0xBF
    else if b0 == 0xED then 0x80 <= b1 <= 0x9F
    else if b0 == 0xF0 then 0x90 <= b1 <= 0xBF
    else if b0 == 0xF4 then 0x80 <= b1 <= 0x8F
    else IsContinuation(b1)
  }

  /** `s` begins like one UTF8-char: every byte it has, up to the announced length, fits the grammar. */
  predicate BeginsChar(s: Bytes) {
    && |s| > 0
    && Announced(s[0]) > 0
    && (|s| > 1 && Announced(s[0]) > 1 ==> SecondFits(s[0], s[1]))
    && (|s| > 2 && Announced(s[0]) > 2 ==> IsContinuation(s[2]))
    && (|s| > 3 && Announced(s[0]) > 3 ==> IsContinuation(s[3]))
  }

  /** The length of the UTF8-char at the front of `s`, or 0 if there is none. */
  function CharLen(s: Bytes): (n: nat)
    ensures n <= |s| && n <= 4
  {
    if BeginsChar(s) && |s| >= Announced(s[0]) then Announced(s[0]) else 0
  }

  /** A proper, non-empty beginning of a UTF8-char, its remaining bytes still missing. */
  predicate Unfinished(s: Bytes) {
    BeginsChar(s) && |s| < Announced(s[0])
  }

  /** utf8.Valid: UTF8-octets, a sequence of UTF8-chars. */
  predicate WellFormed(s: Bytes) {
    s == [] || (CharLen(s) > 0 && WellFormed(s[CharLen(s)..]))
  }

  // The bits of a byte that its marker leaves for the character number.
  function Payload(b: int, marker: int): int {
    b - marker
  }

  /** utf8.DecodeRune: the rune at the front and its width; an error has width 1, an end of input width 0. */
  function DecodeRune(s: Bytes): (r: (int, nat))
    ensures r.1 <= |s|
    ensures s != [] ==> r.1 > 0
    ensures IsScalar(r.0)
    ensures CharLen(s) > 0 ==> r.1 == CharLen(s)
    ensures CharLen(s) == 0 ==> r.0 == RUNE_ERROR && r.1 <= 1
  {
    var n := CharLen(s);
    if n == 1 then (s[0], 1)
    else if n == 2 then (Payload(s[0], 0xC0) * 64 + Payload(s[1], 0x80), 2)
    else if n == 3 then
      (Payload(s[0], 0xE0) * 4096 + Payload(s[1], 0x80) * 64 + Payload(s[2], 0x80), 3)
    else if n == 4 then
      (Payload(s[0], 0xF0) * 262144 + Payload(s[1], 0x80) * 4096 + Payload(s[2], 0x80) * 64 + Payload(s[3], 0x80), 4)
    else (RUNE_ERROR, if s == [] then 0 else 1)
  }

  /** utf8.EncodeRune, as `bytes.Buffer.WriteRune` uses it: what is no scalar value becomes the placeholder. */
  function EncodeRune(r: int): (s: Bytes)
    ensures 1 <= |s| <= 4
  {
    if !IsScalar(r) then PLACEHOLDER
    else if r < 0x80 then [r]
    else if r < 0x800 then [0xC0 + r / 64, 0x80 + r % 64]
    else if r < 0x10000 then [0xE0 + r / 4096, 0x80 + r / 64 % 64, 0x80 + r % 64]
    else [0xF0 + r / 262144, 0x80 + r / 4096 % 64, 0x80 + r / 64 % 64, 0x80 + r % 64]
  }

  // Base-64 digits come back from the number they make up.
  lemma Digits(hi: int, lo: int)
    requires 0 <= lo < 64
    ensures (hi * 64 + lo) / 64 == hi && (hi * 64 + lo) % 64 == lo
  {
  }

  lemma EncodeDecodeThree(s: Bytes)
    requires CharLen(s) == 3
    ensures EncodeRune(DecodeRune(s).0) == s[..3]
  {
    var a, b, c := Payload(s[0], 0xE0), Payload(s[1], 0x80), Payload(s[2], 0x80);
    Digits(a * 64 + b, c);
    Digits(a, b);
    assert DecodeRune(s).0 == (a * 64 + b) * 64 + c;
  }

  lemma EncodeDecodeFour(s: Bytes)
    requires CharLen(s) == 4
    ensures EncodeRune(DecodeRune(s).0) == s[..4]
  {
    var a, b, c, d := Payload(s[0], 0xF0), Payload(s[1], 0x80), Payload(s[2], 0x80), Payload(s[3], 0x80);
    var r := DecodeRune(s).0;
    Digits(a * 4096 + b * 64 + c, d);
    Digits(a * 64 + b, c);
    Digits(a, b);
    assert r == (a * 4096 + b * 64 + c) * 64 + d;
    assert r / 4096 == a * 64 + b && r / 262144 == a;
  }

  /** Re-encoding a decoded character gives its bytes back: writing what was read copies the input. */
  lemma EncodeDecode(s: Bytes)
    requires CharLen(s) > 0
    ensures EncodeRune(DecodeRune(s).0) == s[..CharLen(s)]
  {
    if CharLen(s) == 3 {
      EncodeDecodeThree(s);
    } else if CharLen(s) == 4 {
      EncodeDecodeFour(s);
    } else if CharLen(s) == 2 {
      Digits(Payload(s[0], 0xC0), Payload(s[1], 0x80));
    }
  }

  /** Decoding finds every encoded scalar value again, whatever follows it. */
  lemma DecodeEncode(r: int, t: Bytes)
    requires IsScalar(r)
    ensures DecodeRune(EncodeRune(r) + t) == (r, |EncodeRune(r)|)
    ensures CharLen(EncodeRune(r) + t) == |EncodeRune(r)|
  {
    var s := EncodeRune(r) + t;
    if r < 0x80 {
    } else if r < 0x800 {
    } else if r < 0x10000 {
      assert r / 4096 == (r / 64) / 64;
    } else {
      assert r / 4096 == (r / 64) / 64 && r / 262144 == (r / 4096) / 64;
    }
  }

  /** The number of bytes that one read takes from a non-empty input. */
  function Width(s: Bytes): (n: nat)
    requires s != []
    ensures 0 < n <= |s| && n <= 4
  {
    if CharLen(s) > 0 then CharLen(s) else 1
  }

  // No character starts here, or the one that does is U+FFFD: a read cannot tell these apart.
  predicate ReadsAsError(s: Bytes) {
    CharLen(s) == 0 || PLACEHOLDER <= s
  }

  /** The rune U+FFFD comes from exactly two inputs: a literal placeholder, or bytes that start no character. */
  lemma ErrorRune(s: Bytes)
    requires s != []
    ensures DecodeRune(s).0 == RUNE_ERROR <==> ReadsAsError(s)
    ensures DecodeRune(s).1 == Width(s)
  {
    if CharLen(s) > 0 && DecodeRune(s).0 == RUNE_ERROR {
      EncodeDecode(s);
    }
  }

  // ----- well-formed streams

  lemma CharLenStable(s: Bytes, t: Bytes)
    requires CharLen(s) > 0
    ensures CharLen(s + t) == CharLen(s) && (s + t)[CharLen(s)..] == s[CharLen(s)..] + t
  {
  }

  lemma {:induction false} WellFormedConcat(s: Bytes, t: Bytes)
    requires WellFormed(s)
    ensures WellFormed(s + t) <==> WellFormed(t)
    decreases |s|
  {
    if s == [] {
      assert s + t == t;
    } else {
      CharLenStable(s, t);
      WellFormedConcat(s[CharLen(s)..], t);
    }
  }

  lemma OneChar(s: Bytes)
    requires s != [] && CharLen(s) == |s|
    ensures WellFormed(s)
  {
    assert s[|s|..] == [];
  }

  // The character at the front, taken alone, is well-formed.
  lemma FirstChar(s: Bytes)
    requires CharLen(s) > 0
    ensures CharLen(s[..CharLen(s)]) == CharLen(s)
    ensures WellFormed(s[..CharLen(s)])
  {
    OneChar(s[..CharLen(s)]);
  }

  /** `s` can still become well-formed UTF-8: it is what has arrived of some well-formed stream. */
  ghost predicate Extendable(s: Bytes) {
    exists t: Bytes :: WellFormed(s + t)
  }

  /** The bytes after the last complete character of the longest well-formed beginning. */
  function Tail(s: Bytes): (t: Bytes)
    ensures |t| <= |s|
    ensures CharLen(t) == 0
  {
    if CharLen(s) == 0 then s else Tail(s[CharLen(s)..])
  }

  /** The complete characters before the tail. */
  function Body(s: Bytes): Bytes {
    if CharLen(s) == 0 then [] else s[..CharLen(s)] + Body(s[CharLen(s)..])
  }

  lemma {:induction false} BodyAndTail(s: Bytes)
    ensures Body(s) + Tail(s) == s
  {
    var n := CharLen(s);
    if n > 0 {
      BodyAndTail(s[n..]);
      Assoc(s[..n], Body(s[n..]), Tail(s[n..]));
      SplitAt(s, n);
    }
  }

  lemma {:induction false} BodyWellFormed(s: Bytes)
    ensures WellFormed(Body(s))
  {
    hide CharLen, Tail;
    var n := CharLen(s);
    if n > 0 {
      BodyWellFormed(s[n..]);
      FirstChar(s);
      WellFormedConcat(s[..n], Body(s[n..]));
    }
  }

  /** A body followed by bytes that start no character: the only way to take a stream apart. */
  lemma {:induction false} TailOfConcat(s: Bytes, t: Bytes)
    requires WellFormed(s)
    ensures Tail(s + t) == Tail(t)
    decreases |s|
  {
    if s == [] {
      assert s + t == t;
    } else {
      CharLenStable(s, t);
      TailOfConcat(s[CharLen(s)..], t);
    }
  }

  // An unfinished character can be finished.
  function Completion(s: Bytes): (t: Bytes)
    requires Unfinished(s)
    ensures CharLen(s + t) == |s + t|
  {
    var second: Byte := if s[0] == 0xE0 then 0xA0 else if s[0] == 0xF0 then 0x90 else 0x80;
    var full: Bytes := if |s| > 1 then [0x80, 0x80, 0x80] else [second, 0x80, 0x80];
    full[..Announced(s[0]) - |s|]
  }

  /** A stream can become well-formed exactly if nothing or one unfinished character follows its complete ones. */
  lemma ExtendableIffTail(s: Bytes)
    ensures Extendable(s) <==> Tail(s) == [] || Unfinished(Tail(s))
  {
    if Extendable(s) {
      var u :| WellFormed(s + u);
      TailExtended(s, u);
      if Tail(s) != [] && !Unfinished(Tail(s)) {
        NoCharNoContinuation(Tail(s), u);
      }
    }
    if Tail(s) == [] || Unfinished(Tail(s)) {
      var c := if Tail(s) == [] then [] else Completion(Tail(s));
      TailExtended(s, c);
      if Tail(s) != [] {
        OneChar(Tail(s) + c);
      }
      assert WellFormed(s + c);
    }
  }

  // Only the tail decides what an extension makes of a stream.
  lemma TailExtended(s: Bytes, u: Bytes)
    ensures WellFormed(s + u) <==> WellFormed(Tail(s) + u)
  {
    hide *;
    BodyWellFormed(s);
    BodyAndTail(s);
    WellFormedConcat(Body(s), Tail(s) + u);
    assert s + u == Body(s) + (Tail(s) + u);
  }

  // Bytes that neither are nor begin a character stay so when more arrives.
  lemma NoCharNoContinuation(t: Bytes, u: Bytes)
    requires t != [] && CharLen(t) == 0 && !Unfinished(t)
    ensures CharLen(t + u) == 0
  {
    var tu := t + u;
    assert forall i :: 0 <= i < |t| ==> tu[i] == t[i];
  }

  /** Whatever has arrived of a well-formed stream is extendable, at every cut. */
  lemma PrefixExtendable(s: Bytes, k: nat)
    requires k <= |s| && Extendable(s)
    ensures Extendable(s[..k])
  {
    var t :| WellFormed(s + t);
    assert s[..k] + (s[k..] + t) == s + t;
  }

  /** A stream is well-formed exactly if nothing is left over after its complete characters. */
  lemma {:induction false} WellFormedIffNoTail(s: Bytes)
    ensures WellFormed(s) <==> Tail(s) == []
  {
    if CharLen(s) > 0 {
      WellFormedIffNoTail(s[CharLen(s)..]);
    }
  }

  // ----- cutting after a line break

  /** A newline ends a character, so what follows one in a well-formed stream is well-formed by itself. */
  lemma {:induction false} WellFormedAfterNewline(a: Bytes, b: Bytes)
    requires WellFormed(a + b) && a != [] && a[|a| - 1] == 0x0A
    ensures WellFormed(a) && WellFormed(b)
    decreases |a|
  {
    var n := CharLen(a + b);
    assert (a + b)[|a| - 1] == 0x0A;
    if n == |a| {
      assert (a + b)[n..] == b;
      assert CharLen(a) == n;
      OneChar(a);
    } else {
      assert (a + b)[n..] == a[n..] + b;
      WellFormedAfterNewline(a[n..], b);
      assert CharLen(a) == n;
    }
  }

  // ----- occurrences of U+FFFD

  /** A literal U+FFFD occurs among the complete characters at the front of `s`. */
  predicate HasPlaceholder(s: Bytes) {
    CharLen(s) > 0 && (PLACEHOLDER <= s || HasPlaceholder(s[CharLen(s)..]))
  }
}
