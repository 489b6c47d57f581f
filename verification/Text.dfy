/** The string operations of Go's standard library that the watcher's parsers use. */
module Text {
  import opened Seqs
  import opened Wrappers

  // unicode.IsSpace
  predicate IsSpace(c: char) {
    c in "\t\n \r" || c == '\U{0B}' || c == '\U{0C}' || c == '\U{85}' || c == '\U{A0}' || c == '\U{1680}'
    || '\U{2000}' <= c <= '\U{200A}' || c == '\U{2028}' || c == '\U{2029}' || c == '\U{202F}'
    || c == '\U{205F}' || c == '\U{3000}'
  }

  function TrimLeft(s: string): string {
    if s != [] && IsSpace(s[0]) then TrimLeft(s[1..]) else s
  }

  function TrimRight(s: string): string {
    if s != [] && IsSpace(s[|s| - 1]) then TrimRight(s[..|s| - 1]) else s
  }

  // strings.TrimSpace
  function TrimSpace(s: string): string {
    TrimRight(TrimLeft(s))
  }

  lemma TrimNothing(s: string)
    requires forall c :: c in s ==> !IsSpace(c)
    ensures TrimSpace(s) == s
  {
  }

  predicate Spaces(s: string) {
    forall c :: c in s ==> IsSpace(c)
  }

  // No space at either end.
  predicate Tight(s: string) {
    s != [] ==> !IsSpace(s[0]) && !IsSpace(s[|s| - 1])
  }

  lemma {:induction false} TrimLeftOver(a: string, s: string)
    requires Spaces(a)
    ensures TrimLeft(a + s) == TrimLeft(s)
  {
    if a == [] {
      assert a + s == s;
    } else {
      assert (a + s)[0] == a[0] && (a + s)[1..] == a[1..] + s;
      TrimLeftOver(a[1..], s);
    }
  }

  lemma {:induction false} TrimRightOver(s: string, b: string)
    requires Spaces(b)
    ensures TrimRight(s + b) == TrimRight(s)
  {
    if b == [] {
      assert s + b == s;
    } else {
      var init := b[..|b| - 1];
      assert (s + b)[..|s + b| - 1] == s + init && (s + b)[|s + b| - 1] == b[|b| - 1];
      TrimRightOver(s, init);
    }
  }

  lemma {:induction false} TrimLeftParts(s: string) returns (a: string)
    ensures s == a + TrimLeft(s) && Spaces(a)
    ensures TrimLeft(s) != [] ==> !IsSpace(TrimLeft(s)[0])
  {
    if s != [] && IsSpace(s[0]) {
      a := TrimLeftParts(s[1..]);
      a := [s[0]] + a;
    } else {
      a := [];
    }
  }

  lemma {:induction false} TrimRightParts(s: string) returns (b: string)
    ensures s == TrimRight(s) + b && Spaces(b)
    ensures TrimRight(s) != [] ==> !IsSpace(TrimRight(s)[|TrimRight(s)| - 1]) && TrimRight(s)[0] == s[0]
  {
    if s != [] && IsSpace(s[|s| - 1]) {
      b := TrimRightParts(s[..|s| - 1]);
      b := b + [s[|s| - 1]];
    } else {
      b := [];
    }
  }

  /** Trimming takes off all spaces at both ends, and nothing else. */
  lemma TrimParts(s: string) returns (a: string, b: string)
    ensures s == a + TrimSpace(s) + b && Spaces(a) && Spaces(b) && Tight(TrimSpace(s))
  {
    a := TrimLeftParts(s);
    b := TrimRightParts(TrimLeft(s));
  }

  /** A text without spaces at its ends comes back from any spaces around it. */
  lemma TrimIs(a: string, s: string, b: string)
    requires Spaces(a) && Spaces(b) && Tight(s)
    ensures TrimSpace(a + s + b) == s
  {
    assert a + s + b == a + (s + b);
    TrimLeftOver(a, s + b);
    if s == [] {
      TrimLeftOver(b, []);
      assert s + b == b + [] && TrimLeft([]) == [];
    } else {
      assert TrimLeft(s + b) == s + b;
      TrimRightOver(s, b);
    }
  }

  /**
    unicode.ToLower on the letters whose lower case is ASCII: the Latin capitals,
    the dotted capital I and the Kelvin sign. Other letters keep clear of ASCII.
   */
  function LowerChar(c: char): char {
    if 'A' <= c <= 'Z' then c - 'A' + 'a'
    else if c == '\U{130}' then 'i'
    else if c == '\U{212A}' then 'k'
    else c
  }

  // strings.ToLower
  function Lower(s: string): (t: string)
    ensures |t| == |s|
  {
    seq(|s|, i requires 0 <= i < |s| => LowerChar(s[i]))
  }

  lemma LowerNothing(s: string)
    requires forall c :: c in s ==> LowerChar(c) == c
    ensures Lower(s) == s
  {
  }

  // ----- strings.Split and strings.Join with a one-character separator

  function Split(s: string, sep: char): (parts: seq<string>)
    ensures parts != []
  {
    if s == [] then [[]]
    else
      var rest := Split(s[1..], sep);
      if s[0] == sep then [[]] + rest else [[s[0]] + rest[0]] + rest[1..]
  }

  function Join(parts: seq<string>, sep: string): string {
    if parts == [] then []
    else if |parts| == 1 then parts[0]
    else parts[0] + sep + Join(parts[1..], sep)
  }

  lemma {:induction false} SplitOne(s: string, sep: char)
    requires sep !in s
    ensures Split(s, sep) == [s]
  {
    if s != [] {
      SplitOne(s[1..], sep);
      assert [s[0]] + s[1..] == s;
    }
  }

  lemma {:induction false} SplitFront(s: string, sep: char, t: string)
    requires sep !in s
    ensures Split(s + [sep] + t, sep) == [s] + Split(t, sep)
  {
    var whole := s + [sep] + t;
    if s == [] {
      assert whole[0] == sep && whole[1..] == t;
    } else {
      SplitFront(s[1..], sep, t);
      assert whole[0] == s[0] && whole[1..] == s[1..] + [sep] + t;
      assert [s[0]] + s[1..] == s;
    }
  }

  lemma JoinStep(parts: seq<string>, sep: string)
    requires parts != []
    ensures Join(parts, sep) == if |parts| == 1 then parts[0] else parts[0] + sep + Join(parts[1..], sep)
    ensures parts[0] in parts && forall p :: p in parts[1..] ==> p in parts
    ensures [parts[0]] + parts[1..] == parts
  {
  }

  /** Splitting inverts joining when no part has the separator in it. */
  lemma {:induction false} SplitJoin(parts: seq<string>, sep: char)
    requires parts != [] && forall p :: p in parts ==> sep !in p
    ensures Split(Join(parts, [sep]), sep) == parts
  {
    hide *;
    JoinStep(parts, [sep]);
    if |parts| == 1 {
      SplitOne(parts[0], sep);
      assert [parts[0]] == parts;
    } else {
      SplitJoin(parts[1..], sep);
      SplitFront(parts[0], sep, Join(parts[1..], [sep]));
    }
  }

  /** And joining inverts splitting; no part has the separator in it. */
  lemma {:induction false} JoinSplit(s: string, sep: char)
    ensures Join(Split(s, sep), [sep]) == s
    ensures forall p :: p in Split(s, sep) ==> sep !in p
  {
    if s != [] {
      var rest := Split(s[1..], sep);
      JoinSplit(s[1..], sep);
      if s[0] != sep {
        assert Split(s, sep) == [[s[0]] + rest[0]] + rest[1..];
        assert forall p :: p in rest[1..] ==> p in rest;
        assert rest[0] in rest;
        assert ([[s[0]] + rest[0]] + rest[1..])[1..] == rest[1..];
        if |rest| > 1 {
          Assoc([s[0]], rest[0], [sep]);
          Assoc([s[0]], rest[0] + [sep], Join(rest[1..], [sep]));
        }
      } else {
        assert ([[]] + rest)[1..] == rest;
      }
    }
  }

  // ----- strings.Fields

  // The part before the first space, and what is left from there.
  function Word(s: string): (w: string)
    ensures |w| <= |s| && w == s[..|w|]
    ensures forall c :: c in w ==> !IsSpace(c)
    ensures |w| < |s| ==> IsSpace(s[|w|])
  {
    if s == [] || IsSpace(s[0]) then [] else [s[0]] + Word(s[1..])
  }

  function Fields(s: string): seq<string>
    decreases |s|
  {
    if s == [] then []
    else if IsSpace(s[0]) then Fields(s[1..])
    else [Word(s)] + Fields(s[|Word(s)|..])
  }

  predicate IsWord(w: string) {
    w != [] && forall c :: c in w ==> !IsSpace(c)
  }

  lemma WordFront(w: string, t: string)
    requires IsWord(w) && (t == [] || IsSpace(t[0]))
    ensures Word(w + t) == w
  {
    var s, v := w + t, Word(w + t);
    assert forall j :: 0 <= j < |w| ==> s[j] == w[j] && w[j] in w;
    assert forall j :: 0 <= j < |v| ==> s[j] == v[j] && v[j] in v;
    assert t != [] ==> s[|w|] == t[0];
  }

  lemma FieldsFront(w: string, t: string)
    requires IsWord(w) && (t == [] || IsSpace(t[0]))
    ensures Fields(w + t) == [w] + Fields(t)
  {
    WordFront(w, t);
    assert w[0] in w;
    DropFront(w, t);
  }

  /** Fields finds again words that were joined by blanks, whatever blank space ends the line. */
  lemma {:induction false} FieldsJoin(ws: seq<string>, end: string)
    requires forall w :: w in ws ==> IsWord(w)
    requires forall c :: c in end ==> IsSpace(c)
    ensures Fields(Join(ws, " ") + end) == ws
  {
    if ws == [] {
      FieldsNone(end);
      assert [] + end == end;
    } else {
      hide *;
      JoinStep(ws, " ");
      FieldsNone(end);
      if |ws| == 1 {
        FieldsFront(ws[0], end);
      } else {
        var rest := Join(ws[1..], " ");
        FieldsJoin(ws[1..], end);
        FieldsBlank(rest + end);
        FieldsFront(ws[0], " " + (rest + end));
        Assoc(" ", rest, end);
        Assoc(ws[0], " ", rest);
        Assoc(ws[0], " " + rest, end);
      }
    }
  }

  lemma FieldsBlank(s: string)
    ensures Fields(" " + s) == Fields(s) && IsSpace((" " + s)[0])
  {
    assert (" " + s)[1..] == s;
  }

  lemma {:induction false} FieldsNone(s: string)
    requires forall c :: c in s ==> IsSpace(c)
    ensures Fields(s) == []
  {
    if s != [] {
      FieldsNone(s[1..]);
    }
  }

  // ----- strings.LastIndex of one character

  function LastIndex(s: string, c: char): (i: int)
    ensures -1 <= i < |s|
    ensures i >= 0 ==> s[i] == c
    ensures forall j :: i < j < |s| ==> s[j] != c
  {
    if s == [] then -1
    else if s[|s| - 1] == c then |s| - 1
    else LastIndex(s[..|s| - 1], c)
  }

  // ----- decimal numbers

  predicate IsDigit(c: char) {
    '0' <= c <= '9'
  }

  function DigitOf(c: char): int
    requires IsDigit(c)
  {
    c as int - '0' as int
  }

  function RenderNat(n: nat): (s: string)
    ensures s != [] && forall c :: c in s ==> IsDigit(c)
  {
    if n < 10 then ["0123456789"[n]] else RenderNat(n / 10) + ["0123456789"[n % 10]]
  }

  /** %d of a number. */
  function Render(n: int): (s: string)
    ensures s != []
  {
    if n < 0 then "-" + RenderNat(-n) else RenderNat(n)
  }

  // The value of a string of digits.
  function Value(s: string): nat
    requires forall c :: c in s ==> IsDigit(c)
  {
    if s == [] then 0 else 10 * Value(s[..|s| - 1]) + DigitOf(s[|s| - 1])
  }

  lemma {:induction false} ValueRender(n: nat)
    ensures Value(RenderNat(n)) == n
  {
    if n >= 10 {
      ValueRender(n / 10);
      assert RenderNat(n)[..|RenderNat(n)| - 1] == RenderNat(n / 10);
    } else {
      assert RenderNat(n)[..0] == [];
    }
  }

  // The digits at the front.
  function Digits(s: string): (d: string)
    ensures |d| <= |s| && d == s[..|d|]
    ensures forall c :: c in d ==> IsDigit(c)
  {
    if s == [] || !IsDigit(s[0]) then [] else [s[0]] + Digits(s[1..])
  }

  lemma {:induction false} DigitsAll(s: string)
    requires forall c :: c in s ==> IsDigit(c)
    ensures Digits(s) == s
  {
    if s != [] {
      DigitsAll(s[1..]);
    }
  }

  const INT64_MIN := -0x8000_0000_0000_0000
  const INT64_MAX := 0x7FFF_FFFF_FFFF_FFFF

  predicate IsInt64(n: int) {
    INT64_MIN <= n <= INT64_MAX
  }

  /**
    fmt.Sscanf with "%d" into a signed 64-bit number, on input without leading
    space: an optional sign, then the digits at the front; what follows is left unread.
   */
  function ScanInt(s: string): Option<int> {
    var signed := s != [] && (s[0] == '-' || s[0] == '+');
    var digits := Digits(if signed then s[1..] else s);
    if digits == [] then None
    else
      var m: int := Value(digits);
      var n := if signed && s[0] == '-' then -m else m;
      if IsInt64(n) then Some(n) else None
  }

  lemma {:induction false} DigitsFront(d: string, t: string)
    requires (forall c :: c in d ==> IsDigit(c)) && (t == [] || !IsDigit(t[0]))
    ensures Digits(d + t) == d
  {
    if d == [] {
      assert d + t == t;
    } else {
      assert (d + t)[0] == d[0] && d[0] in d && (d + t)[1..] == d[1..] + t;
      DigitsFront(d[1..], t);
    }
  }

  lemma ScanUnsigned(m: nat, t: string)
    requires t == [] || !IsDigit(t[0])
    ensures ScanInt(RenderNat(m) + t) == if IsInt64(m) then Some(m) else None
  {
    hide RenderNat, Value, Digits;
    ValueRender(m);
    DigitsFront(RenderNat(m), t);
    assert RenderNat(m)[0] in RenderNat(m) && (RenderNat(m) + t)[0] == RenderNat(m)[0];
  }

  lemma ScanSigned(m: int, t: string)
    requires m >= 0
    requires t == [] || !IsDigit(t[0])
    ensures ScanInt("-" + RenderNat(m) + t) == if IsInt64(-m) then Some(-m) else None
    ensures ScanInt("+" + RenderNat(m) + t) == if IsInt64(m) then Some(m) else None
  {
    hide RenderNat, Value, Digits;
    ValueRender(m);
    DigitsFront(RenderNat(m), t);
    assert ("-" + RenderNat(m) + t)[1..] == RenderNat(m) + t;
    assert ("+" + RenderNat(m) + t)[1..] == RenderNat(m) + t;
  }

  /**
    Scanning a rendered number gives it back if it is a 64-bit one, and fails if
    not, whatever other text follows; a plus sign in front does not matter.
   */
  lemma ScanRender(n: int, t: string)
    requires t == [] || !IsDigit(t[0])
    ensures ScanInt(Render(n) + t) ==
            if -0x8000_0000_0000_0000 <= n <= 0x7FFF_FFFF_FFFF_FFFF then Some(n) else None
    ensures n >= 0 ==> ScanInt("+" + Render(n) + t) == ScanInt(Render(n) + t)
  {
    hide ScanInt, RenderNat;
    if n < 0 {
      ScanSigned(-n, t);
    } else {
      ScanUnsigned(n, t);
      ScanSigned(n, t);
    }
  }

  /** Without a digit in front, or behind one sign, there is no number. */
  lemma ScanNothing(s: string)
    requires s == [] || !IsDigit(s[0])
    requires s != [] && (s[0] == '-' || s[0] == '+') ==> |s| == 1 || !IsDigit(s[1])
    ensures ScanInt(s) == None
  {
  }

  lemma RenderIsWord(n: int)
    ensures IsWord(Render(n)) && ')' !in Render(n)
  {
  }
}
