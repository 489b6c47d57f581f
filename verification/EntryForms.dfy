/** How an entry of the admin's list can be written: every spelling of it, and no other text, selects what it says. */
module EntryForms {
  import opened Seqs
  import opened Wrappers
  import opened Text
  import opened ActivitySources

  // A lower-case name of a source.
  predicate NameLike(n: string) {
    n != "" && forall c :: c in n ==> NameLikeChar(c)
  }

  predicate NameLikeChar(c: char) {
    || 'a' <= c <= 'z' || '0' <= c <= '9' || c == '.' || c == '_' || c == '/' || c == '@' || c == '#' || c == '$'
    || c == '&' || c == '-'
  }

  /** The same letter in either case; two letters outside ASCII have lower cases in it. */
  predicate CaseOf(c: char, l: char) {
    || (c == l && !('A' <= c <= 'Z'))
    || ('A' <= c <= 'Z' && l == c - 'A' + 'a')
    || (c == '\U{130}' && l == 'i')
    || (c == '\U{212A}' && l == 'k')
  }

  /** `w` is `n`, in any case. */
  predicate AnyCase(w: string, n: string) {
    |w| == |n| && forall i :: 0 <= i < |n| ==> CaseOf(w[i], n[i])
  }

  /** `w` with any spaces around it. */
  ghost predicate Padded(s: string, w: string) {
    exists p, q {:trigger p + w + q} :: s == p + w + q && Spaces(p) && Spaces(q)
  }

  ghost predicate Spells(s: string, n: string) {
    exists w :: Padded(s, w) && AnyCase(w, n)
  }

  /** What may stand behind the colon. */
  ghost predicate FlagSays(s: string, on: bool) {
    if on then Spaces(s) || Spells(s, "enabled") || Spells(s, "true") else Spells(s, "disabled") || Spells(s, "false")
  }

  /** A name, or a name, one colon and a flag; without a flag it is on. */
  ghost predicate EntryFor(token: string, n: string, on: bool) {
    || (on && Spells(token, n))
    || exists left, right {:trigger left + ":" + right} ::
         token == left + ":" + right && Spells(left, n) && ':' !in right && FlagSays(right, on)
  }

  lemma LowerIs(w: string, n: string)
    requires NameLike(n)
    ensures Lower(w) == n <==> AnyCase(w, n)
  {
    assert forall i :: 0 <= i < |n| ==> n[i] in n;
    if Lower(w) == n {
      forall i | 0 <= i < |n| ensures CaseOf(w[i], n[i]) {
        assert LowerChar(w[i]) == n[i];
      }
    }
    if AnyCase(w, n) {
      forall i | 0 <= i < |n| ensures LowerChar(w[i]) == n[i] {
        assert CaseOf(w[i], n[i]);
      }
    }
  }

  // A name in any case has no spaces and no colons.
  lemma CaseTight(w: string, n: string)
    requires NameLike(n) && AnyCase(w, n)
    ensures w != [] && Tight(w) && ':' !in w
  {
    forall i | 0 <= i < |w| ensures !IsSpace(w[i]) && w[i] != ':' {
      assert n[i] in n && CaseOf(w[i], n[i]);
    }
  }

  lemma FlagWords()
    ensures NameLike("enabled") && NameLike("true") && NameLike("disabled") && NameLike("false")
  {
  }

  lemma SpellsIff(s: string, n: string)
    requires NameLike(n)
    ensures Spells(s, n) <==> Lower(TrimSpace(s)) == n
  {
    hide TrimSpace, Lower, AnyCase, NameLike, IsSpace, Tight;
    if Spells(s, n) {
      var w :| Padded(s, w) && AnyCase(w, n);
      var p, q :| s == p + w + q && Spaces(p) && Spaces(q);
      CaseTight(w, n);
      TrimIs(p, w, q);
      LowerIs(w, n);
    }
    if Lower(TrimSpace(s)) == n {
      var p, q := TrimParts(s);
      LowerIs(TrimSpace(s), n);
      assert Padded(s, TrimSpace(s));
    }
  }

  lemma ValidIff(w: string, n: string)
    requires Lower(w) == n
    ensures ValidName(n) <==> NameLike(n)
  {
    if ValidName(n) {
      forall c | c in n ensures NameLikeChar(c) {
        var i :| 0 <= i < |n| && n[i] == c;
        assert n[i] == LowerChar(w[i]) && IsNameChar(n[i]);
        assert c in "._/@#$&-" ==> NameLikeChar(c);
      }
    }
    if NameLike(n) {
      forall c | c in n ensures IsNameChar(c) {
        SpecialChars(c);
      }
    }
  }

  lemma SpecialChars(c: char)
    requires NameLikeChar(c)
    ensures IsNameChar(c)
  {
    var specials := "._/@#$&-";
    assert specials[0] == '.' && specials[1] == '_' && specials[2] == '/' && specials[3] == '@';
    assert specials[4] == '#' && specials[5] == '$' && specials[6] == '&' && specials[7] == '-';
  }

  // ----- the token between its spaces

  lemma TrimAround(p: string, s: string, q: string)
    requires Spaces(p) && Spaces(q)
    ensures TrimSpace(p + s + q) == TrimSpace(s)
  {
    hide TrimSpace, IsSpace;
    var a, b := TrimParts(s);
    assert p + s + q == (p + a) + TrimSpace(s) + (b + q);
    TrimIs(p + a, TrimSpace(s), b + q);
  }

  // ----- entries of one part, and of two

  lemma OnePart(token: string, n: string, on: bool)
    requires ':' !in token && NameLike(n)
    ensures Entry(token) == Some(Selector(n, on)) <==> EntryFor(token, n, on)
  {
    hide TrimSpace, Lower, NameLike, ValidName, Spells, FlagSays, IsSpace, Split;
    var a, b := TrimParts(token);
    var t := TrimSpace(token);
    assert forall c :: c in t ==> c in token;
    SplitOne(t, ':');
    TrimAround([], t, []);
    assert [] + t + [] == t;
    TightTrim(t);
    SpellsIff(token, n);
    ValidIff(t, Lower(t));
    EmptyLower(t);
    if left, right {:trigger left + ":" + right} :| token == left + ":" + right {
      ColonIn(left, right);
    }
  }

  lemma ColonIn(left: string, right: string)
    ensures ':' in left + ":" + right
  {
    assert (left + ":" + right)[|left|] == ':';
  }

  lemma TightTrim(t: string)
    requires Tight(t)
    ensures TrimSpace(t) == t
  {
    hide TrimSpace;
    TrimIs([], t, []);
    assert [] + t + [] == t;
  }

  lemma EmptyLower(t: string)
    ensures Lower(t) == [] <==> t == []
    ensures !NameLike([]) && !ValidName([])
  {
  }

  // The first colon decides where the left part ends.
  lemma SameColon(x: string, y: string, left: string, right: string)
    requires x + ":" + y == left + ":" + right && ':' !in x && ':' !in left
    ensures x == left && y == right
  {
    var s := x + ":" + y;
    assert s[|x|] == ':' && s[|left|] == ':';
    assert forall j :: 0 <= j < |x| ==> s[j] == x[j] && x[j] in x;
    assert forall j :: 0 <= j < |left| ==> s[j] == left[j] && left[j] in left;
    assert |x| == |left|;
    assert s[..|x|] == x && (left + ":" + right)[..|left|] == left;
    assert s[|x| + 1..] == y && (left + ":" + right)[|left| + 1..] == right;
  }

  lemma SpellsNoColon(s: string, n: string)
    requires NameLike(n) && Spells(s, n)
    ensures ':' !in s
  {
    hide NameLike, AnyCase;
    var w :| Padded(s, w) && AnyCase(w, n);
    CaseTight(w, n);
    NoColonAround(s, w);
  }

  lemma NoColonAround(s: string, w: string)
    requires Padded(s, w) && ':' !in w
    ensures ':' !in s
  {
    var p, q :| s == p + w + q && Spaces(p) && Spaces(q);
  }

  // With a first part that has no colon, an entry must spell it there.
  lemma EntryForColon(x: string, y: string, n: string, on: bool)
    requires ':' !in x && NameLike(n)
    ensures EntryFor(x + ":" + y, n, on) <==> Spells(x, n) && ':' !in y && FlagSays(y, on)
  {
    hide NameLike, Spells, FlagSays;
    var token := x + ":" + y;
    ColonIn(x, y);
    if Spells(token, n) {
      SpellsNoColon(token, n);
    }
    if left, right {:trigger left + ":" + right} :|
      token == left + ":" + right && Spells(left, n) && ':' !in right && FlagSays(right, on)
    {
      SpellsNoColon(left, n);
      SameColon(x, y, left, right);
    }
  }

  lemma LeftTrimmed(x: string) returns (a: string)
    ensures x == a + TrimLeft(x) && Spaces(a)
    ensures TrimSpace(TrimLeft(x)) == TrimSpace(x)
    ensures TrimLeft(x) != [] ==> !IsSpace(TrimLeft(x)[0])
  {
    hide TrimSpace, IsSpace;
    a := TrimLeftParts(x);
    TrimAround(a, TrimLeft(x), []);
    assert a + TrimLeft(x) + [] == x;
  }

  lemma RightTrimmed(y: string) returns (b: string)
    ensures y == TrimRight(y) + b && Spaces(b)
    ensures TrimSpace(TrimRight(y)) == TrimSpace(y)
    ensures TrimRight(y) != [] ==> !IsSpace(TrimRight(y)[|TrimRight(y)| - 1])
    ensures TrimRight(y) == [] <==> Spaces(y)
  {
    hide TrimSpace, IsSpace;
    b := TrimRightParts(y);
    TrimAround([], TrimRight(y), b);
    assert [] + TrimRight(y) + b == y;
    if Spaces(y) {
      TrimRightOver([], y);
      assert [] + y == y;
    }
  }

  // The spaces at the outer ends of two parts.
  lemma TrimAtColon(x: string, y: string) returns (l: string, r: string)
    ensures TrimSpace(x + ":" + y) == l + ":" + r
    ensures TrimSpace(l) == TrimSpace(x) && TrimSpace(r) == TrimSpace(y) && (r == [] <==> Spaces(y))
    ensures exists a :: x == a + l && Spaces(a)
    ensures exists b :: y == r + b && Spaces(b)
  {
    hide TrimSpace, TrimLeft, TrimRight, IsSpace, Spaces;
    l, r := TrimLeft(x), TrimRight(y);
    var a := LeftTrimmed(x);
    var b := RightTrimmed(y);
    assert x + ":" + y == a + (l + ":" + r) + b;
    ColonPlain();
    TightColon(l, r);
    TrimIs(a, l + ":" + r, b);
  }

  lemma TightColon(l: string, r: string)
    requires l != [] ==> !IsSpace(l[0])
    requires r != [] ==> !IsSpace(r[|r| - 1])
    ensures Tight(l + ":" + r)
  {
    ColonPlain();
  }

  lemma FlagIs(r: string, y: string, on: bool)
    requires TrimSpace(r) == TrimSpace(y) && (r == [] <==> Spaces(y))
    ensures ParseFlag(r) == Some(on) <==> FlagSays(y, on)
  {
    hide TrimSpace, Lower, Spells, NameLike;
    FlagWords();
    SpellsIff(y, "enabled");
    SpellsIff(y, "true");
    SpellsIff(y, "disabled");
    SpellsIff(y, "false");
    if Spaces(y) {
      BlankSpellsNothing(y);
    }
  }

  lemma BlankSpellsNothing(y: string)
    requires Spaces(y)
    ensures TrimSpace(y) == [] && Lower([]) == []
  {
    hide TrimSpace;
    TrimIs(y, [], []);
    assert y + [] + [] == y;
  }

  lemma TwoParts(x: string, y: string, n: string, on: bool)
    requires ':' !in x && ':' !in y && NameLike(n)
    ensures Entry(x + ":" + y) == Some(Selector(n, on)) <==> EntryFor(x + ":" + y, n, on)
  {
    hide TrimSpace, Lower, NameLike, ValidName, Spells, FlagSays, Split, ParseFlag, EntryFor, Spaces;
    EntryForColon(x, y, n, on);
    var l, r := TrimAtColon(x, y);
    SplitFront(l, ':', r);
    SplitOne(r, ':');
    FlagIs(r, y, on);
    SpellsIff(x, n);
    ValidIff(TrimSpace(x), Lower(TrimSpace(x)));
  }

  lemma ThreeParts(x: string, y: string, z: string, n: string, on: bool)
    requires ':' !in x && ':' !in y && NameLike(n)
    ensures Entry(x + ":" + (y + ":" + z)).None? && !EntryFor(x + ":" + (y + ":" + z), n, on)
  {
    hide TrimSpace, Lower, NameLike, ValidName, Spells, FlagSays, Split, ParseFlag, EntryFor, Spaces;
    ColonIn(y, z);
    EntryForColon(x, y + ":" + z, n, on);
    var l, r := TrimAtColon(x, y + ":" + z);
    ThirdPartStays(y, z, r);
    SplitFront(l, ':', r);
  }

  // The second colon is not trimmed off.
  lemma ThirdPartStays(y: string, z: string, r: string)
    requires ':' !in y && exists b :: y + ":" + z == r + b && Spaces(b)
    ensures |Split(r, ':')| >= 2
  {
    hide Split, IsSpace;
    var b :| y + ":" + z == r + b && Spaces(b);
    ColonPlain();
    var s := y + ":" + z;
    assert s[|y|] == ':';
    assert forall i :: |r| <= i < |s| ==> s[i] == b[i - |r|] && b[i - |r|] in b;
    assert |y| < |r|;
    assert forall i :: 0 <= i < |r| ==> r[i] == s[i];
    assert r == y + ":" + r[|y| + 1..];
    SplitFront(y, ':', r[|y| + 1..]);
  }

  /**
    Every entry selects exactly what it says: a name in any case, with any
    spaces around it, alone or with one of the flags, which are read so too. No
    other text selects anything.
   */
  lemma EntryIff(token: string, n: string, on: bool)
    ensures Entry(token) == Some(Selector(n, on)) <==> NameLike(n) && EntryFor(token, n, on)
  {
    hide TrimSpace, NameLike, Spells, FlagSays, Split, EntryFor, Entry, Join;
    var parts := Split(token, ':');
    JoinSplit(token, ':');
    if !NameLike(n) {
      NoOtherName(token, n, on);
    } else if |parts| == 1 {
      JoinOne(parts);
      assert parts[0] in parts;
      OnePart(token, n, on);
    } else {
      assert parts[0] in parts && parts[1] in parts;
      JoinFirst(parts);
      if |parts| == 2 {
        JoinOne(parts[1..]);
        TwoParts(parts[0], parts[1], n, on);
      } else {
        JoinFirst(parts[1..]);
        ThreeParts(parts[0], parts[1], Join(parts[2..], ":"), n, on);
      }
    }
  }

  lemma JoinOne(parts: seq<string>)
    requires |parts| == 1
    ensures Join(parts, ":") == parts[0]
  {
  }

  lemma JoinFirst(parts: seq<string>)
    requires |parts| > 1
    ensures Join(parts, ":") == parts[0] + ":" + Join(parts[1..], ":")
    ensures |parts| > 2 ==> parts[1..][1..] == parts[2..]
  {
  }

  lemma NoOtherName(token: string, n: string, on: bool)
    requires !NameLike(n)
    ensures Entry(token) != Some(Selector(n, on))
  {
    hide TrimSpace, Lower, NameLike, ValidName, ParseFlag, Split;
    var name := TrimSpace(Split(TrimSpace(token), ':')[0]);
    ValidIff(name, Lower(name));
  }

  // ----- whole lists

  /** `ts` are spellings of the selectors `ss`, one for each. */
  ghost predicate Spelling(ts: seq<string>, ss: seq<Selector>) {
    |ts| == |ss| && forall i :: 0 <= i < |ts| ==>
      NameLike(ss[i].name) && EntryFor(ts[i], ss[i].name, ss[i].enabled) && ',' !in ts[i]
  }

  lemma SpellingSnoc(ts: seq<string>, ss: seq<Selector>)
    requires Spelling(ts, ss) && ss != []
    ensures var last := |ss| - 1;
            && Spelling(ts[..last], ss[..last]) && Entry(ts[last]) == Some(ss[last])
            && ts == ts[..last] + [ts[last]] && ss == ss[..last] + [ss[last]]
  {
    hide Entry, EntryFor, NameLike;
    EntryIff(ts[|ss| - 1], ss[|ss| - 1].name, ss[|ss| - 1].enabled);
  }

  lemma {:induction false} SelectedSpelling(ts: seq<string>, ss: seq<Selector>)
    requires Spelling(ts, ss) && NoDuplicates(Names(ss))
    ensures Selected(ts) == ss
  {
    if ss != [] {
      hide *;
      var last := |ss| - 1;
      SpellingSnoc(ts, ss);
      DistinctInit(ss);
      SelectedSpelling(ts[..last], ss[..last]);
      assert ss[last].name !in Names(Selected(ts[..last]));
      SelectedSnoc(ts[..last], ts[last], ss[last]);
    }
  }

  /** However a list of distinct names and flags is spelled, parsing gives it back. */
  lemma ParseInvertsSpelling(ts: seq<string>, ss: seq<Selector>)
    requires Spelling(ts, ss) && ss != [] && NoDuplicates(Names(ss))
    ensures Selected(Split(Join(ts, ","), ',')) == ss
  {
    hide Entry, EntryFor, NameLike, NoDuplicates, Names, Selected, Split, Join;
    forall t | t in ts ensures ',' !in t {
      var i :| 0 <= i < |ts| && ts[i] == t;
    }
    SplitJoin(ts, ',');
    SelectedSpelling(ts, ss);
  }

  lemma PaddedSpells(p: string, w: string, q: string, n: string)
    requires Spaces(p) && Spaces(q) && AnyCase(w, n)
    ensures Spells(p + w + q, n)
  {
    assert Padded(p + w + q, w);
  }

  /** The text `tty` alone, in any case and with blanks, selects the terminals. */
  lemma BareNameSelects()
    ensures Entry("tty") == Entry(" TTY ") == Some(Selector("tty", true))
  {
    hide Entry, Spells, IsSpace;
    Blanks();
    PaddedSpells("", "tty", "", "tty");
    PaddedSpells(" ", "TTY", " ", "tty");
    assert "tty" == "" + "tty" + "" && " TTY " == " " + "TTY" + " ";
    EntryIff("tty", "tty", true);
    EntryIff(" TTY ", "tty", true);
  }

  lemma Blanks()
    ensures Spaces("") && Spaces(" ") && Spaces("\t")
  {
  }

  /** The flags, too, in any case and with blanks. */
  lemma FlagSelects()
    ensures Entry("tty: Enabled") == Some(Selector("tty", true))
    ensures Entry("tty:FALSE ") == Some(Selector("tty", false))
  {
    hide Entry, Spells, IsSpace, FlagSays, EntryFor;
    FlagsSay();
    NamedTty();
    ColonEntry(" Enabled", true);
    ColonEntry("FALSE ", false);
    assert "tty: Enabled" == "tty" + ":" + " Enabled" && "tty:FALSE " == "tty" + ":" + "FALSE ";
    EntryIff("tty: Enabled", "tty", true);
    EntryIff("tty:FALSE ", "tty", false);
  }

  lemma NamedTty()
    ensures NameLike("tty") && Spells("tty", "tty") && ':' !in "tty"
  {
    Blanks();
    PaddedSpells("", "tty", "", "tty");
    assert "tty" == "" + "tty" + "";
  }

  lemma ColonEntry(flag: string, on: bool)
    requires FlagSays(flag, on) && ':' !in flag
    ensures EntryFor("tty" + ":" + flag, "tty", on)
  {
    hide FlagSays;
    NamedTty();
    EntryForColon("tty", flag, "tty", on);
  }

  lemma FlagsSay()
    ensures FlagSays(" Enabled", true) && FlagSays("FALSE ", false)
    ensures ':' !in " Enabled" && ':' !in "FALSE "
  {
    hide IsSpace;
    Blanks();
    PaddedSpells(" ", "Enabled", "", "enabled");
    PaddedSpells("", "FALSE", " ", "false");
    assert " Enabled" == " " + "Enabled" + "" && "FALSE " == "" + "FALSE" + " ";
  }
}
