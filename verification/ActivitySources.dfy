/** The admin's list of activity sources: parsing it, and choosing the sources from it. */
module ActivitySources {
  import opened Seqs
  import opened Wrappers
  import opened Text

  datatype Selector = Selector(name: string, enabled: bool)

  // ^[A-Za-z0-9._/@#$&-]+$
  predicate IsNameChar(c: char) {
    'A' <= c <= 'Z' || 'a' <= c <= 'z' || '0' <= c <= '9' || c in "._/@#$&-"
  }

  predicate ValidName(s: string) {
    s != [] && forall c :: c in s ==> IsNameChar(c)
  }

  function ParseFlag(flag: string): Option<bool> {
    if flag == [] then Some(true)
    else
      var f := Lower(TrimSpace(flag));
      if f == "enabled" || f == "true" then Some(true)
      else if f == "disabled" || f == "false" then Some(false)
      else None
  }

  /** What one entry of the list selects; nothing if it is empty or malformed. */
  function Entry(token: string): (r: Option<Selector>)
    ensures r.Some? ==> ValidName(r.value.name)
  {
    var t := TrimSpace(token);
    var parts := Split(t, ':');
    if t == "" || |parts| > 2 then None
    else
      var name := Lower(TrimSpace(parts[0]));
      var flag := ParseFlag(if |parts| == 2 then parts[1] else "");
      if ValidName(name) && flag.Some? then Some(Selector(name, flag.value)) else None
  }

  function Names(ss: seq<Selector>): (ns: seq<string>)
    ensures |ns| == |ss| && forall i :: 0 <= i < |ss| ==> ns[i] == ss[i].name
  {
    seq(|ss|, i requires 0 <= i < |ss| => ss[i].name)
  }

  predicate NoDuplicates<T(==)>(xs: seq<T>) {
    forall i, j :: 0 <= i < j < |xs| ==> xs[i] != xs[j]
  }

  // The selectors of the entries, each name where it first occurs.
  function Selected(tokens: seq<string>): seq<Selector> {
    if tokens == [] then []
    else
      var before, e := Selected(tokens[..|tokens| - 1]), Entry(tokens[|tokens| - 1]);
      if e.Some? && e.value.name !in Names(before) then before + [e.value] else before
  }

  /** The loop over the entries, with its set of names seen. */
  method ParseActivitySourcesEnv(raw: string) returns (result: seq<Selector>)
    ensures result == Selected(Split(raw, ','))
  {
    hide TrimSpace, Lower, Split, ValidName, Names;
    var tokens := Split(raw, ',');
    var seen: set<string> := {};
    result := [];
    var i := 0;
    while i < |tokens|
      invariant 0 <= i <= |tokens|
      invariant result == Selected(tokens[..i])
      invariant forall n :: n in seen <==> n in Names(result)
    {
      assert tokens[..i + 1][..i] == tokens[..i];
      ghost var before := result;
      var token := TrimSpace(tokens[i]);
      i := i + 1;
      if token == "" {
        continue;
      }
      var parts := Split(token, ':');
      var namePart, flagPart := parts[0], "";
      if |parts| == 2 {
        flagPart := parts[1];
      } else if |parts| > 2 {
        continue;
      }
      var name := Lower(TrimSpace(namePart));
      if !ValidName(name) {
        continue;
      }
      var enabled := true;
      if flagPart != "" {
        var flag := Lower(TrimSpace(flagPart));
        if flag == "enabled" || flag == "true" {
          enabled := true;
        } else if flag == "disabled" || flag == "false" {
          enabled := false;
        } else {
          continue;
        }
      }
      if name in seen {
        continue;
      }
      seen := seen + {name};
      result := result + [Selector(name, enabled)];
      assert Names(result) == Names(before) + [name];
    }
    assert tokens[..i] == tokens;
  }

  // The entry at `i` is the first well-formed one with its name.
  predicate FirstEntry(tokens: seq<string>, i: nat, s: Selector) {
    && i < |tokens| && Entry(tokens[i]) == Some(s)
    && !Mentioned(tokens[..i], s.name)
  }

  /** A well-formed entry has this name. */
  predicate Mentioned(tokens: seq<string>, name: string) {
    exists i :: 0 <= i < |tokens| && EntryHasName(tokens[i], name)
  }

  predicate EntryHasName(token: string, name: string) {
    Entry(token).Some? && Entry(token).value.name == name
  }

  lemma MentionedSnoc(tokens: seq<string>, name: string)
    requires tokens != []
    ensures Mentioned(tokens, name) <==>
            Mentioned(tokens[..|tokens| - 1], name) || EntryHasName(tokens[|tokens| - 1], name)
  {
    hide EntryHasName;
    var init := tokens[..|tokens| - 1];
    if Mentioned(init, name) {
      var i :| 0 <= i < |init| && EntryHasName(init[i], name);
      assert EntryHasName(tokens[i], name);
    }
    if Mentioned(tokens, name) && !EntryHasName(tokens[|tokens| - 1], name) {
      var i :| 0 <= i < |tokens| && EntryHasName(tokens[i], name);
      assert EntryHasName(init[i], name);
    }
  }

  lemma {:induction false} SelectedNames(tokens: seq<string>, name: string)
    ensures name in Names(Selected(tokens)) <==> Mentioned(tokens, name)
    ensures NoDuplicates(Names(Selected(tokens)))
  {
    if tokens != [] {
      hide Entry, Mentioned;
      var before, e := Selected(tokens[..|tokens| - 1]), Entry(tokens[|tokens| - 1]);
      SelectedNames(tokens[..|tokens| - 1], name);
      MentionedSnoc(tokens, name);
      if e.Some? && e.value.name !in Names(before) {
        assert Names(Selected(tokens)) == Names(before) + [e.value.name];
      }
    }
  }

  ghost predicate HasFirst(tokens: seq<string>, s: Selector) {
    exists i :: FirstEntry(tokens, i, s)
  }

  lemma HasFirstSnoc(tokens: seq<string>, s: Selector)
    requires tokens != []
    ensures HasFirst(tokens, s) <==>
            HasFirst(tokens[..|tokens| - 1], s) || FirstEntry(tokens, |tokens| - 1, s)
  {
    hide Entry, Mentioned;
    var init, last := tokens[..|tokens| - 1], |tokens| - 1;
    forall i: nat | i < last ensures FirstEntry(init, i, s) <==> FirstEntry(tokens, i, s) {
      assert init[..i] == tokens[..i];
    }
  }

  /** In the parsed list is exactly what the first well-formed entry of each name says. */
  lemma {:induction false} SelectedIff(tokens: seq<string>, s: Selector)
    ensures s in Selected(tokens) <==> HasFirst(tokens, s)
  {
    if tokens != [] {
      hide Entry, Mentioned, HasFirst, Names;
      SelectedIff(tokens[..|tokens| - 1], s);
      SelectedNames(tokens[..|tokens| - 1], s.name);
      HasFirstSnoc(tokens, s);
    }
  }

  /** The list is in written order: what comes first in it has its first well-formed entry first. */
  lemma {:induction false} SelectedOrder(tokens: seq<string>, p: nat, q: nat) returns (i: nat, j: nat)
    requires p < q < |Selected(tokens)|
    ensures i < j && FirstEntry(tokens, i, Selected(tokens)[p]) && FirstEntry(tokens, j, Selected(tokens)[q])
  {
    hide Entry, Mentioned;
    var init, last := tokens[..|tokens| - 1], |tokens| - 1;
    var before := Selected(init);
    if q < |before| {
      i, j := SelectedOrder(init, p, q);
      assert init[..i] == tokens[..i] && init[..j] == tokens[..j];
    } else {
      SelectedIff(init, before[p]);
      SelectedNames(init, Selected(tokens)[q].name);
      i :| FirstEntry(init, i, before[p]);
      j := last;
      assert init[..i] == tokens[..i];
    }
  }

  // ----- choosing the sources

  /** A compiled-in source; the registry is their sequence. */
  datatype Source = Source(name: string)

  // allActivitySources
  const ALL_ACTIVITY_SOURCES := [Source("tty"), Source("codex-app-server")]

  predicate DefaultOn(name: string) {
    name == "tty"
  }

  // The registered source of a name.
  function ByName(all: seq<Source>, name: string): Option<Source> {
    if all == [] then None
    else if Lower(all[|all| - 1].name) == name then Some(all[|all| - 1])
    else ByName(all[..|all| - 1], name)
  }

  // The enabled selectors that name a source, in written order.
  function Explicit(all: seq<Source>, ss: seq<Selector>): seq<Source> {
    if ss == [] then []
    else
      var before, last := Explicit(all, ss[..|ss| - 1]), ss[|ss| - 1];
      if last.enabled && ByName(all, last.name).Some? then before + [ByName(all, last.name).value] else before
  }

  // The default-on sources that no selector mentions, in registry order.
  function Implicit(all: seq<Source>, ss: seq<Selector>): seq<Source> {
    if all == [] then []
    else
      var before, name := Implicit(all[..|all| - 1], ss), Lower(all[|all| - 1].name);
      if name !in Names(ss) && DefaultOn(name) then before + [all[|all| - 1]] else before
  }

  // The names in the selectors that no source has, in written order.
  function Unknown(all: seq<Source>, ss: seq<Selector>): seq<string> {
    if ss == [] then []
    else
      var before, last := Unknown(all, ss[..|ss| - 1]), ss[|ss| - 1];
      if ByName(all, last.name).None? then before + [last.name] else before
  }

  /** The two passes; each warning is given by the unknown name it is about. */
  method ResolveActiveActivitySources(all: seq<Source>, selectors: seq<Selector>)
    returns (active: seq<Source>, warnings: seq<string>)
    ensures active == Explicit(all, selectors) + Implicit(all, selectors)
    ensures warnings == Unknown(all, selectors)
  {
    hide Explicit, ByName, Unknown;
    var mentioned: set<string>;
    active, mentioned, warnings := ExplicitPass(all, selectors);
    ghost var explicit := active;
    var i := 0;
    while i < |all|
      invariant 0 <= i <= |all|
      invariant active == explicit + Implicit(all[..i], selectors)
    {
      assert all[..i + 1][..i] == all[..i];
      var name := Lower(all[i].name);
      if name !in mentioned && DefaultOn(name) {
        Assoc(explicit, Implicit(all[..i], selectors), [all[i]]);
        active := active + [all[i]];
      }
      i := i + 1;
    }
    assert all[..i] == all;
  }

  // The sources by their lower-case names.
  method IndexByName(all: seq<Source>) returns (byName: map<string, Source>)
    ensures forall n :: n in byName <==> ByName(all, n).Some?
    ensures forall n :: n in byName ==> byName[n] == ByName(all, n).value
  {
    byName := map[];
    var i := 0;
    while i < |all|
      invariant 0 <= i <= |all|
      invariant forall n :: n in byName <==> ByName(all[..i], n).Some?
      invariant forall n :: n in byName ==> byName[n] == ByName(all[..i], n).value
    {
      assert all[..i + 1][..i] == all[..i];
      byName := byName[Lower(all[i].name) := all[i]];
      i := i + 1;
    }
    assert all[..i] == all;
  }

  // The admin's order wins.
  method ExplicitPass(all: seq<Source>, selectors: seq<Selector>)
    returns (active: seq<Source>, mentioned: set<string>, warnings: seq<string>)
    ensures active == Explicit(all, selectors)
    ensures forall n :: n in mentioned <==> n in Names(selectors)
    ensures warnings == Unknown(all, selectors)
  {
    hide ByName;
    var byName := IndexByName(all);
    mentioned, active, warnings := {}, [], [];
    var i := 0;
    while i < |selectors|
      invariant 0 <= i <= |selectors|
      invariant forall n :: n in mentioned <==> n in Names(selectors[..i])
      invariant active == Explicit(all, selectors[..i])
      invariant warnings == Unknown(all, selectors[..i])
    {
      var sel := selectors[i];
      PassStep(selectors, i);
      mentioned := mentioned + {sel.name};
      i := i + 1;
      if sel.name !in byName {
        warnings := warnings + [sel.name];
        continue;
      }
      if !sel.enabled {
        continue;
      }
      active := active + [byName[sel.name]];
    }
    assert selectors[..i] == selectors;
  }

  lemma PassStep(ss: seq<Selector>, i: nat)
    requires i < |ss|
    ensures ss[..i + 1][..i] == ss[..i] && ss[..i + 1][i] == ss[i]
    ensures forall n :: n in Names(ss[..i + 1]) <==> n in Names(ss[..i]) || n == ss[i].name
  {
    assert ss[..i + 1] == ss[..i] + [ss[i]];
    assert Names(ss[..i + 1]) == Names(ss[..i]) + [ss[i].name];
  }

  // No two sources of the registry have the same name.
  predicate Registry(all: seq<Source>) {
    forall i, j :: 0 <= i < j < |all| ==> Lower(all[i].name) != Lower(all[j].name)
  }

  lemma {:induction false} ByNameIff(all: seq<Source>, name: string, src: Source)
    requires Registry(all)
    ensures ByName(all, name) == Some(src) <==> src in all && Lower(src.name) == name
  {
    if all != [] {
      ByNameIff(all[..|all| - 1], name, src);
      assert all == all[..|all| - 1] + [all[|all| - 1]];
    }
  }

  // The last selector's source is chosen because of that selector.
  lemma ExplicitSnoc(all: seq<Source>, ss: seq<Selector>, src: Source)
    requires Registry(all) && ss != []
    ensures var init, last := ss[..|ss| - 1], ss[|ss| - 1];
            && (src in Explicit(all, ss) <==>
                  src in Explicit(all, init) || (src in all && Selector(Lower(src.name), true) == last))
            && (Selector(Lower(src.name), true) in ss <==>
                  Selector(Lower(src.name), true) in init || Selector(Lower(src.name), true) == last)
  {
    hide Lower, Registry;
    ByNameIff(all, ss[|ss| - 1].name, src);
    assert ss == ss[..|ss| - 1] + [ss[|ss| - 1]];
  }

  lemma {:induction false} ExplicitMembers(all: seq<Source>, ss: seq<Selector>, src: Source)
    requires Registry(all)
    ensures src in Explicit(all, ss) <==> src in all && Selector(Lower(src.name), true) in ss
    decreases |ss|
  {
    if ss != [] {
      hide *;
      ExplicitMembers(all, ss[..|ss| - 1], src);
      ExplicitSnoc(all, ss, src);
    } else {
      hide Lower, Registry;
    }
  }

  lemma {:induction false} ExplicitDistinct(all: seq<Source>, ss: seq<Selector>)
    requires Registry(all) && NoDuplicates(Names(ss))
    ensures NoDuplicates(Explicit(all, ss))
    decreases |ss|
  {
    if ss != [] {
      hide Lower, Names, Registry, ByName;
      var init, last := ss[..|ss| - 1], ss[|ss| - 1];
      DistinctInit(ss);
      ExplicitDistinct(all, init);
      if last.enabled && ByName(all, last.name).Some? {
        var s := ByName(all, last.name).value;
        ByNameIff(all, last.name, s);
        ExplicitMembers(all, init, s);
        if s in Explicit(all, init) {
          NameOf(init, Selector(last.name, true));
        }
      }
    }
  }

  lemma NameOf(ss: seq<Selector>, s: Selector)
    requires s in ss
    ensures s.name in Names(ss)
  {
    var i :| 0 <= i < |ss| && ss[i] == s;
    assert Names(ss)[i] == s.name;
  }

  lemma {:induction false} ImplicitSources(all: seq<Source>, ss: seq<Selector>, src: Source)
    requires Registry(all)
    ensures src in Implicit(all, ss) <==> src in all && DefaultOn(Lower(src.name)) && Lower(src.name) !in Names(ss)
    ensures NoDuplicates(Implicit(all, ss))
    decreases |all|
  {
    if all != [] {
      var init, last := all[..|all| - 1], all[|all| - 1];
      ImplicitSources(init, ss, src);
      ImplicitSources(init, ss, last);
      assert all == init + [last];
    }
  }

  /** The explicitly chosen sources are in the order of their selectors. */
  lemma {:induction false} ExplicitOrder(all: seq<Source>, ss: seq<Selector>, p: nat, q: nat) returns (i: nat, j: nat)
    requires Registry(all) && p < q < |Explicit(all, ss)|
    ensures i < j < |ss| && ss[i] == Selector(Lower(Explicit(all, ss)[p].name), true)
    ensures ss[j] == Selector(Lower(Explicit(all, ss)[q].name), true)
    decreases |ss|
  {
    var init, last := ss[..|ss| - 1], |ss| - 1;
    if q < |Explicit(all, init)| {
      i, j := ExplicitOrder(all, init, p, q);
    } else {
      i := ExplicitIndex(all, init, p);
      j := last;
      ByNameIff(all, ss[last].name, Explicit(all, ss)[q]);
    }
  }

  lemma {:induction false} ExplicitIndex(all: seq<Source>, ss: seq<Selector>, p: nat) returns (i: nat)
    requires Registry(all) && p < |Explicit(all, ss)|
    ensures i < |ss| && ss[i] == Selector(Lower(Explicit(all, ss)[p].name), true)
    decreases |ss|
  {
    var init, last := ss[..|ss| - 1], |ss| - 1;
    if p < |Explicit(all, init)| {
      i := ExplicitIndex(all, init, p);
    } else {
      i := last;
      ByNameIff(all, ss[last].name, Explicit(all, ss)[p]);
    }
  }

  /** The default sources follow in registry order. */
  lemma {:induction false} ImplicitOrder(all: seq<Source>, ss: seq<Selector>, p: nat, q: nat) returns (i: nat, j: nat)
    requires p < q < |Implicit(all, ss)|
    ensures i < j < |all| && all[i] == Implicit(all, ss)[p] && all[j] == Implicit(all, ss)[q]
    decreases |all|
  {
    var init, last := all[..|all| - 1], |all| - 1;
    if q < |Implicit(init, ss)| {
      i, j := ImplicitOrder(init, ss, p, q);
    } else {
      i := ImplicitIndex(init, ss, p);
      j := last;
    }
  }

  lemma {:induction false} ImplicitIndex(all: seq<Source>, ss: seq<Selector>, p: nat) returns (i: nat)
    requires p < |Implicit(all, ss)|
    ensures i < |all| && all[i] == Implicit(all, ss)[p]
    decreases |all|
  {
    var init, last := all[..|all| - 1], |all| - 1;
    if p < |Implicit(init, ss)| {
      i := ImplicitIndex(init, ss, p);
    } else {
      i := last;
    }
  }

  lemma ConcatDistinct<T>(xs: seq<T>, ys: seq<T>)
    requires NoDuplicates(xs) && NoDuplicates(ys) && forall x :: !(x in xs && x in ys)
    ensures NoDuplicates(xs + ys)
  {
    forall i, j | 0 <= i < |xs| && 0 <= j < |ys| ensures xs[i] != ys[j] {
      assert xs[i] in xs && ys[j] in ys;
    }
  }

  lemma Disjoint(all: seq<Source>, ss: seq<Selector>, src: Source)
    requires Registry(all) && NoDuplicates(Names(ss))
    ensures !(src in Explicit(all, ss) && src in Implicit(all, ss))
  {
    hide Explicit, Implicit;
    ExplicitMembers(all, ss, src);
    ImplicitSources(all, ss, src);
    if Selector(Lower(src.name), true) in ss {
      NameOf(ss, Selector(Lower(src.name), true));
    }
  }

  /** What a text leads to: parsed, then resolved. */
  function Chosen(all: seq<Source>, raw: string): seq<Source> {
    var ss := Selected(Split(raw, ','));
    Explicit(all, ss) + Implicit(all, ss)
  }

  /**
    For every text: no source is chosen twice, and a source is chosen exactly
    if the first well-formed entry with its name enables it, or if it is on by
    default and no well-formed entry mentions it.
   */
  lemma ChosenIff(all: seq<Source>, raw: string, src: Source)
    requires Registry(all)
    ensures NoDuplicates(Chosen(all, raw))
    ensures var tokens, name := Split(raw, ','), Lower(src.name);
            src in Chosen(all, raw) <==>
              && src in all
              && (HasFirst(tokens, Selector(name, true)) || (DefaultOn(name) && !Mentioned(tokens, name)))
  {
    hide HasFirst, Mentioned, Selected, Split, Explicit, Implicit, Registry, NoDuplicates;
    var tokens := Split(raw, ',');
    var ss := Selected(tokens);
    SelectedNames(tokens, Lower(src.name));
    SelectedIff(tokens, Selector(Lower(src.name), true));
    ExplicitMembers(all, ss, src);
    ExplicitDistinct(all, ss);
    ImplicitSources(all, ss, src);
    forall s ensures !(s in Explicit(all, ss) && s in Implicit(all, ss)) {
      Disjoint(all, ss, s);
    }
    ConcatDistinct(Explicit(all, ss), Implicit(all, ss));
  }

  /** The sources that are compiled in: the terminals unless the text switches them off, the app server if it switches it on. */
  lemma CompiledInChosen(raw: string, src: Source)
    ensures var tokens := Split(raw, ',');
            src in Chosen(ALL_ACTIVITY_SOURCES, raw) <==>
              || (src.name == "tty" && (HasFirst(tokens, Selector("tty", true)) || !Mentioned(tokens, "tty")))
              || (src.name == "codex-app-server" && HasFirst(tokens, Selector("codex-app-server", true)))
  {
    hide HasFirst, Mentioned, Chosen, Split;
    LowerNothing("tty");
    LowerNothing("codex-app-server");
    ChosenIff(ALL_ACTIVITY_SOURCES, raw, src);
  }

  /** A warning is given for every selector, enabled or not, that has the name of no source. */
  lemma {:induction false} UnknownIff(all: seq<Source>, ss: seq<Selector>, name: string)
    requires Registry(all)
    ensures name in Unknown(all, ss) <==> name in Names(ss) && forall src :: src in all ==> Lower(src.name) != name
    ensures NoDuplicates(Names(ss)) ==> NoDuplicates(Unknown(all, ss))
    decreases |ss|
  {
    if ss != [] {
      hide Lower, Registry, Names;
      var init, last := ss[..|ss| - 1], ss[|ss| - 1];
      UnknownIff(all, init, name);
      UnknownIff(all, init, last.name);
      NamesSnoc(ss);
      UnknownName(all, last.name);
      if NoDuplicates(Names(ss)) {
        DistinctInit(ss);
      }
    }
  }

  lemma NamesSnoc(ss: seq<Selector>)
    requires ss != []
    ensures Names(ss) == Names(ss[..|ss| - 1]) + [ss[|ss| - 1].name]
  {
  }

  lemma UnknownName(all: seq<Source>, name: string)
    requires Registry(all)
    ensures ByName(all, name).None? <==> forall src :: src in all ==> Lower(src.name) != name
  {
    hide Lower, Registry, ByName;
    forall src ensures ByName(all, name) == Some(src) <==> src in all && Lower(src.name) == name {
      ByNameIff(all, name, src);
    }
  }

  // ----- round trip

  function RenderSelector(s: Selector): string {
    s.name + [':'] + FlagText(s.enabled)
  }

  function RenderSelectors(ss: seq<Selector>): (ts: seq<string>)
    ensures |ts| == |ss|
  {
    seq(|ss|, i requires 0 <= i < |ss| => RenderSelector(ss[i]))
  }

  predicate LowerName(s: string) {
    ValidName(s) && forall c :: c in s ==> !('A' <= c <= 'Z')
  }

  lemma NamePlain(s: string)
    requires LowerName(s)
    ensures ValidName(s) && TrimSpace(s) == s && Lower(s) == s && ':' !in s && ',' !in s
    ensures forall c :: c in s ==> !IsSpace(c)
  {
    TrimNothing(s);
    LowerNothing(s);
  }

  function FlagText(enabled: bool): string {
    if enabled then "enabled" else "disabled"
  }

  lemma FlagPlain(enabled: bool)
    ensures ParseFlag(FlagText(enabled)) == Some(enabled)
    ensures ':' !in FlagText(enabled) && ',' !in FlagText(enabled)
    ensures forall c :: c in FlagText(enabled) ==> !IsSpace(c)
  {
    TrimNothing(FlagText(enabled));
    LowerNothing(FlagText(enabled));
  }

  lemma RenderedPlain(s: Selector)
    requires LowerName(s.name)
    ensures TrimSpace(RenderSelector(s)) == RenderSelector(s) && ',' !in RenderSelector(s)
  {
    hide FlagText, LowerName, IsSpace;
    NamePlain(s.name);
    FlagPlain(s.enabled);
    assert forall c :: c in RenderSelector(s) ==> c in s.name || c == ':' || c in FlagText(s.enabled);
    ColonPlain();
    TrimNothing(RenderSelector(s));
  }

  lemma ColonPlain()
    ensures !IsSpace(':')
  {
  }

  lemma EntryOfRendered(s: Selector)
    requires LowerName(s.name)
    ensures Entry(RenderSelector(s)) == Some(s) && ',' !in RenderSelector(s)
  {
    hide FlagText, LowerName, TrimSpace, Lower, Split, ValidName, ParseFlag;
    NamePlain(s.name);
    FlagPlain(s.enabled);
    RenderedPlain(s);
    SplitFront(s.name, ':', FlagText(s.enabled));
    SplitOne(FlagText(s.enabled), ':');
  }

  lemma DistinctInit(ss: seq<Selector>)
    requires ss != [] && NoDuplicates(Names(ss))
    ensures NoDuplicates(Names(ss[..|ss| - 1]))
    ensures ss[|ss| - 1].name !in Names(ss[..|ss| - 1])
  {
    var init := ss[..|ss| - 1];
    assert forall i :: 0 <= i < |init| ==> Names(init)[i] == Names(ss)[i];
    assert Names(ss)[|ss| - 1] == ss[|ss| - 1].name;
  }

  lemma SelectedSnoc(tokens: seq<string>, token: string, s: Selector)
    requires Entry(token) == Some(s) && s.name !in Names(Selected(tokens))
    ensures Selected(tokens + [token]) == Selected(tokens) + [s]
  {
    assert (tokens + [token])[..|tokens|] == tokens;
  }

  lemma SelectedOfNone(ss: seq<Selector>)
    requires ss == []
    ensures Selected(RenderSelectors(ss)) == ss
  {
    assert RenderSelectors(ss) == [];
  }

  lemma RenderSnoc(ss: seq<Selector>)
    requires ss != []
    ensures RenderSelectors(ss) == RenderSelectors(ss[..|ss| - 1]) + [RenderSelector(ss[|ss| - 1])]
  {
    hide RenderSelector;
  }

  lemma LowerInit(ss: seq<Selector>)
    requires ss != [] && forall s :: s in ss ==> LowerName(s.name)
    ensures forall s :: s in ss[..|ss| - 1] ==> LowerName(s.name)
    ensures LowerName(ss[|ss| - 1].name)
  {
    hide LowerName;
  }

  lemma {:induction false} SelectedOfRendered(ss: seq<Selector>)
    requires NoDuplicates(Names(ss)) && forall s :: s in ss ==> LowerName(s.name)
    ensures Selected(RenderSelectors(ss)) == ss
  {
    if ss == [] {
      SelectedOfNone(ss);
    } else {
      hide *;
      var init, last := ss[..|ss| - 1], ss[|ss| - 1];
      RenderSnoc(ss);
      DistinctInit(ss);
      LowerInit(ss);
      assert ss == init + [last];
      SelectedOfRendered(init);
      EntryOfRendered(last);
      SelectedSnoc(RenderSelectors(init), RenderSelector(last), last);
    }
  }

  /** Parsing a rendered list of distinct lower-case names gives the list back. */
  lemma ParseInvertsRender(ss: seq<Selector>)
    requires NoDuplicates(Names(ss)) && forall s :: s in ss ==> LowerName(s.name)
    ensures Selected(Split(Join(RenderSelectors(ss), ","), ',')) == ss
  {
    hide LowerName, Entry;
    var ts := RenderSelectors(ss);
    if ss == [] {
      EmptyEntry();
    } else {
      forall t | t in ts ensures ',' !in t {
        var i :| 0 <= i < |ss| && t == RenderSelector(ss[i]);
        EntryOfRendered(ss[i]);
      }
      SplitJoin(ts, ',');
      SelectedOfRendered(ss);
    }
  }

  lemma EmptyEntry()
    ensures Selected(Split("", ',')) == []
  {
    assert Split("", ',') == [""];
  }
}
