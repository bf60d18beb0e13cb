/** What the mkosi reader and writer do to a conf, as text. */
module MkosiText {
  import opened Text
  import opened PackageText
  import opened Mkosi
  import opened MkosiLaws
  import opened LegacyMkosi

  // ------------------------------------------------------------- single lines

  /** A header starts with one bracket and ends with the other. */
  lemma HeaderIs(line: string)
    ensures IsHeader(line) <==> |line| >= 2 && line == "[" + (line[1..|line| - 1] + "]")
  {
    if IsHeader(line) {
      assert |line| >= 2;
      assert line == [line[0]] + (line[1..|line| - 1] + [line[|line| - 1]]);
    }
  }

  lemma NoHeaderThere(w: string, value: string)
    requires AllSpace(w)
    ensures !IsHeader(w + (KEY + value))
  {
    var line := w + (KEY + value);
    assert KEY[0] == 'P' && !IsSpace('[');
    assert line[0] == if w == "" then 'P' else w[0];
  }

  lemma KeyThere(w: string, value: string)
    requires AllSpace(w)
    ensures IsKeyLine(w + (KEY + value))
  {
    assert KEY[0] == 'P' && KEY[|KEY| - 1] == '=' && !IsSpace('P') && !IsSpace('=');
    StripKeepsBeginning(KEY, value);
    hide Strip, IsSpace;
    StripLeadingSpaces(w, KEY + value);
  }

  lemma ValueThere(w: string, value: string)
    requires AllSpace(w)
    ensures AfterEquals(w + (KEY + value)) == value
  {
    assert !IsSpace('=') && '=' !in w && '=' !in "Packages";
    var front := w + "Packages";
    hide IndexFrom, IsSpace, AllSpace;
    assert w + (KEY + value) == front + ['='] + value;
    IndexAppend(front, '=', value);
    assert (front + ['='] + value)[|front| + 1..] == value;
  }

  /** The key may be indented, and its value is what follows its equals sign. */
  lemma KeyLineRead(w: string, value: string)
    requires AllSpace(w)
    ensures var line := w + (KEY + value); !IsHeader(line) && IsKeyLine(line) && AfterEquals(line) == value
  {
    hide IsHeader, IsKeyLine, AfterEquals;
    NoHeaderThere(w, value);
    KeyThere(w, value);
    ValueThere(w, value);
  }

  // ------------------------------------------------------------------ the reader

  /** The names of continuation lines, one a line, blank lines skipped. */
  function ItemNames(items: seq<string>): seq<string> {
    if items == [] then [] else (if Strip(items[0]) == "" then [] else [Strip(items[0])]) + ItemNames(items[1..])
  }

  /** A line of the section that is no header and not the key. */
  predicate PlainLine(line: string) {
    !IsHeader(line) && !IsKeyLine(line)
  }

  predicate PlainLines(ls: seq<string>) {
    forall i :: 0 <= i < |ls| ==> PlainLine(ls[i])
  }

  /** Blank, or indented. */
  predicate Continues(line: string) {
    line == "" || IsSpace(line[0])
  }

  lemma {:induction false} ForeignReads(ls: seq<string>, f: Flags)
    requires SECTION !in ls && !f.inSection
    ensures TokensFrom(ls, f) == [] && !FlagsAfter(ls, f).inSection
  {
    if ls != [] {
      var g := NextFlags(ls[0], f);
      assert ls[0] in ls && ls[0] != SECTION;
      assert !g.inSection && LineTokens(ls[0], f) == [];
      hide NextFlags, LineTokens, Tokens;
      LineFirst(ls, f);
      ForeignReads(ls[1..], g);
    }
  }

  lemma LineFirst(ls: seq<string>, f: Flags)
    requires ls != []
    ensures TokensFrom(ls, f) == LineTokens(ls[0], f) + TokensFrom(ls[1..], NextFlags(ls[0], f))
  {
    hide Words, IsHeader, IsKeyLine, AfterEquals, Strip;
  }

  lemma {:induction false} BeforeKeyReads(ls: seq<string>)
    requires PlainLines(ls)
    ensures TokensFrom(ls, Flags(true, false)) == [] && FlagsAfter(ls, Flags(true, false)) == Flags(true, false)
  {
    if ls != [] {
      var f := Flags(true, false);
      assert PlainLine(ls[0]);
      assert NextFlags(ls[0], f) == f && LineTokens(ls[0], f) == [];
      hide NextFlags, LineTokens, Tokens, PlainLine;
      LineFirst(ls, f);
      BeforeKeyReads(ls[1..]);
    }
  }

  lemma {:induction false} ItemLinesRead(items: seq<string>)
    requires PlainLines(items) && forall i :: 0 <= i < |items| ==> Continues(items[i])
    ensures TokensFrom(items, Flags(true, true)) == ItemNames(items)
    ensures FlagsAfter(items, Flags(true, true)) == Flags(true, true)
  {
    if items != [] {
      var f := Flags(true, true);
      assert PlainLine(items[0]) && Continues(items[0]);
      assert NextFlags(items[0], f) == f && LineTokens(items[0], f) == NameLine(items[0]);
      hide NextFlags, LineTokens, Tokens, PlainLine, Continues, Strip;
      LineFirst(items, f);
      ItemLinesRead(items[1..]);
    }
  }

  /** After a line that is neither blank nor indented nothing more of the section counts. */
  lemma ClosedReads(ls: seq<string>)
    requires PlainLines(ls) && (ls != [] ==> !Continues(ls[0]))
    ensures TokensFrom(ls, Flags(true, true)) == [] && FlagsAfter(ls, Flags(true, true)).inSection
  {
    if ls != [] {
      var f := Flags(true, true);
      assert PlainLine(ls[0]);
      assert NextFlags(ls[0], f) == Flags(true, false) && LineTokens(ls[0], f) == [];
      hide NextFlags, LineTokens, Tokens, PlainLine;
      LineFirst(ls, f);
      BeforeKeyReads(ls[1..]);
    }
  }

  lemma AfterSectionReads(ls: seq<string>, f: Flags)
    requires SECTION !in ls && f.inSection && (ls != [] ==> IsHeader(ls[0]))
    ensures TokensFrom(ls, f) == []
  {
    if ls != [] {
      assert ls[0] in ls;
      assert NextFlags(ls[0], f) == Flags(false, false) && LineTokens(ls[0], f) == [];
      hide NextFlags, LineTokens, Tokens;
      LineFirst(ls, f);
      ForeignReads(ls[1..], Flags(false, false));
    }
  }

  lemma KeyReads(w: string, value: string)
    requires AllSpace(w)
    ensures var line := w + (KEY + value);
      LineTokens(line, Flags(true, false)) == Words(value) && NextFlags(line, Flags(true, false)) == Flags(true, true)
  {
    KeyLineRead(w, value);
    WordsStrip(value);
    hide IsHeader, IsKeyLine, AfterEquals, Words, Strip;
  }

  /** The body of the section: lines before the key, the key, its items, and what a line without indent cuts off. */
  function Body(other: seq<string>, w: string, inline: string, items: seq<string>, closed: seq<string>): seq<string> {
    other + ([w + (KEY + inline)] + (items + closed))
  }

  ghost predicate BodyOk(other: seq<string>, w: string, items: seq<string>, closed: seq<string>) {
    && AllSpace(w) && PlainLines(other) && PlainLines(items) && PlainLines(closed)
    && (forall i :: 0 <= i < |items| ==> Continues(items[i]))
    && (closed != [] ==> !Continues(closed[0]))
  }

  lemma BodyReads(other: seq<string>, w: string, inline: string, items: seq<string>, closed: seq<string>)
    requires BodyOk(other, w, items, closed)
    ensures TokensFrom(Body(other, w, inline, items, closed), Flags(true, false)) == Words(inline) + ItemNames(items)
    ensures FlagsAfter(Body(other, w, inline, items, closed), Flags(true, false)).inSection
  {
    var key := [w + (KEY + inline)];
    var f, g := Flags(true, false), Flags(true, true);
    BeforeKeyReads(other);
    KeyReads(w, inline);
    ItemLinesRead(items);
    ClosedReads(closed);
    OneLineReads(key[0], f);
    hide Tokens, NextFlags, LineTokens, PlainLine, PlainLines, Continues, Words, ItemNames, FlagsAfter, TokensFrom, AllSpace;
    TokensConcat(items, closed, g);
    assert TokensFrom(items + closed, g) == ItemNames(items) by {
      assert ItemNames(items) + [] == ItemNames(items);
    }
    TokensConcat(key, items + closed, f);
    TokensConcat(other, key + (items + closed), f);
    assert [] + (Words(inline) + ItemNames(items)) == Words(inline) + ItemNames(items);
  }

  lemma OneLineReads(line: string, f: Flags)
    ensures TokensFrom([line], f) == LineTokens(line, f) && FlagsAfter([line], f) == NextFlags(line, f)
  {
    hide NextFlags, LineTokens;
    LineFirst([line], f);
    assert [line][1..] == [] && LineTokens(line, f) + [] == LineTokens(line, f);
  }

  /**
   * A conf with one [Packages] section: the names read are the words behind the
   * key and the trimmed lines that continue it, each once, in order.
   */
  lemma SectionReads(pre: seq<string>, other: seq<string>, w: string, inline: string, items: seq<string>,
                     closed: seq<string>, post: seq<string>)
    requires BodyOk(other, w, items, closed) && SECTION !in pre && SECTION !in post && (post != [] ==> IsHeader(post[0]))
    requires AllOneLine(pre + ([SECTION] + (Body(other, w, inline, items, closed) + post)))
    ensures Read(Unlines(pre + ([SECTION] + (Body(other, w, inline, items, closed) + post))))
         == AddAll([], Words(inline) + ItemNames(items))
  {
    var body := Body(other, w, inline, items, closed);
    var ls := pre + ([SECTION] + (body + post));
    var f, g := Flags(false, false), Flags(true, false);
    TextIsLines(ls);
    assert ls[|pre|] == SECTION;
    LineInText(ls, "", SECTION);
    ForeignReads(pre, f);
    SectionHeaderReads(FlagsAfter(pre, f));
    BodyReads(other, w, inline, items, closed);
    AfterSectionReads(post, FlagsAfter(body, g));
    hide Tokens, FlagsAfter, Words, ItemNames, Body, BodyOk, Contains, Unlines, SplitLines;
    TokensConcat(pre, [SECTION] + (body + post), f);
    TokensConcat([SECTION], body + post, FlagsAfter(pre, f));
    TokensConcat(body, post, g);
    var names := Words(inline) + ItemNames(items);
    assert [] + ([] + (names + [])) == names;
  }

  lemma SectionHeaderReads(f: Flags)
    ensures TokensFrom([SECTION], f) == [] && FlagsAfter([SECTION], f) == Flags(true, false)
  {
    assert IsHeader(SECTION);
    OneLineReads(SECTION, f);
  }

  lemma TextIsLines(ls: seq<string>)
    requires AllOneLine(ls)
    ensures SplitLines(Unlines(ls)) == ls && Unlines(ls) + "" == Unlines(ls)
  {
    SplitUnlines(ls, "");
    assert Unlines(ls) + "" == Unlines(ls) && ls + [] == ls;
  }

  // ------------------------------------------------------------------ the writer

  /** The names a write stores: the given ones, or the old ones and the unseen among the given. */
  function Stored(text: string, packages: seq<string>, append: bool): seq<string> {
    if append then AddAll(Read(text), packages) else packages
  }

  function Breaks(n: nat): string {
    seq(n, _ => '\n')
  }

  /** Two beginnings that end before c, with nothing but c behind them, are the same. */
  lemma SameCut<T>(t: seq<T>, a: seq<T>, b: seq<T>, c: T)
    requires a <= t && b <= t && (a != [] ==> a[|a| - 1] != c) && (b != [] ==> b[|b| - 1] != c)
    requires (forall i :: |a| <= i < |t| ==> t[i] == c) && (forall i :: |b| <= i < |t| ==> t[i] == c)
    ensures a == b
  {
    assert a != [] ==> t[|a| - 1] == a[|a| - 1];
    assert b != [] ==> t[|b| - 1] == b[|b| - 1];
    assert |a| == |b|;
    assert a == t[..|a|] && b == t[..|b|];
  }

  lemma StripBreaksIs(p: string, n: nat)
    requires p != "" ==> p[|p| - 1] != '\n'
    ensures StripBreaks(p + Breaks(n)) == p
  {
    var t := p + Breaks(n);
    assert forall i :: 0 <= i < n ==> t[|p| + i] == Breaks(n)[i];
    assert forall i :: |p| <= i < |t| ==> t[i] == Breaks(n)[i - |p|];
    SameCut(t, StripBreaks(t), p, '\n');
  }

  /** A conf without the section keeps all its text up to its last line breaks; the section goes to the end. */
  lemma AppendedText(p: string, n: nat, packages: seq<string>, append: bool)
    requires (p != "" ==> p[|p| - 1] != '\n') && !Contains(p + Breaks(n), "[Packages]")
    ensures NewText(p + Breaks(n), packages, append)
         == p + "\n\n" + ("[Packages]\n" + ("Packages=" + Join(" ", Stored(p + Breaks(n), packages, append)))) + "\n"
  {
    StripBreaksIs(p, n);
    hide StripBreaks, Breaks, Join, Read, Contains;
    assert SECTION + "\n" == "[Packages]\n";
  }

  /**
   * A conf with one [Packages] section: the new section stands in its place, the
   * lines before and after it are as they were.
   */
  lemma ReplacedInPlace(pre: seq<string>, body: seq<string>, post: seq<string>, packages: seq<string>, append: bool)
    requires AllOneLine(pre) && AllOneLine(body) && AllOneLine(post)
    requires SECTION !in pre && SECTION !in post && (post != [] ==> IsHeader(post[0]))
    requires forall i :: 0 <= i < |body| ==> !IsHeader(body[i])
    ensures var t := Unlines(pre + (["[Packages]"] + (body + post)));
      NewText(t, packages, append)
      == Unlines(pre) + (("[Packages]\n" + ("Packages=" + Join(" ", Stored(t, packages, append)) + "\n")) + Unlines(post))
  {
    var ls := pre + ([SECTION] + (body + post));
    var t := Unlines(ls);
    var value := Join(" ", Stored(t, packages, append));
    assert ls[|pre|] == SECTION;
    LineInText(ls, "", SECTION);
    assert t + "" == t;
    KeepLinesOf(ls, "");
    RewriteOf(ls, "", false, value);
    RewrittenLines(pre, body, post, value);
    NoTail(ls);
    hide Rewrite, RewriteLines, KeepLines, Terminated, Contains, Read, Join, Stored;
    assert NewSection(Stored(t, packages, append)) == SECTION + "\n" + (KEY + value);
    SectionInText(pre, value, post);
  }

  lemma NoTail(ls: seq<string>)
    ensures Terminated(ls) + Tail("") == Terminated(ls) && KeptTail(ls, false, "") == ""
  {
  }

  lemma SectionInText(pre: seq<string>, value: string, post: seq<string>)
    ensures Unlines(pre + ([SECTION, KEY + value] + post)) + ""
         == Unlines(pre) + (("[Packages]\n" + ("Packages=" + value + "\n")) + Unlines(post))
  {
    var two := [SECTION, KEY + value];
    UnlinesAppend(pre, two + post);
    UnlinesAppend(two, post);
    assert two[1..] == [KEY + value] && two[1..][1..] == [];
    assert Unlines(two[1..]) == KEY + value + "\n";
    assert Unlines(two) == "[Packages]\n" + ("Packages=" + value + "\n");
  }

  lemma {:induction false} ForeignLinesKept(ls: seq<string>, value: string)
    requires SECTION !in ls
    ensures RewriteLines(ls, false, value) == ls && !EndsInside(ls, false)
  {
    if ls != [] {
      assert ls[0] in ls && !Inside(ls[0], false);
      hide Inside;
      ForeignLinesKept(ls[1..], value);
    }
  }

  lemma {:induction false} BodyDropped(ls: seq<string>, value: string)
    requires forall i :: 0 <= i < |ls| ==> !IsHeader(ls[i])
    ensures RewriteLines(ls, true, value) == [] && EndsInside(ls, true)
  {
    if ls != [] {
      assert IsHeader(SECTION) && Inside(ls[0], true);
      hide Inside, IsHeader;
      BodyDropped(ls[1..], value);
    }
  }

  lemma RewrittenLines(pre: seq<string>, body: seq<string>, post: seq<string>, value: string)
    requires SECTION !in pre && SECTION !in post && (post != [] ==> IsHeader(post[0]))
    requires forall i :: 0 <= i < |body| ==> !IsHeader(body[i])
    ensures RewriteLines(pre + ([SECTION] + (body + post)), false, value) == pre + ([SECTION, KEY + value] + post)
  {
    ForeignLinesKept(pre, value);
    BodyDropped(body, value);
    PostKept(post, value);
    SectionEmitted(value);
    hide RewriteLines, EndsInside, IsHeader;
    RewriteAppend(pre, [SECTION] + (body + post), false, value);
    RewriteAppend([SECTION], body + post, false, value);
    RewriteAppend(body, post, true, value);
    assert [] + post == post;
  }

  lemma SectionEmitted(value: string)
    ensures RewriteLines([SECTION], false, value) == [SECTION, KEY + value] && EndsInside([SECTION], false)
  {
    assert IsHeader(SECTION) && [SECTION][1..] == [];
    assert [SECTION, KEY + value] + [] == [SECTION, KEY + value];
  }

  lemma PostKept(post: seq<string>, value: string)
    requires SECTION !in post && (post != [] ==> IsHeader(post[0]))
    ensures RewriteLines(post, true, value) == post
  {
    if post != [] {
      assert post[0] in post && !Inside(post[0], true);
      assert Emitted(post[0], true, value) == [post[0]];
      ForeignLinesKept(post[1..], value);
    }
  }

  // --------------------------------------------- the lines of an appended section

  /** The lines but the empty ones at the end. */
  function Content(ls: seq<string>): (r: seq<string>)
    ensures r <= ls && (r != [] ==> r[|r| - 1] != "")
    ensures forall i :: |r| <= i < |ls| ==> ls[i] == ""
  {
    if ls != [] && ls[|ls| - 1] == "" then Content(ls[..|ls| - 1]) else ls
  }

  lemma {:induction false} BreakLines(n: nat)
    ensures |SplitLines(Breaks(n))| == n && forall i :: 0 <= i < n ==> SplitLines(Breaks(n))[i] == ""
  {
    if n > 0 {
      BreakLines(n - 1);
      assert Breaks(n) == "" + "\n" + Breaks(n - 1);
      SplitLinesCons("", Breaks(n - 1));
    }
  }

  lemma ContentIs(p: seq<string>, ls: seq<string>)
    requires p <= ls && (p != [] ==> p[|p| - 1] != "") && forall i :: |p| <= i < |ls| ==> ls[i] == ""
    ensures Content(ls) == p
  {
    SameCut(ls, Content(ls), p, "");
  }

  lemma PaddedParts(full: seq<string>, last: string, n: nat)
    requires AllOneLine(full) && OneLine(last) && last != ""
    ensures Content(SplitLines(Unlines(full) + last + Breaks(n))) == full + [last]
  {
    Assoc(Unlines(full), last, Breaks(n));
    if n == 0 {
      OnlyLines(full, last);
    } else {
      BreakFirst(n);
      hide SplitLines, Unlines, Breaks, OneLine, Content;
      BreaksBehind(full, last, n - 1);
    }
  }

  lemma OnlyLines(full: seq<string>, last: string)
    requires AllOneLine(full) && OneLine(last) && last != ""
    ensures Content(SplitLines(Unlines(full) + (last + Breaks(0)))) == full + [last]
  {
    NoBreaks();
    hide Unlines, Breaks, Content;
    assert last + "" == last;
    SplitUnlines(full, last);
    assert Index(last, '\n') == |last|;
    assert SplitLines(last) == [last];
    hide SplitLines;
    ContentIs(full + [last], full + [last]);
  }

  /** Behind the lines of p come only empty ones. */
  lemma PaddedLines(p: string, n: nat)
    requires p != "" && p[|p| - 1] != '\n'
    ensures Content(SplitLines(p + Breaks(n))) == FullLines(p) + [LastPart(p)]
  {
    TextParts(p);
    LastVisible(p);
    hide FullLines, LastPart, SplitLines, Unlines, Breaks, Content;
    PaddedParts(FullLines(p), LastPart(p), n);
  }

  lemma BreaksBehind(full: seq<string>, last: string, n: nat)
    requires AllOneLine(full) && OneLine(last) && last != ""
    ensures Content(SplitLines(Unlines(full) + (last + ("\n" + Breaks(n))))) == full + [last]
  {
    var ls := SplitLines(Breaks(n));
    BreakLines(n);
    hide SplitLines, Unlines, Breaks, OneLine;
    Assoc(last, "\n", Breaks(n));
    SplitUnlines(full, last + "\n" + Breaks(n));
    SplitLinesCons(last, Breaks(n));
    Assoc(full, [last], ls);
    var all := (full + [last]) + ls;
    assert forall i :: |full| + 1 <= i < |all| ==> all[i] == ls[i - |full| - 1];
    ContentIs(full + [last], all);
  }

  lemma NoBreaks()
    ensures Breaks(0) == ""
  {
  }

  lemma BreakFirst(n: nat)
    requires n > 0
    ensures Breaks(n) == "\n" + Breaks(n - 1)
  {
  }

  lemma {:induction false} LastVisible(p: string)
    requires p != "" && p[|p| - 1] != '\n'
    ensures LastPart(p) != ""
    decreases |p|
  {
    var i := Index(p, '\n');
    if i < |p| {
      var r := p[i + 1..];
      assert r[|r| - 1] == p[|p| - 1];
      LastVisible(r);
    }
  }

  /**
   * Without a section: all lines of the conf but the empty ones at its end, a
   * blank line, and the new section.
   */
  lemma AppendedLines(text: string, packages: seq<string>, append: bool)
    requires !Contains(text, "[Packages]") && AllOneLine(packages)
    ensures var lines := Content(SplitLines(text));
      SplitLines(NewText(text, packages, append))
      == (if lines == [] then [""] else lines)
         + ["", "[Packages]", "Packages=" + Join(" ", Stored(text, packages, append))]
  {
    var p := StripBreaks(text);
    var n := |text| - |p|;
    var final := Stored(text, packages, append);
    assert text == p + Breaks(n);
    FinalOneLine(text, packages, append);
    AddedAtEnd(text, final);
    var value := Join(" ", final);
    if p == "" {
      BreakLines(n);
      assert p + Breaks(n) == Breaks(n);
      ContentIs([], SplitLines(text));
    } else {
      PaddedLines(p, n);
    }
    assert NewText(text, packages, append) == WithSection(text, final);
    assert [SECTION, KEY + value] == ["[Packages]", "Packages=" + value];
    hide StripBreaks, Stored, WithSection, NewText, SplitLines, Content, Join, FullLines, LastPart, Breaks;
    ThreeMore(FullLines(p), LastPart(p), value);
    if p == "" {
      NothingInIt();
    }
  }

  lemma NothingInIt()
    ensures FullLines("") == [] && LastPart("") == ""
  {
  }

  lemma ThreeMore(full: seq<string>, last: string, value: string)
    ensures full + [last, ""] + [SECTION, KEY + value] == (full + [last]) + ["", "[Packages]", "Packages=" + value]
  {
  }
}
