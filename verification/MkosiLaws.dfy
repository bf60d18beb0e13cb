/**
 * Reading back what the mkosi writer wrote, what it leaves alone, and writing twice.
 */
module MkosiLaws {
  import opened Text
  import opened OrderedDict
  import opened PackageText
  import opened Mkosi

  // ------------------------------------------------- the rewriter, line by line

  predicate Inside(line: string, inSection: bool) {
    if IsHeader(line) then line == SECTION else inSection
  }

  /** What one full line becomes. */
  function Emitted(line: string, inSection: bool, value: string): seq<string> {
    if line == SECTION then [SECTION, KEY + value]
    else if Inside(line, inSection) then []
    else [line]
  }

  /** The rewritten full lines; value is what follows "Packages=". */
  function RewriteLines(ls: seq<string>, inSection: bool, value: string): seq<string> {
    if ls == [] then []
    else Emitted(ls[0], inSection, value) + RewriteLines(ls[1..], Inside(ls[0], inSection), value)
  }

  /** Whether the text after ls is still inside a [Packages] section. */
  predicate EndsInside(ls: seq<string>, inSection: bool) {
    if ls == [] then inSection else EndsInside(ls[1..], Inside(ls[0], inSection))
  }

  function KeptTail(ls: seq<string>, inSection: bool, last: string): string {
    if EndsInside(ls, inSection) then "" else last
  }

  function Terminated(ls: seq<string>): seq<string> {
    if ls == [] then [] else [ls[0] + "\n"] + Terminated(ls[1..])
  }

  lemma {:induction false} KeepLinesOf(ls: seq<string>, last: string)
    requires AllOneLine(ls) && OneLine(last)
    ensures KeepLines(Unlines(ls) + last) == Terminated(ls) + Tail(last)
  {
    var t := Unlines(ls) + last;
    if ls == [] {
      assert t == last;
      assert Index(last, '\n') == |last|;
    } else {
      var l, r := ls[0], Unlines(ls[1..]) + last;
      Assoc(l + "\n", Unlines(ls[1..]), last);
      assert t == l + ['\n'] + r;
      IndexAppend(l, '\n', r);
      assert t[..|l| + 1] == l + "\n" && t[|l| + 1..] == r;
      KeepLinesOf(ls[1..], last);
      Assoc([l + "\n"], Terminated(ls[1..]), Tail(last));
    }
  }

  /** With its line break, a line is a header to the rewriter just when it is one to the reader. */
  lemma HeadersAgree(l: string)
    requires OneLine(l)
    ensures IsKeptHeader(l + "\n") <==> IsHeader(l)
    ensures IsHeader(l) ==> (Strip(l + "\n") == SECTION <==> l == SECTION)
  {
    var k := l + "\n";
    if l != "" {
      assert k[|k| - 2..] == [l[|l| - 1], '\n'];
    }
    if IsHeader(l) {
      StripPadded("", l, "\n");
      assert "" + l + "\n" == k;
    }
  }

  lemma TailNoHeader(last: string)
    requires OneLine(last)
    ensures !IsKeptHeader(last)
  {
    if |last| >= 2 {
      assert last[|last| - 2..][1] == last[|last| - 1];
    }
  }

  /** One step of the rewriter writes what the line becomes. */
  lemma RewriteStep(l: string, more: seq<string>, inSection: bool, value: string)
    requires OneLine(l)
    ensures var section := SECTION + "\n" + (KEY + value);
      Rewrite([l + "\n"] + more, inSection, section)
      == Unlines(Emitted(l, inSection, value)) + Rewrite(more, Inside(l, inSection), section)
  {
    HeadersAgree(l);
    assert IsHeader(SECTION);
    assert ([l + "\n"] + more)[1..] == more;
    assert [SECTION, KEY + value] + [] == [SECTION, KEY + value];
    assert Unlines([l]) == l + "\n";
  }

  lemma RewriteTail(last: string, inSection: bool, section: string)
    requires OneLine(last)
    ensures Rewrite(Tail(last), inSection, section) == if inSection then "" else last
  {
    TailNoHeader(last);
    if last != "" {
      assert Tail(last)[1..] == [] && last + "" == last;
    }
  }

  lemma {:induction false} RewriteOf(ls: seq<string>, last: string, inSection: bool, value: string)
    requires AllOneLine(ls) && OneLine(last)
    ensures Rewrite(Terminated(ls) + Tail(last), inSection, SECTION + "\n" + (KEY + value))
         == Unlines(RewriteLines(ls, inSection, value)) + KeptTail(ls, inSection, last)
  {
    hide Rewrite, Inside, Emitted;
    if ls == [] {
      RewriteTail(last, inSection, SECTION + "\n" + (KEY + value));
      assert Terminated(ls) + Tail(last) == Tail(last);
      assert "" + KeptTail(ls, inSection, last) == KeptTail(ls, inSection, last);
    } else {
      var l, rest, inside := ls[0], ls[1..], Inside(ls[0], inSection);
      RewriteOf(rest, last, inside, value);
      Assoc([l + "\n"], Terminated(rest), Tail(last));
      RewriteStep(l, Terminated(rest) + Tail(last), inSection, value);
      var out, lines := Emitted(l, inSection, value), RewriteLines(rest, inside, value);
      UnlinesAppend(out, lines);
      Assoc(Unlines(out), Unlines(lines), KeptTail(rest, inside, last));
    }
  }

  lemma {:induction false} RewriteOneLine(ls: seq<string>, inSection: bool, value: string)
    requires AllOneLine(ls) && OneLine(value)
    ensures AllOneLine(RewriteLines(ls, inSection, value))
  {
    if ls != [] {
      RewriteOneLine(ls[1..], Inside(ls[0], inSection), value);
    }
  }

  // ------------------------------------------------- reading the rewritten lines

  /** The lines outside every [Packages] section. */
  function Outside(ls: seq<string>, inSection: bool): seq<string> {
    if ls == [] then []
    else (if Inside(ls[0], inSection) then [] else [ls[0]]) + Outside(ls[1..], Inside(ls[0], inSection))
  }

  /** Trimming keeps a beginning without white space at its ends. */
  lemma StripKeepsBeginning(p: string, s: string)
    requires p != "" && !IsSpace(p[0]) && !IsSpace(p[|p| - 1])
    ensures p <= Strip(p + s)
  {
    var line := p + s;
    assert line[0] == p[0] && line[|p| - 1] == p[|p| - 1];
    LStripAt("", line);
    assert "" + line == line;
    var e := SpaceStart(line, |line|);
    hide IsSpace, LStrip;
    assert e >= |p|;
    assert line[..e][..|p|] == p;
  }

  lemma KeyLineValue(value: string)
    ensures !IsHeader(KEY + value) && IsKeyLine(KEY + value) && AfterEquals(KEY + value) == value
  {
    var line := KEY + value;
    assert KEY[0] == 'P' && KEY[|KEY| - 1] == '=' && line[0] == 'P';
    StripKeepsBeginning(KEY, value);
    hide Strip, IndexFrom;
    assert KEY == "Packages" + "=";
    Assoc("Packages", "=", value);
    IndexAppend("Packages", '=', value);
    assert line[9..] == value;
  }

  function Copies(n: nat, ws: seq<string>): seq<string> {
    if n == 0 then [] else ws + Copies(n - 1, ws)
  }

  function CountSections(ls: seq<string>): nat {
    if ls == [] then 0 else (if ls[0] == SECTION then 1 else 0) + CountSections(ls[1..])
  }

  lemma HeaderToken(more: seq<string>, inSection: bool, inValue: bool)
    ensures Tokens([SECTION] + more, inSection, inValue) == Tokens(more, true, false)
  {
    var all := [SECTION] + more;
    assert IsHeader(SECTION);
    hide IsHeader, IsKeyLine, Words, Strip;
    assert all[0] == SECTION && all[1..] == more;
  }

  lemma KeyToken(value: string, more: seq<string>, inValue: bool)
    ensures Tokens([KEY + value] + more, true, inValue) == Words(value) + Tokens(more, true, true)
  {
    var all := [KEY + value] + more;
    KeyLineValue(value);
    WordsStrip(value);
    hide IsHeader, IsKeyLine, Words, Strip, AfterEquals;
    assert all[0] == KEY + value && all[1..] == more;
  }

  lemma SectionTokens(value: string, more: seq<string>, inSection: bool, inValue: bool)
    ensures Tokens([SECTION, KEY + value] + more, inSection, inValue) == Words(value) + Tokens(more, true, true)
  {
    hide Tokens, Words;
    HeaderToken([KEY + value] + more, inSection, inValue);
    KeyToken(value, more, false);
    assert [SECTION, KEY + value] + more == [SECTION] + ([KEY + value] + more);
  }

  /** The words one rewritten line contributes. */
  lemma EmittedTokens(l: string, inSection: bool, value: string, more: seq<string>)
    ensures var inside := Inside(l, inSection);
      Tokens(Emitted(l, inSection, value) + more, inSection, inSection)
      == (if l == SECTION then Words(value) else []) + Tokens(more, inside, inside)
  {
    assert IsHeader(SECTION);
    if l == SECTION {
      SectionTokens(value, more, inSection, inSection);
    } else if Inside(l, inSection) {
      assert [] + more == more;
    } else {
      assert ([l] + more)[1..] == more;
    }
  }

  /** Every rewritten section yields the words of the value, and no other rewritten line yields any. */
  lemma {:induction false} RewrittenTokens(ls: seq<string>, inSection: bool, value: string, tail: seq<string>)
    ensures Tokens(RewriteLines(ls, inSection, value) + tail, inSection, inSection)
         == Copies(CountSections(ls), Words(value)) + Tokens(tail, EndsInside(ls, inSection), EndsInside(ls, inSection))
  {
    hide Tokens, Words, Inside, Emitted;
    if ls == [] {
      assert RewriteLines(ls, inSection, value) + tail == tail;
      assert [] + Tokens(tail, inSection, inSection) == Tokens(tail, inSection, inSection);
    } else {
      var l, rest, inside := ls[0], ls[1..], Inside(ls[0], inSection);
      var lines := RewriteLines(rest, inside, value);
      RewrittenTokens(rest, inside, value, tail);
      Assoc(Emitted(l, inSection, value), lines, tail);
      EmittedTokens(l, inSection, value, lines + tail);
      var copies, after := Copies(CountSections(rest), Words(value)), Tokens(tail, EndsInside(rest, inside), EndsInside(rest, inside));
      Assoc(Words(value), copies, after);
      assert [] + (copies + after) == copies + after;
    }
  }

  // -------------------------------------------------------- lines of the new text

  predicate HasSection(text: string) {
    SECTION in FullLines(text)
  }

  lemma {:induction false} JoinOneLine(names: seq<string>)
    requires AllOneLine(names)
    ensures OneLine(Join(" ", names))
  {
    if |names| > 1 {
      JoinOneLine(names[1..]);
    }
  }

  lemma RewrittenParts(text: string, names: seq<string>)
    requires AllOneLine(names) && Contains(text, SECTION)
    ensures var ls, value := FullLines(text), Join(" ", names); var r := WithSection(text, names);
      FullLines(r) == RewriteLines(ls, false, value) && LastPart(r) == KeptTail(ls, false, LastPart(text))
  {
    var ls, last, value := FullLines(text), LastPart(text), Join(" ", names);
    JoinOneLine(names);
    TextParts(text);
    KeepLinesOf(ls, last);
    RewriteOf(ls, last, false, value);
    RewriteOneLine(ls, false, value);
    PartsOf(RewriteLines(ls, false, value), KeptTail(ls, false, last));
  }

  lemma AddedText(p: string, names: seq<string>)
    ensures var ls := FullLines(p) + [LastPart(p), ""] + [SECTION, KEY + Join(" ", names)];
      Unlines(ls) + "" == p + "\n\n" + NewSection(names) + "\n"
  {
    TextParts(p);
    var last, value := LastPart(p), Join(" ", names);
    UnlinesAppend(FullLines(p), [last, ""]);
    assert [last, ""][1..] == [""];
    assert Unlines([""]) == "\n";
    assert Unlines([last, ""]) == last + "\n\n" by { Assoc(last, "\n", "\n"); }
    Assoc(Unlines(FullLines(p)), last, "\n\n");
    UnlinesAppend(FullLines(p) + [last, ""], [SECTION, KEY + value]);
    assert [SECTION, KEY + value] + [] == [SECTION, KEY + value];
    hide Unlines, FullLines, Join;
    Assoc(p + "\n\n", NewSection(names), "\n");
  }

  lemma AddedParts(text: string, names: seq<string>)
    requires AllOneLine(names) && !Contains(text, SECTION)
    ensures var p, value := StripBreaks(text), Join(" ", names); var r := WithSection(text, names);
      FullLines(r) == FullLines(p) + [LastPart(p), ""] + [SECTION, KEY + value] && LastPart(r) == ""
  {
    var p, value := StripBreaks(text), Join(" ", names);
    JoinOneLine(names);
    AddedText(p, names);
    var two := [SECTION, KEY + value];
    assert OneLine(KEY) && OneLine(two[0]) && OneLine(two[1]);
    PartsOf(FullLines(p) + [LastPart(p), ""] + two, "");
  }

  lemma {:induction false} LineInText(ls: seq<string>, last: string, l: string)
    requires l in ls || l == last
    ensures Contains(Unlines(ls) + last, l)
  {
    var t := Unlines(ls) + last;
    if ls == [] {
      assert t == last && l <= t[0..];
    } else {
      var r := Unlines(ls[1..]) + last;
      assert t == ls[0] + "\n" + r;
      if l == ls[0] {
        assert t[0..] == t && l <= t;
      } else {
        LineInText(ls[1..], last, l);
        var i :| 0 <= i <= |r| - |l| && l <= r[i..];
        assert t[|ls[0]| + 1 + i..] == r[i..];
      }
    }
  }

  /** A text without the section name anywhere has no line that is the header. */
  lemma HeaderIsContained(text: string)
    requires SECTION in FullLines(text) || LastPart(text) == SECTION
    ensures Contains(text, SECTION)
  {
    TextParts(text);
    LineInText(FullLines(text), LastPart(text), SECTION);
  }

  lemma PrefixContains(p: string, t: string, sub: string)
    requires p <= t && Contains(p, sub)
    ensures Contains(t, sub)
  {
    var i :| 0 <= i <= |p| - |sub| && sub <= p[i..];
    assert t[i..][..|sub|] == p[i..][..|sub|];
  }

  lemma {:induction false} NoSectionLines(ls: seq<string>, more: seq<string>, value: string)
    requires SECTION !in ls
    ensures RewriteLines(ls, false, value) == ls && !EndsInside(ls, false) && CountSections(ls) == 0
    ensures Tokens(ls + more, false, false) == Tokens(more, false, false)
    ensures Outside(ls, false) == ls
  {
    if ls == [] {
      assert ls + more == more;
    } else {
      NoSectionLines(ls[1..], more, value);
      assert (ls + more)[1..] == ls[1..] + more;
    }
  }

  lemma LastYieldsNothing(last: string, inside: bool)
    ensures inside ==> Tokens(Tail(""), true, true) == []
    ensures Tokens(Tail(last), false, false) == []
  {
    assert last != "" ==> Tail(last)[1..] == [];
  }

  // ------------------------------------------------------------------ read back

  lemma {:induction false} CopiesAdd(n: nat, ws: seq<string>, acc: seq<string>)
    requires NoDuplicates(acc) && forall x :: x in ws ==> x in acc
    ensures AddAll(acc, Copies(n, ws)) == acc
  {
    if n > 0 {
      AddAllConcat(acc, ws, Copies(n - 1, ws));
      AddAllKnown(acc, ws);
      CopiesAdd(n - 1, ws, acc);
    }
  }

  lemma CopiesOnce(n: nat, ws: seq<string>)
    requires n > 0
    ensures AddAll([], Copies(n, ws)) == AddAll([], ws)
  {
    AddAllConcat([], ws, Copies(n - 1, ws));
    AddAllContents([], ws);
    CopiesAdd(n - 1, ws, AddAll([], ws));
  }

  lemma {:induction false} CountPositive(ls: seq<string>)
    ensures CountSections(ls) > 0 <==> SECTION in ls
  {
    if ls != [] {
      CountPositive(ls[1..]);
      assert ls == [ls[0]] + ls[1..];
    }
  }

  lemma {:induction false} RewriteHasSection(ls: seq<string>, inSection: bool, value: string)
    requires SECTION in ls
    ensures SECTION in RewriteLines(ls, inSection, value)
  {
    assert IsHeader(SECTION);
    if ls[0] != SECTION {
      assert ls == [ls[0]] + ls[1..];
      RewriteHasSection(ls[1..], Inside(ls[0], inSection), value);
    }
  }

  lemma ReadRewritten(text: string, names: seq<string>)
    requires AllOneLine(names) && Contains(text, SECTION) && HasSection(text)
    ensures HasSection(WithSection(text, names))
    ensures Read(WithSection(text, names)) == AddAll([], Words(Join(" ", names)))
  {
    var ls, value, r := FullLines(text), Join(" ", names), WithSection(text, names);
    var tail := KeptTail(ls, false, LastPart(text));
    RewrittenParts(text, names);
    TextParts(r);
    RewriteHasSection(ls, false, value);
    HeaderIsContained(r);
    RewrittenTokens(ls, false, value, Tail(tail));
    LastYieldsNothing(tail, EndsInside(ls, false));
    CountPositive(ls);
    CopiesOnce(CountSections(ls), Words(value));
    assert Copies(CountSections(ls), Words(value)) + [] == Copies(CountSections(ls), Words(value));
  }

  lemma ReadAdded(text: string, names: seq<string>)
    requires AllOneLine(names) && !Contains(text, SECTION)
    ensures HasSection(WithSection(text, names))
    ensures Read(WithSection(text, names)) == AddAll([], Words(Join(" ", names)))
  {
    var p, value, r := StripBreaks(text), Join(" ", names), WithSection(text, names);
    var head, two := FullLines(p) + [LastPart(p), ""], [SECTION, KEY + value];
    AddedParts(text, names);
    TextParts(r);
    assert (head + two)[|head|] == SECTION;
    HeaderIsContained(r);
    NoHeadSection(text);
    NoSectionLines(head, two, value);
    SectionTokens(value, [], false, false);
    assert two + [] == two && Words(value) + [] == Words(value);
    assert head + two + [] == head + two;
  }

  lemma NoHeadSection(text: string)
    requires !Contains(text, SECTION)
    ensures var p := StripBreaks(text); SECTION !in FullLines(p) + [LastPart(p), ""]
  {
    var p := StripBreaks(text);
    if SECTION in FullLines(p) || LastPart(p) == SECTION {
      HeaderIsContained(p);
      PrefixContains(p, text, SECTION);
    }
  }

  lemma ReadUntouched(text: string, names: seq<string>)
    requires AllOneLine(names) && Contains(text, SECTION) && !HasSection(text)
    ensures WithSection(text, names) == text && Read(text) == []
  {
    var ls, last := FullLines(text), LastPart(text);
    RewrittenParts(text, names);
    TextParts(text);
    TextParts(WithSection(text, names));
    NoSectionLines(ls, Tail(last), Join(" ", names));
    LastYieldsNothing(last, false);
  }

  /** Names the file format can carry. */
  ghost predicate Storable(names: seq<string>) {
    NoDuplicates(names) && forall i :: 0 <= i < |names| ==> names[i] != "" && NoSpace(names[i])
  }

  /** The section name occurs in the text, but on no line of its own with a line break. */
  predicate NameWithoutSection(text: string) {
    Contains(text, SECTION) && !HasSection(text)
  }

  lemma WordsReadBack(names: seq<string>)
    ensures AddAll([], Words(Join(" ", names))) == names <==> Storable(names)
  {
    var ws := Words(Join(" ", names));
    AddAllContents([], ws);
    if Storable(names) {
      WordsJoin(names);
      assert [] + names == names;
      AddAllFresh([], names);
    }
    if AddAll([], ws) == names {
      forall i | 0 <= i < |names| ensures names[i] != "" && NoSpace(names[i]) {
        assert names[i] in names;
        assert names[i] in ws;
      }
    }
  }

  /**
   * Reading the section back gives exactly the names written if and only if the
   * names can be stored and the section header was found or added, or there were none.
   */
  lemma ReadBack(text: string, names: seq<string>)
    requires AllOneLine(names)
    ensures Read(WithSection(text, names)) == names
       <==> names == [] || (Storable(names) && !NameWithoutSection(text))
  {
    WordsReadBack(names);
    if NameWithoutSection(text) {
      ReadUntouched(text, names);
    } else if Contains(text, SECTION) {
      ReadRewritten(text, names);
    } else {
      ReadAdded(text, names);
    }
    assert names == [] ==> Storable(names);
  }

  // ------------------------------------------------------------- append mode

  lemma {:induction false} TokensOneLine(lines: seq<string>, inSection: bool, inValue: bool)
    requires AllOneLine(lines)
    ensures AllOneLine(Tokens(lines, inSection, inValue))
  {
    if lines != [] {
      var line, rest := lines[0], lines[1..];
      StripOneLine(line);
      hide Strip, Words, AfterEquals, IsHeader, IsKeyLine, IsSpace, OneLine;
      TokensOneLine(rest, line == SECTION, false);
      TokensOneLine(rest, inSection, true);
      TokensOneLine(rest, inSection, false);
    }
  }

  lemma FinalOneLine(text: string, packages: seq<string>, append: bool)
    requires AllOneLine(packages)
    ensures AllOneLine(FinalNames(text, packages, append))
    ensures NoDuplicates(Read(text))
  {
    TokensOneLine(SplitLines(text), false, false);
    AddAllContents([], Tokens(SplitLines(text), false, false));
    var was := Read(text);
    assert forall i :: 0 <= i < |was| ==> was[i] in was;
    AddAllContents(was, packages);
    var final := AddAll(was, packages);
    assert forall i :: 0 <= i < |final| ==> final[i] in final;
  }

  /**
   * The list read back after a write: the new list in replace mode, the old list
   * followed by the unseen names in append mode, under the same exact condition.
   */
  lemma WriteReadsBack(text: string, packages: seq<string>, append: bool)
    requires AllOneLine(packages)
    ensures var final := FinalNames(text, packages, append);
      Read(NewText(text, packages, append)) == final
      <==> final == [] || (Storable(final) && !NameWithoutSection(text))
  {
    FinalOneLine(text, packages, append);
    ReadBack(text, FinalNames(text, packages, append));
  }

  /** What append mode means: the old names keep their places, every new name is there, nothing else is. */
  lemma AppendKeepsOld(text: string, packages: seq<string>)
    requires AllOneLine(packages)
    ensures var final := FinalNames(text, packages, true);
      && Read(text) <= final && NoDuplicates(final)
      && (forall n :: n in final <==> n in Read(text) || n in packages)
  {
    FinalOneLine(text, packages, true);
    AddAllContents(Read(text), packages);
  }

  /** The final list can be stored exactly when the old names and the new ones all can. */
  lemma FinalStorable(text: string, packages: seq<string>)
    requires AllOneLine(packages)
    ensures Storable(FinalNames(text, packages, true))
       <==> Storable(Read(text)) && forall n :: n in packages ==> n != "" && NoSpace(n)
  {
    AppendKeepsOld(text, packages);
    FinalOneLine(text, packages, true);
    var was, final := Read(text), FinalNames(text, packages, true);
    hide NoSpace, AddAll, Tokens;
    if Storable(final) {
      forall n | n in packages ensures n != "" && NoSpace(n) {
        assert n in final;
      }
      assert forall i :: 0 <= i < |was| ==> was[i] == final[i];
    } else {
      var i :| 0 <= i < |final| && (final[i] == "" || !NoSpace(final[i]));
      assert final[i] in final;
    }
  }

  // -------------------------------------------------------------------- frame

  lemma {:induction false} OutsideAppend(a: seq<string>, b: seq<string>, inSection: bool)
    ensures Outside(a + b, inSection) == Outside(a, inSection) + Outside(b, EndsInside(a, inSection))
  {
    hide Inside;
    if a == [] {
      assert a + b == b && [] + Outside(b, inSection) == Outside(b, inSection);
    } else {
      var inside := Inside(a[0], inSection);
      assert (a + b)[1..] == a[1..] + b;
      OutsideAppend(a[1..], b, inside);
      var first := if inside then [] else [a[0]];
      Assoc(first, Outside(a[1..], inside), Outside(b, EndsInside(a[1..], inside)));
    }
  }

  lemma EmittedOutside(l: string, inSection: bool, value: string)
    ensures var out := Emitted(l, inSection, value);
      Outside(out, inSection) == Outside([l], inSection) && EndsInside(out, inSection) == Inside(l, inSection)
  {
    assert IsHeader(SECTION);
    KeyLineValue(value);
    assert [l][1..] == [];
    if l == SECTION {
      var two, key := [SECTION, KEY + value], [KEY + value];
      assert two[1..] == key && key[1..] == [];
      assert Inside(KEY + value, true) && !Inside(KEY + value, false);
      assert Outside(key, true) == [] && EndsInside(key, true);
      assert Outside(two, inSection) == [] && EndsInside(two, inSection);
    }
  }

  lemma {:induction false} RewrittenOutside(ls: seq<string>, inSection: bool, value: string)
    ensures Outside(RewriteLines(ls, inSection, value), inSection) == Outside(ls, inSection)
    ensures EndsInside(RewriteLines(ls, inSection, value), inSection) == EndsInside(ls, inSection)
  {
    if ls != [] {
      var l, rest, inside := ls[0], ls[1..], Inside(ls[0], inSection);
      var out, lines := Emitted(l, inSection, value), RewriteLines(rest, inside, value);
      RewrittenOutside(rest, inside, value);
      EmittedOutside(l, inSection, value);
      OutsideAppend(out, lines, inSection);
      OutsideAppend([l], rest, inSection);
      EndsInsideAppend(out, lines, inSection);
      assert ls == [l] + rest && [l][1..] == [];
    }
  }

  lemma {:induction false} EndsInsideAppend(a: seq<string>, b: seq<string>, inSection: bool)
    ensures EndsInside(a + b, inSection) == EndsInside(b, EndsInside(a, inSection))
  {
    if a == [] {
      assert a + b == b;
    } else {
      assert (a + b)[1..] == a[1..] + b;
      EndsInsideAppend(a[1..], b, Inside(a[0], inSection));
    }
  }

  /** A last line without a line break that closes the section for the reader but not for the rewriter. */
  predicate LosesLastHeader(text: string) {
    EndsInside(FullLines(text), false) && IsHeader(LastPart(text)) && LastPart(text) != SECTION
  }

  /** Every line outside [Packages] survives in order, except exactly when a last foreign header lacks its line break. */
  lemma OutsideSurvives(text: string, names: seq<string>)
    requires AllOneLine(names) && Contains(text, SECTION)
    ensures Outside(SplitLines(WithSection(text, names)), false) == Outside(SplitLines(text), false)
       <==> !LosesLastHeader(text)
  {
    var ls, last, value, r := FullLines(text), LastPart(text), Join(" ", names), WithSection(text, names);
    TextParts(text);
    TextParts(r);
    RewrittenParts(text, names);
    RewrittenOutside(ls, false, value);
    OutsideAppend(ls, Tail(last), false);
    OutsideAppend(RewriteLines(ls, false, value), Tail(KeptTail(ls, false, last)), false);
    if last != "" {
      assert Tail(last)[1..] == [];
    }
  }

  /** Without a section the old lines stay as they are, up to their last line breaks, ahead of a blank line and the new section. */
  lemma AddedAtEnd(text: string, names: seq<string>)
    requires AllOneLine(names) && !Contains(text, SECTION)
    ensures StripBreaks(text) <= WithSection(text, names)
    ensures var p := StripBreaks(text);
      SplitLines(WithSection(text, names))
      == FullLines(p) + [LastPart(p), ""] + [SECTION, KEY + Join(" ", names)]
  {
    var p := StripBreaks(text);
    AddedParts(text, names);
    TextParts(WithSection(text, names));
    var ls := FullLines(p) + [LastPart(p), ""] + [SECTION, KEY + Join(" ", names)];
    assert ls + [] == ls;
    Assoc(p + "\n\n", NewSection(names), "\n");
    Assoc(p, "\n\n", NewSection(names) + "\n");
  }

  // ------------------------------------------------------------ writing twice

  lemma EmittedAgain(l: string, inSection: bool, value: string)
    ensures var out := Emitted(l, inSection, value);
      RewriteLines(out, inSection, value) == out
  {
    assert IsHeader(SECTION);
    KeyLineValue(value);
    if l == SECTION {
      var two := [SECTION, KEY + value];
      assert two[1..] == [KEY + value] && two[1..][1..] == [];
      assert Emitted(KEY + value, true, value) == [];
      assert RewriteLines(two[1..], true, value) == [] && two + [] == two;
    } else {
      assert [l][1..] == [];
    }
  }

  lemma {:induction false} RewriteAppend(a: seq<string>, b: seq<string>, inSection: bool, value: string)
    ensures RewriteLines(a + b, inSection, value)
         == RewriteLines(a, inSection, value) + RewriteLines(b, EndsInside(a, inSection), value)
  {
    hide Inside, Emitted;
    if a == [] {
      assert a + b == b;
    } else {
      var inside := Inside(a[0], inSection);
      assert (a + b)[1..] == a[1..] + b;
      RewriteAppend(a[1..], b, inside, value);
      Assoc(Emitted(a[0], inSection, value), RewriteLines(a[1..], inside, value),
            RewriteLines(b, EndsInside(a[1..], inside), value));
    }
  }

  lemma {:induction false} RewriteTwice(ls: seq<string>, inSection: bool, value: string)
    ensures var once := RewriteLines(ls, inSection, value);
      RewriteLines(once, inSection, value) == once && EndsInside(once, inSection) == EndsInside(ls, inSection)
  {
    if ls != [] {
      var l, rest, inside := ls[0], ls[1..], Inside(ls[0], inSection);
      var out, lines := Emitted(l, inSection, value), RewriteLines(rest, inside, value);
      RewriteTwice(rest, inside, value);
      EmittedAgain(l, inSection, value);
      EmittedOutside(l, inSection, value);
      RewriteAppend(out, lines, inSection, value);
      EndsInsideAppend(out, lines, inSection);
    }
  }

  lemma SameSectionAgain(text: string, names: seq<string>)
    requires AllOneLine(names)
    ensures WithSection(WithSection(text, names), names) == WithSection(text, names)
  {
    var value, r := Join(" ", names), WithSection(text, names);
    TextParts(r);
    TextParts(WithSection(r, names));
    if NameWithoutSection(text) {
      ReadUntouched(text, names);
    } else if Contains(text, SECTION) {
      ReadRewritten(text, names);
      HeaderIsContained(r);
      RewrittenParts(text, names);
      RewrittenParts(r, names);
      RewriteTwice(FullLines(text), false, value);
    } else {
      ReadAdded(text, names);
      HeaderIsContained(r);
      AddedParts(text, names);
      RewrittenParts(r, names);
      NoHeadSection(text);
      var p := StripBreaks(text);
      var head, two := FullLines(p) + [LastPart(p), ""], [SECTION, KEY + value];
      NoSectionLines(head, [], value);
      RewriteAppend(head, two, false, value);
      EmittedAgain(SECTION, false, value);
      EndsInsideAppend(head, two, false);
    }
  }

  /** Appending the same storable names again leaves the file as it is, byte for byte. */
  lemma AppendTwice(text: string, packages: seq<string>)
    requires AllOneLine(packages) && Storable(FinalNames(text, packages, true))
    ensures var once := NewText(text, packages, true); NewText(once, packages, true) == once
  {
    var final := FinalNames(text, packages, true);
    FinalOneLine(text, packages, true);
    if NameWithoutSection(text) {
      ReadUntouched(text, final);
    } else {
      ReadBack(text, final);
      AppendKeepsOld(text, packages);
      AddAllKnown(final, packages);
      SameSectionAgain(text, final);
    }
  }
}
