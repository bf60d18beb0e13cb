/**
 * Package-list text: one name a line, '#' comments, first occurrence wins.
 */
module PackageText {
  import opened Text

  // ------------------------------------------------------- ordered set of names

  function AddNew(acc: seq<string>, name: string): seq<string> {
    if name in acc then acc else acc + [name]
  }

  /** Appends the names not there yet, in order. */
  function AddAll(acc: seq<string>, names: seq<string>): seq<string>
    decreases |names|
  {
    if names == [] then acc else AddAll(AddNew(acc, names[0]), names[1..])
  }

  ghost predicate NoDuplicates(xs: seq<string>) {
    forall i, j :: 0 <= i < j < |xs| ==> xs[i] != xs[j]
  }

  lemma {:induction false} AddAllContents(acc: seq<string>, names: seq<string>)
    requires NoDuplicates(acc)
    ensures acc <= AddAll(acc, names) && NoDuplicates(AddAll(acc, names))
    ensures forall x :: x in AddAll(acc, names) <==> x in acc || x in names
    decreases |names|
  {
    if names != [] {
      AddNewContents(acc, names[0]);
      hide AddNew, NoDuplicates;
      AddAllContents(AddNew(acc, names[0]), names[1..]);
      assert names == [names[0]] + names[1..];
    }
  }

  lemma AddNewContents(acc: seq<string>, x: string)
    requires NoDuplicates(acc)
    ensures acc <= AddNew(acc, x) && NoDuplicates(AddNew(acc, x))
    ensures forall y :: y in AddNew(acc, x) <==> y in acc || y == x
  {
  }

  lemma {:induction false} AddAllKnown(acc: seq<string>, names: seq<string>)
    requires forall x :: x in names ==> x in acc
    ensures AddAll(acc, names) == acc
  {
    if names != [] {
      assert names[0] in acc;
      AddAllKnown(acc, names[1..]);
    }
  }

  lemma {:induction false} AddAllFresh(acc: seq<string>, names: seq<string>)
    requires NoDuplicates(acc + names)
    ensures AddAll(acc, names) == acc + names
    decreases |names|
  {
    if names == [] {
      assert acc + names == acc;
    } else {
      var all := acc + names;
      assert all[|acc|] == names[0];
      assert forall i :: 0 <= i < |acc| ==> all[i] == acc[i];
      assert names == [names[0]] + names[1..];
      Assoc(acc, [names[0]], names[1..]);
      AddAllFresh(acc + [names[0]], names[1..]);
    }
  }

  lemma {:induction false} AddAllConcat(acc: seq<string>, a: seq<string>, b: seq<string>)
    ensures AddAll(acc, a + b) == AddAll(AddAll(acc, a), b)
    decreases |a|
  {
    if a == [] {
      assert a + b == b;
    } else {
      assert (a + b)[1..] == a[1..] + b;
      AddAllConcat(AddNew(acc, a[0]), a[1..], b);
    }
  }

  method MergeNames(existing: seq<string>, packages: seq<string>) returns (final: seq<string>)
    ensures final == AddAll(existing, packages)
  {
    final := existing;
    var seen := set n | n in final;
    for i := 0 to |packages|
      invariant AddAll(final, packages[i..]) == AddAll(existing, packages)
      invariant forall x :: x in seen <==> x in final
    {
      assert packages[i..][0] == packages[i] && packages[i..][1..] == packages[i + 1..];
      if packages[i] !in seen {
        final := final + [packages[i]];
        seen := seen + {packages[i]};
      }
    }
  }

  // ------------------------------------------------------------------ parsing

  /** The name on a line: the text before the first '#', trimmed; empty when there is none. */
  function NameOn(line: string): string {
    Strip(line[..Index(line, '#')])
  }

  function NamesOn(lines: seq<string>): seq<string> {
    if lines == [] then []
    else (if NameOn(lines[0]) == "" then [] else [NameOn(lines[0])]) + NamesOn(lines[1..])
  }

  function ParseLines(lines: seq<string>): seq<string> {
    AddAll([], NamesOn(lines))
  }

  function ParsePackages(text: string): seq<string> {
    ParseLines(SplitLines(text))
  }

  method ParsePackagesText(text: string) returns (names: seq<string>)
    ensures names == ParsePackages(text)
  {
    names := [];
    if text == "" {
      return;
    }
    var seen: set<string> := {};
    var lines := SplitLines(text);
    for i := 0 to |lines|
      invariant AddAll(names, NamesOn(lines[i..])) == ParsePackages(text)
      invariant forall x :: x in seen <==> x in names
    {
      assert lines[i..][0] == lines[i] && lines[i..][1..] == lines[i + 1..];
      var line := lines[i];
      ghost var on := NamesOn(lines[i..]);
      ghost var rest := NamesOn(lines[i + 1..]);
      var name := NameOn(line);
      if name == "" {
        assert on == rest;
        continue;
      }
      assert on == [name] + rest && on[1..] == rest;
      if name in seen {
        continue;
      }
      seen := seen + {name};
      names := names + [name];
    }
  }

  // --------------------------------------------------------------- what it gives

  /** A name as the parser gives it: not empty, trimmed, on one line, no comment. */
  predicate IsName(n: string) {
    n != "" && Trimmed(n) && OneLine(n) && '#' !in n
  }

  lemma NameOnShape(line: string)
    requires OneLine(line) && NameOn(line) != ""
    ensures IsName(NameOn(line))
  {
    var s := line[..Index(line, '#')];
    StripTrimmed(s);
    StripOneLine(s);
    var w1, w2 := StripParts(s);
    assert forall i :: 0 <= i < |Strip(s)| ==> s[|w1| + i] == Strip(s)[i];
  }

  ghost predicate NameOnSome(lines: seq<string>, n: string) {
    exists i :: 0 <= i < |lines| && NameOn(lines[i]) == n
  }

  lemma NameOnFirst(lines: seq<string>, n: string)
    requires lines != []
    ensures NameOnSome(lines, n) <==> NameOn(lines[0]) == n || NameOnSome(lines[1..], n)
  {
    hide NameOn;
    var more := lines[1..];
    assert forall i :: 0 <= i < |more| ==> more[i] == lines[i + 1];
    assert forall i :: 1 <= i < |lines| ==> lines[i] == more[i - 1];
  }

  lemma {:induction false} NamesOnContents(lines: seq<string>)
    requires AllOneLine(lines)
    ensures forall n :: n in NamesOn(lines) <==> n != "" && NameOnSome(lines, n)
    ensures forall n :: n in NamesOn(lines) ==> IsName(n)
  {
    if lines != [] {
      NamesOnContents(lines[1..]);
      if NameOn(lines[0]) != "" {
        NameOnShape(lines[0]);
      }
      hide NameOn, NameOnSome, IsName;
      forall n ensures n in NamesOn(lines) <==> n != "" && NameOnSome(lines, n) {
        NameOnFirst(lines, n);
      }
    }
  }

  /** The parse holds each name of the text once, every one trimmed and free of comments. */
  lemma ParseContents(text: string)
    ensures NoDuplicates(ParsePackages(text))
    ensures forall n :: n in ParsePackages(text) ==> IsName(n)
    ensures forall n :: n in ParsePackages(text) <==> n != "" && NameOnSome(SplitLines(text), n)
  {
    var lines := SplitLines(text);
    NamesOnContents(lines);
    AddAllContents([], NamesOn(lines));
    hide NameOnSome, NamesOn, AddAll, IsName, NoDuplicates;
  }

  /** The first line with this name, or the number of lines. */
  function FirstLine(lines: seq<string>, n: string): nat {
    if lines == [] || NameOn(lines[0]) == n then 0 else 1 + FirstLine(lines[1..], n)
  }

  lemma {:induction false} NamesOnAppend(a: seq<string>, b: seq<string>)
    ensures NamesOn(a + b) == NamesOn(a) + NamesOn(b)
  {
    hide NameOn;
    if a == [] {
      assert a + b == b;
    } else {
      assert (a + b)[0] == a[0] && (a + b)[1..] == a[1..] + b;
      NamesOnAppend(a[1..], b);
    }
  }

  lemma {:induction false} FirstLineBound(lines: seq<string>, n: string)
    ensures FirstLine(lines, n) <= |lines|
    ensures FirstLine(lines, n) < |lines| ==> NameOn(lines[FirstLine(lines, n)]) == n
    ensures forall i :: 0 <= i < FirstLine(lines, n) ==> NameOn(lines[i]) != n
  {
    if lines != [] && NameOn(lines[0]) != n {
      FirstLineBound(lines[1..], n);
      assert forall i :: 1 <= i < FirstLine(lines, n) ==> lines[i] == lines[1..][i - 1];
    }
  }

  lemma FirstLineAppend(a: seq<string>, b: seq<string>, n: string)
    requires FirstLine(a, n) < |a|
    ensures FirstLine(a + b, n) == FirstLine(a, n)
  {
    FirstLineBound(a, n);
    FirstLineBound(a + b, n);
    assert forall i :: 0 <= i < |a| ==> (a + b)[i] == a[i];
  }

  ghost predicate InFirstOrder(lines: seq<string>, names: seq<string>) {
    forall i, j :: 0 <= i < j < |names| ==> FirstLine(lines, names[i]) < FirstLine(lines, names[j])
  }

  lemma {:induction false} FirstLineFound(lines: seq<string>, n: string)
    requires n in NamesOn(lines)
    ensures FirstLine(lines, n) < |lines|
  {
    if NameOn(lines[0]) != n {
      FirstLineFound(lines[1..], n);
    }
  }

  lemma OrderExtends(before: seq<string>, line: string, was: seq<string>)
    requires InFirstOrder(before, was)
    requires forall i :: 0 <= i < |was| ==> FirstLine(before, was[i]) < |before|
    ensures InFirstOrder(before + [line], was)
    ensures forall i :: 0 <= i < |was| ==> FirstLine(before + [line], was[i]) < |before|
  {
    forall i | 0 <= i < |was|
      ensures FirstLine(before + [line], was[i]) == FirstLine(before, was[i])
    {
      FirstLineAppend(before, [line], was[i]);
    }
  }

  lemma LastLineFirst(before: seq<string>, line: string)
    requires NameOn(line) != "" && NameOn(line) !in NamesOn(before) && AllOneLine(before)
    ensures FirstLine(before + [line], NameOn(line)) == |before|
  {
    var lines, n := before + [line], NameOn(line);
    NamesOnContents(before);
    FirstLineBound(lines, n);
    assert lines[|before|] == line;
    assert forall i :: 0 <= i < |before| ==> lines[i] == before[i];
  }

  /** The order of the parse is the order of first occurrences in the text. */
  lemma {:induction false} ParseOrder(lines: seq<string>)
    requires AllOneLine(lines)
    ensures InFirstOrder(lines, ParseLines(lines))
    decreases |lines|
  {
    if lines != [] {
      var before, line := lines[..|lines| - 1], lines[|lines| - 1];
      assert lines == before + [line];
      ParseOrder(before);
      var was, n := ParseLines(before), NameOn(line);
      AddAllContents([], NamesOn(before));
      forall i | 0 <= i < |was| ensures FirstLine(before, was[i]) < |before| {
        assert was[i] in was;
        FirstLineFound(before, was[i]);
      }
      OrderExtends(before, line, was);
      NamesOnAppend(before, [line]);
      AddAllConcat([], NamesOn(before), NamesOn([line]));
      hide NameOn, FirstLine, AllOneLine;
      assert NamesOn([line]) == if n == "" then [] else [n];
      assert ParseLines(lines) == if n == "" then was else AddNew(was, n);
      if n != "" && n !in was {
        LastLineFirst(before, line);
      }
    }
  }

  lemma NameOnName(n: string)
    requires IsName(n)
    ensures NameOn(n) == n
  {
    assert n[..Index(n, '#')] == n;
    StripTrimmed(n);
  }

  lemma {:induction false} NamesOnNames(names: seq<string>)
    requires forall i :: 0 <= i < |names| ==> IsName(names[i])
    ensures NamesOn(names) == names
  {
    if names != [] {
      NameOnName(names[0]);
      NamesOnNames(names[1..]);
    }
  }

  /** Lines that are names, whatever they are joined from, read back as themselves. */
  lemma ReadNames(names: seq<string>)
    requires NoDuplicates(names) && forall i :: 0 <= i < |names| ==> IsName(names[i])
    ensures ParseLines(names) == names
  {
    NamesOnNames(names);
    assert [] + names == names;
    AddAllFresh([], names);
  }

  lemma {:induction false} SplitJoin(ls: seq<string>)
    requires AllOneLine(ls) && (ls != [] ==> ls[|ls| - 1] != "")
    ensures SplitLines(Join("\n", ls)) == ls
  {
    if ls == [] {
    } else if |ls| == 1 {
      assert Index(ls[0], '\n') == |ls[0]|;
    } else {
      SplitJoin(ls[1..]);
      assert Join("\n", ls) == ls[0] + "\n" + Join("\n", ls[1..]);
      SplitLinesCons(ls[0], Join("\n", ls[1..]));
    }
  }

  /** Rendering the parsed names one a line and parsing again changes nothing. */
  lemma ParseJoined(text: string)
    ensures ParsePackages(Join("\n", ParsePackages(text))) == ParsePackages(text)
  {
    var names := ParsePackages(text);
    ParseContents(text);
    assert forall i :: 0 <= i < |names| ==> names[i] in names && IsName(names[i]);
    SplitJoin(names);
    ReadNames(names);
  }

  // ---------------------------------------------------------------- as text

  /** A line of the list: white space, a name or nothing, white space, and a comment or nothing. */
  datatype Entry = Entry(indent: string, name: string, gap: string, comment: string)

  predicate EntryOk(e: Entry) {
    && AllSpace(e.indent) && AllSpace(e.gap) && Trimmed(e.name) && '#' !in e.name
    && (e.comment != "" ==> e.comment[0] == '#')
    && OneLine(e.indent) && OneLine(e.name) && OneLine(e.gap) && OneLine(e.comment)
  }

  function EntryText(e: Entry): string {
    e.indent + e.name + e.gap + e.comment
  }

  /** A comment behind a name is cut off, and so is the white space around the name. */
  lemma NameRead(e: Entry)
    requires EntryOk(e)
    ensures NameOn(EntryText(e)) == e.name && OneLine(EntryText(e))
  {
    var front := e.indent + e.name + e.gap;
    var line := front + e.comment;
    assert !IsSpace('#');
    assert '#' !in front;
    assert forall i :: 0 <= i < |front| ==> line[i] == front[i];
    assert e.comment != "" ==> line[|front|] == '#';
    assert Index(line, '#') == |front|;
    assert line[..|front|] == front;
    hide Strip, IsSpace, IndexFrom;
    StripPadded(e.indent, e.name, e.gap);
  }

  function EntryTexts(es: seq<Entry>): seq<string> {
    if es == [] then [] else [EntryText(es[0])] + EntryTexts(es[1..])
  }

  /** The names of the lines that have one. */
  function EntryNames(es: seq<Entry>): seq<string> {
    if es == [] then [] else (if es[0].name == "" then [] else [es[0].name]) + EntryNames(es[1..])
  }

  lemma {:induction false} EntriesRead(es: seq<Entry>)
    requires forall i :: 0 <= i < |es| ==> EntryOk(es[i])
    ensures NamesOn(EntryTexts(es)) == EntryNames(es) && AllOneLine(EntryTexts(es))
  {
    if es != [] {
      assert EntryOk(es[0]);
      NameRead(es[0]);
      hide EntryOk, EntryText, NameOn, OneLine;
      EntriesRead(es[1..]);
    }
  }

  /** A list in any layout reads as its names, each once, in order. */
  lemma TextRead(es: seq<Entry>)
    requires forall i :: 0 <= i < |es| ==> EntryOk(es[i])
    ensures ParsePackages(Unlines(EntryTexts(es))) == AddAll([], EntryNames(es))
  {
    EntriesRead(es);
    SplitUnlines(EntryTexts(es), "");
    assert Unlines(EntryTexts(es)) + "" == Unlines(EntryTexts(es));
    assert EntryTexts(es) + [] == EntryTexts(es);
  }

  /** One more name goes to the end unless it is there already. */
  lemma OneMoreName(acc: seq<string>, names: seq<string>, x: string)
    requires NoDuplicates(acc)
    ensures AddAll(acc, []) == acc
    ensures AddAll(acc, names + [x])
         == if x in acc || x in names then AddAll(acc, names) else AddAll(acc, names) + [x]
  {
    AddAllConcat(acc, names, [x]);
    AddAllContents(acc, names);
    hide NoDuplicates;
    assert [x][1..] == [];
  }
}
