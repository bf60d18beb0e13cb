/** What cockpit.conf says, line by line, in any layout the patterns allow. */
module ConfText {
  import opened Text
  import opened OrderedDict
  import opened CockpitConf
  import opened ConfLaws

  // ------------------------------------------------------------- one line

  /** A key: not empty, without white space and equals sign. */
  predicate KeyToken(k: string) {
    k != "" && NoSpace(k) && '=' !in k
  }

  /** A key and a value, amid any white space. */
  lemma KeyValueReads(w: string, k: string, w1: string, w2: string, v: string)
    requires AllSpace(w) && KeyToken(k) && AllSpace(w1) && AllSpace(w2)
    ensures KeyValue(w + (k + (w1 + ("=" + (w2 + v))))) == Some((k, Strip(v)))
  {
    var value := "=" + (w2 + v);
    var rest := w1 + value;
    var s := k + rest;
    assert s[0] == k[0] && value[0] == '=' && !IsSpace('=');
    assert rest[0] == if w1 != "" then w1[0] else '=';
    assert forall i :: 0 <= i < |k| ==> KeyChar(k[i]) by {
      assert forall i :: 0 <= i < |k| ==> k[i] in k;
    }
    LStripAt(w, s);
    KeyEndAt(k, rest);
    hide LStrip, Strip;
    assert s[..|k|] == k && s[|k|..] == rest;
    LStripAt(w1, value);
    assert value[1..] == w2 + v;
    StripLeadingSpaces(w2, v);
  }

  lemma LStripParts(s: string) returns (w: string)
    ensures s == w + LStrip(s) && AllSpace(w)
  {
    w := s[..SpaceEnd(s, 0)];
  }

  lemma KeyParts(s: string) returns (k: string, tail: string)
    ensures var n := KeyEnd(s, 0); k == s[..n] && tail == s[n..] && s == k + tail && NoSpace(k) && '=' !in k
  {
    var n := KeyEnd(s, 0);
    k, tail := s[..n], s[n..];
    assert forall i :: 0 <= i < n ==> KeyChar(s[i]) && k[i] == s[i];
  }

  lemma KeyValueIs(line: string)
    requires KeyValue(line).Some?
    ensures
      var s := LStrip(line);
      var n := KeyEnd(s, 0);
      var rest := LStrip(s[n..]);
      n > 0 && rest != "" && rest[0] == '=' && KeyValue(line) == Some((s[..n], Strip(rest[1..])))
  {
    hide LStrip, Strip, KeyEnd;
  }

  /** Only such lines hold a key and a value. */
  lemma KeyValueOnly(line: string) returns (w: string, k: string, w1: string, v: string)
    requires KeyValue(line).Some?
    ensures line == w + (k + (w1 + ("=" + v))) && AllSpace(w) && KeyToken(k) && AllSpace(w1)
    ensures KeyValue(line) == Some((k, Strip(v)))
  {
    KeyValueIs(line);
    hide KeyValue, LStrip, Strip, KeyEnd, NoSpace, AllSpace;
    var tail;
    w := LStripParts(line);
    k, tail := KeyParts(LStrip(line));
    w1 := LStripParts(tail);
    v := AfterSign(LStrip(tail));
  }

  lemma AfterSign(rest: string) returns (v: string)
    requires rest != "" && rest[0] == '='
    ensures rest == "=" + v && v == rest[1..]
  {
    v := rest[1..];
  }

  /** A bracketed name, with nothing but white space behind it. */
  lemma HeaderReads(n: string, w: string)
    requires n != "" && ']' !in n && AllSpace(w)
    ensures HeaderName("[" + (n + ("]" + w))) == Some(n)
  {
    var body := n + ("]" + w);
    var line := "[" + body;
    assert line[0] == '[' && line[1..] == body;
    assert body == n + [']'] + w;
    IndexAppend(n, ']', w);
    hide IndexFrom, AllSpace;
    assert body[..|n|] == n && body[|n| + 1..] == w;
  }

  /** Only such lines are headers. */
  lemma HeaderOnly(line: string) returns (n: string, w: string)
    requires HeaderName(line).Some?
    ensures line == "[" + (n + ("]" + w)) && n != "" && ']' !in n && AllSpace(w) && HeaderName(line) == Some(n)
  {
    var body := line[1..];
    var j := Index(body, ']');
    n := body[..j];
    w := body[j + 1..];
    assert body == n + ("]" + w);
    assert line == "[" + body;
  }

  lemma BlankLineIgnored(line: string)
    requires AllSpace(line)
    ensures Classify(line) == Ignored
  {
    StripAllSpace(line);
  }

  lemma CommentIgnored(w: string, c: char, rest: string)
    requires AllSpace(w) && (c == '#' || c == ';')
    ensures Classify(w + ([c] + rest)) == Ignored
  {
    var s := [c] + rest;
    assert s[0] == c && !IsSpace(c);
    LStripAt(w, s);
  }

  lemma HeaderLineRead(n: string, w: string)
    requires n != "" && ']' !in n && AllSpace(w)
    ensures Classify("[" + (n + ("]" + w))) == Header(n)
  {
    var line := "[" + (n + ("]" + w));
    HeaderReads(n, w);
    assert line[0] == '[' && !IsSpace('[');
    StripAllSpace(line);
    LStripAt("", line);
    assert "" + line == line;
  }

  lemma FirstVisible(w: string, s: string)
    requires AllSpace(w) && s != "" && !IsSpace(s[0])
    ensures LStrip(w + s) == s && Strip(w + s) != ""
    ensures w != "" ==> (w + s)[0] != '['
    ensures w == "" ==> w + s == s
  {
    StripVisible(w, s);
    assert w != "" ==> (w + s)[0] == w[0];
  }

  lemma ClassifyEntry(line: string, k: string, v: string)
    requires line != "" && line[0] != '[' && Strip(line) != "" && LStrip(line) != ""
    requires LStrip(line)[0] != '#' && LStrip(line)[0] != ';' && KeyValue(line) == Some((k, v))
    ensures Classify(line) == Entry(k, v)
  {
    hide KeyValue, LStrip, Strip;
  }

  /** A key and a value, unless the line is a comment or a header. */
  lemma EntryLineRead(w: string, k: string, w1: string, w2: string, v: string)
    requires AllSpace(w) && KeyToken(k) && k[0] != '#' && k[0] != ';' && AllSpace(w1) && AllSpace(w2)
    requires w != "" || k[0] != '['
    ensures Classify(w + (k + (w1 + ("=" + (w2 + v))))) == Entry(k, Strip(v))
  {
    var s := k + (w1 + ("=" + (w2 + v)));
    KeyValueReads(w, k, w1, w2, v);
    assert s[0] == k[0];
    hide KeyValue, IsSpace, LStrip, Strip, AllSpace, Classify;
    FirstVisible(w, s);
    hide KeyToken, NoSpace;
    ClassifyEntry(w + s, k, Strip(v));
  }

  // ---------------------------------------------------- one line more in a file

  function ParseLines(lines: seq<string>): Conf {
    ParseFrom(lines, [], "", [])
  }

  /** The name in the last header, empty when there is none. */
  function OpenSection(lines: seq<string>): string {
    if lines == [] then ""
    else
      var k := |lines| - 1;
      if Classify(lines[k]).Header? then Classify(lines[k]).name else OpenSection(lines[..k])
  }

  datatype Reading = Reading(acc: Conf, name: string, cur: Section)

  function ReadOne(r: Reading, line: string): Reading {
    match Classify(line)
    case Ignored => r
    case Header(n) => Reading(Commit(r.acc, r.name, r.cur), n, [])
    case Entry(k, v) => if r.name != "" then r.(cur := Put(r.cur, k, v)) else r
  }

  function ReadAll(lines: seq<string>): Reading {
    if lines == [] then Reading([], "", []) else ReadOne(ReadAll(lines[..|lines| - 1]), lines[|lines| - 1])
  }

  lemma ParseFirst(lines: seq<string>, r: Reading)
    requires lines != []
    ensures var q := ReadOne(r, lines[0]); ParseFrom(lines, r.acc, r.name, r.cur) == ParseFrom(lines[1..], q.acc, q.name, q.cur)
  {
    hide Classify, Commit;
  }

  lemma {:induction false} ParseFromRest(lines: seq<string>, i: nat)
    requires i <= |lines|
    ensures var r := ReadAll(lines[..i]); ParseFrom(lines[i..], r.acc, r.name, r.cur) == ParseLines(lines)
  {
    if i == 0 {
      assert lines[..0] == [] && lines[0..] == lines;
    } else {
      ParseFromRest(lines, i - 1);
      var before, line := lines[..i - 1], lines[i - 1];
      assert lines[..i][..i - 1] == before && lines[..i][i - 1] == line;
      assert ReadAll(lines[..i]) == ReadOne(ReadAll(before), line);
      hide ReadOne, ReadAll, ParseFrom;
      ParseFirst(lines[i - 1..], ReadAll(before));
      assert lines[i - 1..][0] == line && lines[i - 1..][1..] == lines[i..];
    }
  }

  lemma ParseIsRead(lines: seq<string>)
    ensures var r := ReadAll(lines); ParseLines(lines) == Commit(r.acc, r.name, r.cur)
  {
    ParseFromRest(lines, |lines|);
    assert lines[..|lines|] == lines && lines[|lines|..] == [];
  }

  lemma {:induction false} OpenIsName(lines: seq<string>)
    ensures ReadAll(lines).name == OpenSection(lines)
  {
    hide Classify, Commit;
    if lines != [] {
      OpenIsName(lines[..|lines| - 1]);
    }
  }

  lemma CommitAgain(acc: Conf, n: string, cur: Section, next: Section)
    requires n != ""
    ensures SectionOf(Commit(acc, n, cur), n) == cur
    ensures Put(Commit(acc, n, cur), n, next) == Commit(acc, n, next)
  {
    PutAt(acc, n, cur);
    PutTwice(acc, n, cur, next);
    var i, r := Find(acc, n), Put(acc, n, cur);
    assert forall j :: 0 <= j < i ==> r[j].0 != n;
    assert Find(r, n) == i;
  }

  /**
   * What one more line makes of a file: nothing, a section of the name, emptied
   * when it was there already, or a key set in the section of the last header,
   * where the last value wins.
   */
  lemma OneMoreLine(lines: seq<string>, line: string)
    ensures Classify(line).Ignored? ==> ParseLines(lines + [line]) == ParseLines(lines)
    ensures Classify(line).Header? && Classify(line).name != "" ==>
      ParseLines(lines + [line]) == Put(ParseLines(lines), Classify(line).name, [])
    ensures Classify(line).Entry? ==>
      ParseLines(lines + [line]) ==
      if OpenSection(lines) == "" then ParseLines(lines)
      else SetKey(ParseLines(lines), OpenSection(lines), Classify(line).key, Classify(line).val)
  {
    var all, r := lines + [line], ReadAll(lines);
    assert all[..|all| - 1] == lines && all[|all| - 1] == line;
    assert ReadAll(all) == ReadOne(r, line);
    ParseIsRead(lines);
    ParseIsRead(all);
    OpenIsName(lines);
    hide Classify, ReadAll, ParseLines, OpenSection;
    match Classify(line)
    case Ignored =>
    case Header(n) =>
    case Entry(k, v) =>
      if r.name != "" {
        CommitAgain(r.acc, r.name, r.cur, Put(r.cur, k, v));
      }
  }

  /** An empty file holds nothing. */
  lemma NoLines()
    ensures ParseLines([]) == [] && OpenSection([]) == ""
  {
  }

  // -------------------------------------------------------------- as text

  lemma OneMoreTextLine(ls: seq<string>, line: string)
    requires AllOneLine(ls) && OneLine(line)
    ensures Parse(Unlines(ls)) == ParseLines(ls)
    ensures Parse(Unlines(ls) + line + "\n") == ParseLines(ls + [line])
  {
    LinesOfText(ls);
    LinesOfText(ls + [line]);
    OneLineText(line);
    hide Unlines, SplitLines, OneLine, ParseFrom;
    UnlinesAppend(ls, [line]);
    Assoc(Unlines(ls), line, "\n");
  }

  lemma LinesOfText(ls: seq<string>)
    requires AllOneLine(ls)
    ensures SplitLines(Unlines(ls)) == ls
  {
    SplitUnlines(ls, "");
    assert Unlines(ls) + "" == Unlines(ls) && ls + [] == ls;
  }

  /**
   * An entry line at the end of a file, in any layout, sets its key in the section
   * of the last header and nothing else: the last value of a repeated key wins.
   */
  lemma EntrySets(ls: seq<string>, w: string, k: string, w1: string, w2: string, v: string)
    requires AllOneLine(ls) && OpenSection(ls) != "" && OneLine(w + (k + (w1 + ("=" + (w2 + v)))))
    requires AllSpace(w) && KeyToken(k) && k[0] != '#' && k[0] != ';' && AllSpace(w1) && AllSpace(w2)
    requires w != "" || k[0] != '['
    ensures
      var line := w + (k + (w1 + ("=" + (w2 + v))));
      Parse(Unlines(ls) + line + "\n") == SetKey(Parse(Unlines(ls)), OpenSection(ls), k, Strip(v))
  {
    var line := w + (k + (w1 + ("=" + (w2 + v))));
    OneMoreTextLine(ls, line);
    EntryLineRead(w, k, w1, w2, v);
    hide Classify, ParseLines, OpenSection, KeyToken;
    OneMoreLine(ls, line);
  }

  /** A header at the end of a file opens an empty section: a repeated section replaces the earlier one. */
  lemma HeaderOpens(ls: seq<string>, n: string, w: string)
    requires AllOneLine(ls) && n != "" && ']' !in n && AllSpace(w) && OneLine("[" + (n + ("]" + w)))
    ensures
      var line := "[" + (n + ("]" + w));
      && Parse(Unlines(ls) + line + "\n") == Put(Parse(Unlines(ls)), n, [])
      && OpenSection(ls + [line]) == n
  {
    var line := "[" + (n + ("]" + w));
    OneMoreTextLine(ls, line);
    HeaderLineRead(n, w);
    assert (ls + [line])[|ls|] == line;
    hide Classify, ParseLines;
    OneMoreLine(ls, line);
  }

  // --------------------------------------------------------- the text written

  lemma SerializeIs(c: Conf)
    ensures Serialize(c) == Unlines([BANNER] + SectionLines(c))
  {
    JoinLines([BANNER] + SectionLines(c));
  }

  lemma EmptyText()
    ensures Serialize([]) == BANNER + "\n"
  {
    SerializeIs([]);
    assert [BANNER] + SectionLines([]) == [BANNER] && [BANNER][1..] == [];
  }

  /** A new section adds a blank line and its header. */
  lemma SectionText(c: Conf, n: string)
    ensures Serialize(c + [(n, [])]) == Serialize(c) + ("\n" + ("[" + n + "]" + "\n"))
  {
    SerializeIs(c);
    SerializeIs(c + [(n, [])]);
    SectionLinesAppend(c, [(n, [])]);
    OneSectionLines(n, []);
    var two := ["", "[" + n + "]"];
    assert EntryLines([]) == [] && two + [] == two;
    Assoc([BANNER], SectionLines(c), two);
    UnlinesAppend([BANNER] + SectionLines(c), two);
    assert two[1..] == ["[" + n + "]"] && two[1..][1..] == [];
    assert Unlines(two[1..]) == "[" + n + "]" + "\n";
    assert Unlines(two) == "\n" + ("[" + n + "]" + "\n");
  }

  /** A new entry at the end of the last section adds its line. */
  lemma EntryText(c: Conf, n: string, kvs: Section, k: string, v: string)
    ensures Serialize(c + [(n, kvs + [(k, v)])]) == Serialize(c + [(n, kvs)]) + (k + " = " + v + "\n")
  {
    SerializeIs(c + [(n, kvs)]);
    SerializeIs(c + [(n, kvs + [(k, v)])]);
    SectionLinesAppend(c, [(n, kvs)]);
    SectionLinesAppend(c, [(n, kvs + [(k, v)])]);
    OneSectionLines(n, kvs);
    OneSectionLines(n, kvs + [(k, v)]);
    EntryLinesAppend(kvs, [(k, v)]);
    OneEntryLine(k, v);
    var line, two := k + " = " + v, ["", "[" + n + "]"];
    hide SectionLines, EntryLines, Serialize, BANNER, Unlines;
    Assoc(two, EntryLines(kvs), [line]);
    Assoc(SectionLines(c), two + EntryLines(kvs), [line]);
    Assoc([BANNER], SectionLines(c) + (two + EntryLines(kvs)), [line]);
    UnlinesAppend([BANNER] + (SectionLines(c) + (two + EntryLines(kvs))), [line]);
    OneLineText(line);
  }

  lemma OneLineText(line: string)
    ensures Unlines([line]) == line + "\n"
  {
    assert [line][1..] == [];
  }

  // ------------------------------------------------------------- the refusals

  predicate HoldsAny(s: string, cs: string) {
    exists i :: 0 <= i < |s| && s[i] in cs
  }

  /** Set refuses exactly line breaks and NULs anywhere, brackets in the section, and '=' in the key. */
  lemma RefusedExactly(s: string, k: string, v: string)
    ensures SetRefused(s, k, v) <==>
      HoldsAny(s, "\r\n\0") || HoldsAny(k, "\r\n\0") || HoldsAny(v, "\r\n\0") || '[' in s || ']' in s || '=' in k
  {
    var t := s + k + v;
    assert forall i :: 0 <= i < |s| ==> t[i] == s[i];
    assert forall i :: 0 <= i < |k| ==> t[|s| + i] == k[i];
    assert forall i :: 0 <= i < |v| ==> t[|s| + |k| + i] == v[i];
    assert forall c: char :: c in "\r\n\0" <==> c == '\r' || c == '\n' || c == '\0';
    assert HoldsAny(t, "\r\n\0") <==> HoldsAny(s, "\r\n\0") || HoldsAny(k, "\r\n\0") || HoldsAny(v, "\r\n\0") by {
      HoldsConcat(s + k, v, "\r\n\0");
      HoldsConcat(s, k, "\r\n\0");
    }
  }

  lemma HoldsConcat(a: string, b: string, cs: string)
    ensures HoldsAny(a + b, cs) <==> HoldsAny(a, cs) || HoldsAny(b, cs)
  {
    var s := a + b;
    assert forall i :: 0 <= i < |a| ==> s[i] == a[i];
    assert forall i :: 0 <= i < |b| ==> s[|a| + i] == b[i];
  }
}
