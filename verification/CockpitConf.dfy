/**
 * cockpit.conf as an ordered map of ordered maps: the INI parser and the
 * serializer, each a loop over lines and each proved against a function, and
 * the conditions under which writing a map and reading it again give it back.
 */
module CockpitConf {
  import opened Text
  import opened OrderedDict

  type Section = Dict<string>
  type Conf = Dict<Section>

  // "# cockpit.conf - managed by SysDeck Theme Engine", with a long dash.
  const BANNER := "#" + (" cockpit.conf" + (" \U{2014} managed by" + " SysDeck Theme" + " Engine"))

  // ---------------------------------------------------------------- one line

  datatype Line = Ignored | Header(name: string) | Entry(key: string, val: string)

  /** The section pattern: '[', one or more characters other than ']', ']', white space. */
  function HeaderName(line: string): Option<string> {
    if line != "" && line[0] == '[' then
      var body := line[1..];
      var j := Index(body, ']');
      if 0 < j < |body| && AllSpace(body[j + 1..]) then Some(body[..j]) else None
    else None
  }

  predicate KeyChar(c: char) {
    c != '=' && !IsSpace(c)
  }

  function KeyEnd(s: string, i: nat): (n: nat)
    requires i <= |s|
    ensures i <= n <= |s|
    ensures n < |s| ==> !KeyChar(s[n])
    ensures forall k :: i <= k < n ==> KeyChar(s[k])
    decreases |s| - i
  {
    if i < |s| && KeyChar(s[i]) then KeyEnd(s, i + 1) else i
  }

  /** The key-value pattern: white space, a key, '=' amid white space, a value that is then trimmed. */
  function KeyValue(line: string): Option<(string, string)> {
    var s := LStrip(line);
    var n := KeyEnd(s, 0);
    var rest := LStrip(s[n..]);
    if n > 0 && rest != "" && rest[0] == '=' then Some((s[..n], Strip(rest[1..]))) else None
  }

  function Classify(line: string): Line {
    var s := LStrip(line);
    if Strip(line) == "" || s[0] == '#' || s[0] == ';' then Ignored
    else if HeaderName(line).Some? then Header(HeaderName(line).value)
    else if KeyValue(line).Some? then Entry(KeyValue(line).value.0, KeyValue(line).value.1)
    else Ignored
  }

  // ------------------------------------------------------------------- parse

  /** Closes the section being read; text before the first header has no name and is dropped. */
  function Commit(acc: Conf, name: string, cur: Section): Conf {
    if name != "" then Put(acc, name, cur) else acc
  }

  function ParseFrom(lines: seq<string>, acc: Conf, name: string, cur: Section): Conf {
    if lines == [] then Commit(acc, name, cur)
    else
      match Classify(lines[0])
      case Ignored => ParseFrom(lines[1..], acc, name, cur)
      case Header(n) => ParseFrom(lines[1..], Commit(acc, name, cur), n, [])
      case Entry(k, v) => ParseFrom(lines[1..], acc, name, if name != "" then Put(cur, k, v) else cur)
  }

  function Parse(text: string): Conf {
    ParseFrom(SplitLines(text), [], "", [])
  }

  method ParseConf(text: string) returns (sections: Conf)
    ensures sections == Parse(text)
  {
    sections := [];
    var current: Section := [];
    var currentName := "";
    var lines := SplitLines(text);
    for i := 0 to |lines|
      invariant ParseFrom(lines[i..], sections, currentName, current) == Parse(text)
    {
      var line := lines[i];
      assert lines[i..][1..] == lines[i + 1..];
      if Strip(line) == "" || LStrip(line)[0] == '#' || LStrip(line)[0] == ';' {
        continue;
      }
      var m := HeaderName(line);
      if m.Some? {
        if currentName != "" {
          sections := Put(sections, currentName, current);
        }
        currentName := m.value;
        current := [];
        continue;
      }
      var kv := KeyValue(line);
      if kv.Some? && currentName != "" {
        current := Put(current, kv.value.0, kv.value.1);
      }
    }
    if currentName != "" {
      sections := Put(sections, currentName, current);
    }
  }

  // --------------------------------------------------------------- serialize

  function EntryLine(k: string, v: string): string {
    k + " = " + v
  }

  function EntryLines(kvs: Section): seq<string> {
    if kvs == [] then [] else [EntryLine(kvs[0].0, kvs[0].1)] + EntryLines(kvs[1..])
  }

  function SectionLines(s: Conf): seq<string> {
    if s == [] then []
    else ["", "[" + s[0].0 + "]"] + EntryLines(s[0].1) + SectionLines(s[1..])
  }

  function Serialize(s: Conf): string {
    Join("\n", [BANNER] + SectionLines(s) + [""])
  }

  lemma {:induction false} EntryLinesAppend(a: Section, b: Section)
    ensures EntryLines(a + b) == EntryLines(a) + EntryLines(b)
  {
    if a == [] {
      assert a + b == b;
    } else {
      assert (a + b)[1..] == a[1..] + b;
      EntryLinesAppend(a[1..], b);
    }
  }

  lemma {:induction false} SectionLinesAppend(a: Conf, b: Conf)
    ensures SectionLines(a + b) == SectionLines(a) + SectionLines(b)
  {
    if a == [] {
      assert a + b == b;
    } else {
      assert (a + b)[1..] == a[1..] + b;
      SectionLinesAppend(a[1..], b);
    }
  }

  lemma OneEntryLine(k: string, v: string)
    ensures EntryLines([(k, v)]) == [EntryLine(k, v)]
  {
    assert [(k, v)][1..] == [];
  }

  lemma OneSectionLines(n: string, kvs: Section)
    ensures SectionLines([(n, kvs)]) == ["", "[" + n + "]"] + EntryLines(kvs)
  {
    hide EntryLines;
    assert [(n, kvs)][1..] == [];
  }

  method SerializeConf(sections: Conf) returns (text: string)
    ensures text == Serialize(sections)
  {
    var lines := [BANNER];
    assert SectionLines([]) == [] && EntryLines([]) == [];
    hide BANNER, SectionLines, EntryLines, EntryLine;
    for i := 0 to |sections|
      invariant lines == [BANNER] + SectionLines(sections[..i])
    {
      var (section, kvs) := sections[i];
      ghost var before := lines + ["", "[" + section + "]"];
      lines := lines + [""];
      lines := lines + ["[" + section + "]"];
      for j := 0 to |kvs|
        invariant lines == before + EntryLines(kvs[..j])
      {
        EntryLinesAppend(kvs[..j], [kvs[j]]);
        OneEntryLine(kvs[j].0, kvs[j].1);
        assert kvs[..j + 1] == kvs[..j] + [kvs[j]];
        lines := lines + [EntryLine(kvs[j].0, kvs[j].1)];
      }
      assert kvs[..|kvs|] == kvs;
      SectionLinesAppend(sections[..i], [sections[i]]);
      assert sections[..i + 1] == sections[..i] + [sections[i]];
      OneSectionLines(section, kvs);
    }
    assert sections[..|sections|] == sections;
    lines := lines + [""];
    text := Join("\n", lines);
  }

  // ------------------------------------------- what a parsed file looks like

  predicate NameOk(n: string) {
    n != "" && ']' !in n && OneLine(n)
  }

  predicate KeyOk(k: string) {
    k != "" && (forall i :: 0 <= i < |k| ==> KeyChar(k[i])) && k[0] != '#' && k[0] != ';'
  }

  predicate ValueOk(v: string) {
    OneLine(v) && Trimmed(v)
  }

  ghost predicate SectionOk(s: Section) {
    Distinct(s) && forall i :: 0 <= i < |s| ==> KeyOk(s[i].0) && ValueOk(s[i].1)
  }

  ghost predicate ConfOk(c: Conf) {
    Distinct(c) && forall i :: 0 <= i < |c| ==> NameOk(c[i].0) && SectionOk(c[i].1)
  }

  lemma KeyValueShape(line: string)
    requires OneLine(line) && KeyValue(line).Some?
    requires LStrip(line)[0] != '#' && LStrip(line)[0] != ';'
    ensures KeyOk(KeyValue(line).value.0) && ValueOk(KeyValue(line).value.1)
  {
    var s := LStrip(line);
    var t := s[KeyEnd(s, 0)..];
    StripOneLine(LStrip(t)[1..]);
    StripTrimmed(LStrip(t)[1..]);
  }

  lemma HeaderShape(line: string)
    requires OneLine(line) && HeaderName(line).Some?
    ensures NameOk(HeaderName(line).value)
  {
  }

  ghost predicate LineOk(l: Line) {
    match l
    case Ignored => true
    case Header(n) => NameOk(n)
    case Entry(k, v) => KeyOk(k) && ValueOk(v)
  }

  lemma ClassifyShape(line: string)
    requires OneLine(line)
    ensures LineOk(Classify(line))
  {
    hide KeyValue, HeaderName, NameOk, KeyOk, ValueOk, LStrip, Strip;
    match Classify(line)
    case Ignored =>
    case Header(n) => HeaderShape(line);
    case Entry(k, v) => KeyValueShape(line);
  }

  lemma PutSectionOk(s: Section, k: string, v: string)
    requires SectionOk(s) && KeyOk(k) && ValueOk(v)
    ensures SectionOk(Put(s, k, v))
  {
    PutDistinct(s, k, v);
  }

  lemma CommitConfOk(acc: Conf, name: string, cur: Section)
    requires ConfOk(acc) && SectionOk(cur) && (name == "" || NameOk(name))
    ensures ConfOk(Commit(acc, name, cur))
  {
    PutDistinct(acc, name, cur);
  }

  lemma {:induction false} ParseFromShape(lines: seq<string>, acc: Conf, name: string, cur: Section)
    requires AllOneLine(lines) && ConfOk(acc) && SectionOk(cur)
    requires name == "" || NameOk(name)
    ensures ConfOk(ParseFrom(lines, acc, name, cur))
  {
    CommitConfOk(acc, name, cur);
    if lines != [] {
      ClassifyShape(lines[0]);
      hide Classify, ConfOk, KeyOk, ValueOk, NameOk, Commit;
      match Classify(lines[0])
      case Ignored => ParseFromShape(lines[1..], acc, name, cur);
      case Header(n) => ParseFromShape(lines[1..], Commit(acc, name, cur), n, []);
      case Entry(k, v) =>
        PutSectionOk(cur, k, v);
        ParseFromShape(lines[1..], acc, name, if name != "" then Put(cur, k, v) else cur);
    }
  }

  /** Whatever the file holds, its parse has distinct sections, distinct well-formed keys, trimmed values. */
  lemma ParseShape(text: string)
    ensures ConfOk(Parse(text))
  {
    ParseFromShape(SplitLines(text), [], "", []);
  }

  // -------------------------------------------------- reading back what was written

  /** A key starting with '[' can make its own line look like a section header. */
  predicate HeaderLike(k: string, v: string) {
    HeaderName(EntryLine(k, v)).Some?
  }

  predicate EntryOk(k: string, v: string) {
    KeyOk(k) && !HeaderLike(k, v)
  }

  /** Dictionaries of dictionaries of single-line strings: what the commands hold in memory. */
  ghost predicate InMemory(c: Conf) {
    && Distinct(c)
    && forall i :: 0 <= i < |c| ==>
       && OneLine(c[i].0) && Distinct(c[i].1)
       && forall j :: 0 <= j < |c[i].1| ==> OneLine(c[i].1[j].0) && OneLine(c[i].1[j].1)
  }

  ghost predicate SectionWritable(s: Section) {
    forall j :: 0 <= j < |s| ==> EntryOk(s[j].0, s[j].1)
  }

  ghost predicate Writable(c: Conf) {
    forall i :: 0 <= i < |c| ==> NameOk(c[i].0) && SectionWritable(c[i].1)
  }

  function TrimSection(s: Section): Section {
    if s == [] then [] else [(s[0].0, Strip(s[0].1))] + TrimSection(s[1..])
  }

  function TrimValues(c: Conf): Conf {
    if c == [] then [] else [(c[0].0, TrimSection(c[0].1))] + TrimValues(c[1..])
  }

  lemma HeaderLine(n: string)
    requires NameOk(n)
    ensures Classify("[" + n + "]") == Header(n)
  {
    var line := "[" + n + "]";
    IndexAppend(n, ']', "");
    assert line[1..] == n + [']'] + "";
    assert (n + [']'] + "")[..|n|] == n;
    StripAllSpace(line);
    assert line[0] == '[';
  }

  lemma BlankLine()
    ensures Classify("") == Ignored
  {
    StripAllSpace("");
  }

  lemma BannerLine()
    ensures Classify(BANNER) == Ignored && OneLine(BANNER)
  {
    assert OneLine(" cockpit.conf") && OneLine(" \U{2014} managed by");
    assert OneLine(" SysDeck Theme") && OneLine(" Engine");
    LStripAt("", BANNER);
    assert "" + BANNER == BANNER;
  }

  lemma EntryLineStart(k: string, v: string)
    requires KeyOk(k)
    ensures LStrip(EntryLine(k, v)) == EntryLine(k, v)
    ensures Strip(EntryLine(k, v)) != "" && EntryLine(k, v)[0] == k[0]
  {
    var line := EntryLine(k, v);
    assert line[0] == k[0] && KeyChar(k[0]);
    LStripAt("", line);
    assert "" + line == line;
    StripAllSpace(line);
  }

  lemma KeyEndAt(k: string, rest: string)
    requires forall i :: 0 <= i < |k| ==> KeyChar(k[i])
    requires rest != "" && !KeyChar(rest[0])
    ensures KeyEnd(k + rest, 0) == |k|
  {
    var s := k + rest;
    assert forall i :: 0 <= i < |k| ==> s[i] == k[i];
    assert s[|k|] == rest[0];
  }

  lemma EntryLineValue(k: string, v: string)
    requires KeyOk(k)
    ensures KeyValue(EntryLine(k, v)) == Some((k, Strip(v)))
  {
    hide Strip, LStrip;
    var line := EntryLine(k, v);
    EntryLineStart(k, v);
    var rest := "= " + v;
    assert line == k + (" " + rest);
    KeyEndAt(k, " " + rest);
    assert line[..|k|] == k && line[|k|..] == " " + rest;
    LStripAt(" ", rest);
    assert rest[1..] == " " + v;
    StripLeadingSpaces(" ", v);
  }

  lemma EntryLineClass(k: string, v: string)
    requires KeyOk(k)
    ensures Classify(EntryLine(k, v)) == if HeaderLike(k, v) then Header(HeaderName(EntryLine(k, v)).value)
                                         else Entry(k, Strip(v))
  {
    EntryLineStart(k, v);
    EntryLineValue(k, v);
  }

  lemma ReadEntry(k: string, v: string, rest: seq<string>, acc: Conf, name: string, cur: Section)
    requires EntryOk(k, v) && name != ""
    ensures ParseFrom([EntryLine(k, v)] + rest, acc, name, cur) == ParseFrom(rest, acc, name, Put(cur, k, Strip(v)))
  {
    EntryLineClass(k, v);
    var lines := [EntryLine(k, v)] + rest;
    assert lines[0] == EntryLine(k, v) && lines[1..] == rest;
  }

  lemma ReadHeader(n: string, rest: seq<string>, acc: Conf, name: string, cur: Section)
    requires NameOk(n)
    ensures ParseFrom(["", "[" + n + "]"] + rest, acc, name, cur) == ParseFrom(rest, Commit(acc, name, cur), n, [])
  {
    BlankLine();
    HeaderLine(n);
    var lines := ["", "[" + n + "]"] + rest;
    assert lines[0] == "" && lines[1..] == ["[" + n + "]"] + rest;
    assert lines[1..][0] == "[" + n + "]" && lines[1..][1..] == rest;
  }

  /** Adding a binding whose key is new keeps the keys distinct and appends. */
  lemma PutNext<V>(done: Dict<V>, k: string, v: V, v': V, rest: Dict<V>)
    requires Distinct(done + [(k, v)] + rest)
    ensures Put(done, k, v') == done + [(k, v')]
    ensures Distinct(Put(done, k, v') + rest)
  {
    var all := done + [(k, v)] + rest;
    assert all[|done|].0 == k;
    forall i | 0 <= i < |done| ensures done[i].0 != k {
      assert all[i] == done[i];
    }
    FindAbsent(done, k);
    var both := done + [(k, v')] + rest;
    assert forall i :: 0 <= i < |both| ==> both[i].0 == all[i].0;
  }

  function PutTrimmed(cur: Section, kvs: Section): Section
    decreases |kvs|
  {
    if kvs == [] then cur else PutTrimmed(Put(cur, kvs[0].0, Strip(kvs[0].1)), kvs[1..])
  }

  lemma {:induction false} PutTrimmedDistinct(cur: Section, kvs: Section)
    requires Distinct(cur + kvs)
    ensures PutTrimmed(cur, kvs) == cur + TrimSection(kvs)
    decreases |kvs|
  {
    if kvs == [] {
      assert cur + TrimSection(kvs) == cur;
    } else {
      hide Strip, Distinct, Put;
      var k, v, more := kvs[0].0, kvs[0].1, kvs[1..];
      assert kvs == [(k, v)] + more;
      Assoc(cur, [(k, v)], more);
      PutNext(cur, k, v, Strip(v), more);
      PutTrimmedDistinct(Put(cur, k, Strip(v)), more);
      Assoc(cur, [(k, Strip(v))], TrimSection(more));
    }
  }

  lemma {:induction false} ReadEntries(kvs: Section, rest: seq<string>, acc: Conf, name: string, cur: Section)
    requires SectionWritable(kvs) && name != ""
    ensures ParseFrom(EntryLines(kvs) + rest, acc, name, cur) == ParseFrom(rest, acc, name, PutTrimmed(cur, kvs))
  {
    if kvs == [] {
      assert EntryLines(kvs) + rest == rest;
    } else {
      hide ParseFrom, EntryOk, Put, EntryLine;
      var (k, v) := kvs[0];
      var more := EntryLines(kvs[1..]) + rest;
      assert EntryOk(k, v) && SectionWritable(kvs[1..]);
      assert EntryLines(kvs) + rest == [EntryLine(k, v)] + more;
      ReadEntry(k, v, more, acc, name, cur);
      ReadEntries(kvs[1..], rest, acc, name, Put(cur, k, Strip(v)));
    }
  }

  lemma WritableParts(c: Conf)
    requires InMemory(c) && Writable(c) && c != []
    ensures NameOk(c[0].0) && SectionWritable(c[0].1) && Distinct(c[0].1)
    ensures InMemory(c[1..]) && Writable(c[1..])
  {
  }

  lemma ReadSection(n: string, kvs: Section, rest: seq<string>, acc: Conf, name: string, cur: Section)
    requires NameOk(n) && SectionWritable(kvs) && Distinct(kvs)
    ensures ParseFrom(["", "[" + n + "]"] + EntryLines(kvs) + rest, acc, name, cur)
         == ParseFrom(rest, Commit(acc, name, cur), n, TrimSection(kvs))
  {
    hide ParseFrom, SectionWritable;
    var tail := EntryLines(kvs) + rest;
    assert ["", "[" + n + "]"] + EntryLines(kvs) + rest == ["", "[" + n + "]"] + tail;
    ReadHeader(n, tail, acc, name, cur);
    assert [] + kvs == kvs && [] + TrimSection(kvs) == TrimSection(kvs);
    PutTrimmedDistinct([], kvs);
    ReadEntries(kvs, rest, Commit(acc, name, cur), n, []);
  }

  lemma {:induction false} ReadSections(c: Conf, acc: Conf, name: string, cur: Section)
    requires InMemory(c) && Writable(c)
    requires Distinct(Commit(acc, name, cur) + c)
    ensures ParseFrom(SectionLines(c), acc, name, cur) == Commit(acc, name, cur) + TrimValues(c)
  {
    var done := Commit(acc, name, cur);
    if c == [] {
      assert done + TrimValues(c) == done;
    } else {
      WritableParts(c);
      hide InMemory, Writable, SectionWritable, NameOk, ParseFrom, Distinct, TrimSection, EntryLines, Put;
      var n, kvs, more := c[0].0, c[0].1, c[1..];
      ReadSection(n, kvs, SectionLines(more), acc, name, cur);
      assert c == [(n, kvs)] + more;
      Assoc(done, [(n, kvs)], more);
      PutNext(done, n, kvs, TrimSection(kvs), more);
      ReadSections(more, done, n, TrimSection(kvs));
      Assoc(done, [(n, TrimSection(kvs))], TrimValues(more));
    }
  }

  lemma SerializedLines(c: Conf)
    requires InMemory(c)
    ensures SplitLines(Serialize(c)) == [BANNER] + SectionLines(c)
  {
    var ls := [BANNER] + SectionLines(c);
    SectionLinesOneLine(c);
    BannerLine();
    JoinLines(ls);
    SplitUnlines(ls, "");
    assert Unlines(ls) + "" == Unlines(ls);
  }

  lemma {:induction false} SectionLinesOneLine(c: Conf)
    requires InMemory(c)
    ensures AllOneLine(SectionLines(c))
  {
    if c != [] {
      EntryLinesOneLine(c[0].1);
      SectionLinesOneLine(c[1..]);
    }
  }

  lemma {:induction false} EntryLinesOneLine(kvs: Section)
    requires forall j :: 0 <= j < |kvs| ==> OneLine(kvs[j].0) && OneLine(kvs[j].1)
    ensures AllOneLine(EntryLines(kvs))
  {
    if kvs != [] {
      EntryLinesOneLine(kvs[1..]);
    }
  }

  lemma ParseSerialized(c: Conf)
    requires InMemory(c)
    ensures Parse(Serialize(c)) == ParseFrom(SectionLines(c), [], "", [])
  {
    SerializedLines(c);
    var ls := [BANNER] + SectionLines(c);
    BannerLine();
    assert ls[0] == BANNER && ls[1..] == SectionLines(c);
  }

  // ---------------------------------------- counting: no entry is read twice

  function Total(c: Conf): nat {
    if c == [] then 0 else |c[0].1| + Total(c[1..])
  }

  function CountEntries(lines: seq<string>): nat {
    if lines == [] then 0 else (if Classify(lines[0]).Entry? then 1 else 0) + CountEntries(lines[1..])
  }

  lemma {:induction false} TotalAppend(a: Conf, b: Conf)
    ensures Total(a + b) == Total(a) + Total(b)
  {
    if a == [] {
      assert a + b == b;
    } else {
      assert (a + b)[1..] == a[1..] + b;
      TotalAppend(a[1..], b);
    }
  }

  lemma CommitTotal(acc: Conf, name: string, cur: Section)
    ensures Total(Commit(acc, name, cur)) <= Total(acc) + |cur|
  {
    if name != "" {
      var i := Find(acc, name);
      TotalAppend(acc, [(name, cur)]);
      assert Total([(name, cur)]) == |cur|;
      if i < |acc| {
        assert acc == acc[..i] + ([acc[i]] + acc[i + 1..]);
        assert Put(acc, name, cur) == acc[..i] + ([(name, cur)] + acc[i + 1..]);
        TotalAppend(acc[..i], [acc[i]] + acc[i + 1..]);
        TotalAppend(acc[..i], [(name, cur)] + acc[i + 1..]);
      }
    }
  }

  lemma {:induction false} ParseFromTotal(lines: seq<string>, acc: Conf, name: string, cur: Section)
    ensures Total(ParseFrom(lines, acc, name, cur)) <= Total(acc) + |cur| + CountEntries(lines)
  {
    CommitTotal(acc, name, cur);
    if lines != [] {
      match Classify(lines[0])
      case Ignored => ParseFromTotal(lines[1..], acc, name, cur);
      case Header(n) => ParseFromTotal(lines[1..], Commit(acc, name, cur), n, []);
      case Entry(k, v) => ParseFromTotal(lines[1..], acc, name, if name != "" then Put(cur, k, v) else cur);
    }
  }

  lemma {:induction false} CountAppend(a: seq<string>, b: seq<string>)
    ensures CountEntries(a + b) == CountEntries(a) + CountEntries(b)
  {
    if a == [] {
      assert a + b == b;
    } else {
      assert (a + b)[1..] == a[1..] + b;
      CountAppend(a[1..], b);
    }
  }

  ghost predicate KeysOk(s: Section) {
    forall j :: 0 <= j < |s| ==> KeyOk(s[j].0)
  }

  lemma SectionWritableFirst(kvs: Section)
    requires kvs != []
    ensures SectionWritable(kvs) <==> EntryOk(kvs[0].0, kvs[0].1) && SectionWritable(kvs[1..])
  {
    hide EntryOk;
    var more := kvs[1..];
    assert forall j :: 0 <= j < |more| ==> more[j] == kvs[j + 1];
    assert forall j :: 1 <= j < |kvs| ==> kvs[j] == more[j - 1];
  }

  lemma {:induction false} CountSection(kvs: Section)
    requires KeysOk(kvs)
    ensures CountEntries(EntryLines(kvs)) <= |kvs|
    ensures CountEntries(EntryLines(kvs)) == |kvs| ==> SectionWritable(kvs)
  {
    if kvs != [] {
      var line, more := EntryLine(kvs[0].0, kvs[0].1), EntryLines(kvs[1..]);
      assert KeyOk(kvs[0].0) && KeysOk(kvs[1..]);
      EntryLineClass(kvs[0].0, kvs[0].1);
      SectionWritableFirst(kvs);
      assert ([line] + more)[0] == line && ([line] + more)[1..] == more;
      hide KeyOk, KeysOk, Classify, EntryLine, HeaderLike, SectionWritable;
      CountSection(kvs[1..]);
    }
  }

  lemma {:induction false} CountSections(c: Conf)
    requires forall i :: 0 <= i < |c| ==> NameOk(c[i].0) && KeysOk(c[i].1)
    ensures CountEntries(SectionLines(c)) <= Total(c)
    ensures CountEntries(SectionLines(c)) == Total(c) ==> Writable(c)
  {
    if c != [] {
      var (n, kvs) := c[0];
      HeaderLine(n);
      BlankLine();
      var two := ["", "[" + n + "]"];
      assert two == [""] + ["[" + n + "]"];
      CountAppend([""], ["[" + n + "]"]);
      CountAppend(two + EntryLines(kvs), SectionLines(c[1..]));
      CountAppend(two, EntryLines(kvs));
      CountSection(kvs);
      CountSections(c[1..]);
    }
  }

  lemma {:induction false} TrimSectionAt(s: Section)
    ensures |TrimSection(s)| == |s|
    ensures forall i :: 0 <= i < |s| ==> TrimSection(s)[i] == (s[i].0, Strip(s[i].1))
  {
    if s != [] {
      TrimSectionAt(s[1..]);
    }
  }

  lemma {:induction false} TrimValuesAt(c: Conf)
    ensures |TrimValues(c)| == |c| && Total(TrimValues(c)) == Total(c)
    ensures forall i :: 0 <= i < |c| ==> TrimValues(c)[i] == (c[i].0, TrimSection(c[i].1))
  {
    if c != [] {
      TrimSectionAt(c[0].1);
      TrimValuesAt(c[1..]);
    }
  }

  /**
   * Writing any dictionary and reading it back gives it back, values trimmed,
   * exactly when every section name and every entry can be written.
   */
  lemma WriteThenRead(c: Conf)
    requires InMemory(c)
    ensures Parse(Serialize(c)) == TrimValues(c) <==> Writable(c)
  {
    if Writable(c) {
      WritableReads(c);
    }
    if Parse(Serialize(c)) == TrimValues(c) {
      ReadsWritable(c);
    }
  }

  lemma WritableReads(c: Conf)
    requires InMemory(c) && Writable(c)
    ensures Parse(Serialize(c)) == TrimValues(c)
  {
    ParseSerialized(c);
    assert Commit([], "", []) + c == c;
    hide InMemory, Serialize, Parse;
    ReadSections(c, [], "", []);
    assert [] + TrimValues(c) == TrimValues(c);
  }

  lemma ReadsWritable(c: Conf)
    requires InMemory(c) && Parse(Serialize(c)) == TrimValues(c)
    ensures Writable(c)
  {
    ParseSerialized(c);
    ParseShape(Serialize(c));
    TrimValuesAt(c);
    hide InMemory, Serialize, Parse, KeyOk, NameOk, TrimSection, TrimValues;
    forall i | 0 <= i < |c| ensures NameOk(c[i].0) && KeysOk(c[i].1) {
      TrimSectionAt(c[i].1);
      assert TrimValues(c)[i].0 == c[i].0;
      forall j | 0 <= j < |c[i].1| ensures KeyOk(c[i].1[j].0) {
        assert TrimValues(c)[i].1[j].0 == c[i].1[j].0;
      }
    }
    ParseFromTotal(SectionLines(c), [], "", []);
    CountSections(c);
  }

  /** No key of c makes its line look like a header. */
  ghost predicate NoHeaderLike(c: Conf) {
    forall i, j :: 0 <= i < |c| && 0 <= j < |c[i].1| ==> !HeaderLike(c[i].1[j].0, c[i].1[j].1)
  }

  lemma {:induction false} TrimSectionId(s: Section)
    requires forall j :: 0 <= j < |s| ==> Trimmed(s[j].1)
    ensures TrimSection(s) == s
  {
    if s != [] {
      StripTrimmed(s[0].1);
      TrimSectionId(s[1..]);
    }
  }

  lemma TrimValuesId(c: Conf)
    requires ConfOk(c)
    ensures TrimValues(c) == c
  {
    TrimValuesAt(c);
    forall i | 0 <= i < |c| ensures TrimValues(c)[i] == c[i] {
      TrimSectionId(c[i].1);
    }
  }

  lemma ConfOkInMemory(c: Conf)
    requires ConfOk(c)
    ensures InMemory(c)
    ensures Writable(c) <==> NoHeaderLike(c)
  {
    forall i, j | 0 <= i < |c| && 0 <= j < |c[i].1| ensures OneLine(c[i].1[j].0) {
      assert KeyOk(c[i].1[j].0);
      assert forall x :: 0 <= x < |c[i].1[j].0| ==> KeyChar(c[i].1[j].0[x]);
    }
    if NoHeaderLike(c) {
      forall i | 0 <= i < |c| ensures NameOk(c[i].0) && SectionWritable(c[i].1) {
      }
    }
    if Writable(c) {
      forall i, j | 0 <= i < |c| && 0 <= j < |c[i].1| ensures !HeaderLike(c[i].1[j].0, c[i].1[j].1) {
        assert EntryOk(c[i].1[j].0, c[i].1[j].1);
      }
    }
  }

  /** For every text, rewriting its parse keeps the parse exactly when no key makes a header-like line. */
  lemma RewriteKeepsParse(text: string)
    ensures Parse(Serialize(Parse(text))) == Parse(text) <==> NoHeaderLike(Parse(text))
  {
    var c := Parse(text);
    ParseShape(text);
    ConfOkInMemory(c);
    TrimValuesId(c);
    WriteThenRead(c);
  }
}
