/** Lines of QCrows metadata in any layout: white space, quotes, signs and list separators as text. */
module TomlText {
  import opened Text
  import opened OrderedDict
  import opened Decimals
  import opened TomlLines
  import opened TomlComments

  // ------------------------------------------------------------------- names

  predicate AllQuotes(q: string) {
    forall i :: 0 <= i < |q| ==> q[i] == '"'
  }

  lemma {:induction false} StripOfBefore(q: string, s: string)
    requires AllQuotes(q)
    ensures StripOf(q + s, "\"") == StripOf(s, "\"")
  {
    if q == "" {
      assert q + s == s;
    } else {
      assert (q + s)[0] == '"' && (q + s)[1..] == q[1..] + s;
      StripOfBefore(q[1..], s);
    }
  }

  lemma {:induction false} StripOfBehind(s: string, q: string)
    requires AllQuotes(q) && Unquoted(s)
    ensures StripOf(s + q, "\"") == s
  {
    if s == "" {
      assert s + q == q + "";
      StripOfBefore(q, "");
    } else if q == "" {
      assert s + q == s;
    } else {
      var t, n := s + q, |q| - 1;
      assert t[0] == s[0] && t[|t| - 1] == q[n] && t[..|t| - 1] == s + q[..n];
      StripOfBehind(s, q[..n]);
    }
  }

  /** A name in any number of quotes, with white space around. */
  function Wrapped(w: string, q: string, s: string, q': string, w': string): string {
    w + (q + s + q') + w'
  }

  predicate Wraps(w: string, q: string, s: string, q': string, w': string) {
    AllSpace(w) && AllQuotes(q) && Unquoted(s) && Trimmed(q + s + q') && AllQuotes(q') && AllSpace(w')
  }

  /** White space is taken off first, then the quotes; nothing else. */
  lemma NameIs(w: string, q: string, s: string, q': string, w': string)
    requires Wraps(w, q, s, q', w')
    ensures Name(Wrapped(w, q, s, q', w')) == s
  {
    StripPadded(w, q + s + q', w');
    Assoc(q, s, q');
    StripOfBefore(q, s + q');
    StripOfBehind(s, q');
  }

  // ------------------------------------------------------------------- lines

  predicate Bracketed(t: string) {
    t != "" && t[0] == '[' && t[|t| - 1] == ']'
  }

  /** Empty lines, comments, and lines that are no header and hold no equals sign. */
  lemma SkipIs(raw: string, loads: Loads)
    ensures ReadLine(raw, loads) == Skip <==>
      var t := Strip(raw); t == "" || t[0] == '#' || (!Bracketed(t) && '=' !in t)
  {
    hide Strip, Name, Names, SplitOn, ReadValue;
  }

  /** The parts between the dots of a header, each in its own quotes and white space. */
  predicate NamesBetween(parts: seq<string>, path: seq<string>) {
    |parts| == |path| && forall i :: 0 <= i < |parts| ==> Part(parts[i], path[i])
  }

  predicate Part(part: string, name: string) {
    '.' !in part && Name(part) == name
  }

  lemma {:induction false} NamesAre(parts: seq<string>, path: seq<string>)
    requires NamesBetween(parts, path)
    ensures Names(parts) == path
  {
    hide Name;
    assert forall i :: 0 <= i < |parts| ==> Part(parts[i], path[i]);
  }

  lemma BracketLine(w: string, m: string, w': string, loads: Loads)
    requires AllSpace(w) && AllSpace(w')
    ensures ReadLine(w + ("[" + m + "]") + w', loads) == Section(Names(SplitOn(Name(m), '.')))
  {
    var t := "[" + m + "]";
    Between('[', m, ']');
    assert t == ['['] + m + [']'];
    StripPadded(w, t, w');
    hide Name, Names, SplitOn, Strip, ReadValue, Index;
  }

  /** A header in any layout: a quote around the whole dotted name is taken off as well. */
  lemma HeaderReads(w: string, w1: string, q: string, parts: seq<string>, q': string, w2: string, w': string,
                    path: seq<string>, loads: Loads)
    requires AllSpace(w) && AllSpace(w') && parts != [] && NamesBetween(parts, path)
    requires Wraps(w1, q, Join(".", parts), q', w2)
    ensures ReadLine(w + ("[" + Wrapped(w1, q, Join(".", parts), q', w2) + "]") + w', loads) == Section(path)
  {
    NameIs(w1, q, Join(".", parts), q', w2);
    BracketLine(w, Wrapped(w1, q, Join(".", parts), q', w2), w', loads);
    NamesAre(parts, path);
    assert forall i :: 0 <= i < |parts| ==> Part(parts[i], path[i]);
    hide Name, Names, Wraps, Wrapped, ReadLine;
    SplitJoin(parts, '.');
  }

  predicate KeySide(k: string) {
    '=' !in k && (k == "" || (k[0] != '#' && k[0] != '[' && !IsSpace(k[0])))
  }

  /** A key line is cut at its first equals sign; both sides are trimmed. */
  lemma KeyCut(w: string, k: string, v: string, loads: Loads)
    requires AllSpace(w) && KeySide(k)
    ensures ReadLine(w + (k + ("=" + v)), loads) == Key(Name(k), ReadValue(Strip(v), loads))
  {
    var line := k + ("=" + RStrip(v));
    assert line[0] == if k == "" then '=' else k[0];
    LineStart(w, k, v);
    LineCut(k, v);
    hide *;
    KeyOf(w + (k + ("=" + v)), line, loads);
  }

  lemma KeyOf(raw: string, line: string, loads: Loads)
    requires line != "" && Strip(raw) == line && line[0] != '#' && line[0] != '[' && Index(line, '=') < |line|
    ensures var i := Index(line, '='); ReadLine(raw, loads) == Key(Name(line[..i]), ReadValue(Strip(line[i + 1..]), loads))
  {
    hide Name, Strip, IndexFrom, Names, SplitOn, ReadValue;
  }

  /** Trimming the line trims the value and nothing else. */
  lemma LineStart(w: string, k: string, v: string)
    requires AllSpace(w) && (k != "" ==> !IsSpace(k[0]))
    ensures Strip(w + (k + ("=" + v))) == k + ("=" + RStrip(v))
  {
    var t := k + ("=" + v);
    assert t[0] == if k == "" then '=' else k[0];
    LStripAt(w, t);
    hide LStrip, AllSpace;
    RStripBehind(k + "=", v);
    Assoc(k, "=", v);
    Assoc(k, "=", RStrip(v));
  }

  lemma RStripBehind(a: string, v: string)
    requires a != "" && !IsSpace(a[|a| - 1])
    ensures RStrip(a + v) == a + RStrip(v)
  {
    var t := a + v;
    assert forall i :: 0 <= i < |v| ==> t[|a| + i] == v[i];
    assert t[|a| - 1] == a[|a| - 1];
    var m := SpaceStart(v, |v|);
    assert SpaceStart(t, |t|) == |a| + m;
    assert t[..|a| + m] == a + v[..m];
  }

  lemma LineCut(k: string, v: string)
    requires '=' !in k
    ensures var t := k + ("=" + RStrip(v)); var i := Index(t, '=');
      i == |k| < |t| && t[..i] == k && Strip(t[i + 1..]) == Strip(v)
  {
    var r := RStrip(v);
    var t := k + ("=" + r);
    assert t == k + ['='] + r;
    IndexAppend(k, '=', r);
    assert t[..|k|] == k && t[|k| + 1..] == r;
    StripRight(v);
  }

  lemma RStripLed(w: string, s: string)
    requires AllSpace(w) && Trimmed(s)
    ensures Strip(RStrip(w + s)) == s
  {
    if s == "" {
      assert w + s == "" + w;
      RStripSpaces("", w);
    } else {
      var t := w + s;
      assert t[|t| - 1] == s[|s| - 1];
      assert RStrip(t) == t;
      StripPadded(w, s, "");
      assert w + s + "" == t;
    }
  }

  lemma StripRight(v: string)
    ensures Strip(RStrip(v)) == Strip(v)
  {
    var w1, w2 := StripParts(v);
    var s := Strip(v);
    StripTrimmed(v);
    RStripSpaces(w1 + s, w2);
    RStripLed(w1, s);
  }

  /** A key line in any layout. */
  lemma KeyReads(w: string, q: string, k: string, q': string, w1: string, w2: string, v: string, w3: string, loads: Loads)
    requires AllSpace(w) && AllSpace(w2) && AllSpace(w3) && Trimmed(v)
    requires Wraps("", q, k, q', w1) && KeySide(Wrapped("", q, k, q', w1))
    ensures ReadLine(w + (Wrapped("", q, k, q', w1) + ("=" + (w2 + v + w3))), loads) == Key(k, ReadValue(v, loads))
  {
    NameIs("", q, k, q', w1);
    StripPadded(w2, v, w3);
    hide Wraps, Wrapped, ReadLine, ReadValue, Name, Strip, Trimmed, KeySide;
    KeyCut(w, Wrapped("", q, k, q', w1), w2 + v + w3, loads);
  }

  // ------------------------------------------------------------------ values

  /** Without a closing quote the string goes to the end of the line. */
  lemma OpenQuote(s: string, loads: Loads)
    requires '"' !in s
    ensures ReadValue("\"" + s, loads) == Str(s)
  {
    var v := "\"" + s;
    assert forall k :: 0 <= k < |s| ==> v[1 + k] == s[k];
    assert IndexFrom(v, '"', 1) == |v|;
    assert v[1..] == s;
  }

  predicate AllDigits(s: string) {
    forall i :: 0 <= i < |s| ==> '0' <= s[i] <= '9'
  }

  /** Groups of digits, to be joined by single underscores. */
  predicate Groups(gs: seq<string>) {
    gs != [] && forall i :: 0 <= i < |gs| ==> gs[i] != "" && AllDigits(gs[i])
  }

  function Together(gs: seq<string>): (s: string)
    ensures (forall i :: 0 <= i < |gs| ==> AllDigits(gs[i])) ==> AllDigits(s)
  {
    if gs == [] then "" else gs[0] + Together(gs[1..])
  }

  lemma {:induction false} DropConcat(a: string, b: string)
    ensures DropUnderscores(a + b) == DropUnderscores(a) + DropUnderscores(b)
  {
    if a == "" {
      assert a + b == b;
    } else {
      assert (a + b)[0] == a[0] && (a + b)[1..] == a[1..] + b;
      DropConcat(a[1..], b);
      Assoc(if a[0] == '_' then "" else [a[0]], DropUnderscores(a[1..]), DropUnderscores(b));
    }
  }

  lemma GroupDrop(g: string, t: string)
    requires AllDigits(g)
    ensures DropUnderscores(g + "_" + t) == g + DropUnderscores(t)
  {
    DropConcat(g + "_", t);
    DropConcat(g, "_");
    DropNothing(g);
    assert "_"[1..] == "";
    assert DropUnderscores("_") == "";
    hide DropUnderscores;
    assert g + "" == g;
  }

  predicate DigitOrLow(c: char) {
    IsDigit(c) || c == '_'
  }

  lemma GroupCons(g: string, t: string)
    requires g != "" && AllDigits(g) && IntBody(t)
    ensures IntBody(g + "_" + t)
  {
    var s, n := g + "_" + t, |g|;
    assert s[n] == '_' && s[0] == g[0] && s[|s| - 1] == t[|t| - 1];
    forall i | 0 <= i < |s| ensures DigitOrLow(s[i]) {
      if i < n {
        assert s[i] == g[i];
      } else if i > n {
        assert s[i] == t[i - n - 1];
      }
    }
    forall i | 0 < i < |s| ensures s[i - 1] != '_' || s[i] != '_' {
      LowApart(g, t, i);
    }
  }

  lemma LowApart(g: string, t: string, i: nat)
    requires g != "" && AllDigits(g) && IntBody(t) && 0 < i < |g| + 1 + |t|
    ensures var s := g + "_" + t; s[i - 1] != '_' || s[i] != '_'
  {
    var s, n := g + "_" + t, |g|;
    if i <= n {
      assert s[i - 1] == g[i - 1];
    } else if i == n + 1 {
      assert s[i] == t[0];
    } else {
      var j := i - n - 1;
      assert s[i] == t[j] && s[i - 1] == t[j - 1];
    }
  }

  lemma {:induction false} GroupsBody(gs: seq<string>)
    requires Groups(gs)
    ensures IntBody(Join("_", gs)) && DropUnderscores(Join("_", gs)) == Together(gs)
  {
    var g := gs[0];
    if |gs| == 1 {
      DropNothing(g);
      assert gs[1..] == [] && g + "" == g;
    } else {
      GroupsBody(gs[1..]);
      hide IntBody, DropUnderscores, AllDigits;
      GroupCons(g, Join("_", gs[1..]));
      GroupDrop(g, Join("_", gs[1..]));
    }
  }

  /** Only such texts are integer bodies. */
  lemma {:induction false} BodyGroups(s: string) returns (gs: seq<string>)
    requires IntBody(s)
    ensures Groups(gs) && s == Join("_", gs)
    decreases |s|
  {
    var i := Index(s, '_');
    BodyHead(s, i);
    if i == |s| {
      assert s[..i] == s;
      gs := [s];
    } else {
      BodyCut(s, i);
      hide IntBody, Groups, AllDigits, Join;
      var more := BodyGroups(s[i + 1..]);
      OneMoreGroup(s[..i], more);
      gs := [s[..i]] + more;
      assert s == s[..i] + "_" + s[i + 1..];
    }
  }

  lemma BodyCut(s: string, i: nat)
    requires IntBody(s) && i < |s| && s[i] == '_'
    ensures i < |s| - 1 && IntBody(s[i + 1..])
  {
    var t := s[i + 1..];
    assert i < |s| - 1;
    assert forall k :: 0 <= k < |t| ==> t[k] == s[i + 1 + k];
    assert t[0] == s[i + 1] && t[|t| - 1] == s[|s| - 1];
  }

  lemma BodyHead(s: string, i: nat)
    requires IntBody(s) && i <= |s| && forall k :: 0 <= k < i ==> s[k] != '_'
    requires i < |s| ==> s[i] == '_'
    ensures s[..i] != "" && AllDigits(s[..i])
  {
    assert i != 0;
  }

  lemma OneMoreGroup(g: string, more: seq<string>)
    requires g != "" && AllDigits(g) && Groups(more)
    ensures Groups([g] + more) && Join("_", [g] + more) == g + "_" + Join("_", more)
  {
    hide AllDigits;
    assert ([g] + more)[1..] == more;
  }

  predicate Sign(s: string) {
    s == "" || s == "+" || s == "-"
  }

  function Signed(sign: string, n: nat): int {
    if sign == "-" then 0 - n else n
  }

  /** An optional sign and groups of digits joined by single underscores. */
  lemma IntReads(sign: string, gs: seq<string>)
    requires Sign(sign) && Groups(gs)
    ensures ParseInt(sign + Join("_", gs)) == Some(Signed(sign, ValueOf(Together(gs))))
  {
    GroupsBody(gs);
    SignRead(sign, Join("_", gs));
  }

  /** The number of an integer body. */
  function IntOf(b: string): nat
    requires IntBody(b)
  {
    ValueOf(DropUnderscores(b))
  }

  lemma PlusRead(b: string)
    requires IntBody(b)
    ensures ParseInt("+" + b) == Some(IntOf(b))
  {
    hide IntBody, ValueOf, DropUnderscores;
    assert ("+" + b)[1..] == b;
  }

  lemma MinusRead(b: string)
    requires IntBody(b)
    ensures ParseInt("-" + b) == Some(0 - IntOf(b))
  {
    hide IntBody, ValueOf, DropUnderscores;
    assert ("-" + b)[1..] == b;
  }

  lemma BareRead(b: string)
    requires IntBody(b)
    ensures ParseInt(b) == Some(IntOf(b))
  {
    assert IsDigit(b[0]);
    hide IntBody, ValueOf, DropUnderscores;
  }

  lemma SignRead(sign: string, b: string)
    requires Sign(sign) && IntBody(b)
    ensures ParseInt(sign + b) == Some(Signed(sign, IntOf(b)))
  {
    SignCases(sign, IntOf(b));
    hide *;
    if sign == "+" {
      PlusRead(b);
    } else if sign == "-" {
      MinusRead(b);
    } else {
      BareRead(b);
      assert sign + b == b;
    }
  }

  lemma SignCases(sign: string, n: nat)
    requires Sign(sign)
    ensures sign == "" || sign == "+" || sign == "-"
    ensures Signed(sign, n) == if sign == "-" then 0 - n else n
    ensures sign == "+" ==> sign != "-"
    ensures sign == "" ==> sign != "-"
  {
  }

  /** Only such texts are integers. */
  lemma IntOnly(s: string) returns (sign: string, gs: seq<string>)
    requires ParseInt(s).Some?
    ensures Sign(sign) && Groups(gs) && s == sign + Join("_", gs)
  {
    var signed := s != "" && (s[0] == '-' || s[0] == '+');
    sign := if signed then s[..1] else "";
    var b := if signed then s[1..] else s;
    assert signed ==> sign == [s[0]];
    assert Sign(sign);
    assert s == sign + b;
    IntBodyOf(s);
    hide *;
    gs := BodyGroups(b);
  }

  lemma IntBodyOf(s: string)
    requires ParseInt(s).Some?
    ensures IntBody(if s != "" && (s[0] == '-' || s[0] == '+') then s[1..] else s)
  {
    hide IntBody, ValueOf, DropUnderscores;
  }

  /** Digits are read from the left, ten times the number so far. */
  lemma ValueNext(s: string, d: char)
    requires AllDigits(s) && '0' <= d <= '9'
    ensures ValueOf(s + [d]) == 10 * ValueOf(s) + (d as int - '0' as int)
    ensures ValueOf("") == 0
  {
    assert (s + [d])[..|s|] == s;
  }

  /** Text that is no string, list, truth value or integer stays as it is. */
  lemma OtherValue(v: string, loads: Loads)
    requires v == "" || v[0] !in "\"["
    requires v != "true" && v != "false"
    requires forall sign, gs :: Sign(sign) && Groups(gs) ==> v != sign + Join("_", gs)
    ensures ReadValue(v, loads) == Str(v)
  {
    if ParseInt(v).Some? {
      var sign, gs := IntOnly(v);
    }
  }

  // ------------------------------------------------------------------- lists

  /** The white space of JSON. */
  predicate AllBlank(w: string) {
    forall i :: 0 <= i < |w| ==> w[i] in " \t\n\r"
  }

  lemma {:induction false} SkipBlank(w: string, s: string)
    requires AllBlank(w)
    ensures SkipWs(w + s) == SkipWs(s)
  {
    if w == "" {
      assert w + s == s;
    } else {
      assert (w + s)[0] == w[0] && (w + s)[1..] == w[1..] + s;
      SkipBlank(w[1..], s);
    }
  }

  lemma SkipTo(w: string, c: char, s: string)
    requires AllBlank(w) && c !in " \t\n\r"
    ensures SkipWs(w + ([c] + s)) == [c] + s
  {
    SkipBlank(w, [c] + s);
  }

  /** A string of a list: the white space before it, its quote, its text, the white space behind it. */
  datatype Elem = Elem(before: string, quote: char, word: string, behind: string)

  predicate Good(e: Elem) {
    AllBlank(e.before) && e.quote in "\"'" && AllPlain(e.word) && '\'' !in e.word && AllBlank(e.behind)
  }

  function ElemText(e: Elem, rest: string): string {
    e.before + ([e.quote] + (e.word + ([e.quote] + (e.behind + rest))))
  }

  /** The elements with commas between them, and the closing bracket. */
  function Rest(es: seq<Elem>, end: string): string {
    if es == [] then "]" + end
    else if |es| == 1 then ElemText(es[0], "]" + end)
    else ElemText(es[0], "," + Rest(es[1..], end))
  }

  function WordsOf(es: seq<Elem>): (r: seq<string>)
    ensures |r| == |es| && forall i :: 0 <= i < |r| ==> r[i] == es[i].word
  {
    if es == [] then [] else [es[0].word] + WordsOf(es[1..])
  }

  function Double(e: Elem): Elem {
    Elem(e.before, '"', e.word, e.behind)
  }

  function DoubleAll(es: seq<Elem>): (r: seq<Elem>)
    ensures |r| == |es| && forall i :: 0 <= i < |r| ==> r[i] == Double(es[i])
  {
    if es == [] then [] else [Double(es[0])] + DoubleAll(es[1..])
  }

  lemma RequoteChar(c: char)
    ensures Requote([c]) == [if c == '\'' then '"' else c]
  {
    hide Requote;
  }

  lemma BlankPlain(w: string)
    requires AllBlank(w)
    ensures Requote(w) == w
  {
    RequoteNothing(w);
  }

  lemma RequoteElem(e: Elem, rest: string)
    requires Good(e)
    ensures Requote(ElemText(e, rest)) == ElemText(Double(e), Requote(rest))
  {
    BlankPlain(e.before);
    BlankPlain(e.behind);
    RequoteNothing(e.word);
    RequoteChar(e.quote);
    assert [if e.quote == '\'' then '"' else e.quote] == ['"'];
    hide Requote, AllBlank, AllPlain;
    RequoteConcat(e.behind, rest);
    RequoteConcat([e.quote], e.behind + rest);
    RequoteConcat(e.word, [e.quote] + (e.behind + rest));
    RequoteConcat([e.quote], e.word + ([e.quote] + (e.behind + rest)));
    RequoteConcat(e.before, [e.quote] + (e.word + ([e.quote] + (e.behind + rest))));
  }

  lemma {:induction false} RequoteRest(es: seq<Elem>, end: string)
    requires (forall i :: 0 <= i < |es| ==> Good(es[i])) && AllBlank(end)
    ensures Requote(Rest(es, end)) == Rest(DoubleAll(es), end)
  {
    BlankPlain(end);
    RequoteConcat("]", end);
    RequoteChar(']');
    if es != [] {
      var more := Rest(es[1..], end);
      RequoteElem(es[0], if |es| == 1 then "]" + end else "," + more);
      if |es| > 1 {
        RequoteRest(es[1..], end);
        RequoteConcat(",", more);
        RequoteChar(',');
        assert DoubleAll(es)[1..] == DoubleAll(es[1..]);
      }
      hide Requote, ElemText, Good, AllBlank;
    }
  }

  /** Reading one string of the list. */
  lemma ElemRead(e: Elem, rest: string)
    requires Good(e) && e.quote == '"'
    ensures ReadString(SkipWs(ElemText(e, rest))) == Some((e.word, e.behind + rest))
  {
    var t := ElemText(e, rest);
    SkipTo(e.before, '"', e.word + (['"'] + (e.behind + rest)));
    ReadQuoted(e.word, e.behind + rest);
    hide ReadString, SkipWs, AllPlain;
    assert Quote(e.word) + (e.behind + rest) == ['"'] + (e.word + (['"'] + (e.behind + rest)));
  }

  lemma LastRead(e: Elem, end: string)
    requires Good(e) && e.quote == '"' && AllBlank(end)
    ensures ReadItems(ElemText(e, "]" + end)) == Some([Word(e.word)])
  {
    ElemRead(e, "]" + end);
    SkipTo(e.behind, ']', end);
    SkipBlank(end, "");
    assert end + "" == end;
    hide ReadString, SkipWs, ElemText, Good, AllBlank;
    assert ([']'] + end)[1..] == end;
  }

  lemma NextRead(e: Elem, rest: string)
    requires Good(e) && e.quote == '"' && ReadItems(rest).Some?
    ensures ReadItems(ElemText(e, "," + rest)) == Some([Word(e.word)] + ReadItems(rest).value)
  {
    ElemRead(e, "," + rest);
    SkipTo(e.behind, ',', rest);
    hide ReadString, SkipWs, ElemText, Good, AllBlank;
    assert ([','] + rest)[1..] == rest;
  }

  lemma {:induction false} RestRead(es: seq<Elem>, end: string)
    requires es != [] && AllBlank(end)
    requires forall i :: 0 <= i < |es| ==> Good(es[i]) && es[i].quote == '"'
    ensures ReadItems(Rest(es, end)) == Some(AsItems(WordsOf(es)))
  {
    if |es| == 1 {
      LastRead(es[0], end);
      assert WordsOf(es) == [es[0].word];
      assert AsItems([es[0].word]) == [Word(es[0].word)];
    } else {
      RestRead(es[1..], end);
      hide Good, AllBlank, ReadItems, ElemText;
      NextRead(es[0], Rest(es[1..], end));
      assert WordsOf(es)[1..] == WordsOf(es[1..]);
    }
  }

  /** A list of strings without escapes, in either quotes and with any white space of JSON in it. */
  lemma ListReads(es: seq<Elem>, gap: string, end: string, loads: Loads)
    requires (forall i :: 0 <= i < |es| ==> Good(es[i])) && AllBlank(gap) && AllBlank(end)
    ensures ReadValue("[" + ((if es == [] then gap else "") + Rest(es, end)), loads) == Arr(AsItems(WordsOf(es)))
  {
    var body := (if es == [] then gap else "") + Rest(es, end);
    RequoteRest(es, end);
    BlankPlain(gap);
    RequoteConcat(if es == [] then gap else "", Rest(es, end));
    assert es == [] ==> Rest(DoubleAll(es), end) == "]" + end;
    assert es != [] ==> Requote(body) == Rest(DoubleAll(es), end);
    if es == [] {
      EmptyRead(gap, end);
    } else {
      FilledRead(DoubleAll(es), end);
      assert WordsOf(DoubleAll(es)) == WordsOf(es);
    }
    RequoteConcat("[", body);
    RequoteChar('[');
    hide Requote, Rest, ReadStrings, ParseInt;
    assert ("[" + body)[0] == '[';
  }

  lemma EmptyRead(gap: string, end: string)
    requires AllBlank(gap) && AllBlank(end)
    ensures ReadStrings("[" + (gap + ("]" + end))) == Some([])
  {
    var s := "[" + (gap + ("]" + end));
    SkipTo(gap, ']', end);
    SkipBlank(end, "");
    assert end + "" == end;
    hide ReadItems;
    assert s[1..] == gap + ([']'] + end);
    assert ([']'] + end)[1..] == end;
  }

  lemma FilledRead(es: seq<Elem>, end: string)
    requires es != [] && AllBlank(end)
    requires forall i :: 0 <= i < |es| ==> Good(es[i]) && es[i].quote == '"'
    ensures ReadStrings("[" + Rest(es, end)) == Some(AsItems(WordsOf(es)))
  {
    var e, t := es[0], Rest(es, end);
    RestRead(es, end);
    var rest := if |es| == 1 then "]" + end else "," + Rest(es[1..], end);
    assert t == ElemText(e, rest);
    SkipTo(e.before, '"', e.word + (['"'] + (e.behind + rest)));
    hide ReadItems, SkipWs, Rest, Good, AsItems, WordsOf, AllBlank;
    assert ("[" + t)[1..] == t;
  }

  /** s is white space and what SkipWs leaves of it. */
  predicate Skips(s: string, w: string) {
    AllBlank(w) && s == w + SkipWs(s)
  }

  lemma {:induction false} SkipParts(s: string) returns (w: string)
    ensures AllBlank(w) && s == w + SkipWs(s)
  {
    if s != "" && (s[0] == ' ' || s[0] == '\t' || s[0] == '\n' || s[0] == '\r') {
      var more := SkipParts(s[1..]);
      w := [s[0]] + more;
      SkipOne(s, more);
    } else {
      w := "";
    }
  }

  lemma SkipOne(s: string, more: string)
    requires s != "" && (s[0] == ' ' || s[0] == '\t' || s[0] == '\n' || s[0] == '\r')
    requires Skips(s[1..], more)
    ensures Skips(s, [s[0]] + more)
  {
    BlankChar(s[0]);
    BlankFront(s[0], more);
    assert SkipWs(s) == SkipWs(s[1..]);
    hide SkipWs, AllBlank;
    assert s == [s[0]] + s[1..];
    Assoc([s[0]], more, SkipWs(s));
  }

  lemma BlankFront(c: char, w: string)
    requires c in " \t\n\r" && AllBlank(w)
    ensures AllBlank([c] + w)
  {
    var all := [c] + w;
    forall i | 0 <= i < |all| ensures all[i] in " \t\n\r" {
      assert i > 0 ==> all[i] == w[i - 1];
    }
  }

  lemma BlankChar(c: char)
    requires c == ' ' || c == '\t' || c == '\n' || c == '\r'
    ensures c in " \t\n\r"
  {
    assert " \t\n\r"[0] == ' ' && " \t\n\r"[1] == '\t' && " \t\n\r"[2] == '\n' && " \t\n\r"[3] == '\r';
  }

  lemma StringParts(t: string)
    requires ReadString(t).Some?
    ensures var (w, rest) := ReadString(t).value; AllPlain(w) && t == ['"'] + (w + (['"'] + rest))
  {
    var n := PlainEnd(t[1..]);
    assert t[1..][..n] == t[1..1 + n];
  }

  /** One element: what was read in front of a comma or a bracket. */
  lemma ElemOnly(s: string) returns (e: Elem)
    requires ReadString(SkipWs(s)).Some?
    ensures var (w, rest) := ReadString(SkipWs(s)).value;
      && e.quote == '"' && e.word == w && AllBlank(e.before) && AllPlain(w) && AllBlank(e.behind)
      && s == ElemText(e, SkipWs(rest))
  {
    var (w, rest) := ReadString(SkipWs(s)).value;
    StringParts(SkipWs(s));
    var w1 := SkipParts(s);
    var w2 := SkipParts(rest);
    e := Elem(w1, '"', w, w2);
    hide SkipWs, ReadString, AllBlank, AllPlain;
  }

  predicate Listed(e: Elem) {
    AllBlank(e.before) && e.quote == '"' && AllPlain(e.word) && AllBlank(e.behind)
  }

  lemma LastItemOnly(s: string)
    requires ReadItems(s).Some?
    ensures ReadString(SkipWs(s)).Some?
    ensures var (w, rest) := ReadString(SkipWs(s)).value; var more := SkipWs(rest);
      && more != ""
      && (if more[0] == ']' then SkipWs(more[1..]) == "" && ReadItems(s) == Some([Word(w)])
          else more[0] == ',' && ReadItems(more[1..]).Some? && |more[1..]| < |s|
               && ReadItems(s) == Some([Word(w)] + ReadItems(more[1..]).value))
  {
    hide ReadString, SkipWs;
  }

  /** An element, and what its comma or bracket says of the rest. */
  lemma ItemStep(s: string) returns (e: Elem, c: char, more: string)
    requires ReadItems(s).Some?
    ensures Listed(e) && s == ElemText(e, [c] + more) && (c == ']' || c == ',')
    ensures c == ']' ==> SkipWs(more) == "" && ReadItems(s) == Some([Word(e.word)])
    ensures c == ',' ==> |more| < |s| && ReadItems(more).Some? && ReadItems(s) == Some([Word(e.word)] + ReadItems(more).value)
  {
    LastItemOnly(s);
    e := ElemOnly(s);
    assert Listed(e);
    hide ReadString, SkipWs, ReadItems, ElemText, Listed;
    var t := SkipWs(ReadString(SkipWs(s)).value.1);
    c, more := t[0], t[1..];
    assert t == [c] + more;
  }

  /** Only lists of strings without escapes are read as such: what loads is given is anything else. */
  lemma {:induction false} ItemsOnly(s: string) returns (es: seq<Elem>, end: string)
    requires ReadItems(s).Some?
    ensures es != [] && (forall i :: 0 <= i < |es| ==> Listed(es[i])) && AllBlank(end)
    ensures s == Rest(es, end) && ReadItems(s) == Some(AsItems(WordsOf(es)))
    decreases |s|
  {
    hide *;
    var e, c, more := ItemStep(s);
    if c == ']' {
      end := SkipParts(more);
      assert end + "" == end;
      es := [e];
      OneElem(e, end);
    } else {
      var tail;
      tail, end := ItemsOnly(more);
      es := [e] + tail;
      MoreElems(e, tail, end);
    }
  }

  lemma OneElem(e: Elem, end: string)
    ensures Rest([e], end) == ElemText(e, "]" + end) && AsItems(WordsOf([e])) == [Word(e.word)]
  {
    hide ElemText;
    assert WordsOf([e]) == [e.word];
  }

  lemma MoreElems(e: Elem, tail: seq<Elem>, end: string)
    requires tail != []
    ensures Rest([e] + tail, end) == ElemText(e, "," + Rest(tail, end))
    ensures AsItems(WordsOf([e] + tail)) == [Word(e.word)] + AsItems(WordsOf(tail))
  {
    hide ElemText;
    assert ([e] + tail)[1..] == tail;
    assert WordsOf([e] + tail) == [e.word] + WordsOf(tail);
    assert AsItems([e.word] + WordsOf(tail)) == [Word(e.word)] + AsItems(WordsOf(tail));
  }

  lemma BracketOnly(s: string)
    requires s != "" && ReadStrings(s).Some?
    ensures s == "[" + s[1..]
    ensures var more := SkipWs(s[1..]);
      if more != "" && more[0] == ']' then SkipWs(more[1..]) == "" && ReadStrings(s) == Some([])
      else ReadStrings(s) == ReadItems(s[1..])
  {
    hide SkipWs, ReadItems;
    assert s == [s[0]] + s[1..];
  }

  lemma EmptyOnly(t: string) returns (gap: string, end: string)
    requires var more := SkipWs(t); more != "" && more[0] == ']' && SkipWs(more[1..]) == ""
    ensures AllBlank(gap) && AllBlank(end) && t == gap + ("]" + end)
  {
    var more := SkipWs(t);
    gap := SkipParts(t);
    end := SkipParts(more[1..]);
    hide SkipWs, AllBlank;
    assert end + "" == end && more == [more[0]] + more[1..];
  }

  /** The same with the opening bracket: the empty list, or such elements. */
  lemma ListOnly(s: string) returns (gap: string, es: seq<Elem>, end: string)
    requires s != "" && ReadStrings(s).Some?
    ensures AllBlank(gap) && (forall i :: 0 <= i < |es| ==> Listed(es[i])) && AllBlank(end)
    ensures s == "[" + ((if es == [] then gap else "") + Rest(es, end))
    ensures ReadStrings(s) == Some(AsItems(WordsOf(es)))
  {
    BracketOnly(s);
    var more := SkipWs(s[1..]);
    assert AsItems(WordsOf([])) == [] && AllBlank("");
    hide SkipWs, ReadItems, ReadStrings, AllBlank, AsItems, WordsOf;
    if more != "" && more[0] == ']' {
      gap, end := EmptyOnly(s[1..]);
      es := [];
      assert Rest(es, end) == "]" + end;
    } else {
      hide Rest;
      gap := "";
      es, end := ItemsOnly(s[1..]);
      assert "" + Rest(es, end) == Rest(es, end);
    }
  }

  // ---------------------------------------------------- lists that are not JSON

  /** A field between commas. */
  predicate Field(f: string, name: string) {
    ',' !in f && !AllSpace(f) && Name(f) == name
  }

  lemma {:induction false} FieldsAre(fs: seq<string>, names: seq<string>)
    requires |fs| == |names| && forall i :: 0 <= i < |fs| ==> Field(fs[i], names[i])
    ensures Fields(fs) == AsItems(names)
  {
    if fs != [] {
      assert Field(fs[0], names[0]);
      StripAllSpace(fs[0]);
      FieldsAre(fs[1..], names[1..]);
    }
  }

  lemma BracketsOff(b: string)
    requires b != "" && b[0] !in "[]" && b[|b| - 1] !in "[]"
    ensures StripOf("[" + b + "]", "[]") == b
  {
    Assoc("[", b, "]");
    hide StripOf;
    StripOfFirst('[', b + "]", "[]");
    StripOfLast(b, ']', "[]");
    StripOfNone(b, "[]");
  }

  /** A list of bare words: cut at the commas, each field trimmed and its quotes taken off. */
  lemma BareList(fs: seq<string>, names: seq<string>, loads: Loads)
    requires fs != [] && |fs| == |names| && forall i :: 0 <= i < |fs| ==> Field(fs[i], names[i])
    requires var b := Join(",", fs); b != "" && b[0] !in "[]" && b[|b| - 1] !in "[]"
    requires var t := Requote("[" + Join(",", fs) + "]"); ReadStrings(t) == None && loads(t) == None
    ensures ReadValue("[" + Join(",", fs) + "]", loads) == Arr(AsItems(names))
  {
    var b := Join(",", fs);
    assert ("[" + b + "]")[0] == '[';
    forall i | 0 <= i < |fs| ensures ',' !in fs[i] {
      assert Field(fs[i], names[i]);
    }
    hide *;
    BracketsOff(b);
    FieldsAre(fs, names);
    SplitJoin(fs, ',');
    ByFallback("[" + b + "]", loads);
  }

  lemma ByFallback(v: string, loads: Loads)
    requires v != "" && v[0] == '[' && ReadStrings(Requote(v)) == None && loads(Requote(v)) == None
    ensures ReadValue(v, loads) == Arr(Fields(SplitOn(StripOf(v, "[]"), ',')))
  {
    hide Fields, SplitOn, ReadStrings, Requote, ParseInt, StripOf;
  }
}
