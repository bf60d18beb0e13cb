/**
 * The pushgateway payload: labels escaped, and a reader that takes it apart.
 */
module Exposition {
  import opened Text
  import opened OrderedDict

  // ---------------------------------------------------------------- escaping

  /** s.replace(c, sub) for a single character. */
  function Replace(s: string, c: char, sub: string): string {
    if s == "" then "" else (if s[0] == c then sub else [s[0]]) + Replace(s[1..], c, sub)
  }

  /** Backslashes first, then quotes, then line breaks. */
  function Esc(v: string): string {
    Replace(Replace(Replace(v, '\\', "\\\\"), '"', "\\\""), '\n', " ")
  }

  function EscChar(c: char): string {
    if c == '\\' then "\\\\" else if c == '"' then "\\\"" else if c == '\n' then " " else [c]
  }

  function EscOnce(v: string): string {
    if v == "" then "" else EscChar(v[0]) + EscOnce(v[1..])
  }

  lemma {:induction false} ReplaceAppend(a: string, b: string, c: char, sub: string)
    ensures Replace(a + b, c, sub) == Replace(a, c, sub) + Replace(b, c, sub)
  {
    if a == "" {
      assert a + b == b;
    } else {
      assert (a + b)[1..] == a[1..] + b;
      ReplaceAppend(a[1..], b, c, sub);
      Assoc(if a[0] == c then sub else [a[0]], Replace(a[1..], c, sub), Replace(b, c, sub));
    }
  }

  lemma ReplaceChar(x: char, c: char, sub: string)
    ensures Replace([x], c, sub) == if x == c then sub else [x]
  {
    assert [x][1..] == "";
  }

  lemma ReplacePair(x: char, y: char, c: char, sub: string)
    requires x != c && y != c
    ensures Replace([x, y], c, sub) == [x, y]
  {
    ReplaceAppend([x], [y], c, sub);
    ReplaceChar(x, c, sub);
    ReplaceChar(y, c, sub);
    assert [x] + [y] == [x, y];
  }

  lemma EscOneChar(c: char)
    ensures Replace(Replace(Replace([c], '\\', "\\\\"), '"', "\\\""), '\n', " ") == EscChar(c)
  {
    ReplaceChar(c, '\\', "\\\\");
    if c == '\\' {
      ReplacePair('\\', '\\', '"', "\\\"");
      ReplacePair('\\', '\\', '\n', " ");
    } else {
      ReplaceChar(c, '"', "\\\"");
      if c == '"' {
        ReplacePair('\\', '"', '\n', " ");
      } else {
        ReplaceChar(c, '\n', " ");
      }
    }
  }

  /** The successive replacements are one pass over the characters: no replacement meets what another wrote. */
  lemma {:induction false} EscIsOnePass(v: string)
    ensures Esc(v) == EscOnce(v)
  {
    if v != "" {
      var c, rest := [v[0]], v[1..];
      assert v == c + rest;
      EscIsOnePass(rest);
      EscOneChar(v[0]);
      var b, q := "\\\\", "\\\"";
      ReplaceAppend(c, rest, '\\', b);
      ReplaceAppend(Replace(c, '\\', b), Replace(rest, '\\', b), '"', q);
      ReplaceAppend(Replace(Replace(c, '\\', b), '"', q), Replace(Replace(rest, '\\', b), '"', q), '\n', " ");
    }
  }

  /** Line breaks turned into spaces. */
  function Flat(v: string): string {
    if v == "" then "" else [if v[0] == '\n' then ' ' else v[0]] + Flat(v[1..])
  }

  // ------------------------------------------------------------------ payload

  /** s[:n] */
  function Cut(s: string, n: nat): (r: string)
    ensures r <= s && |r| == if |s| < n then |s| else n
  {
    if |s| <= n then s else s[..n]
  }

  function Label(key: string, value: string): string {
    key + ("=\"" + (Esc(value) + "\""))
  }

  const TOTAL := "sysdeck_log_total"
  const STAMP := "sysdeck_log_timestamp_seconds"
  const INFO := "sysdeck_log_message_info"

  function SampleLine(name: string, labels: string, value: string): string {
    name + ("{" + (labels + ("} " + value)))
  }

  function TwoLabels(log: string, level: string): string {
    Label("module", log) + ("," + Label("level", level))
  }

  function ThreeLabels(log: string, level: string, msg: string): string {
    Label("module", log) + ("," + (Label("level", level) + ("," + Label("msg", msg))))
  }

  /** A type comment and its sample. */
  function Metric(name: string, kind: string, labels: string, value: string): seq<string> {
    ["# TYPE " + (name + (" " + kind)), SampleLine(name, labels, value)]
  }

  /** The payload lines; stamp is the time with three decimals. */
  function PayloadLines(log: string, level: string, message: string, stamp: string): seq<string> {
    Metric(TOTAL, "counter", TwoLabels(log, level), "1")
    + (Metric(STAMP, "gauge", TwoLabels(log, level), stamp)
       + Metric(INFO, "gauge", ThreeLabels(log, level, Cut(message, 128)), "1"))
  }

  function Payload(log: string, level: string, message: string, stamp: string): string {
    Unlines(PayloadLines(log, level, message, stamp))
  }

  // ---------------------------------------- a reader of the exposition format

  datatype Sample = Sample(name: string, labels: seq<(string, string)>, value: string)

  /** A label value from after its opening quote to its closing quote, and what follows. */
  function ReadValue(s: string): (r: Option<(string, string)>)
    ensures r.Some? ==> |r.value.1| < |s|
  {
    if s == "" then None
    else if s[0] == '"' then Some(("", s[1..]))
    else if s[0] == '\\' then
      if |s| < 2 || (s[1] != '\\' && s[1] != '"' && s[1] != 'n') then None
      else
        match ReadValue(s[2..])
        case None => None
        case Some((v, rest)) => Some(([if s[1] == 'n' then '\n' else s[1]] + v, rest))
    else
      match ReadValue(s[1..])
      case None => None
      case Some((v, rest)) => Some(([s[0]] + v, rest))
  }

  /** key="value" pairs separated by commas up to '}', and what follows. */
  function ReadLabels(s: string): Option<(seq<(string, string)>, string)>
    decreases |s|
  {
    var i := Index(s, '=');
    if i + 1 >= |s| || s[i + 1] != '"' then None
    else
      match ReadValue(s[i + 2..])
      case None => None
      case Some((v, rest)) =>
        if rest == "" then None
        else if rest[0] == '}' then Some(([(s[..i], v)], rest[1..]))
        else if rest[0] == ',' then
          match ReadLabels(rest[1..])
          case None => None
          case Some((more, end)) => Some(([(s[..i], v)] + more, end))
        else None
  }

  function ReadSample(line: string): Option<Sample> {
    var i := Index(line, '{');
    if i == |line| then None
    else
      match ReadLabels(line[i + 1..])
      case None => None
      case Some((labels, rest)) => if rest != "" && rest[0] == ' ' then Some(Sample(line[..i], labels, rest[1..])) else None
  }

  /** The samples of the lines that are not comments; None when a line is malformed. */
  function ReadLines(lines: seq<string>): Option<seq<Sample>> {
    if lines == [] then Some([])
    else if lines[0] != "" && lines[0][0] == '#' then ReadLines(lines[1..])
    else
      match (ReadSample(lines[0]), ReadLines(lines[1..]))
      case (Some(s), Some(more)) => Some([s] + more)
      case _ => None
  }

  function ReadPayload(text: string): Option<seq<Sample>> {
    ReadLines(SplitLines(text))
  }

  // --------------------------------------------------------------- round trip

  /** Reading an escaped value gives the value back, line breaks turned into spaces. */
  lemma {:induction false} ReadEscaped(v: string, rest: string)
    ensures ReadValue(EscOnce(v) + ("\"" + rest)) == Some((Flat(v), rest))
  {
    var tail := "\"" + rest;
    if v == "" {
      assert EscOnce(v) + tail == tail && tail[1..] == rest;
    } else {
      ReadEscaped(v[1..], rest);
      var e, more := EscChar(v[0]), EscOnce(v[1..]) + tail;
      Assoc(e, EscOnce(v[1..]), tail);
      var s := e + more;
      assert s[|e|..] == more;
      assert s[0] == e[0] && (|e| == 2 ==> s[1] == e[1]);
      EscStep(v[0], more, Flat(v[1..]), rest);
    }
  }

  lemma EscStep(c: char, more: string, v: string, rest: string)
    requires ReadValue(more) == Some((v, rest))
    ensures ReadValue(EscChar(c) + more) == Some(([if c == '\n' then ' ' else c] + v, rest))
  {
    var e := EscChar(c);
    var s := e + more;
    if c == '\\' || c == '"' {
      assert s[0] == '\\' && s[1] == c && s[2..] == more;
    } else {
      assert s[0] == e[0] && s[1..] == more;
    }
  }

  lemma {:induction false} EscOneLine(v: string)
    ensures OneLine(EscOnce(v))
  {
    if v != "" {
      EscOneLine(v[1..]);
      assert OneLine(EscChar(v[0]));
    }
  }

  predicate PlainKey(key: string) {
    '=' !in key
  }

  lemma KeyThenValue(key: string, value: string, rest: string)
    requires PlainKey(key)
    ensures var s := Label(key, value) + rest;
      && Index(s, '=') == |key| && s[..|key|] == key && |key| + 1 < |s| && s[|key| + 1] == '"'
      && s[|key| + 2..] == EscOnce(value) + ("\"" + rest)
  {
    EscIsOnePass(value);
    var body := EscOnce(value) + ("\"" + rest);
    assert '=' !in key;
    assert Label(key, value) == key + "=\"" + EscOnce(value) + "\"";
    hide Esc, EscOnce, PlainKey, Label;
    Assoc(key + "=\"", EscOnce(value), "\"");
    Assoc(key + "=\"", EscOnce(value) + "\"", rest);
    Assoc(EscOnce(value), "\"", rest);
    BehindKey(key, body);
  }

  lemma BehindKey(key: string, body: string)
    requires '=' !in key
    ensures var s := key + "=\"" + body;
      Index(s, '=') == |key| && s[..|key|] == key && |key| + 1 < |s| && s[|key| + 1] == '"' && s[|key| + 2..] == body
  {
    var s := key + "=\"" + body;
    assert s == key + ['='] + ("\"" + body);
    IndexAppend(key, '=', "\"" + body);
    hide IndexFrom;
  }

  lemma LastLabel(key: string, value: string, rest: string)
    requires PlainKey(key)
    ensures ReadLabels(Label(key, value) + ("}" + rest)) == Some(([(key, Flat(value))], rest))
  {
    KeyThenValue(key, value, "}" + rest);
    ReadEscaped(value, "}" + rest);
    assert ("}" + rest)[1..] == rest;
  }

  lemma NextLabel(key: string, value: string, tail: string, more: seq<(string, string)>, rest: string)
    requires PlainKey(key) && ReadLabels(tail) == Some((more, rest))
    ensures ReadLabels(Label(key, value) + ("," + tail)) == Some(([(key, Flat(value))] + more, rest))
  {
    KeyThenValue(key, value, "," + tail);
    ReadEscaped(value, "," + tail);
    assert ("," + tail)[1..] == tail;
  }

  type Labels = seq<(string, string)>

  function TwoRead(log: string, level: string): Labels {
    [("module", Flat(log))] + [("level", Flat(level))]
  }

  function ThreeRead(log: string, level: string, msg: string): Labels {
    [("module", Flat(log))] + ([("level", Flat(level))] + [("msg", Flat(msg))])
  }

  lemma ReadTwoLabels(log: string, level: string, rest: string)
    ensures ReadLabels(TwoLabels(log, level) + ("}" + rest)) == Some((TwoRead(log, level), rest))
  {
    var a, b := Label("module", log), Label("level", level);
    LastLabel("level", level, rest);
    hide ReadLabels, Label, Flat;
    NextLabel("module", log, b + ("}" + rest), [("level", Flat(level))], rest);
    Assoc(",", b, "}" + rest);
    Assoc(a, "," + b, "}" + rest);
  }

  lemma ThreeLabelsText(a: string, b: string, c: string, end: string)
    ensures a + ("," + (b + ("," + c))) + end == a + ("," + (b + ("," + (c + end))))
  {
    Assoc(",", c, end);
    Assoc(b, "," + c, end);
    Assoc(",", b + ("," + c), end);
    Assoc(a, "," + (b + ("," + c)), end);
  }

  lemma ReadThreeLabels(log: string, level: string, msg: string, rest: string)
    ensures ReadLabels(ThreeLabels(log, level, msg) + ("}" + rest)) == Some((ThreeRead(log, level, msg), rest))
  {
    var a, b, c := Label("module", log), Label("level", level), Label("msg", msg);
    LastLabel("msg", msg, rest);
    hide ReadLabels, Label, Flat;
    var tail := c + ("}" + rest);
    NextLabel("level", level, tail, [("msg", Flat(msg))], rest);
    NextLabel("module", log, b + ("," + tail), [("level", Flat(level))] + [("msg", Flat(msg))], rest);
    ThreeLabelsText(a, b, c, "}" + rest);
  }

  /** A sample line whose labels read back gives the sample. */
  lemma ReadLine(name: string, labels: string, value: string, read: seq<(string, string)>)
    requires '{' !in name && ReadLabels(labels + ("}" + (" " + value))) == Some((read, " " + value))
    ensures ReadSample(SampleLine(name, labels, value)) == Some(Sample(name, read, value))
  {
    hide ReadLabels;
    var line := SampleLine(name, labels, value);
    var body := labels + ("} " + value);
    assert line == name + ['{'] + body;
    IndexAppend(name, '{', body);
    assert line[..|name|] == name && line[|name| + 1..] == body;
    Assoc("}", " ", value);
    assert "} " == "}" + " ";
    assert (" " + value)[1..] == value;
  }

  /** What the payload is meant to say. */
  function Samples(log: string, level: string, message: string, stamp: string): seq<Sample> {
    [Sample(TOTAL, TwoRead(log, level), "1")]
    + ([Sample(STAMP, TwoRead(log, level), stamp)]
       + [Sample(INFO, ThreeRead(log, level, Cut(message, 128)), "1")])
  }

  lemma NamesPlain()
    ensures '{' !in TOTAL && '{' !in STAMP && '{' !in INFO
    ensures TOTAL != "" && TOTAL[0] != '#' && STAMP != "" && STAMP[0] != '#' && INFO != "" && INFO[0] != '#'
  {
    assert STAMP == "sysdeck_log_" + "timestamp_" + "seconds";
    assert '{' !in "sysdeck_log_" && '{' !in "timestamp_" && '{' !in "seconds";
  }

  lemma TwoLabelLine(name: string, log: string, level: string, value: string)
    requires '{' !in name
    ensures ReadSample(SampleLine(name, TwoLabels(log, level), value)) == Some(Sample(name, TwoRead(log, level), value))
  {
    ReadTwoLabels(log, level, " " + value);
    hide ReadSample, ReadLabels, SampleLine, TwoLabels, TwoRead;
    ReadLine(name, TwoLabels(log, level), value, TwoRead(log, level));
  }

  lemma ThreeLabelLine(name: string, log: string, level: string, msg: string, value: string)
    requires '{' !in name
    ensures ReadSample(SampleLine(name, ThreeLabels(log, level, msg), value))
         == Some(Sample(name, ThreeRead(log, level, msg), value))
  {
    ReadThreeLabels(log, level, msg, " " + value);
    hide ReadSample, ReadLabels, SampleLine, ThreeLabels, ThreeRead;
    ReadLine(name, ThreeLabels(log, level, msg), value, ThreeRead(log, level, msg));
  }

  lemma LabelOneLine(key: string, value: string)
    requires OneLine(key)
    ensures OneLine(Label(key, value))
  {
    EscIsOnePass(value);
    EscOneLine(value);
  }

  lemma MetricOneLine(name: string, kind: string, labels: string, value: string)
    requires OneLine(name) && OneLine(kind) && OneLine(labels) && OneLine(value)
    ensures AllOneLine(Metric(name, kind, labels, value))
  {
  }

  lemma LinesOneLine(log: string, level: string, message: string, stamp: string)
    requires OneLine(stamp)
    ensures AllOneLine(PayloadLines(log, level, message, stamp))
  {
    var msg := Cut(message, 128);
    LabelOneLine("module", log);
    LabelOneLine("level", level);
    LabelOneLine("msg", msg);
    NamesOneLine();
    assert OneLine(TwoLabels(log, level)) && OneLine(ThreeLabels(log, level, msg));
    hide Label, TwoLabels, ThreeLabels, Metric;
    MetricOneLine(TOTAL, "counter", TwoLabels(log, level), "1");
    MetricOneLine(STAMP, "gauge", TwoLabels(log, level), stamp);
    MetricOneLine(INFO, "gauge", ThreeLabels(log, level, msg), "1");
  }

  lemma NamesOneLine()
    ensures OneLine(TOTAL) && OneLine(STAMP) && OneLine(INFO)
  {
    assert STAMP == "sysdeck_log_" + "timestamp_" + "seconds";
    assert OneLine("sysdeck_log_") && OneLine("timestamp_") && OneLine("seconds");
  }

  lemma ReadMetric(name: string, kind: string, labels: string, value: string, x: Sample, rest: seq<string>, more: seq<Sample>)
    requires name != "" && name[0] != '#' && ReadSample(SampleLine(name, labels, value)) == Some(x)
    requires ReadLines(rest) == Some(more)
    ensures ReadLines(Metric(name, kind, labels, value) + rest) == Some([x] + more)
  {
    hide ReadSample;
    var line := SampleLine(name, labels, value);
    var tail := [line] + rest;
    assert tail[1..] == rest && line[0] == name[0];
    var all := Metric(name, kind, labels, value) + rest;
    assert all[1..] == tail;
    assert all[0][0] == '#';
  }

  /**
   * For every module, level and message, whatever they contain, the payload reads
   * as exactly three samples carrying them, line breaks turned into spaces and
   * the message cut to 128 characters.
   */
  lemma PayloadReadsBack(log: string, level: string, message: string, stamp: string)
    requires OneLine(stamp)
    ensures ReadPayload(Payload(log, level, message, stamp)) == Some(Samples(log, level, message, stamp))
  {
    var msg := Cut(message, 128);
    var two, three := TwoLabels(log, level), ThreeLabels(log, level, msg);
    LinesOneLine(log, level, message, stamp);
    LinesRead(PayloadLines(log, level, message, stamp));
    NamesPlain();
    TwoLabelLine(TOTAL, log, level, "1");
    TwoLabelLine(STAMP, log, level, stamp);
    ThreeLabelLine(INFO, log, level, msg, "1");
    var x, y, z := Sample(TOTAL, TwoRead(log, level), "1"), Sample(STAMP, TwoRead(log, level), stamp),
                   Sample(INFO, ThreeRead(log, level, msg), "1");
    assert ReadLines([]) == Some([]);
    hide ReadSample, TwoLabels, ThreeLabels, TwoRead, ThreeRead, ReadLines, SampleLine, Metric, Unlines, SplitLines, Cut;
    ReadMetric(INFO, "gauge", three, "1", z, [], []);
    assert Metric(INFO, "gauge", three, "1") + [] == Metric(INFO, "gauge", three, "1") && [z] + [] == [z];
    ReadMetric(STAMP, "gauge", two, stamp, y, Metric(INFO, "gauge", three, "1"), [z]);
    ReadMetric(TOTAL, "counter", two, "1", x,
               Metric(STAMP, "gauge", two, stamp) + Metric(INFO, "gauge", three, "1"), [y] + [z]);
  }

  lemma LinesRead(ls: seq<string>)
    requires AllOneLine(ls)
    ensures SplitLines(Unlines(ls)) == ls
  {
    SplitUnlines(ls, "");
    assert Unlines(ls) + "" == Unlines(ls) && ls + SplitLines("") == ls;
  }

  /** Flattening loses line breaks and nothing else. */
  lemma {:induction false} FlatKeeps(v: string)
    ensures |Flat(v)| == |v|
    ensures forall i :: 0 <= i < |v| ==> Flat(v)[i] == if v[i] == '\n' then ' ' else v[i]
  {
    if v != "" {
      FlatKeeps(v[1..]);
    }
  }

  // --------------------------------------------------------- the literal text

  lemma LabelText(key: string, v: string)
    ensures Label(key, v) == key + "=\"" + EscOnce(v) + "\""
  {
    EscIsOnePass(v);
    hide Esc, EscOnce;
  }

  lemma TwoText(log: string, level: string)
    ensures TwoLabels(log, level) == "module=\"" + EscOnce(log) + "\",level=\"" + EscOnce(level) + "\""
  {
    LabelText("module", log);
    LabelText("level", level);
    hide Label, EscOnce;
    TwoPieces(EscOnce(log), EscOnce(level));
  }

  lemma TwoPieces(a: string, b: string)
    ensures ("module" + "=\"" + a + "\"") + ("," + ("level" + "=\"" + b + "\"")) == "module=\"" + a + "\",level=\"" + b + "\""
  {
    assert "module" + "=\"" == "module=\"";
    assert "," + ("level" + "=\"" + b + "\"") == ",level=\"" + b + "\"";
    Assoc("module=\"" + a, "\"", ",level=\"" + b + "\"");
    assert "\"" + (",level=\"" + b + "\"") == "\",level=\"" + b + "\"";
  }

  lemma ThreeText(log: string, level: string, msg: string)
    ensures ThreeLabels(log, level, msg) == TwoLabels(log, level) + ",msg=\"" + EscOnce(msg) + "\""
  {
    LabelText("msg", msg);
    var a, b, c := Label("module", log), Label("level", level), Label("msg", msg);
    hide Label, EscOnce;
    assert "," + c == ",msg=\"" + EscOnce(msg) + "\"";
    Assoc(",", b, "," + c);
    Assoc(a, "," + b, "," + c);
  }

  /** The labels of every sample, still open. */
  function OpenLabels(log: string, level: string): string {
    "{module=\"" + EscOnce(log) + "\",level=\"" + EscOnce(level) + "\""
  }

  lemma OpenIs(log: string, level: string)
    ensures "{" + TwoLabels(log, level) == OpenLabels(log, level)
  {
    TwoText(log, level);
    hide TwoLabels, EscOnce;
  }

  lemma LineText(name: string, labels: string, value: string)
    ensures SampleLine(name, labels, value) == name + ("{" + labels) + ("} " + value)
  {
    Assoc("{", labels, "} " + value);
    Assoc(name, "{" + labels, "} " + value);
  }

  lemma TwoLine(name: string, log: string, level: string, value: string)
    ensures SampleLine(name, TwoLabels(log, level), value) == name + OpenLabels(log, level) + "} " + value
  {
    OpenIs(log, level);
    LineText(name, TwoLabels(log, level), value);
    hide *;
    Assoc(name + OpenLabels(log, level), "} ", value);
  }

  lemma InfoLine(log: string, level: string, msg: string)
    ensures SampleLine(INFO, ThreeLabels(log, level, msg), "1")
         == INFO + OpenLabels(log, level) + ",msg=\"" + EscOnce(msg) + "\"} 1"
  {
    var two, m := TwoLabels(log, level), ",msg=\"" + EscOnce(msg);
    OpenIs(log, level);
    ThreeText(log, level, msg);
    LineText(INFO, ThreeLabels(log, level, msg), "1");
    hide *;
    assert "\"" + ("} " + "1") == "\"} 1";
    assert two + ",msg=\"" + EscOnce(msg) + "\"" == two + m + "\"";
    Assoc("{", two, m);
    Assoc("{", two + m, "\"");
    Assoc(INFO + OpenLabels(log, level), ",msg=\"", EscOnce(msg));
    MiddleMoved(INFO, "{" + two, m, "\"", "} " + "1");
  }

  lemma MiddleMoved(a: string, b: string, c: string, d: string, e: string)
    ensures a + (b + c + d) + e == a + b + c + (d + e)
  {
  }

  lemma TypeLine(name: string, kind: string)
    ensures "# TYPE " + (name + (" " + kind)) == "# TYPE " + name + " " + kind
  {
  }

  function PayloadText(log: string, level: string, message: string, stamp: string): seq<string> {
    ["# TYPE sysdeck_log_total counter",
     "sysdeck_log_total" + OpenLabels(log, level) + "} 1",
     "# TYPE sysdeck_log_timestamp_seconds gauge",
     "sysdeck_log_timestamp_seconds" + OpenLabels(log, level) + "} " + stamp,
     "# TYPE sysdeck_log_message_info gauge",
     "sysdeck_log_message_info" + OpenLabels(log, level) + ",msg=\""
     + EscOnce(if |message| <= 128 then message else message[..128]) + "\"} 1"]
  }

  lemma SixLines(a: (string, string, string, string), b: (string, string, string, string), c: (string, string, string, string))
    ensures Metric(a.0, a.1, a.2, a.3) + (Metric(b.0, b.1, b.2, b.3) + Metric(c.0, c.1, c.2, c.3))
         == ["# TYPE " + (a.0 + (" " + a.1)), SampleLine(a.0, a.2, a.3),
             "# TYPE " + (b.0 + (" " + b.1)), SampleLine(b.0, b.2, b.3),
             "# TYPE " + (c.0 + (" " + c.1)), SampleLine(c.0, c.2, c.3)]
  {
    hide SampleLine;
  }

  lemma TotalType()
    ensures "# TYPE " + (TOTAL + (" " + "counter")) == "# TYPE sysdeck_log_total counter"
  {
  }

  lemma StampType()
    ensures "# TYPE " + (STAMP + (" " + "gauge")) == "# TYPE sysdeck_log_timestamp_seconds gauge"
  {
  }

  lemma InfoType()
    ensures "# TYPE " + (INFO + (" " + "gauge")) == "# TYPE sysdeck_log_message_info gauge"
  {
  }

  lemma TotalLine(log: string, level: string)
    ensures SampleLine(TOTAL, TwoLabels(log, level), "1") == "sysdeck_log_total" + OpenLabels(log, level) + "} 1"
  {
    TwoLine(TOTAL, log, level, "1");
    hide OpenLabels, TwoLabels, SampleLine;
    Assoc(TOTAL + OpenLabels(log, level), "} ", "1");
    assert "} " + "1" == "} 1";
  }

  /** The text pushed for one message, character by character. */
  lemma PayloadIs(log: string, level: string, message: string, stamp: string)
    ensures Payload(log, level, message, stamp) == Unlines(PayloadText(log, level, message, stamp))
  {
    var msg := Cut(message, 128);
    assert msg == if |message| <= 128 then message else message[..128];
    TotalType();
    StampType();
    InfoType();
    TotalLine(log, level);
    TwoLine(STAMP, log, level, stamp);
    InfoLine(log, level, msg);
    var two := TwoLabels(log, level);
    SixLines((TOTAL, "counter", two, "1"), (STAMP, "gauge", two, stamp), (INFO, "gauge", ThreeLabels(log, level, msg), "1"));
    hide OpenLabels, TwoLabels, ThreeLabels, EscOnce, SampleLine, Cut, Metric;
    assert PayloadLines(log, level, message, stamp) == PayloadText(log, level, message, stamp);
  }
}
