/**
 * One line of QCrows metadata: section headers, keys, and the values they hold.
 */
module TomlLines {
  import opened Text
  import opened OrderedDict
  import opened Decimals

  /** An element of an array: a string, or any other JSON value. */
  datatype Item = Word(s: string) | Other(json: string)

  datatype Scalar = Str(s: string) | Bool(b: bool) | Int(n: int) | Arr(items: seq<Item>)

  datatype Line = Skip | Section(parts: seq<string>) | Key(name: string, value: Scalar)

  /** What json.loads makes of an array that is not a plain list of strings; None is its ValueError. */
  type Loads = string -> Option<seq<Item>>

  // ---------------------------------------------------------------- trimming

  /** s.strip(cs) */
  function StripOf(s: string, cs: string): (r: string)
    ensures r != "" ==> r[0] !in cs && r[|r| - 1] !in cs
    ensures |r| <= |s|
    decreases |s|
  {
    if s == "" then ""
    else if s[0] in cs then StripOf(s[1..], cs)
    else if s[|s| - 1] in cs then StripOf(s[..|s| - 1], cs)
    else s
  }

  predicate Unquoted(s: string) {
    s != "" ==> s[0] != '"' && s[|s| - 1] != '"'
  }

  function Name(s: string): string {
    StripOf(Strip(s), "\"")
  }

  lemma NameOf(w1: string, s: string, w2: string)
    requires AllSpace(w1) && AllSpace(w2) && Trimmed(s) && Unquoted(s)
    ensures Name(w1 + s + w2) == s
  {
    StripPadded(w1, s, w2);
  }

  // ---------------------------------------------------------------- integers

  function DropUnderscores(s: string): (r: string)
    ensures (forall i :: 0 <= i < |s| ==> IsDigit(s[i]) || s[i] == '_') ==> forall i :: 0 <= i < |r| ==> IsDigit(r[i])
  {
    if s == "" then "" else (if s[0] == '_' then "" else [s[0]]) + DropUnderscores(s[1..])
  }

  /** Digits with single underscores between them. */
  predicate IntBody(s: string) {
    && s != "" && s[0] != '_' && s[|s| - 1] != '_'
    && (forall i :: 0 <= i < |s| ==> IsDigit(s[i]) || s[i] == '_')
    && (forall i :: 0 < i < |s| ==> s[i - 1] != '_' || s[i] != '_')
  }

  /** int(s) of a trimmed s; None is its ValueError. */
  function ParseInt(s: string): Option<int> {
    var signed := s != "" && (s[0] == '-' || s[0] == '+');
    var body := if signed then s[1..] else s;
    if !IntBody(body) then None
    else
      var n: int := ValueOf(DropUnderscores(body));
      Some(if signed && s[0] == '-' then -n else n)
  }

  function ShowInt(n: int): string {
    if n < 0 then "-" + Decimal(-n) else Decimal(n)
  }

  lemma {:induction false} DropNothing(s: string)
    requires '_' !in s
    ensures DropUnderscores(s) == s
  {
    if s != "" {
      DropNothing(s[1..]);
    }
  }

  lemma DecimalBody(m: nat)
    ensures IntBody(Decimal(m)) && ValueOf(DropUnderscores(Decimal(m))) == m
  {
    DropNothing(Decimal(m));
    DecimalValue(m);
  }

  /** The digits of an integer, after its sign. */
  lemma SignedBody(d: string)
    requires IntBody(d) && IsDigit(d[0])
    ensures ParseInt(d) == Some(ValueOf(DropUnderscores(d)))
    ensures ParseInt("-" + d) == Some(0 - ValueOf(DropUnderscores(d)) as int)
  {
    hide IntBody, ValueOf, DropUnderscores;
    assert ("-" + d)[1..] == d;
  }

  lemma ReadsInt(n: int)
    ensures ParseInt(ShowInt(n)) == Some(n)
  {
    var m := if n < 0 then -n else n;
    DecimalBody(m);
    hide IntBody, ParseInt, ValueOf, DropUnderscores, Decimal;
    SignedBody(Decimal(m));
  }

  // ------------------------------------------------------------------ arrays

  /** s.replace("'", '"') */
  function Requote(s: string): (r: string)
    ensures |r| == |s| && forall i :: 0 <= i < |s| ==> r[i] == if s[i] == '\'' then '"' else s[i]
  {
    if s == "" then "" else [if s[0] == '\'' then '"' else s[0]] + Requote(s[1..])
  }

  /** A character that stands for itself inside a JSON string. */
  predicate Plain(c: char) {
    c >= ' ' && c != '"' && c != '\\'
  }

  predicate AllPlain(s: string) {
    forall i :: 0 <= i < |s| ==> Plain(s[i])
  }

  function PlainEnd(s: string): (n: nat)
    ensures n <= |s|
    ensures n < |s| ==> !Plain(s[n])
    ensures AllPlain(s[..n])
  {
    if s == "" || !Plain(s[0]) then 0
    else
      assert s[1..][..PlainEnd(s[1..])] == s[..1 + PlainEnd(s[1..])][1..];
      1 + PlainEnd(s[1..])
  }

  function SkipWs(s: string): (r: string)
    ensures |r| <= |s|
  {
    if s != "" && (s[0] == ' ' || s[0] == '\t' || s[0] == '\n' || s[0] == '\r') then SkipWs(s[1..]) else s
  }

  /** A JSON string without escapes, and what follows it. */
  function ReadString(s: string): (r: Option<(string, string)>)
    ensures r.Some? ==> |r.value.1| < |s| && s == "\"" + r.value.0 + "\"" + r.value.1
  {
    if s == "" || s[0] != '"' then None
    else
      var n := 1 + PlainEnd(s[1..]);
      if n < |s| && s[n] == '"' then Some((s[1..n], s[n + 1..])) else None
  }

  /** The strings up to the closing bracket, which ends the text but for white space. */
  function ReadItems(s: string): Option<seq<Item>>
    decreases |s|
  {
    match ReadString(SkipWs(s))
    case None => None
    case Some((w, rest)) =>
      var more := SkipWs(rest);
      if more == "" then None
      else if more[0] == ']' then if SkipWs(more[1..]) == "" then Some([Word(w)]) else None
      else if more[0] == ',' then
        match ReadItems(more[1..])
        case None => None
        case Some(items) => Some([Word(w)] + items)
      else None
  }

  /** A JSON list of strings without escapes. */
  function ReadStrings(s: string): Option<seq<Item>>
    requires s != ""
  {
    var more := SkipWs(s[1..]);
    if s[0] == '[' && more != "" && more[0] == ']' then if SkipWs(more[1..]) == "" then Some([]) else None
    else if s[0] == '[' then ReadItems(s[1..])
    else None
  }

  function Fields(parts: seq<string>): seq<Item> {
    if parts == [] then []
    else (if Strip(parts[0]) != "" then [Word(Name(parts[0]))] else []) + Fields(parts[1..])
  }

  function ReadArray(s: string, loads: Loads): seq<Item>
    requires s != ""
  {
    var t := Requote(s);
    var plain := ReadStrings(t);
    var read := if plain.Some? then plain else loads(t);
    if read.Some? then read.value else Fields(SplitOn(StripOf(s, "[]"), ','))
  }

  function Quote(s: string): string {
    "\"" + s + "\""
  }

  function ShowItems(items: seq<string>): string
    requires items != []
  {
    if |items| == 1 then Quote(items[0]) + " ]" else Quote(items[0]) + (", " + ShowItems(items[1..]))
  }

  function ShowArray(items: seq<string>): string {
    if items == [] then "[ ]" else "[ " + ShowItems(items)
  }

  function AsItems(items: seq<string>): (r: seq<Item>)
    ensures |r| == |items| && forall i :: 0 <= i < |r| ==> r[i] == Word(items[i])
  {
    if items == [] then [] else [Word(items[0])] + AsItems(items[1..])
  }

  lemma ReadQuoted(w: string, rest: string)
    requires AllPlain(w)
    ensures ReadString(Quote(w) + rest) == Some((w, rest))
  {
    var s := Quote(w) + rest;
    assert s[1..] == w + ("\"" + rest);
    assert forall i :: 0 <= i < |w| ==> s[1..][i] == w[i];
    assert s[1..][|w|] == '"';
    var n := PlainEnd(s[1..]);
    assert n == |w|;
    assert s[1..1 + n] == w && s[n + 2..] == rest;
  }

  /** What a list with text behind its closing bracket reads as. */
  function IfNothing(more: string, items: seq<string>): Option<seq<Item>> {
    if SkipWs(more) == "" then Some(AsItems(items)) else None
  }

  lemma LastItem(w: string, more: string)
    requires AllPlain(w)
    ensures ReadItems(Quote(w) + (" ]" + more)) == IfNothing(more, [w])
  {
    var rest := " ]" + more;
    ReadQuoted(w, rest);
    hide ReadString, AllPlain;
    var s := Quote(w) + rest;
    assert SkipWs(s) == s;
    CloseBracket(more);
    assert AsItems([w]) == [Word(w)];
  }

  lemma CloseBracket(more: string)
    ensures var t := SkipWs(" ]" + more); t != "" && t[0] == ']' && t[1..] == more
  {
    var t := " ]" + more;
    assert t[1..] == "]" + more && ("]" + more)[1..] == more;
    assert SkipWs(t) == SkipWs(t[1..]) == "]" + more;
  }

  lemma MoreItems(w: string, tail: string)
    requires AllPlain(w)
    ensures
      var r := ReadItems(" " + tail);
      ReadItems(Quote(w) + (", " + tail)) == if r == None then None else Some([Word(w)] + r.value)
  {
    ReadQuoted(w, ", " + tail);
    hide ReadString;
    var s, rest := Quote(w) + (", " + tail), ", " + tail;
    assert SkipWs(s) == s;
    assert rest[1..] == " " + tail && SkipWs(rest) == rest;
  }

  lemma ItemsAfterSpace(s: string)
    ensures ReadItems(" " + s) == ReadItems(s)
  {
    assert (" " + s)[1..] == s;
    assert SkipWs(" " + s) == SkipWs(s);
  }

  lemma {:induction false} ReadsItems(items: seq<string>, more: string)
    requires items != [] && forall i :: 0 <= i < |items| ==> AllPlain(items[i])
    ensures ReadItems(ShowItems(items) + more) == IfNothing(more, items)
  {
    var w := items[0];
    if |items| == 1 {
      LastItem(w, more);
      Assoc(Quote(w), " ]", more);
      assert items == [w];
    } else {
      var tail := ShowItems(items[1..]);
      ReadsItems(items[1..], more);
      ItemsAfterSpace(tail + more);
      MoreItems(w, tail + more);
      hide ReadItems, AllPlain, SkipWs;
      Assoc(", ", tail, more);
      Assoc(Quote(w), ", " + tail, more);
    }
  }

  lemma EmptyArray(more: string)
    ensures ReadStrings("[ ]" + more) == IfNothing(more, [])
  {
    var s := "[ ]" + more;
    hide ReadItems;
    assert s[1..] == " ]" + more;
    CloseBracket(more);
  }

  lemma FilledArray(t: string)
    requires t != "" && t[0] == '"'
    ensures ReadStrings("[ " + t) == ReadItems(t)
  {
    var s := "[ " + t;
    ItemsAfterSpace(t);
    hide ReadItems;
    assert s[0] == '[' && s[1..] == " " + t && (" " + t)[1..] == t;
    assert SkipWs(" " + t) == SkipWs(t) == t;
  }

  lemma ItemsStart(items: seq<string>, more: string)
    requires items != []
    ensures ShowItems(items) + more != "" && (ShowItems(items) + more)[0] == '"'
  {
  }

  /** A rendered list reads back; with anything but white space behind it, it is no list. */
  lemma ReadsStrings(items: seq<string>, more: string)
    requires forall i :: 0 <= i < |items| ==> AllPlain(items[i])
    ensures ReadStrings(ShowArray(items) + more) == IfNothing(more, items)
  {
    hide ReadStrings, ReadItems, AllPlain, IfNothing;
    if items == [] {
      EmptyArray(more);
    } else {
      ReadsItems(items, more);
      ItemsStart(items, more);
      Assoc("[ ", ShowItems(items), more);
      FilledArray(ShowItems(items) + more);
    }
  }

  lemma RequoteNothing(s: string)
    requires '\'' !in s
    ensures Requote(s) == s
  {
    hide Requote;
  }

  lemma ReadsArray(items: seq<string>, loads: Loads)
    requires forall i :: 0 <= i < |items| ==> AllPlain(items[i]) && '\'' !in items[i]
    ensures ShowArray(items) != "" && ShowArray(items)[0] == '['
    ensures ReadArray(ShowArray(items), loads) == AsItems(items)
  {
    NoApostrophe(items);
    ReadsStrings(items, "");
    hide ReadStrings, ShowItems, Requote, AllPlain;
    RequoteNothing(ShowArray(items));
    assert ShowArray(items) + "" == ShowArray(items);
  }

  lemma {:induction false} ItemsChars(items: seq<string>, c: char)
    requires items != [] && forall i :: 0 <= i < |items| ==> c !in items[i]
    requires c != '"' && c != ',' && c != ' ' && c != ']'
    ensures c !in ShowItems(items)
  {
    if |items| > 1 {
      ItemsChars(items[1..], c);
    }
  }

  lemma NoApostrophe(items: seq<string>)
    requires forall i :: 0 <= i < |items| ==> '\'' !in items[i]
    ensures '\'' !in ShowArray(items)
  {
    if items != [] {
      ItemsChars(items, '\'');
    }
  }

  // ------------------------------------------------------------------ values

  /** The value of a key, from the trimmed text after the equals sign. */
  function ReadValue(value: string, loads: Loads): Scalar {
    if value != "" && value[0] == '"' then
      var end := IndexFrom(value, '"', 1);
      Str(value[1..end])
    else if value != "" && value[0] == '[' then Arr(ReadArray(value, loads))
    else if value == "true" || value == "false" then Bool(value == "true")
    else
      match ParseInt(value)
      case Some(n) => Int(n)
      case None => Str(value)
  }

  function ShowScalar(v: Scalar): string {
    match v
    case Str(s) => Quote(s)
    case Bool(b) => if b then "true" else "false"
    case Int(n) => ShowInt(n)
    case Arr(items) => ShowArray(Strings(items))
  }

  function Strings(items: seq<Item>): (r: seq<string>)
    ensures |r| == |items|
    ensures forall i :: 0 <= i < |r| ==> r[i] == if items[i].Word? then items[i].s else items[i].json
  {
    if items == [] then []
    else [if items[0].Word? then items[0].s else items[0].json] + Strings(items[1..])
  }

  /** A string without quotes or line breaks, a truth value, an integer, or a list of plain strings. */
  predicate Writable(v: Scalar) {
    match v
    case Str(s) => '"' !in s && OneLine(s)
    case Arr(items) => forall i :: 0 <= i < |items| ==> items[i].Word? && AllPlain(items[i].s) && '\'' !in items[i].s
    case _ => true
  }

  /** What follows the closing quote is dropped, a comment for one. */
  lemma QuotedValue(s: string, rest: string, loads: Loads)
    requires '"' !in s
    ensures ReadValue(Quote(s) + rest, loads) == Str(s)
  {
    var v := Quote(s) + rest;
    assert forall k :: 0 <= k < |s| ==> v[1 + k] == s[k];
    assert v[1 + |s|] == '"';
    assert IndexFrom(v, '"', 1) == 1 + |s|;
    assert v[1..1 + |s|] == s;
  }

  lemma IntHead(n: int)
    ensures ShowInt(n) != "" && Trimmed(ShowInt(n)) && OneLine(ShowInt(n))
    ensures ShowInt(n)[0] == '-' || IsDigit(ShowInt(n)[0])
    ensures n < 0 ==> |ShowInt(n)| > 1
  {
  }

  lemma IntValue(n: int, loads: Loads)
    ensures ReadValue(ShowInt(n), loads) == Int(n)
  {
    IntHead(n);
    ReadsInt(n);
    assert !IsDigit('"') && !IsDigit('[') && !IsDigit('t') && !IsDigit('f');
    hide ShowInt, ParseInt, ReadArray, IsDigit;
  }

  lemma ReadsValue(v: Scalar, loads: Loads)
    requires Writable(v)
    ensures ReadValue(ShowScalar(v), loads) == v
  {
    match v
    case Str(s) =>
      QuotedValue(s, "", loads);
      assert Quote(s) + "" == Quote(s);
    case Bool(b) => BoolValue(b, loads);
    case Int(n) => IntValue(n, loads);
    case Arr(items) => ArrayValue(items, loads);
  }

  lemma BoolValue(b: bool, loads: Loads)
    ensures ReadValue(if b then "true" else "false", loads) == Bool(b)
  {
    hide ParseInt, ReadArray;
    assert "true"[0] == 't' && "false"[0] == 'f';
  }

  lemma ArrayValue(items: seq<Item>, loads: Loads)
    requires Writable(Arr(items))
    ensures ReadValue(ShowArray(Strings(items)), loads) == Arr(items)
  {
    ReadsArray(Strings(items), loads);
    assert AsItems(Strings(items)) == items;
    hide ShowArray, ReadArray, ParseInt;
  }

  // ------------------------------------------------------------------- lines

  function Names(parts: seq<string>): (r: seq<string>)
    ensures |r| == |parts| && forall i :: 0 <= i < |r| ==> r[i] == Name(parts[i])
  {
    seq(|parts|, i requires 0 <= i < |parts| => Name(parts[i]))
  }

  function ReadLine(raw: string, loads: Loads): Line {
    var line := Strip(raw);
    if line == "" || line[0] == '#' then Skip
    else if line[0] == '[' && line[|line| - 1] == ']' then Section(Names(SplitOn(Name(line[1..|line| - 1]), '.')))
    else
      var i := Index(line, '=');
      if i == |line| then Skip else Key(Name(line[..i]), ReadValue(Strip(line[i + 1..]), loads))
  }

  function ShowHeader(path: seq<string>): string {
    "[ " + Join(".", path) + " ]"
  }

  function ShowKey(k: string, v: Scalar): string {
    k + " = " + ShowScalar(v)
  }

  /** A section name that can stand between dots. */
  predicate SectionName(s: string) {
    Trimmed(s) && Unquoted(s) && OneLine(s) && '.' !in s && s != ""
  }

  predicate KeyName(k: string) {
    k != "" && Trimmed(k) && Unquoted(k) && OneLine(k) && '=' !in k && k[0] != '#' && k[0] != '['
  }

  lemma {:induction false} JoinEnds(path: seq<string>)
    requires path != [] && forall i :: 0 <= i < |path| ==> SectionName(path[i])
    ensures Join(".", path) != "" && Trimmed(Join(".", path)) && Unquoted(Join(".", path)) && OneLine(Join(".", path))
  {
    if |path| > 1 {
      JoinEnds(path[1..]);
      var tail := Join(".", path[1..]);
      assert Join(".", path) == path[0] + "." + tail;
    }
  }

  lemma NamesOf(path: seq<string>)
    requires forall i :: 0 <= i < |path| ==> SectionName(path[i])
    ensures Names(path) == path
  {
    forall i | 0 <= i < |path|
      ensures Name(path[i]) == path[i]
    {
      NameOf("", path[i], "");
      assert "" + path[i] + "" == path[i];
    }
  }

  lemma Between(a: char, m: string, b: char)
    ensures
      var line := [a] + m + [b];
      |line| == |m| + 2 && line[0] == a && line[|line| - 1] == b && line[1..|line| - 1] == m
  {
  }

  lemma HeaderText(j: string, loads: Loads)
    requires Trimmed(j) && Unquoted(j) && OneLine(j)
    ensures OneLine("[ " + j + " ]")
    ensures ReadLine("[ " + j + " ]", loads) == Section(Names(SplitOn(j, '.')))
  {
    var m := " " + j + " ";
    var line := ['['] + m + [']'];
    assert line == "[ " + j + " ]";
    assert OneLine(line);
    Between('[', m, ']');
    NameOf(" ", j, " ");
    StripTrimmed(line);
    hide Names, SplitOn, Name, Strip, ReadLine, Index, OneLine, Unquoted;
    HeaderShape(line, loads);
  }

  lemma HeaderShape(line: string, loads: Loads)
    requires |line| > 1 && Strip(line) == line && line[0] == '[' && line[|line| - 1] == ']'
    ensures ReadLine(line, loads) == Section(Names(SplitOn(Name(line[1..|line| - 1]), '.')))
  {
    hide Name, Strip, IndexFrom, Names, SplitOn, ReadValue;
  }

  lemma ReadsHeader(path: seq<string>, loads: Loads)
    requires path != [] && forall i :: 0 <= i < |path| ==> SectionName(path[i])
    ensures OneLine(ShowHeader(path)) && ReadLine(ShowHeader(path), loads) == Section(path)
  {
    JoinEnds(path);
    SplitJoin(path, '.');
    NamesOf(path);
    HeaderText(Join(".", path), loads);
  }

  lemma ShownScalar(v: Scalar)
    requires Writable(v)
    ensures ShowScalar(v) != "" && Trimmed(ShowScalar(v)) && OneLine(ShowScalar(v))
  {
    match v
    case Str(s) =>
    case Bool(b) =>
    case Int(n) => IntHead(n);
    case Arr(items) =>
      if items != [] {
        ItemsChars(Strings(items), '\n');
        ItemsEnd(Strings(items));
      }
  }

  lemma {:induction false} ItemsEnd(items: seq<string>)
    requires items != []
    ensures ShowItems(items) != "" && ShowItems(items)[|ShowItems(items)| - 1] == ']'
  {
    if |items| > 1 {
      ItemsEnd(items[1..]);
    }
  }

  lemma KeyParts(k: string, t: string)
    requires KeyName(k) && t != "" && Trimmed(t)
    ensures
      var line := k + " = " + t;
      var i := Index(line, '=');
      Strip(line) == line && i < |line| && Name(line[..i]) == k && Strip(line[i + 1..]) == t
  {
    var line := k + " = " + t;
    assert line[0] == k[0] && line[|line| - 1] == t[|t| - 1];
    StripTrimmed(line);
    assert line == (k + " ") + ['='] + (" " + t);
    hide Name, Strip, IndexFrom;
    IndexAppend(k + " ", '=', " " + t);
    assert line[..|k| + 1] == k + " " && line[|k| + 2..] == " " + t;
    NameOf("", k, " ");
    assert "" + k + " " == k + " ";
    StripPadded(" ", t, "");
    assert " " + t + "" == " " + t;
  }

  /** A key line is read by its first equals sign. */
  lemma KeyText(k: string, t: string, loads: Loads)
    requires KeyName(k) && t != "" && Trimmed(t)
    ensures ReadLine(k + " = " + t, loads) == Key(k, ReadValue(t, loads))
  {
    KeyParts(k, t);
    assert (k + " = " + t)[0] == k[0];
    hide Name, Strip, IndexFrom, ReadValue, ReadLine, Trimmed;
    KeyShape(k + " = " + t, loads);
  }

  lemma KeyShape(line: string, loads: Loads)
    requires line != "" && Strip(line) == line && line[0] != '#' && line[0] != '[' && Index(line, '=') < |line|
    ensures var i := Index(line, '='); ReadLine(line, loads) == Key(Name(line[..i]), ReadValue(Strip(line[i + 1..]), loads))
  {
    hide Name, Strip, IndexFrom, Names, SplitOn, ReadValue;
  }

  lemma ReadsKey(k: string, v: Scalar, loads: Loads)
    requires KeyName(k) && Writable(v)
    ensures OneLine(ShowKey(k, v)) && ReadLine(ShowKey(k, v), loads) == Key(k, v)
  {
    var t := ShowScalar(v);
    ShownScalar(v);
    ReadsValue(v, loads);
    KeyText(k, t, loads);
    assert OneLine(k);
    hide ShowScalar, Writable, ReadValue, ReadLine, OneLine, Trimmed, KeyName;
    KeyOneLine(k, t);
  }

  lemma KeyOneLine(k: string, t: string)
    requires OneLine(k) && OneLine(t)
    ensures OneLine(k + " = " + t)
  {
  }
}
