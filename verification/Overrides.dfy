/**
 * The CSS override file: declarations found, replaced and inserted by textual
 * search, kept in one canonical form that behaves as an ordered map.
 */
module Overrides {
  import opened Text
  import opened OrderedDict

  // ----------------------------------------------------------------- surface

  const PREFIX := "--sysdeck-"

  // The names of the surface, without the common prefix, with their defaults.
  const SURFACE: seq<(string, string)> := [
    ("bg", "#1e1e1e"), ("fg", "#e0e0e0"), ("muted", "#888888"), ("accent", "#0066cc"),
    ("accent-success", "#33cc99"), ("accent-warn", "#f0ad4e"), ("accent-danger", "#d9534f"),
    ("border", "#444444"), ("card-bg", "#2a2a2a"), ("font-size-base", "14"),
    ("density", "normal"), ("radius", "6")
  ]

  predicate OnSurface(name: string) {
    exists i :: 0 <= i < |SURFACE| && name == PREFIX + SURFACE[i].0
  }

  function DefaultFrom(i: nat, name: string): Option<string>
    requires i <= |SURFACE|
    decreases |SURFACE| - i
  {
    if i == |SURFACE| then None
    else if name == PREFIX + SURFACE[i].0 then Some(SURFACE[i].1)
    else DefaultFrom(i + 1, name)
  }

  /** The default of a surface variable, None off the surface. */
  function Default(name: string): Option<string> {
    DefaultFrom(0, name)
  }

  lemma {:induction false} DefaultFromDefined(i: nat, name: string)
    requires i <= |SURFACE|
    ensures DefaultFrom(i, name).Some? <==> exists j :: i <= j < |SURFACE| && name == PREFIX + SURFACE[j].0
    decreases |SURFACE| - i
  {
    if i < |SURFACE| {
      DefaultFromDefined(i + 1, name);
    }
  }

  predicate ValueChar(c: char) {
    || 'A' <= c <= 'Z' || 'a' <= c <= 'z' || '0' <= c <= '9'
    || c == ' ' || c == '#' || c == '%' || c == '(' || c == ')' || c == ',' || c == '.' || c == '/' || c == '_' || c == '-'
  }

  predicate ValueOk(v: string) {
    1 <= |v| <= 128 && forall i :: 0 <= i < |v| ==> ValueChar(v[i])
  }

  // ------------------------------------------------------------ the patterns

  /** name, white space, ':' at the start of t: the position after the colon. */
  function HeadAt(t: string, name: string): Option<nat> {
    if name <= t then
      var j := SpaceEnd(t, |name|);
      if j < |t| && t[j] == ':' then Some(j + 1) else None
    else None
  }

  datatype Match = Match(value: string, end: nat)

  /** name, white space, ':', at least one character other than ';', ';' at the start of t. */
  function DeclAt(t: string, name: string): (r: Option<Match>)
    ensures r.Some? ==> 0 < r.value.end <= |t|
  {
    match HeadAt(t, name)
    case None => None
    case Some(j) =>
      var e := IndexFrom(t, ';', j);
      if j < e < |t| then Some(Match(Strip(t[j..e]), e + 1)) else None
  }

  predicate Declares(t: string, name: string) {
    t != "" && (HeadAt(t, name).Some? || Declares(t[1..], name))
  }

  /** The trimmed value of the first declaration of name. */
  function FirstValue(t: string, name: string): Option<string> {
    if t == "" then None
    else
      match DeclAt(t, name)
      case Some(m) => Some(m.value)
      case None => FirstValue(t[1..], name)
  }

  function Declaration(name: string, value: string): string {
    name + (":" + (" " + value + ";"))
  }

  /** Every declaration of name rewritten, left to right. */
  function Substitute(t: string, name: string, value: string): string
    decreases |t|
  {
    if t == "" then ""
    else
      match DeclAt(t, name)
      case Some(m) => Declaration(name, value) + Substitute(t[m.end..], name, value)
      case None => [t[0]] + Substitute(t[1..], name, value)
  }

  /** The first '}' becomes a new declaration followed by '}'. */
  function InsertBeforeBrace(t: string, name: string, value: string): string {
    var i := Index(t, '}');
    if i < |t| then t[..i] + ("  " + Declaration(name, value) + "\n}") + t[i + 1..] else t
  }

  // ---------------------------------------------------------------- commands

  function TextOf(file: Option<string>): string {
    if file.Some? then file.value else ""
  }

  function SetText(file: Option<string>, name: string, value: string): string {
    var t := TextOf(file);
    if Declares(t, name) then Substitute(t, name, value)
    else if '}' in t then InsertBeforeBrace(t, name, value)
    else ":root {\n" + ("  " + Declaration(name, value) + "\n" + "}\n")
  }

  function GetValue(file: Option<string>, name: string): Option<string> {
    match Default(name)
    case None => None
    case Some(d) =>
      match FirstValue(TextOf(file), name)
      case Some(v) => Some(v)
      case None => Some(d)
  }

  function DeclTexts(ds: Dict<string>): seq<string> {
    if ds == [] then [] else ["  " + Declaration(ds[0].0, ds[0].1)] + DeclTexts(ds[1..])
  }

  function PresetText(ds: Dict<string>): string {
    ":root {\n" + Join("\n", DeclTexts(ds)) + "\n}\n"
  }

  // ---------------------------------------------------------- canonical form

  const OPENING := ":root {\n"
  const CLOSING := "}\n"

  function DeclLine(k: string, v: string): string {
    "  " + Declaration(k, v) + "\n"
  }

  function Body(ds: Dict<string>): string {
    if ds == [] then "" else DeclLine(ds[0].0, ds[0].1) + Body(ds[1..])
  }

  function Render(ds: Dict<string>): string {
    OPENING + (Body(ds) + CLOSING)
  }

  predicate DeclOk(k: string, v: string) {
    OnSurface(k) && ValueOk(v)
  }

  ghost predicate Canonical(ds: Dict<string>) {
    Distinct(ds) && forall i :: 0 <= i < |ds| ==> DeclOk(ds[i].0, ds[i].1)
  }

  // ------------------------------------------------- the names of the surface

  predicate NameShape(n: string) {
    n != "" && n[0] == '-' && forall i :: 0 <= i < |n| ==> !IsSpace(n[i]) && n[i] != ':' && n[i] != ';' && n[i] != '}'
  }

  predicate NoDoubleDash(w: string) {
    (w != "" ==> w[0] != '-') && forall i :: 0 <= i < |w| - 1 ==> !(w[i] == '-' && w[i + 1] == '-')
  }

  predicate WordShape(w: string) {
    NoDoubleDash(w) && forall i :: 0 <= i < |w| ==> w[i] == '-' || 'a' <= w[i] <= 'z'
  }

  lemma SingleWords()
    ensures WordShape("bg") && WordShape("fg") && WordShape("muted") && WordShape("accent")
    ensures WordShape("border") && WordShape("density") && WordShape("radius")
  {
  }

  lemma DashedWords()
    ensures WordShape("accent-success") && WordShape("accent-warn") && WordShape("accent-danger")
    ensures WordShape("card-bg") && WordShape("font-size-base")
  {
  }

  lemma SurfaceWords()
    ensures forall i :: 0 <= i < |SURFACE| ==> WordShape(SURFACE[i].0)
  {
    SingleWords();
    DashedWords();
    hide WordShape;
  }

  lemma SurfaceShape(n: string)
    requires OnSurface(n)
    ensures NameShape(n)
  {
    SurfaceWords();
    var i :| 0 <= i < |SURFACE| && n == PREFIX + SURFACE[i].0;
    var w := SURFACE[i].0;
    assert WordShape(w);
    assert NameShape(PREFIX);
    assert forall k :: 0 <= k < |n| ==> n[k] == if k < |PREFIX| then PREFIX[k] else w[k - |PREFIX|];
  }

  /** No name of the surface is a proper suffix of another. */
  lemma SurfaceNoSuffix(a: string, b: string, i: nat)
    requires OnSurface(a) && OnSurface(b) && i <= |b| && b[i..] == a
    ensures i == 0 && a == b
  {
    SurfaceWords();
    var x :| 0 <= x < |SURFACE| && a == PREFIX + SURFACE[x].0;
    var y :| 0 <= y < |SURFACE| && b == PREFIX + SURFACE[y].0;
    var w := SURFACE[y].0;
    assert WordShape(w);
    assert a[0] == PREFIX[0] == '-' && a[1] == PREFIX[1] == '-';
    assert b[i] == '-' && b[i + 1] == '-';
    assert forall k :: 0 <= k < |b| ==> b[k] == if k < |PREFIX| then PREFIX[k] else w[k - |PREFIX|];
    assert PREFIX == ['-', '-', 's', 'y', 's', 'd', 'e', 'c', 'k', '-'];
  }

  // ------------------------------------------- where a declaration can start

  lemma NoHeadElsewhere(t: string, name: string)
    requires NameShape(name) && t != "" && t[0] != '-'
    ensures HeadAt(t, name) == None
  {
  }

  /** Inside a key a match means the rest of the key is the name. */
  lemma HeadInKey(k: string, rest: string, name: string)
    requires NameShape(name) && k != ""
    requires forall i :: 0 <= i < |k| ==> !IsSpace(k[i]) && k[i] != ':'
    ensures HeadAt(k + (":" + rest), name) == if k == name then Some(|k| + 1) else None
  {
    var t := k + (":" + rest);
    assert forall i :: 0 <= i < |k| ==> t[i] == k[i];
    assert t[|k|] == ':' && t[..|k|] == k;
    if name <= t {
      assert forall i :: 0 <= i < |name| ==> t[i] == name[i];
      assert |name| <= |k|;
      assert t[..|name|] == k[..|name|];
      assert k[..|k|] == k;
      assert SpaceEnd(t, |name|) == |name|;
    }
  }

  /** Inside a value the ';' is reached before any ':'. */
  lemma NoHeadInValue(x: string, rest: string, name: string)
    requires NameShape(name) && ':' !in x
    ensures HeadAt(x + ";" + rest, name) == None
  {
    var t := x + ";" + rest;
    assert forall i :: 0 <= i < |x| ==> t[i] == x[i];
    assert t[|x|] == ';';
    if name <= t {
      assert forall i :: 0 <= i < |name| ==> t[i] == name[i];
      assert |name| <= |x|;
      assert SpaceEnd(t, |name|) <= |x|;
    }
  }

  ghost predicate NoHeadIn(p: string, r: string, name: string) {
    forall i :: 0 <= i < |p| ==> HeadAt(p[i..] + r, name) == None
  }

  lemma SkipChar(t: string, name: string, value: string)
    requires t != "" && HeadAt(t, name) == None
    ensures Declares(t, name) == Declares(t[1..], name)
    ensures FirstValue(t, name) == FirstValue(t[1..], name)
    ensures Substitute(t, name, value) == [t[0]] + Substitute(t[1..], name, value)
  {
    hide HeadAt;
    assert DeclAt(t, name) == None;
  }

  lemma {:induction false} SkipText(p: string, r: string, name: string, value: string)
    requires NoHeadIn(p, r, name)
    ensures Declares(p + r, name) == Declares(r, name)
    ensures FirstValue(p + r, name) == FirstValue(r, name)
    ensures Substitute(p + r, name, value) == p + Substitute(r, name, value)
  {
    hide HeadAt, Declares, FirstValue, Substitute;
    if p == "" {
      assert p + r == r && p + Substitute(r, name, value) == Substitute(r, name, value);
    } else {
      var q := p[1..];
      assert p[0..] + r == p + r && (p + r)[1..] == q + r;
      SkipChar(p + r, name, value);
      forall i | 0 <= i < |q| ensures HeadAt(q[i..] + r, name) == None {
        assert q[i..] == p[i + 1..];
      }
      SkipText(q, r, name, value);
      assert p == [p[0]] + q;
      Assoc([p[0]], q, Substitute(r, name, value));
    }
  }

  lemma ValueNoColon(v: string)
    requires ValueOk(v)
    ensures ':' !in v && ';' !in v && '}' !in v
  {
    assert !ValueChar(':') && !ValueChar(';') && !ValueChar('}');
  }

  /** What follows the key of a declaration holds no start of a match. */
  lemma SkipValue(v: string, r: string, name: string)
    requires NameShape(name) && ValueOk(v)
    ensures NoHeadIn(":" + (" " + v + ";" + "\n"), r, name)
  {
    ValueNoColon(v);
    var x := " " + v;
    hide HeadAt, NameShape, ValueOk, NoHeadIn;
    SkipInside(x, "\n" + r, name);
    SkipPlain("\n", r, name);
    NoHeadConcat(x + ";", "\n", r, name);
    SkipPlain(":", x + ";" + "\n" + r, name);
    NoHeadConcat(":", x + ";" + "\n", r, name);
  }

  lemma SkipInside(x: string, r: string, name: string)
    requires NameShape(name) && ':' !in x
    ensures NoHeadIn(x + ";", r, name)
  {
    hide HeadAt, NameShape;
    forall i | 0 <= i < |x + ";"| ensures HeadAt((x + ";")[i..] + r, name) == None {
      assert (x + ";")[i..] == x[i..] + ";";
      NoHeadInValue(x[i..], r, name);
    }
  }

  lemma NoHeadConcat(p: string, q: string, r: string, name: string)
    requires NoHeadIn(p, q + r, name) && NoHeadIn(q, r, name)
    ensures NoHeadIn(p + q, r, name)
  {
    hide HeadAt;
    forall i | 0 <= i < |p + q| ensures HeadAt((p + q)[i..] + r, name) == None {
      if i < |p| {
        assert (p + q)[i..] == p[i..] + q;
        Assoc(p[i..], q, r);
      } else {
        assert (p + q)[i..] == q[i - |p|..];
      }
    }
  }

  lemma SkipPlain(p: string, r: string, name: string)
    requires NameShape(name) && '-' !in p
    ensures NoHeadIn(p, r, name)
  {
    hide NameShape, HeadAt;
    forall i | 0 <= i < |p| ensures HeadAt(p[i..] + r, name) == None {
      assert (p[i..] + r)[0] == p[i];
      NoHeadElsewhere(p[i..] + r, name);
    }
  }

  lemma DeclLineParts(k: string, v: string, r: string)
    ensures DeclLine(k, v) == "  " + (k + AfterKey(v))
    ensures DeclLine(k, v) + r == "  " + (k + (AfterKey(v) + r))
    ensures k + (AfterKey(v) + r) == Declaration(k, v) + ("\n" + r)
  {
    var x := " " + v + ";";
    Assoc(":", x, "\n");
    Assoc(k, ":" + x, "\n");
    Assoc("  ", Declaration(k, v), "\n");
    Assoc("  ", Declaration(k, v) + "\n", r);
    Assoc(Declaration(k, v), "\n", r);
    Assoc(k, AfterKey(v), r);
  }

  function AfterKey(v: string): string {
    ":" + (" " + v + ";" + "\n")
  }

  lemma SkipOtherKey(k: string, v: string, r: string, name: string)
    requires OnSurface(k) && OnSurface(name) && k != name
    ensures NoHeadIn(k, AfterKey(v) + r, name)
  {
    SurfaceShape(k);
    SurfaceShape(name);
    var rest := " " + v + ";" + "\n" + r;
    assert AfterKey(v) + r == ":" + rest;
    assert forall i :: 0 <= i < |k| ==> !IsSpace(k[i]) && k[i] != ':';
    hide HeadAt, AfterKey, IsSpace, NameShape;
    forall i | 0 <= i < |k| ensures HeadAt(k[i..] + (":" + rest), name) == None {
      HeadInKey(k[i..], rest, name);
      if k[i..] == name {
        SurfaceNoSuffix(name, k, i);
      }
    }
  }

  /** The line of another variable holds no start of a match. */
  lemma SkipOtherLine(k: string, v: string, r: string, name: string)
    requires DeclOk(k, v) && OnSurface(name) && k != name
    ensures NoHeadIn(DeclLine(k, v), r, name)
  {
    SurfaceShape(name);
    hide HeadAt, OnSurface, ValueOk, NameShape, NoHeadIn;
    SkipValue(v, r, name);
    SkipOtherKey(k, v, r, name);
    NoHeadConcat(k, AfterKey(v), r, name);
    SkipPlain("  ", k + AfterKey(v) + r, name);
    NoHeadConcat("  ", k + AfterKey(v), r, name);
    DeclLineParts(k, v, r);
  }

  lemma ValueExtent(t: string, j: nat, x: string, r: string)
    requires j <= |t| && t[j..] == x + (";" + r) && ';' !in x
    ensures IndexFrom(t, ';', j) == j + |x| < |t|
    ensures t[j..j + |x|] == x && t[j + |x| + 1..] == r
  {
    var u := t[j..];
    assert forall i :: 0 <= i < |u| ==> u[i] == t[j + i];
    assert u[|x|] == ';' && forall i :: 0 <= i < |x| ==> u[i] == x[i];
    assert forall i :: j <= i < j + |x| ==> t[i] == u[i - j];
    assert IndexFrom(t, ';', j) == j + |x|;
    assert u[|x| + 1..] == r;
  }

  lemma AfterKeyRest(v: string, r: string)
    ensures AfterKey(v) + r == ":" + (" " + v + (";" + ("\n" + r)))
  {
    var x := " " + v;
    Assoc(":", x + ";" + "\n", r);
    Assoc(x + ";", "\n", r);
    Assoc(x, ";", "\n" + r);
  }

  lemma DeclAtHead(t: string, name: string, j: nat, x: string, r: string)
    requires HeadAt(t, name) == Some(j) && j <= |t| && t[j..] == x + (";" + r)
    requires x != "" && ';' !in x
    ensures DeclAt(t, name) == Some(Match(Strip(x), j + |x| + 1))
    ensures t[j + |x| + 1..] == r
  {
    hide IndexFrom, HeadAt, Strip;
    ValueExtent(t, j, x, r);
  }

  lemma HeadAtOwn(name: string, rest: string)
    requires NameShape(name)
    ensures HeadAt(name + (":" + rest), name) == Some(|name| + 1)
    ensures |name| + 1 <= |name + (":" + rest)| && (name + (":" + rest))[|name| + 1..] == rest
  {
    HeadInKey(name, rest, name);
  }

  /** At the line of the variable itself the pattern matches the whole declaration. */
  lemma DeclAtOwn(name: string, x: string, r: string)
    requires NameShape(name) && x != "" && ';' !in x
    ensures DeclAt(name + (":" + (x + (";" + r))), name) == Some(Match(Strip(x), |name| + |x| + 2))
    ensures (name + (":" + (x + (";" + r))))[|name| + |x| + 2..] == r
  {
    hide NameShape, Strip, HeadAt, DeclAt;
    var rest := x + (";" + r);
    HeadAtOwn(name, rest);
    DeclAtHead(name + (":" + rest), name, |name| + 1, x, r);
  }

  lemma PaddedValue(v: string)
    requires ValueOk(v)
    ensures ';' !in " " + v && Strip(" " + v) == Strip(v)
  {
    ValueNoColon(v);
    StripLeadingSpaces(" ", v);
  }

  lemma OwnLine(name: string, v: string, r: string, nv: string)
    requires DeclOk(name, v)
    ensures Declares(DeclLine(name, v) + r, name)
    ensures FirstValue(DeclLine(name, v) + r, name) == Some(Strip(v))
    ensures Substitute(DeclLine(name, v) + r, name, nv) == DeclLine(name, nv) + Substitute(r, name, nv)
  {
    SurfaceShape(name);
    PaddedValue(v);
    AfterKeyRest(v, r);
    DeclAtOwn(name, " " + v, "\n" + r);
    var t := name + (AfterKey(v) + r);
    DeclLineParts(name, v, r);
    SkipPlain("  ", t, name);
    SkipText("  ", t, name, nv);
    SkipPlain("\n", r, name);
    SkipText("\n", r, name, nv);
    hide HeadAt, OnSurface, ValueOk, NameShape, NoHeadIn, Strip, AfterKey, Declaration;
    var s := Substitute(r, name, nv);
    assert Substitute(t, name, nv) == Declaration(name, nv) + ("\n" + s);
    DeclLineParts(name, nv, s);
  }

  function Replaced(ds: Dict<string>, name: string, v: string): Dict<string> {
    if Has(ds, name) then Put(ds, name, v) else ds
  }

  function TrimmedValue(ds: Dict<string>, name: string): Option<string> {
    match Get(ds, name)
    case None => None
    case Some(v) => Some(Strip(v))
  }

  ghost predicate ReadsAs(t: string, t': string, ds: Dict<string>, name: string, nv: string) {
    && Declares(t, name) == Has(ds, name)
    && FirstValue(t, name) == TrimmedValue(ds, name)
    && Substitute(t, name, nv) == t'
  }

  lemma ClosingReads(name: string, nv: string)
    requires OnSurface(name)
    ensures ReadsAs(CLOSING, CLOSING, [], name, nv)
  {
    SurfaceShape(name);
    SkipPlain(CLOSING, "", name);
    SkipText(CLOSING, "", name, nv);
    assert CLOSING + "" == CLOSING;
  }

  lemma ReplacedAbsent(ds: Dict<string>, name: string, nv: string)
    requires !Has(ds, name)
    ensures Replaced(ds, name, nv) == ds
  {
  }

  lemma {:induction false} BodyReads(ds: Dict<string>, name: string, nv: string)
    requires Canonical(ds) && OnSurface(name)
    ensures ReadsAs(Body(ds) + CLOSING, Body(Replaced(ds, name, nv)) + CLOSING, ds, name, nv)
  {
    if ds == [] {
      ClosingReads(name, nv);
      assert Body(ds) + CLOSING == CLOSING;
    } else {
      var k, v, more := ds[0].0, ds[0].1, ds[1..];
      assert DeclOk(k, v) && ds == [(k, v)] + more && Canonical(more);
      BodyReads(more, name, nv);
      FindAbsent(more, k);
      hide Canonical, DeclOk, DeclLine, Declares, FirstValue, Substitute, Has, Replaced, TrimmedValue, HeadAt;
      var r := Body(more) + CLOSING;
      Assoc(DeclLine(k, v), Body(more), CLOSING);
      if k == name {
        OwnLine(name, v, r, nv);
        assert Replaced(more, name, nv) == more by { ReplacedAbsent(more, name, nv); }
        Assoc(DeclLine(k, nv), Body(more), CLOSING);
      } else {
        SkipOtherLine(k, v, r, name);
        SkipText(DeclLine(k, v), r, name, nv);
        Assoc(DeclLine(k, v), Body(Replaced(more, name, nv)), CLOSING);
      }
    }
  }

  lemma RenderReads(ds: Dict<string>, name: string, nv: string)
    requires Canonical(ds) && OnSurface(name)
    ensures ReadsAs(Render(ds), Render(Replaced(ds, name, nv)), ds, name, nv)
  {
    SurfaceShape(name);
    BodyReads(ds, name, nv);
    SkipPlain(OPENING, Body(ds) + CLOSING, name);
    SkipText(OPENING, Body(ds) + CLOSING, name, nv);
  }

  // ------------------------------------------------------------- insertion

  lemma {:induction false} BodyNoBrace(ds: Dict<string>)
    requires forall i :: 0 <= i < |ds| ==> DeclOk(ds[i].0, ds[i].1)
    ensures '}' !in Body(ds)
  {
    if ds != [] {
      var k, v := ds[0].0, ds[0].1;
      SurfaceShape(k);
      ValueNoColon(v);
      assert '}' !in k && '}' !in v;
      BodyNoBrace(ds[1..]);
    }
  }

  lemma {:induction false} BodyAppend(a: Dict<string>, b: Dict<string>)
    ensures Body(a + b) == Body(a) + Body(b)
  {
    if a == [] {
      assert a + b == b;
    } else {
      assert (a + b)[1..] == a[1..] + b;
      BodyAppend(a[1..], b);
    }
  }

  lemma InsertNew(ds: Dict<string>, name: string, v: string)
    requires Canonical(ds) && !Has(ds, name)
    ensures '}' in Render(ds)
    ensures InsertBeforeBrace(Render(ds), name, v) == Render(Put(ds, name, v))
  {
    BodyNoBrace(ds);
    hide Canonical, DeclOk, Declaration;
    var a := OPENING + Body(ds);
    var t := Render(ds);
    Assoc(OPENING, Body(ds), CLOSING);
    assert t == a + ['}'] + "\n";
    IndexAppend(a, '}', "\n");
    assert t[..|a|] == a && t[|a| + 1..] == "\n" && t[|a|] == '}';
    var d := "  " + Declaration(name, v);
    assert (d + "\n}") + "\n" == (d + "\n") + CLOSING;
    Assoc(a, d + "\n}", "\n");
    BodyAppend(ds, [(name, v)]);
    assert Body([(name, v)]) == DeclLine(name, v);
    Assoc(Body(ds), DeclLine(name, v), CLOSING);
    Assoc(OPENING, Body(ds), DeclLine(name, v) + CLOSING);
  }

  // ------------------------------------------------------------- main results

  lemma CanonicalPut(ds: Dict<string>, name: string, v: string)
    requires Canonical(ds) && DeclOk(name, v)
    ensures Canonical(Put(ds, name, v))
  {
    hide DeclOk;
    PutDistinct(ds, name, v);
  }

  /** variable-set on a canonical file is assignment in the map. */
  lemma SetOnCanonical(ds: Dict<string>, name: string, v: string)
    requires Canonical(ds) && DeclOk(name, v)
    ensures SetText(Some(Render(ds)), name, v) == Render(Put(ds, name, v))
    ensures Canonical(Put(ds, name, v))
  {
    RenderReads(ds, name, v);
    CanonicalPut(ds, name, v);
    hide Canonical, DeclOk, Declares, Substitute, Render;
    if !Has(ds, name) {
      InsertNew(ds, name, v);
    }
  }

  lemma SetOnAbsent(name: string, v: string)
    requires DeclOk(name, v)
    ensures SetText(None, name, v) == Render([(name, v)]) && Canonical([(name, v)])
  {
    assert Body([(name, v)]) == DeclLine(name, v);
  }

  /** variable-get on a canonical file is lookup in the map, value trimmed, default when absent. */
  lemma GetOnCanonical(ds: Dict<string>, name: string)
    requires Canonical(ds)
    ensures GetValue(Some(Render(ds)), name)
         == if Default(name) == None then None
            else if Has(ds, name) then TrimmedValue(ds, name) else Default(name)
  {
    DefaultFromDefined(0, name);
    if OnSurface(name) {
      RenderReads(ds, name, "");
    }
  }
}
