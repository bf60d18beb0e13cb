/** The override file in any layout: what is read, rewritten and inserted, as text. */
module OverridesText {
  import opened Text
  import opened OrderedDict
  import opened Overrides

  // ------------------------------------------------------------ one declaration

  /** A declaration as the patterns allow it: white space before the colon, anything but ';' behind it. */
  function DeclText(name: string, w: string, x: string): string {
    name + (w + (":" + (x + ";")))
  }

  lemma HeadReads(name: string, w: string, rest: string)
    requires AllSpace(w)
    ensures HeadAt(name + (w + (":" + rest)), name) == Some(|name| + |w| + 1)
  {
    var t := name + (w + (":" + rest));
    assert forall i :: 0 <= i < |w| ==> t[|name| + i] == w[i];
    assert t[|name| + |w|] == ':' && !IsSpace(':');
    assert forall i :: |name| <= i < |name| + |w| ==> t[i] == w[i - |name|];
    assert SpaceEnd(t, |name|) == |name| + |w|;
    assert name <= t;
  }

  lemma HeadOnly(t: string, name: string) returns (w: string, rest: string)
    requires HeadAt(t, name).Some?
    ensures AllSpace(w) && t == name + (w + (":" + rest)) && HeadAt(t, name) == Some(|name| + |w| + 1)
  {
    var j := SpaceEnd(t, |name|);
    w := t[|name|..j];
    rest := t[j + 1..];
    assert t == t[..|name|] + (t[|name|..j] + ([t[j]] + t[j + 1..]));
  }

  /** A declaration at the start of a text is read up to its ';', its value trimmed. */
  lemma DeclReads(name: string, w: string, x: string, rest: string)
    requires AllSpace(w) && x != "" && ';' !in x
    ensures DeclAt(DeclText(name, w, x) + rest, name) == Some(Match(Strip(x), |DeclText(name, w, x)|))
  {
    var t := DeclText(name, w, x) + rest;
    var j := |name| + |w| + 1;
    SplitDecl(name, w, x, rest);
    HeadReads(name, w, x + (";" + rest));
    hide HeadAt, Strip, AllSpace;
    var e := j + |x|;
    assert t[j..e] == x && t[e] == ';';
    assert forall i :: j <= i < e ==> t[i] == t[j..e][i - j];
    assert IndexFrom(t, ';', j) == e;
  }

  lemma SplitDecl(name: string, w: string, x: string, rest: string)
    ensures DeclText(name, w, x) + rest == name + (w + (":" + (x + (";" + rest))))
  {
    Assoc(name, w + (":" + (x + ";")), rest);
    Assoc(w, ":" + (x + ";"), rest);
    Assoc(":", x + ";", rest);
    Assoc(x, ";", rest);
  }

  lemma IndexShift(front: string, after: string, c: char)
    ensures IndexFrom(front + after, c, |front|) == |front| + Index(after, c)
  {
    var t := front + after;
    var n := IndexFrom(t, c, |front|);
    assert forall i :: 0 <= i < |after| ==> t[|front| + i] == after[i];
    assert n < |t| ==> after[n - |front|] == c;
    assert forall i :: 0 <= i < n - |front| ==> after[i] != c;
  }

  lemma DeclOfHead(front: string, after: string, name: string)
    requires HeadAt(front + after, name) == Some(|front|)
    ensures var k := Index(after, ';');
      DeclAt(front + after, name) == if 0 < k < |after| then Some(Match(Strip(after[..k]), |front| + k + 1)) else None
  {
    var t, k := front + after, Index(after, ';');
    IndexShift(front, after, ';');
    hide HeadAt, Strip, IndexFrom;
    assert k <= |after| ==> t[|front|..|front| + k] == after[..k];
  }

  /** What the match takes of the text behind the colon. */
  lemma DeclBehind(name: string, w: string, after: string)
    requires AllSpace(w)
    ensures var t := name + (w + (":" + after)); var k := Index(after, ';');
      DeclAt(t, name) == if 0 < k < |after| then Some(Match(Strip(after[..k]), |name| + |w| + 1 + k + 1)) else None
  {
    var front := name + (w + ":");
    HeadReads(name, w, after);
    hide *;
    Assoc(name, w + ":", after);
    Assoc(w, ":", after);
    assert |front| == |name| + |w| + 1;
    DeclOfHead(front, after, name);
  }

  lemma CutAt(s: string, c: char, k: nat)
    requires k < |s| && s[k] == c
    ensures s == s[..k] + ([c] + s[k + 1..])
  {
  }

  /** Only such texts start with a declaration. */
  lemma DeclOnly(t: string, name: string) returns (w: string, x: string, rest: string)
    requires DeclAt(t, name).Some?
    ensures AllSpace(w) && x != "" && ';' !in x && t == DeclText(name, w, x) + rest && DeclAt(t, name).value.value == Strip(x)
  {
    HeadThere(t, name);
    var after;
    w, after := HeadOnly(t, name);
    DeclBehind(name, w, after);
    var k := Index(after, ';');
    x, rest := after[..k], after[k + 1..];
    CutAt(after, ';', k);
    assert forall i :: 0 <= i < |x| ==> x[i] == after[i];
    hide *;
    SplitDecl(name, w, x, rest);
  }

  lemma HeadThere(t: string, name: string)
    requires DeclAt(t, name).Some?
    ensures HeadAt(t, name).Some?
  {
  }

  // ------------------------------------------------------------- the whole file

  /** The name does not start anywhere in p when r follows it. */
  ghost predicate NotIn(p: string, r: string, name: string) {
    forall i :: 0 <= i < |p| ==> !(name <= p[i..] + r)
  }

  lemma Skipped(p: string, r: string, name: string)
    requires NotIn(p, r, name)
    ensures NoHeadIn(p, r, name)
  {
  }

  /** The first declaration of the name is the one that is read. */
  lemma FirstRead(p: string, name: string, w: string, x: string, rest: string)
    requires name != "" && AllSpace(w) && x != "" && ';' !in x && NotIn(p, DeclText(name, w, x) + rest, name)
    ensures FirstValue(p + (DeclText(name, w, x) + rest), name) == Some(Strip(x))
  {
    var t := DeclText(name, w, x) + rest;
    DeclReads(name, w, x, rest);
    Skipped(p, t, name);
    hide DeclAt, NotIn, NoHeadIn, Strip, DeclText;
    SkipText(p, t, name, "");
    assert t != "" by { NotEmpty(name, w, x, rest); }
  }

  lemma NotEmpty(name: string, w: string, x: string, rest: string)
    ensures DeclText(name, w, x) + rest != ""
  {
  }

  /** Substitution rewrites the first declaration and goes on behind it. */
  lemma FirstRewritten(p: string, name: string, w: string, x: string, rest: string, v: string)
    requires name != "" && AllSpace(w) && x != "" && ';' !in x && NotIn(p, DeclText(name, w, x) + rest, name)
    ensures Substitute(p + (DeclText(name, w, x) + rest), name, v)
         == p + ((name + ": " + v + ";") + Substitute(rest, name, v))
  {
    var t := DeclText(name, w, x) + rest;
    DeclReads(name, w, x, rest);
    Skipped(p, t, name);
    DeclarationIs(name, v);
    NotEmpty(name, w, x, rest);
    hide DeclAt, NotIn, NoHeadIn, Strip, DeclText, Declaration;
    SkipText(p, t, name, v);
    assert t[|DeclText(name, w, x)|..] == rest;
  }

  lemma DeclarationIs(name: string, v: string)
    ensures Declaration(name, v) == name + ": " + v + ";"
  {
    assert ":" + (" " + v + ";") == ": " + v + ";";
  }

  /** Without the name in it a text holds no value of it and is not rewritten. */
  lemma Untouched(t: string, name: string, v: string)
    requires NotIn(t, "", name)
    ensures FirstValue(t, name) == None && Substitute(t, name, v) == t && !Declares(t, name)
  {
    Skipped(t, "", name);
    SkipText(t, "", name, v);
    assert t + "" == t;
  }

  // ------------------------------------------------------------- variable-set

  /** No file, or one without the name and without a brace: the file of one declaration. */
  lemma SetFresh(file: Option<string>, name: string, v: string)
    requires NotIn(TextOf(file), "", name) && '}' !in TextOf(file)
    ensures SetText(file, name, v) == ":root {\n  " + name + ": " + v + ";\n}\n"
  {
    Untouched(TextOf(file), name, v);
    DeclarationIs(name, v);
    hide Declaration, Declares, Substitute;
    var d := name + ": " + v + ";";
    assert ":root {\n" + ("  " + d + "\n" + "}\n") == ":root {\n  " + name + ": " + v + ";\n}\n";
  }

  lemma InsertIs(a: string, b: string, name: string, v: string)
    requires '}' !in a
    ensures InsertBeforeBrace(a + "}" + b, name, v) == a + ("  " + Declaration(name, v) + "\n}") + b
  {
    var t := a + "}" + b;
    hide Declaration;
    assert t == a + ['}'] + b;
    IndexAppend(a, '}', b);
    hide IndexFrom;
    assert t[..|a|] == a && t[|a| + 1..] == b;
  }

  /** A file without the name: the declaration goes before the first closing brace. */
  lemma SetInserts(a: string, b: string, name: string, v: string)
    requires '}' !in a && NotIn(a + "}" + b, "", name)
    ensures SetText(Some(a + "}" + b), name, v) == a + ("  " + (name + ": " + v + ";") + "\n}") + b
  {
    var t := a + "}" + b;
    Untouched(t, name, v);
    DeclarationIs(name, v);
    InsertIs(a, b, name, v);
    assert t[|a|] == '}';
    hide Declaration, Declares, Substitute, InsertBeforeBrace, NotIn;
  }

  /** A file with one declaration of the name: it is rewritten in place and nothing else changes. */
  lemma SetRewrites(p: string, name: string, w: string, x: string, rest: string, v: string)
    requires name != "" && AllSpace(w) && x != "" && ';' !in x
    requires NotIn(p, DeclText(name, w, x) + rest, name) && NotIn(rest, "", name)
    ensures SetText(Some(p + (DeclText(name, w, x) + rest)), name, v) == p + ((name + ": " + v + ";") + rest)
  {
    var r := DeclText(name, w, x) + rest;
    FirstRewritten(p, name, w, x, rest, v);
    Untouched(rest, name, v);
    SplitDecl(name, w, x, rest);
    HeadReads(name, w, x + (";" + rest));
    Skipped(p, r, name);
    SkipText(p, r, name, v);
    hide HeadAt, Substitute, NotIn, NoHeadIn, DeclText;
    assert Declares(r, name);
  }

  // ------------------------------------------------------------- preset files

  /** The lines of a preset's declarations. */
  function CssLines(ds: Dict<string>): seq<string> {
    if ds == [] then [] else ["  " + ds[0].0 + ": " + ds[0].1 + ";"] + CssLines(ds[1..])
  }

  lemma {:induction false} CssLinesAre(ds: Dict<string>)
    ensures DeclTexts(ds) == CssLines(ds) && |CssLines(ds)| == |ds|
  {
    if ds != [] {
      var k, v := ds[0].0, ds[0].1;
      CssLinesAre(ds[1..]);
      DeclarationIs(k, v);
      assert "  " + (k + ": " + v + ";") == "  " + k + ": " + v + ";";
    }
  }

  /** The file a preset writes. */
  lemma PresetFile(ds: Dict<string>)
    requires ds != []
    ensures PresetText(ds) == ":root {\n" + Unlines(CssLines(ds)) + "}\n"
  {
    CssLinesAre(ds);
    var ls := CssLines(ds);
    JoinLines(ls);
    hide CssLines, DeclTexts, Unlines, Join;
    Assoc(":root {\n", Join("\n", ls), "\n}\n");
    assert Join("\n", ls) + "\n}\n" == Join("\n", ls) + "\n" + "}\n";
    Assoc(":root {\n", Join("\n", ls) + "\n", "}\n");
  }

  // ------------------------------------------------------------------- values

  predicate Alphanumeric(c: char) {
    '0' <= c <= '9' || 'a' <= c <= 'z' || 'A' <= c <= 'Z'
  }

  /** A value: one to 128 letters, digits and the characters of colors and numbers. */
  lemma ValueOkIs(v: string)
    ensures ValueOk(v) <==>
      1 <= |v| <= 128 && forall i :: 0 <= i < |v| ==> Alphanumeric(v[i]) || v[i] in " #%(),./_-"
  {
    assert forall c: char :: ValueChar(c) <==> Alphanumeric(c) || c in " #%(),./_-";
  }

  /** The default of a variable of the surface, given by place. */
  lemma DefaultIs(i: nat)
    requires i < |SURFACE|
    ensures Default("--sysdeck-" + SURFACE[i].0) == Some(SURFACE[i].1)
  {
    DefaultAt(0, i);
  }

  lemma {:induction false} DefaultAt(j: nat, i: nat)
    requires j <= i < |SURFACE|
    ensures DefaultFrom(j, PREFIX + SURFACE[i].0) == Some(SURFACE[i].1)
    decreases i - j
  {
    if j < i {
      SurfaceDistinct(j, i);
      DefaultAt(j + 1, i);
    }
  }

  lemma SurfaceDistinct(j: nat, i: nat)
    requires j < i < |SURFACE|
    ensures PREFIX + SURFACE[j].0 != PREFIX + SURFACE[i].0
  {
    var a, b := SURFACE[j].0, SURFACE[i].0;
    assert (PREFIX + a)[|PREFIX|..] == a && (PREFIX + b)[|PREFIX|..] == b;
    NamesDistinct(j, i);
  }

  lemma NamesDistinct(j: nat, i: nat)
    requires j < i < |SURFACE|
    ensures SURFACE[j].0 != SURFACE[i].0
  {
    if |SURFACE[j].0| == |SURFACE[i].0| {
      assert SURFACE[j].0[0] != SURFACE[i].0[0] || SURFACE[j].0[|SURFACE[j].0| - 1] != SURFACE[i].0[|SURFACE[i].0| - 1];
    }
  }
}
