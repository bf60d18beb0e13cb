/**
 * Every run of the theme commands, seen as edits of a map of maps
 * (cockpit.conf) and of a map (overrides.css).
 */
module ThemeRuns {
  import opened Text
  import opened OrderedDict
  import opened CockpitConf
  import opened ConfLaws
  import opened Overrides
  import opened ThemeEngine

  // ------------------------------------------------------ what a command means

  function CssEffect(ds: Dict<string>, c: Command): Dict<string> {
    match c
    case PresetApply(id, confOk, cssOk) =>
      var p := FindPreset(0, id);
      if p.Some? && confOk && cssOk then p.value.css else ds
    case VariableSet(name, v, ok) =>
      if OnSurface(name) && Overrides.ValueOk(v) && ok then Put(ds, name, v) else ds
    case VariableReset(ok) => if ok then [] else ds
    case _ => ds
  }

  function ConfEffect(m: Conf, c: Command): Conf {
    match c
    case Set(s, k, v, ok) => if SetRefused(s, k, v) || !ok then m else SetKey(m, s, k, Strip(v))
    case Unset(s, k, ok) => if Lookup(m, s, k) == None || !ok then m else UnsetKey(m, s, k)
    case Reset(ok) => if ok then [] else m
    case PresetApply(id, confOk, _) =>
      var p := FindPreset(0, id);
      if p.Some? && confOk then Merge(m, p.value.conf) else m
    case _ => m
  }

  function CssRun(ds: Dict<string>, cs: seq<Command>): Dict<string>
    decreases |cs|
  {
    if cs == [] then ds else CssRun(CssEffect(ds, cs[0]), cs[1..])
  }

  function ConfRun(m: Conf, cs: seq<Command>): Conf
    decreases |cs|
  {
    if cs == [] then m else ConfRun(ConfEffect(m, cs[0]), cs[1..])
  }

  // ------------------------------------------------------------- the presets

  ghost predicate PresetSectionOk(kvs: Section) {
    forall j :: 0 <= j < |kvs| ==> EntryOk(kvs[j].0, kvs[j].1) && CockpitConf.ValueOk(kvs[j].1)
  }

  ghost predicate PresetConfOk(p: Conf) {
    forall i :: 0 <= i < |p| ==> NameOk(p[i].0) && PresetSectionOk(p[i].1)
  }

  ghost predicate PresetOk(p: Preset) {
    p.css != [] && Canonical(p.css) && PresetConfOk(p.conf)
  }

  lemma StyleOk(style: string)
    requires style == "dark" || style == "light"
    ensures NameOk("Theme") && PresetSectionOk(ThemeStyle(style).1)
  {
    assert KeyOk("style") && OneLine(style) && Trimmed(style);
    assert EntryLine("style", style)[0] == 's';
  }

  lemma PaletteNames()
    ensures OnSurface(PREFIX + "bg") && OnSurface(PREFIX + "fg") && OnSurface(PREFIX + "accent")
    ensures OnSurface(PREFIX + "card-bg") && OnSurface(PREFIX + "border")
  {
    assert SURFACE[0].0 == "bg" && SURFACE[1].0 == "fg" && SURFACE[3].0 == "accent";
    assert SURFACE[8].0 == "card-bg" && SURFACE[7].0 == "border";
  }

  lemma PaletteOk(bg: string, fg: string, accent: string, cardBg: string)
    requires Overrides.ValueOk(bg) && Overrides.ValueOk(fg) && Overrides.ValueOk(accent) && Overrides.ValueOk(cardBg)
    ensures Canonical(Palette(bg, fg, accent, cardBg))
    ensures Canonical(Palette(bg, fg, accent, cardBg) + [(PREFIX + "border", "#000000")])
  {
    PaletteNames();
    hide OnSurface;
    assert (PREFIX + "bg")[|PREFIX|] == 'b' && (PREFIX + "bg")[|PREFIX| + 1] == 'g';
    assert (PREFIX + "fg")[|PREFIX|] == 'f' && (PREFIX + "accent")[|PREFIX|] == 'a';
    assert (PREFIX + "card-bg")[|PREFIX|] == 'c' && (PREFIX + "border")[|PREFIX|] == 'b';
    assert (PREFIX + "border")[|PREFIX| + 1] == 'o';
    assert Overrides.ValueOk("#000000");
  }

  lemma DarkPalettesOk()
    ensures Canonical(Palette("#0f0f1a", "#e0e0e0", "#06c", "#1a1a2a"))
    ensures Canonical(Palette("#0f1a0f", "#cfe0c0", "#3c9", "#1a2a1a"))
    ensures Canonical(Palette("#1a0f00", "#ffb000", "#ff8c00", "#2a1f00"))
  {
    PaletteOk("#0f0f1a", "#e0e0e0", "#06c", "#1a1a2a");
    PaletteOk("#0f1a0f", "#cfe0c0", "#3c9", "#1a2a1a");
    PaletteOk("#1a0f00", "#ffb000", "#ff8c00", "#2a1f00");
  }

  lemma OtherPalettesOk()
    ensures Canonical(Palette("#f5f5f5", "#1a1a1a", "#0066cc", "#ffffff"))
    ensures Canonical(Palette("#1a0a2a", "#e0d0ff", "#9c3", "#2a1a3a"))
    ensures Canonical(Palette("#ffffff", "#000000", "#0000ff", "#ffffff") + [(PREFIX + "border", "#000000")])
  {
    PaletteOk("#f5f5f5", "#1a1a1a", "#0066cc", "#ffffff");
    PaletteOk("#1a0a2a", "#e0d0ff", "#9c3", "#2a1a3a");
    PaletteOk("#ffffff", "#000000", "#0000ff", "#ffffff");
  }

  lemma PresetsOk()
    ensures forall p :: p in PRESETS ==> PresetOk(p)
  {
    StyleOk("dark");
    StyleOk("light");
    DarkPalettesOk();
    OtherPalettesOk();
    hide Canonical, PresetSectionOk, NameOk;
  }

  // ------------------------------------------------------------ overrides.css

  /** The one canonical form: no file for the empty map, otherwise the rendering of the map. */
  ghost predicate CssRepresents(css: Option<string>, ds: Dict<string>) {
    Canonical(ds) && css == if ds == [] then None else Some(Render(ds))
  }

  lemma {:induction false} BodyIsJoin(ds: Dict<string>)
    requires ds != []
    ensures Join("\n", DeclTexts(ds)) + "\n" == Body(ds)
  {
    hide Declaration;
    var line := "  " + Declaration(ds[0].0, ds[0].1);
    assert DeclTexts(ds)[1..] == DeclTexts(ds[1..]);
    if |ds| == 1 {
      assert Body(ds[1..]) == "" && DeclTexts(ds) == [line];
      assert Body(ds) == line + "\n";
    } else {
      BodyIsJoin(ds[1..]);
      assert DeclTexts(ds[1..]) != [];
      var tail := Join("\n", DeclTexts(ds[1..]));
      assert Join("\n", DeclTexts(ds)) == line + "\n" + tail;
      Assoc(line + "\n", tail, "\n");
    }
  }

  lemma PresetIsCanonical(ds: Dict<string>)
    requires ds != []
    ensures PresetText(ds) == Render(ds)
  {
    BodyIsJoin(ds);
    var j := Join("\n", DeclTexts(ds));
    assert PresetText(ds) == OPENING + j + "\n}\n";
    assert "\n}\n" == "\n" + CLOSING;
    Assoc(OPENING, j, "\n" + CLOSING);
    Assoc(j, "\n", CLOSING);
  }

  lemma CssSet(css: Option<string>, ds: Dict<string>, name: string, v: string)
    requires CssRepresents(css, ds) && DeclOk(name, v)
    ensures CssRepresents(Some(SetText(css, name, v)), Put(ds, name, v))
  {
    if ds == [] {
      SetOnAbsent(name, v);
      assert Put(ds, name, v) == [(name, v)];
    } else {
      SetOnCanonical(ds, name, v);
    }
  }

  lemma CssStep(f: Files, ds: Dict<string>, c: Command)
    requires CssRepresents(f.css, ds)
    ensures CssRepresents(Step(f, c).css, CssEffect(ds, c))
  {
    hide Render, SetText, OnSurface, Canonical, Default;
    match c
    case PresetApply(id, confOk, cssOk) =>
      var p := FindPreset(0, id);
      if p.Some? {
        PresetsOk();
        PresetIsCanonical(p.value.css);
      }
    case VariableSet(name, v, ok) =>
      OnSurfaceDefault(name);
      if OnSurface(name) && Overrides.ValueOk(v) {
        CssSet(f.css, ds, name, v);
      }
    case VariableReset(ok) =>
      assert CssRepresents(None, []) by { EmptyCss(); }
    case _ =>
  }

  lemma EmptyCss()
    ensures CssRepresents(None, [])
  {
  }

  lemma OnSurfaceDefault(name: string)
    ensures Default(name) == None <==> !OnSurface(name)
  {
    DefaultFromDefined(0, name);
  }

  lemma {:induction false} CssRunRepresents(f: Files, ds: Dict<string>, cs: seq<Command>)
    requires CssRepresents(f.css, ds)
    ensures CssRepresents(Run(f, cs).css, CssRun(ds, cs))
    decreases |cs|
  {
    if cs != [] {
      CssStep(f, ds, cs[0]);
      CssRunRepresents(Step(f, cs[0]), CssEffect(ds, cs[0]), cs[1..]);
    }
  }

  /**
   * After any run of commands from no files, overrides.css is the canonical
   * rendering of the map the commands describe, each variable declared at most
   * once, and variable-get returns the trimmed latest value or the default.
   */
  lemma OverridesRefineMap(cs: seq<Command>, name: string)
    ensures var css := Run(Files(None, None), cs).css; var ds := CssRun([], cs);
      && CssRepresents(css, ds)
      && GetValue(css, name) == if Has(ds, name) && OnSurface(name) then TrimmedValue(ds, name) else Default(name)
  {
    CssRunRepresents(Files(None, None), [], cs);
    var ds := CssRun([], cs);
    DefaultFromDefined(0, name);
    if ds == [] {
      assert FirstValue("", name) == None;
    } else {
      GetOnCanonical(ds, name);
    }
  }

  /** Setting one variable changes what variable-get returns for it, and for no other variable. */
  lemma SetThenGet(cs: seq<Command>, name: string, v: string, other: string)
    requires OnSurface(name) && Overrides.ValueOk(v)
    ensures var f := Run(Files(None, None), cs);
      GetValue(Step(f, VariableSet(name, v, true)).css, other)
      == if other == name then Some(Strip(v)) else GetValue(f.css, other)
  {
    var c := VariableSet(name, v, true);
    var f := Run(Files(None, None), cs);
    var ds := CssRun([], cs);
    OverridesRefineMap(cs, other);
    CssStep(f, ds, c);
    var ds' := CssEffect(ds, c);
    assert ds' == Put(ds, name, v);
    GetPut(ds, name, v, other);
    GetOnCanonical(ds', other);
    DefaultFromDefined(0, other);
  }

  // ------------------------------------------------------------- cockpit.conf

  lemma UpdateOk(s: Section, kvs: Section)
    requires SectionOk(s) && PresetSectionOk(kvs)
    ensures SectionOk(Update(s, kvs)) && (SectionWritable(s) ==> SectionWritable(Update(s, kvs)))
    decreases |kvs|
  {
    if kvs != [] {
      var k, v := kvs[0].0, kvs[0].1;
      PutSectionOk(s, k, v);
      PutEntryWritable(s, k, v);
      UpdateOk(Put(s, k, v), kvs[1..]);
    }
  }

  /** A preset keeps a file well-formed, and one that can be written stays so. */
  lemma MergeOk(m: Conf, p: Conf)
    requires ConfOk(m) && PresetConfOk(p)
    ensures ConfOk(Merge(m, p)) && (Writable(m) ==> Writable(Merge(m, p)))
    decreases |p|
  {
    if p != [] {
      var s := p[0].0;
      var kvs := Update(SectionOf(m, s), p[0].1);
      assert NameOk(s) && PresetSectionOk(p[0].1);
      SectionOfParsed(m, s);
      UpdateOk(SectionOf(m, s), p[0].1);
      PutSectionWritable(m, s, kvs);
      SectionOfWritable(m, s);
      PutNamed(m, s, kvs);
      hide SectionOk, SectionWritable, NameOk, PresetSectionOk;
      assert Writable(m) ==> Writable(Put(m, s, kvs));
      MergeOk(Put(m, s, kvs), p[1..]);
    }
  }

  lemma SectionOfWritable(m: Conf, s: string)
    ensures Writable(m) ==> SectionWritable(SectionOf(m, s))
  {
  }

  lemma PutNamed(m: Conf, s: string, kvs: Section)
    requires ConfOk(m) && NameOk(s) && SectionOk(kvs)
    ensures ConfOk(Put(m, s, kvs))
  {
    hide SectionOk, NameOk;
    PutDistinct(m, s, kvs);
    PutAt(m, s, kvs);
  }

  // ------------------------------------------------- one command on cockpit.conf

  /** The command can be carried out on the map by way of the file: what it writes can be read back. */
  ghost predicate StepOk(m: Conf, c: Command) {
    match c
    case Set(s, k, v, ok) => SetRefused(s, k, v) || !ok || (s != "" && EntryOk(k, v) && OthersWritable(m, s, k))
    case Unset(s, k, ok) => Lookup(m, s, k) == None || !ok || OthersWritable(m, s, k)
    case PresetApply(id, ok, _) =>
      var p := FindPreset(0, id);
      p == None || !ok || Writable(Merge(m, p.value.conf))
    case _ => true
  }

  lemma ConfStep(f: Files, m: Conf, c: Command)
    requires Parse(TextOf(f.conf)) == m
    ensures Parse(TextOf(Step(f, c).conf)) == ConfEffect(m, c) <==> StepOk(m, c)
  {
    ParseShape(TextOf(f.conf));
    hide ConfOk, OthersWritable, EntryOk, SetRefused, Parse, Serialize, Merge, SetKey, UnsetKey, Lookup, Writable, FindPreset, PRESETS;
    match c
    case Set(s, k, v, ok) =>
      if !SetRefused(s, k, v) {
        SetThenRead(TextOf(f.conf), s, k, v);
      }
    case Unset(s, k, ok) =>
      if Lookup(m, s, k) != None {
        UnsetThenRead(TextOf(f.conf), s, k);
      }
    case PresetApply(id, confOk, _) =>
      var p := FindPreset(0, id);
      if p.Some? {
        PresetsOk();
        MergeOk(m, p.value.conf);
        OkReads(Merge(m, p.value.conf));
      }
    case Reset(ok) => ParseNothing();
    case _ =>
  }

  lemma ParseNothing()
    ensures Parse(TextOf(None)) == []
  {
  }

  // ------------------------------------------------------------ whole runs

  /** Before, between and after the commands, parsing the file gives the map that the commands describe. */
  ghost predicate Tracks(f: Files, m: Conf, cs: seq<Command>)
    decreases |cs|
  {
    Parse(TextOf(f.conf)) == m && (cs == [] || Tracks(Step(f, cs[0]), ConfEffect(m, cs[0]), cs[1..]))
  }

  ghost predicate StepsOk(m: Conf, cs: seq<Command>)
    decreases |cs|
  {
    cs == [] || (StepOk(m, cs[0]) && StepsOk(ConfEffect(m, cs[0]), cs[1..]))
  }

  lemma {:induction false} TracksExactly(f: Files, m: Conf, cs: seq<Command>)
    requires Parse(TextOf(f.conf)) == m
    ensures Tracks(f, m, cs) <==> StepsOk(m, cs)
    ensures Tracks(f, m, cs) ==> Parse(TextOf(Run(f, cs).conf)) == ConfRun(m, cs)
    decreases |cs|
  {
    if cs != [] {
      ConfStep(f, m, cs[0]);
      hide StepOk, Step, ConfEffect, Parse;
      var g, n := Step(f, cs[0]), ConfEffect(m, cs[0]);
      if Parse(TextOf(g.conf)) == n {
        TracksExactly(g, n, cs[1..]);
      }
    }
  }

  /**
   * Over any run of commands from any file, parsing cockpit.conf keeps giving the
   * map that the commands describe if and only if each command's writing can be
   * read back; it then does so at the end.
   */
  lemma ConfRefinesMap(text: string, css: Option<string>, cs: seq<Command>)
    ensures var f := Files(Some(text), css);
      && (Tracks(f, Parse(text), cs) <==> StepsOk(Parse(text), cs))
      && (Tracks(f, Parse(text), cs) ==> Parse(TextOf(Run(f, cs).conf)) == ConfRun(Parse(text), cs))
  {
    TracksExactly(Files(Some(text), css), Parse(text), cs);
  }

  // ---------------------------------------- what the commands' arguments decide

  /** A set that is refused, or one whose section and entry can be written. */
  predicate Accepted(c: Command) {
    c.Set? ==> SetRefused(c.section, c.key, c.value) || (c.section != "" && EntryOk(c.key, c.value))
  }

  /** From a file whose entries can be written, an accepted command works and leaves such a file. */
  lemma AcceptedStep(m: Conf, c: Command)
    requires ConfOk(m) && Writable(m) && Accepted(c)
    ensures StepOk(m, c) && ConfOk(ConfEffect(m, c)) && Writable(ConfEffect(m, c))
  {
    match c
    case Set(s, k, v, ok) =>
      AllWritable(m, s, k);
      if !SetRefused(s, k, v) {
        RefusedParts(s, k, v);
        ConfOkInMemory(m);
        SetGood(m, s, k, v);
        ConfOkInMemory(SetKey(m, s, k, Strip(v)));
      }
    case Unset(s, k, ok) =>
      AllWritable(m, s, k);
      if Lookup(m, s, k) != None {
        UnsetParts(m, s, k);
      }
    case PresetApply(id, confOk, _) =>
      var p := FindPreset(0, id);
      if p.Some? {
        PresetsOk();
        MergeOk(m, p.value.conf);
      }
    case _ =>
  }

  lemma AllWritable(m: Conf, s: string, k: string)
    requires Writable(m)
    ensures OthersWritable(m, s, k)
  {
  }

  /** From a file without header-like entries, every run of accepted commands refines the map. */
  lemma {:induction false} AcceptedRuns(m: Conf, cs: seq<Command>)
    requires ConfOk(m) && Writable(m) && forall i :: 0 <= i < |cs| ==> Accepted(cs[i])
    ensures StepsOk(m, cs)
    decreases |cs|
  {
    if cs != [] {
      AcceptedStep(m, cs[0]);
      hide StepOk, ConfEffect, ConfOk, Writable, Accepted;
      AcceptedRuns(ConfEffect(m, cs[0]), cs[1..]);
    }
  }
}
