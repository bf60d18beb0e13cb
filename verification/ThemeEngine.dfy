/**
 * The theme commands over the two files they own: cockpit.conf and
 * overrides.css. Each command is a method that reads, edits and rewrites a file;
 * its contract gives the new files by a step function, and a run is many steps.
 */
module ThemeEngine {
  import opened Text
  import opened OrderedDict
  import opened CockpitConf
  import opened ConfLaws
  import opened Overrides

  // ----------------------------------------------------------------- presets

  datatype Preset = Preset(id: string, conf: Conf, css: Dict<string>)

  function ThemeStyle(style: string): (string, Section) { ("Theme", [("style", style)]) }
  function BrandColor(color: string): (string, Section) { ("Brand", [("Color", color)]) }

  function Palette(bg: string, fg: string, accent: string, cardBg: string): Dict<string> {
    [(PREFIX + "bg", bg), (PREFIX + "fg", fg), (PREFIX + "accent", accent), (PREFIX + "card-bg", cardBg)]
  }

  const PRESETS: seq<Preset> := [
    Preset("midnight", [BrandColor("danger"), ThemeStyle("dark")], Palette("#0f0f1a", "#e0e0e0", "#06c", "#1a1a2a")),
    Preset("alpine", [ThemeStyle("light")], Palette("#f5f5f5", "#1a1a1a", "#0066cc", "#ffffff")),
    Preset("forest", [BrandColor("success"), ThemeStyle("dark")], Palette("#0f1a0f", "#cfe0c0", "#3c9", "#1a2a1a")),
    Preset("amber", [ThemeStyle("dark")], Palette("#1a0f00", "#ffb000", "#ff8c00", "#2a1f00")),
    Preset("violet", [ThemeStyle("dark")], Palette("#1a0a2a", "#e0d0ff", "#9c3", "#2a1a3a")),
    Preset("high-contrast", [ThemeStyle("light")],
           Palette("#ffffff", "#000000", "#0000ff", "#ffffff") + [(PREFIX + "border", "#000000")])
  ]

  function FindPreset(i: nat, id: string): (r: Option<Preset>)
    requires i <= |PRESETS|
    ensures r.Some? ==> r.value in PRESETS && r.value.id == id
    decreases |PRESETS| - i
  {
    if i == |PRESETS| then None
    else if PRESETS[i].id == id then Some(PRESETS[i])
    else FindPreset(i + 1, id)
  }

  /** section.update(kvs) */
  function Update(s: Section, kvs: Section): Section
    decreases |kvs|
  {
    if kvs == [] then s else Update(Put(s, kvs[0].0, kvs[0].1), kvs[1..])
  }

  /** sections.setdefault(section, {}).update(kvs) for every section of the preset */
  function Merge(c: Conf, p: Conf): Conf
    decreases |p|
  {
    if p == [] then c else Merge(Put(c, p[0].0, Update(SectionOf(c, p[0].0), p[0].1)), p[1..])
  }

  // ------------------------------------------------------- the two files' text

  datatype Files = Files(conf: Option<string>, css: Option<string>)

  // A flag says whether the file system lets the write happen.
  datatype Command =
    | Set(section: string, key: string, value: string, writable: bool)
    | Unset(section: string, key: string, writable: bool)
    | Reset(writable: bool)
    | PresetApply(id: string, confWritable: bool, cssWritable: bool)
    | VariableSet(name: string, value: string, writable: bool)
    | VariableReset(writable: bool)

  function Step(f: Files, c: Command): Files {
    match c
    case Set(s, k, v, ok) =>
      if SetRefused(s, k, v) || !ok then f
      else f.(conf := Some(Serialize(SetKey(Parse(TextOf(f.conf)), s, k, v))))
    case Unset(s, k, ok) =>
      if Lookup(Parse(TextOf(f.conf)), s, k) == None || !ok then f
      else f.(conf := Some(Serialize(UnsetKey(Parse(TextOf(f.conf)), s, k))))
    case Reset(ok) => if ok then f.(conf := None) else f
    case PresetApply(id, confOk, cssOk) =>
      (match FindPreset(0, id)
       case None => f
       case Some(p) =>
         if !confOk then f
         else Files(Some(Serialize(Merge(Parse(TextOf(f.conf)), p.conf))),
                    if cssOk then Some(PresetText(p.css)) else f.css))
    case VariableSet(name, v, ok) =>
      if Default(name) == None || !Overrides.ValueOk(v) || !ok then f
      else f.(css := Some(SetText(f.css, name, v)))
    case VariableReset(ok) => if ok then f.(css := None) else f
  }

  function Run(f: Files, cs: seq<Command>): Files
    decreases |cs|
  {
    if cs == [] then f else Run(Step(f, cs[0]), cs[1..])
  }

  // ------------------------------------------------------------ the commands

  datatype GetReply =
    | NoSection(sections: seq<string>)
    | NoKey(keys: seq<string>)
    | WholeSection(entries: Section)
    | OneKey(value: string)

  datatype Reply = Refused | WriteFailed | Done

  function Keys<V>(d: Dict<V>): seq<string> {
    seq(|d|, i requires 0 <= i < |d| => d[i].0)
  }

  class ThemeFiles {
    var conf: Option<string>
    var css: Option<string>

    function Content(): Files
      reads this
    {
      Files(conf, css)
    }

    constructor ()
      ensures Content() == Files(None, None)
    {
      conf, css := None, None;
    }

    method Get(section: string, key: Option<string>) returns (r: GetReply)
      ensures var c := Parse(TextOf(conf));
        match r
        case NoSection(names) => !Has(c, section) && names == Keys(c)
        case WholeSection(kvs) => key == None && OrderedDict.Get(c, section) == Some(kvs)
        case NoKey(ks) => key.Some? && Has(c, section) && Lookup(c, section, key.value) == None
                          && ks == Keys(SectionOf(c, section))
        case OneKey(v) => key.Some? && Has(c, section) && Lookup(c, section, key.value) == Some(v)
    {
      var sections := ParseConf(TextOf(conf));
      match OrderedDict.Get(sections, section)
      case None => r := NoSection(Keys(sections));
      case Some(kvs) =>
        if key == None {
          r := WholeSection(kvs);
        } else {
          match OrderedDict.Get(kvs, key.value)
          case None => r := NoKey(Keys(kvs));
          case Some(v) => r := OneKey(v);
        }
    }

    method Set(section: string, key: string, value: string, writable: bool) returns (r: Reply)
      modifies this`conf
      ensures Content() == Step(old(Content()), Command.Set(section, key, value, writable))
      ensures r == if SetRefused(section, key, value) then Refused else if writable then Done else WriteFailed
    {
      if SetRefused(section, key, value) {
        return Refused;
      }
      var sections := ParseConf(TextOf(conf));
      sections := Put(sections, section, Put(SectionOf(sections, section), key, value));
      var text := SerializeConf(sections);
      if !writable {
        return WriteFailed;
      }
      conf := Some(text);
      return Done;
    }

    method Unset(section: string, key: string, writable: bool) returns (r: Reply)
      modifies this`conf
      ensures Content() == Step(old(Content()), Command.Unset(section, key, writable))
      ensures r == if Lookup(Parse(TextOf(old(conf))), section, key) == None then Refused
                   else if writable then Done else WriteFailed
    {
      var sections := ParseConf(TextOf(conf));
      if !Has(sections, section) || !Has(SectionOf(sections, section), key) {
        return Refused;
      }
      var kvs := Del(SectionOf(sections, section), key);
      if kvs == [] {
        sections := Del(sections, section);
      } else {
        sections := Put(sections, section, kvs);
      }
      var text := SerializeConf(sections);
      if !writable {
        return WriteFailed;
      }
      conf := Some(text);
      return Done;
    }

    method Reset(writable: bool) returns (r: Reply)
      modifies this`conf
      ensures Content() == Step(old(Content()), Command.Reset(writable))
      ensures r == if writable then Done else WriteFailed
    {
      if !writable {
        return WriteFailed;
      }
      conf := None;
      return Done;
    }

    method PresetApply(id: string, confWritable: bool, cssWritable: bool) returns (r: Reply)
      modifies this
      ensures Content() == Step(old(Content()), Command.PresetApply(id, confWritable, cssWritable))
      ensures r == if FindPreset(0, id) == None then Refused
                   else if confWritable && cssWritable then Done else WriteFailed
    {
      var found := FindPreset(0, id);
      if found == None {
        return Refused;
      }
      var p := found.value;
      var sections := ParseConf(TextOf(conf));
      ghost var target := Merge(sections, p.conf);
      for i := 0 to |p.conf|
        invariant Merge(sections, p.conf[i..]) == target
      {
        assert p.conf[i..][1..] == p.conf[i + 1..];
        var (section, kvs) := p.conf[i];
        var entries := SectionOf(sections, section);
        ghost var updated := Update(entries, kvs);
        for j := 0 to |kvs|
          invariant Update(entries, kvs[j..]) == updated
        {
          assert kvs[j..][1..] == kvs[j + 1..];
          entries := Put(entries, kvs[j].0, kvs[j].1);
        }
        sections := Put(sections, section, entries);
      }
      var text := SerializeConf(sections);
      if !confWritable {
        return WriteFailed;
      }
      conf := Some(text);
      if !cssWritable {
        return WriteFailed;
      }
      css := Some(PresetText(p.css));
      return Done;
    }

    method VariableGet(name: string) returns (value: Option<string>)
      ensures value == GetValue(css, name)
    {
      var default := Default(name);
      if default == None {
        return None;
      }
      var found := FirstValue(TextOf(css), name);
      return if found.Some? then found else default;
    }

    method VariableSet(name: string, value: string, writable: bool) returns (r: Reply)
      modifies this`css
      ensures Content() == Step(old(Content()), Command.VariableSet(name, value, writable))
      ensures r == if Default(name) == None || !Overrides.ValueOk(value) then Refused else if writable then Done else WriteFailed
    {
      if Default(name) == None || !Overrides.ValueOk(value) {
        return Refused;
      }
      var text := TextOf(css);
      if Declares(text, name) {
        text := Substitute(text, name, value);
      } else if '}' in text {
        text := InsertBeforeBrace(text, name, value);
      } else {
        text := ":root {\n" + ("  " + Declaration(name, value) + "\n" + "}\n");
      }
      if !writable {
        return WriteFailed;
      }
      css := Some(text);
      return Done;
    }

    method VariableReset(writable: bool) returns (r: Reply)
      modifies this`css
      ensures Content() == Step(old(Content()), Command.VariableReset(writable))
      ensures r == if writable then Done else WriteFailed
    {
      if !writable {
        return WriteFailed;
      }
      css := None;
      return Done;
    }
  }
}
