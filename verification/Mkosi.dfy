/**
 * The [Packages] section of a mkosi conf: reader, section rewriter and writer.
 */
module Mkosi {
  import opened Text
  import opened OrderedDict
  import opened PackageText

  const SECTION := "[Packages]"
  const KEY := "Packages="

  // ------------------------------------------------------------------ reader

  predicate IsHeader(line: string) {
    line != "" && line[0] == '[' && line[|line| - 1] == ']'
  }

  predicate IsKeyLine(line: string) {
    KEY <= Strip(line)
  }

  /** line.split("=", 1)[1] */
  function AfterEquals(line: string): string {
    var i := Index(line, '=');
    if i < |line| then line[i + 1..] else ""
  }

  function NameLine(line: string): seq<string> {
    if Strip(line) == "" then [] else [Strip(line)]
  }

  /** The names in the order the reader meets them, from a given state of its two flags. */
  function Tokens(lines: seq<string>, inSection: bool, inValue: bool): seq<string> {
    if lines == [] then []
    else
      var line, rest := lines[0], lines[1..];
      if IsHeader(line) then Tokens(rest, line == SECTION, false)
      else if inSection && IsKeyLine(line) then Words(Strip(AfterEquals(line))) + Tokens(rest, inSection, true)
      else if inSection && inValue then
        if line != "" && !IsSpace(line[0]) then Tokens(rest, inSection, false)
        else NameLine(line) + Tokens(rest, inSection, true)
      else Tokens(rest, inSection, inValue)
  }

  function Read(text: string): seq<string> {
    if Contains(text, SECTION) then AddAll([], Tokens(SplitLines(text), false, false)) else []
  }

  method ReadPackages(text: string) returns (names: seq<string>)
    ensures names == Read(text)
  {
    names := [];
    if !Contains(text, SECTION) {
      return;
    }
    var inSection, inValue := false, false;
    var lines := SplitLines(text);
    for i := 0 to |lines|
      invariant AddAll(names, Tokens(lines[i..], inSection, inValue)) == Read(text)
    {
      var line := lines[i];
      ghost var rest := lines[i + 1..];
      assert lines[i..][0] == line && lines[i..][1..] == rest;
      if IsHeader(line) {
        inSection := line == SECTION;
        inValue := false;
        continue;
      }
      if inSection && IsKeyLine(line) {
        inValue := true;
        var inline := Words(Strip(AfterEquals(line)));
        AddAllConcat(names, inline, Tokens(rest, true, true));
        names := MergeNames(names, inline);
        continue;
      }
      if inSection && inValue {
        if line != "" && !IsSpace(line[0]) {
          inValue := false;
          continue;
        }
        AddAllConcat(names, NameLine(line), Tokens(rest, true, true));
        var name := Strip(line);
        if name != "" && name !in names {
          names := names + [name];
        }
      }
    }
  }

  // ---------------------------------------------------------------- rewriter

  /** text.splitlines(keepends=True) */
  function KeepLines(t: string): seq<string>
    decreases |t|
  {
    if t == "" then []
    else
      var i := Index(t, '\n');
      if i == |t| then [t] else [t[..i + 1]] + KeepLines(t[i + 1..])
  }

  predicate IsKeptHeader(line: string) {
    |line| >= 2 && line[0] == '[' && line[|line| - 2..] == "]\n"
  }

  function Rewrite(lines: seq<string>, inSection: bool, section: string): string {
    if lines == [] then ""
    else
      var line, rest := lines[0], lines[1..];
      if IsKeptHeader(line) then
        if Strip(line) == SECTION then section + "\n" + Rewrite(rest, true, section)
        else line + Rewrite(rest, false, section)
      else if inSection then Rewrite(rest, true, section)
      else line + Rewrite(rest, false, section)
  }

  method RewriteSection(text: string, section: string) returns (r: string)
    ensures r == Rewrite(KeepLines(text), false, section)
  {
    r := "";
    var inSection := false;
    var lines := KeepLines(text);
    ghost var target := Rewrite(lines, false, section);
    assert lines[0..] == lines && "" + target == target;
    for i := 0 to |lines|
      invariant r + Rewrite(lines[i..], inSection, section) == target
    {
      var line := lines[i];
      ghost var rest := lines[i + 1..];
      assert lines[i..][0] == line && lines[i..][1..] == rest;
      if IsKeptHeader(line) {
        if Strip(line) == SECTION {
          inSection := true;
          Assoc(r, section + "\n", Rewrite(rest, true, section));
          r := r + (section + "\n");
        } else {
          inSection := false;
          Assoc(r, line, Rewrite(rest, false, section));
          r := r + line;
        }
      } else if !inSection {
        Assoc(r, line, Rewrite(rest, false, section));
        r := r + line;
      }
    }
    assert r + "" == r;
  }

  // ------------------------------------------------------------------ writer

  /** text.rstrip("\n") */
  function StripBreaks(t: string): (r: string)
    ensures r <= t && (r != "" ==> r[|r| - 1] != '\n')
    ensures forall i :: |r| <= i < |t| ==> t[i] == '\n'
  {
    if t != "" && t[|t| - 1] == '\n' then StripBreaks(t[..|t| - 1]) else t
  }

  function NewSection(names: seq<string>): string {
    SECTION + "\n" + (KEY + Join(" ", names))
  }

  function WithSection(text: string, names: seq<string>): string {
    if Contains(text, SECTION) then Rewrite(KeepLines(text), false, NewSection(names))
    else StripBreaks(text) + "\n\n" + NewSection(names) + "\n"
  }

  function FinalNames(text: string, packages: seq<string>, append: bool): seq<string> {
    if append then AddAll(Read(text), packages) else packages
  }

  function NewText(text: string, packages: seq<string>, append: bool): string {
    WithSection(text, FinalNames(text, packages, append))
  }

  datatype WriteReply = WriteError | Written(count: nat)

  class ConfFile {
    var content: Option<string>

    function Existing(): string
      reads this
    {
      if content.Some? then content.value else ""
    }

    method Write(packages: seq<string>, append: bool, writable: bool) returns (r: WriteReply)
      modifies this
      ensures content == if writable then Some(NewText(old(Existing()), packages, append)) else old(content)
      ensures r == if writable then Written(|FinalNames(old(Existing()), packages, append)|) else WriteError
    {
      var existing := Existing();
      var final := packages;
      if append {
        var names := ReadPackages(existing);
        final := MergeNames(names, packages);
      }
      var text;
      if Contains(existing, SECTION) {
        text := RewriteSection(existing, NewSection(final));
      } else {
        text := StripBreaks(existing) + "\n\n" + NewSection(final) + "\n";
      }
      if !writable {
        return WriteError;
      }
      content := Some(text);
      return Written(|final|);
    }
  }
}
