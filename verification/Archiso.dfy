/**
 * packages.x86_64 of an archiso profile: one name a line under a comment header.
 */
module Archiso {
  import opened Text
  import opened OrderedDict
  import opened PackageText

  const REPLACE_HEADER := "# Package list " + "(written by " + "sysdeck-builder " + "v0.0.49)"

  predicate IsComment(line: string) {
    var s := Strip(line);
    s != "" && s[0] == '#'
  }

  /** The comment lines the file begins with. */
  function HeaderLines(lines: seq<string>): seq<string> {
    if lines != [] && IsComment(lines[0]) then [lines[0]] + HeaderLines(lines[1..]) else []
  }

  function AppendLines(existing: string, packages: seq<string>): seq<string> {
    var header := HeaderLines(SplitLines(existing));
    header + (if header != [] then [""] else []) + AddAll(ParsePackages(existing), packages)
  }

  function NewText(existing: string, packages: seq<string>, append: bool): string {
    if append then Join("\n", AppendLines(existing, packages)) + "\n"
    else REPLACE_HEADER + "\n" + Unlines(packages)
  }

  method ReadHeader(lines: seq<string>) returns (header: seq<string>)
    ensures header == HeaderLines(lines)
    ensures header != [] ==> Strip(header[|header| - 1]) != ""
  {
    header := [];
    var k := 0;
    while k < |lines| && IsComment(lines[k])
      invariant k <= |lines|
      invariant HeaderLines(lines) == header + HeaderLines(lines[k..])
      invariant header != [] ==> Strip(header[|header| - 1]) != ""
    {
      assert lines[k..][0] == lines[k] && lines[k..][1..] == lines[k + 1..];
      Assoc(header, [lines[k]], HeaderLines(lines[k + 1..]));
      header := header + [lines[k]];
      k := k + 1;
    }
    assert k < |lines| ==> lines[k..][0] == lines[k];
    assert header + [] == header;
  }

  method AppendNames(existing: string, packages: seq<string>) returns (text: string, count: nat)
    ensures text == NewText(existing, packages, true)
    ensures count == |AddAll(ParsePackages(existing), packages)|
  {
    var names := ParsePackagesText(existing);
    var final := MergeNames(names, packages);
    var out := ReadHeader(SplitLines(existing));
    if out != [] && Strip(out[|out| - 1]) != "" {
      out := out + [""];
    } else {
      assert out == out + [];
    }
    out := out + final;
    return Join("\n", out) + "\n", |final|;
  }

  method ReplaceNames(packages: seq<string>) returns (text: string)
    ensures text == REPLACE_HEADER + "\n" + Unlines(packages)
  {
    ghost var head := REPLACE_HEADER + "\n";
    text := REPLACE_HEADER + "\n";
    for i := 0 to |packages|
      invariant text == head + Unlines(packages[..i])
    {
      UnlinesAppend(packages[..i], [packages[i]]);
      assert packages[..i + 1] == packages[..i] + [packages[i]];
      assert Unlines([packages[i]]) == packages[i] + "\n";
      Assoc(head, Unlines(packages[..i]), packages[i] + "\n");
      text := text + (packages[i] + "\n");
    }
    assert packages[..|packages|] == packages;
  }

  datatype WriteReply = WriteError | Written(count: nat)

  class PackageFile {
    var content: Option<string>

    function Existing(): string
      reads this
    {
      if content.Some? then content.value else ""
    }

    method Write(packages: seq<string>, append: bool, writable: bool) returns (r: WriteReply)
      modifies this
      ensures content == if writable then Some(NewText(old(Existing()), packages, append)) else old(content)
      ensures r == if !writable then WriteError
                   else Written(if append then |AddAll(ParsePackages(old(Existing())), packages)| else |packages|)
    {
      var text, count;
      if append {
        text, count := AppendNames(Existing(), packages);
      } else {
        text := ReplaceNames(packages);
        count := |packages|;
      }
      if !writable {
        return WriteError;
      }
      content := Some(text);
      return Written(count);
    }
  }

  // ------------------------------------------------------------ reading it back

  ghost predicate AllNames(xs: seq<string>) {
    forall i :: 0 <= i < |xs| ==> IsName(xs[i])
  }

  lemma {:induction false} HeaderShape(lines: seq<string>)
    ensures HeaderLines(lines) <= lines
    ensures forall i :: 0 <= i < |HeaderLines(lines)| ==> IsComment(HeaderLines(lines)[i])
  {
    if lines != [] && IsComment(lines[0]) {
      HeaderShape(lines[1..]);
    }
  }

  ghost predicate AllComments(header: seq<string>) {
    forall i :: 0 <= i < |header| ==> IsComment(header[i])
  }

  lemma {:induction false} HeaderNames(header: seq<string>)
    requires AllComments(header)
    ensures NamesOn(header) == []
  {
    if header != [] {
      HeaderNames(header[1..]);
    }
  }

  lemma {:induction false} HeaderOf(header: seq<string>, rest: seq<string>)
    requires AllComments(header)
    requires rest == [] || !IsComment(rest[0])
    ensures HeaderLines(header + rest) == header
  {
    hide IsComment;
    if header == [] {
      assert header + rest == rest;
    } else {
      assert (header + rest)[1..] == header[1..] + rest;
      HeaderOf(header[1..], rest);
    }
  }

  lemma BlankThenNames(final: seq<string>)
    ensures NamesOn([""] + final) == NamesOn(final) && !IsComment("")
  {
    assert ([""] + final)[1..] == final;
  }

  lemma MergedNames(existing: string, packages: seq<string>)
    requires AllNames(packages)
    ensures var final := AddAll(ParsePackages(existing), packages); NoDuplicates(final) && AllNames(final)
  {
    ParseContents(existing);
    AddAllContents(ParsePackages(existing), packages);
    var final := AddAll(ParsePackages(existing), packages);
    forall i | 0 <= i < |final| ensures IsName(final[i]) {
      assert final[i] in final;
    }
  }

  lemma LinesOf(ls: seq<string>)
    requires AllOneLine(ls)
    ensures SplitLines(Join("\n", ls) + "\n") == if ls == [] then [""] else ls
  {
    if ls == [] {
      assert "" + "\n" + "" == "\n";
      SplitLinesCons("", "");
    } else {
      JoinLines(ls);
      SplitUnlines(ls, "");
      assert Unlines(ls) + "" == Unlines(ls) && ls + SplitLines("") == ls;
    }
  }

  lemma AppendedLines(existing: string, packages: seq<string>)
    requires AllNames(packages)
    ensures AllOneLine(AppendLines(existing, packages))
  {
    var header := HeaderLines(SplitLines(existing));
    var final := AddAll(ParsePackages(existing), packages);
    var gap := if header != [] then [""] else [];
    assert AllOneLine(gap);
    assert AppendLines(existing, packages) == header + gap + final;
    MergedNames(existing, packages);
    HeaderShape(SplitLines(existing));
    assert AllOneLine(header) && AllOneLine(final);
    hide *;
    LinesTogether(header, gap);
    LinesTogether(header + gap, final);
  }

  lemma ReadBareNames(final: seq<string>)
    requires AllNames(final) && NoDuplicates(final)
    ensures var read := if final == [] then [""] else final;
      ParseLines(read) == final && HeaderLines(read) == []
  {
    if final == [] {
      BlankThenNames([]);
      assert [""] + [] == [""];
    } else {
      ReadNames(final);
    }
  }

  lemma ReadUnderHeader(header: seq<string>, final: seq<string>)
    requires header != [] && AllComments(header)
    requires AllNames(final) && NoDuplicates(final)
    ensures ParseLines(header + [""] + final) == final && HeaderLines(header + [""] + final) == header
  {
    ReadNames(final);
    BlankThenNames(final);
    hide NameOn, IsComment, NamesOn, AddAll, HeaderLines, IsName;
    HeaderOf(header, [""] + final);
    HeaderNames(header);
    NamesOnAppend(header, [""] + final);
    assert [] + final == final;
    Assoc(header, [""], final);
  }

  /** Reading the file after an append gives the old names, then the new ones not among them; the comment header stays. */
  lemma AppendReadsBack(existing: string, packages: seq<string>)
    requires AllNames(packages)
    ensures ParsePackages(NewText(existing, packages, true)) == AddAll(ParsePackages(existing), packages)
    ensures HeaderLines(SplitLines(NewText(existing, packages, true))) == HeaderLines(SplitLines(existing))
  {
    AppendedLines(existing, packages);
    LinesOf(AppendLines(existing, packages));
    MergedNames(existing, packages);
    HeaderShape(SplitLines(existing));
    var header, final := HeaderLines(SplitLines(existing)), AddAll(ParsePackages(existing), packages);
    if header == [] {
      ReadBareNames(final);
      assert header + [] + final == final;
    } else {
      ReadUnderHeader(header, final);
    }
  }

  /** Appending the same names again leaves the file as it is, byte for byte. */
  lemma AppendTwice(existing: string, packages: seq<string>)
    requires AllNames(packages)
    ensures var once := NewText(existing, packages, true); NewText(once, packages, true) == once
  {
    AppendReadsBack(existing, packages);
    ParseContents(existing);
    AddAllContents(ParsePackages(existing), packages);
    AddAllKnown(AddAll(ParsePackages(existing), packages), packages);
  }

  /** Reading the file after a replace gives exactly the names written. */
  lemma ReplaceReadsBack(existing: string, packages: seq<string>)
    requires AllNames(packages) && NoDuplicates(packages)
    ensures ParsePackages(NewText(existing, packages, false)) == packages
  {
    var ls := [REPLACE_HEADER] + packages;
    assert OneLine("# Package list ") && OneLine("(written by ") && OneLine("sysdeck-builder ") && OneLine("v0.0.49)");
    assert OneLine(REPLACE_HEADER) && AllOneLine(ls);
    assert NewText(existing, packages, false) == Unlines(ls) + "" by {
      assert ls[0] == REPLACE_HEADER && ls[1..] == packages;
    }
    SplitUnlines(ls, "");
    assert ls + SplitLines("") == ls;
    assert REPLACE_HEADER[0] == '#' && Index(REPLACE_HEADER, '#') == 0;
    StripAllSpace("");
    assert NamesOn(ls) == NamesOn(packages) by { assert ls[1..] == packages; }
    ReadNames(packages);
  }

  // ---------------------------------------------------------------- as text

  /** A comment line: white space, '#', anything. */
  datatype Comment = Comment(indent: string, text: string)

  function CommentText(c: Comment): string {
    c.indent + ("#" + c.text)
  }

  predicate CommentOk(c: Comment) {
    AllSpace(c.indent) && OneLine(c.indent) && OneLine(c.text)
  }

  lemma CommentIs(c: Comment)
    requires CommentOk(c)
    ensures IsComment(CommentText(c)) && OneLine(CommentText(c))
  {
    var s := "#" + c.text;
    assert s[0] == '#' && !IsSpace('#') && OneLine("#");
    hide Strip, LStrip, IsSpace, AllSpace, OneLine;
    StripVisible(c.indent, s);
    PartOneLine("#", c.text);
    PartOneLine(c.indent, s);
  }

  lemma CommentOnly(line: string)
    requires OneLine(line) && IsComment(line)
    ensures exists c :: CommentOk(c) && line == CommentText(c)
  {
    var w1, w2 := StripParts(line);
    var s := Strip(line);
    hide Strip, AllSpace, OneLine;
    var c := Comment(w1, s[1..] + w2);
    assert s == "#" + s[1..];
    Assoc("#", s[1..], w2);
    Assoc(w1, s, w2);
    assert line == CommentText(c);
    PartOneLine(w1, "#" + c.text);
    PartOneLine("#", c.text);
    assert CommentOk(c);
  }

  function CommentTexts(cs: seq<Comment>): seq<string> {
    if cs == [] then [] else [CommentText(cs[0])] + CommentTexts(cs[1..])
  }

  lemma HeaderFirst(line: string, more: seq<string>)
    ensures HeaderLines([line] + more) == if IsComment(line) then [line] + HeaderLines(more) else []
  {
    hide IsComment;
    assert ([line] + more)[0] == line && ([line] + more)[1..] == more;
  }

  lemma NoComment(rest: seq<string>)
    requires rest != [] ==> !IsComment(rest[0])
    ensures HeaderLines(rest) == []
  {
    hide IsComment;
  }

  lemma {:induction false} CommentsOneLine(cs: seq<Comment>)
    requires forall i :: 0 <= i < |cs| ==> CommentOk(cs[i])
    ensures AllOneLine(CommentTexts(cs))
  {
    if cs != [] {
      assert CommentOk(cs[0]);
      CommentIs(cs[0]);
      hide CommentOk, CommentText, IsComment, OneLine;
      CommentsOneLine(cs[1..]);
    }
  }

  lemma {:induction false} HeaderIs(cs: seq<Comment>, rest: seq<string>)
    requires (forall i :: 0 <= i < |cs| ==> CommentOk(cs[i])) && (rest != [] ==> !IsComment(rest[0]))
    ensures HeaderLines(CommentTexts(cs) + rest) == CommentTexts(cs)
  {
    if cs == [] {
      NoComment(rest);
      assert CommentTexts(cs) + rest == rest;
    } else {
      assert CommentOk(cs[0]);
      CommentIs(cs[0]);
      assert CommentTexts(cs) == [CommentText(cs[0])] + CommentTexts(cs[1..]);
      hide CommentOk, CommentText, CommentTexts, IsComment, OneLine, HeaderLines;
      HeaderIs(cs[1..], rest);
      HeaderFirst(CommentText(cs[0]), CommentTexts(cs[1..]) + rest);
      Assoc([CommentText(cs[0])], CommentTexts(cs[1..]), rest);
    }
  }

  /**
   * Appending to a file that begins with comment lines: these lines, a blank line,
   * and the merged names, one a line; without comment lines only the names.
   */
  lemma AppendedText(cs: seq<Comment>, rest: seq<string>, packages: seq<string>)
    requires (forall i :: 0 <= i < |cs| ==> CommentOk(cs[i])) && (rest != [] ==> !IsComment(rest[0])) && AllOneLine(rest)
    ensures var existing := Unlines(CommentTexts(cs) + rest);
      var names := AddAll(ParsePackages(existing), packages);
      NewText(existing, packages, true)
      == if cs == [] && names == [] then "\n" else Unlines(CommentTexts(cs)) + (if cs == [] then "" else "\n") + Unlines(names)
  {
    var lines := CommentTexts(cs) + rest;
    HeaderIs(cs, rest);
    CommentsOneLine(cs);
    SplitUnlines(lines, "");
    assert Unlines(lines) + "" == Unlines(lines) && lines + [] == lines;
    var names := AddAll(ParsePackages(Unlines(lines)), packages);
    var header := CommentTexts(cs);
    hide HeaderLines, ParsePackages, AddAll, SplitLines, OneLine, CommentText;
    var gap := if header != [] then [""] else [];
    assert AppendLines(Unlines(lines), packages) == header + gap + names;
    JoinLines(header + gap + names);
    UnlinesAppend(header + gap, names);
    UnlinesAppend(header, gap);
    GapText(header != []);
  }

  lemma GapText(some: bool)
    ensures Unlines(if some then [""] else []) == if some then "\n" else ""
  {
    assert [""][1..] == [];
  }
}
