/**
 * What a rewrite of cockpit.conf makes of its comments.
 */
module ConfComments {
  import opened Text
  import opened OrderedDict
  import opened CockpitConf

  predicate IsComment(line: string) {
    Strip(line) != "" && (Strip(line)[0] == '#' || Strip(line)[0] == ';')
  }

  /** The comment lines, in order. */
  function Comments(lines: seq<string>): seq<string> {
    if lines == [] then [] else (if IsComment(lines[0]) then [lines[0]] else []) + Comments(lines[1..])
  }

  lemma {:induction false} NoComments(lines: seq<string>)
    requires forall i :: 0 <= i < |lines| ==> !IsComment(lines[i])
    ensures Comments(lines) == []
  {
    if lines != [] {
      NoComments(lines[1..]);
    }
  }

  lemma BannerIsComment()
    ensures IsComment(BANNER)
  {
    LStripAt("", BANNER);
    assert "" + BANNER == BANNER && BANNER[0] == '#';
    StripAllSpace(BANNER);
    StripFirst(BANNER);
  }

  /** Trimming keeps the first character of a line that starts with none of white space. */
  lemma StripFirst(line: string)
    requires line != "" && !IsSpace(line[0])
    ensures Strip(line) != "" && Strip(line)[0] == line[0]
  {
    LStripAt("", line);
    assert "" + line == line;
    StripAllSpace(line);
  }

  lemma EntryIsNoComment(k: string, v: string)
    requires KeyOk(k)
    ensures !IsComment(EntryLine(k, v))
  {
    EntryLineStart(k, v);
    assert KeyChar(k[0]);
    StripFirst(EntryLine(k, v));
  }

  lemma {:induction false} EntriesAreNoComments(kvs: Section)
    requires KeysOk(kvs)
    ensures forall i :: 0 <= i < |EntryLines(kvs)| ==> !IsComment(EntryLines(kvs)[i])
  {
    hide IsComment, EntryLine, KeyOk;
    if kvs != [] {
      assert KeyOk(kvs[0].0);
      EntryIsNoComment(kvs[0].0, kvs[0].1);
      assert forall j :: 0 <= j < |kvs[1..]| ==> kvs[1..][j] == kvs[j + 1];
      EntriesAreNoComments(kvs[1..]);
    }
  }

  lemma HeaderIsNoComment(n: string)
    ensures !IsComment("[" + n + "]") && !IsComment("")
  {
    assert ("[" + n + "]")[0] == '[';
    StripFirst("[" + n + "]");
    StripAllSpace("");
  }

  /** The lines written for the sections hold no comment. */
  lemma {:induction false} SectionsAreNoComments(c: Conf)
    requires forall i :: 0 <= i < |c| ==> KeysOk(c[i].1)
    ensures forall i :: 0 <= i < |SectionLines(c)| ==> !IsComment(SectionLines(c)[i])
  {
    hide IsComment, EntryLines, KeysOk;
    if c != [] {
      HeaderIsNoComment(c[0].0);
      assert KeysOk(c[0].1);
      EntriesAreNoComments(c[0].1);
      assert forall j :: 0 <= j < |c[1..]| ==> c[1..][j] == c[j + 1];
      SectionsAreNoComments(c[1..]);
    }
  }

  lemma CommentsBehind(first: string, lines: seq<string>)
    requires IsComment(first) && forall i :: 0 <= i < |lines| ==> !IsComment(lines[i])
    ensures Comments([first] + lines) == [first]
    ensures forall i :: 0 <= i < |[first] + lines| && IsComment(([first] + lines)[i]) ==> i == 0
  {
    hide IsComment;
    NoComments(lines);
    var all := [first] + lines;
    assert all[0] == first && all[1..] == lines;
    assert forall i :: 1 <= i < |all| ==> all[i] == lines[i - 1];
  }

  /**
   * Whatever the file holds, a rewrite leaves the banner as its only comment: the
   * comments are kept if and only if the banner was the only one.
   */
  lemma RewriteDropsComments(text: string)
    ensures var rewritten := SplitLines(Serialize(Parse(text)));
      && rewritten == [BANNER] + SectionLines(Parse(text))
      && Comments(rewritten) == [BANNER]
      && (Comments(rewritten) == Comments(SplitLines(text)) <==> Comments(SplitLines(text)) == [BANNER])
      && (forall i :: 0 <= i < |rewritten| && IsComment(rewritten[i]) ==> i == 0)
  {
    var c := Parse(text);
    ParseShape(text);
    ConfOkInMemory(c);
    ParsedKeys(c);
    BannerIsComment();
    hide IsComment, BANNER, ConfOk, InMemory, KeysOk, Serialize, SectionLines, Comments, Parse, SplitLines;
    SerializedLines(c);
    SectionsAreNoComments(c);
    CommentsBehind(BANNER, SectionLines(c));
  }

  lemma ParsedKeys(c: Conf)
    requires ConfOk(c)
    ensures forall i :: 0 <= i < |c| ==> KeysOk(c[i].1)
  {
    hide KeyOk, ValueOk, NameOk;
  }
}
