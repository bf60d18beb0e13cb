/**
 * Migration of the old indented Packages= block of a mkosi conf to one line.
 * The block pattern is matched on the lines that end in a line break; a match
 * starts at a bare key line and takes the indented lines behind it.
 */
module LegacyMkosi {
  import opened Text
  import opened OrderedDict
  import opened PackageText
  import opened Mkosi
  import opened MkosiLaws

  // ----------------------------------------------------------------- pattern

  /** "Packages=" followed by white space only. */
  predicate IsStart(line: string) {
    KEY <= line && AllSpace(line[|KEY|..])
  }

  function IndentEnd(s: string, i: nat): (n: nat)
    requires i <= |s|
    ensures i <= n <= |s|
    ensures forall k :: i <= k < n ==> s[k] == ' ' || s[k] == '\t'
    ensures n < |s| ==> s[n] != ' ' && s[n] != '\t'
    decreases |s| - i
  {
    if i < |s| && (s[i] == ' ' || s[i] == '\t') then IndentEnd(s, i + 1) else i
  }

  /** Blanks or tabs, then a character that is no white space. */
  predicate IsItem(line: string) {
    var n := IndentEnd(line, 0);
    0 < n < |line| && !IsSpace(line[n])
  }

  function BlankEnd(ls: seq<string>, i: nat): (n: nat)
    requires i <= |ls|
    ensures i <= n <= |ls| && forall k :: i <= k < n ==> AllSpace(ls[k])
    decreases |ls| - i
  {
    if i < |ls| && AllSpace(ls[i]) then BlankEnd(ls, i + 1) else i
  }

  function ItemEnd(ls: seq<string>, i: nat): (n: nat)
    requires i <= |ls|
    ensures i <= n <= |ls| && forall k :: i <= k < n ==> IsItem(ls[k])
    ensures n < |ls| ==> !IsItem(ls[n])
    decreases |ls| - i
  {
    if i < |ls| && IsItem(ls[i]) then ItemEnd(ls, i + 1) else i
  }

  /** The old syntax starts at line i: blank lines may follow, then at least one item. */
  predicate BlockAt(ls: seq<string>, i: nat)
    requires i < |ls|
  {
    IsStart(ls[i]) && var j := BlankEnd(ls, i + 1); j < |ls| && IsItem(ls[j])
  }

  /** The first line at or after i where a block starts, or the number of lines. */
  function FindBlock(ls: seq<string>, i: nat): (n: nat)
    requires i <= |ls|
    ensures i <= n <= |ls|
    ensures n < |ls| ==> BlockAt(ls, n)
    ensures forall k :: i <= k < n ==> !BlockAt(ls, k)
    decreases |ls| - i
  {
    if i == |ls| || BlockAt(ls, i) then i else FindBlock(ls, i + 1)
  }

  function StrippedAll(ls: seq<string>): seq<string> {
    if ls == [] then [] else [Strip(ls[0])] + StrippedAll(ls[1..])
  }

  function BlockItems(ls: seq<string>, i: nat): seq<string>
    requires i < |ls|
  {
    var j := BlankEnd(ls, i + 1);
    ls[j..ItemEnd(ls, j)]
  }

  function BlockStop(ls: seq<string>, i: nat): (n: nat)
    requires i < |ls|
    ensures i < n <= |ls|
  {
    ItemEnd(ls, BlankEnd(ls, i + 1))
  }

  function BlockNames(ls: seq<string>, i: nat): seq<string>
    requires i < |ls|
  {
    AddAll([], StrippedAll(BlockItems(ls, i)))
  }

  /** The text before the block, the one-line form with no line break of its own, the text after the block. */
  function Migrated(text: string, i: nat): string
    requires i < |FullLines(text)|
  {
    var ls := FullLines(text);
    Unlines(ls[..i]) + (KEY + Join(" ", BlockNames(ls, i))) + (Unlines(ls[BlockStop(ls, i)..]) + LastPart(text))
  }

  datatype MigrateReply = NoSection | AlreadyModern | NotWritten | Done(names: seq<string>)

  class LegacyConf {
    var content: Option<string>

    function Existing(): string
      reads this
    {
      if content.Some? then content.value else ""
    }

    method Migrate(writable: bool) returns (r: MigrateReply)
      modifies this
      ensures var text := old(Existing()); var ls := FullLines(text); var i := FindBlock(ls, 0);
        if !Contains(text, SECTION) then r == NoSection && content == old(content)
        else if i == |ls| then r == AlreadyModern && content == old(content)
        else if !writable then r == NotWritten && content == old(content)
        else r == Done(BlockNames(ls, i)) && content == Some(Migrated(text, i))
    {
      var text := Existing();
      if !Contains(text, SECTION) {
        return NoSection;
      }
      var ls := FullLines(text);
      var i := FindBlock(ls, 0);
      if i == |ls| {
        return AlreadyModern;
      }
      // Every item has a name, so the list is never empty here.
      var names := BlockList(ls, i);
      if !writable {
        return NotWritten;
      }
      content := Some(Unlines(ls[..i]) + (KEY + Join(" ", names)) + (Unlines(ls[BlockStop(ls, i)..]) + LastPart(text)));
      return Done(names);
    }
  }

  method BlockList(ls: seq<string>, i: nat) returns (names: seq<string>)
    requires i < |ls| && BlockAt(ls, i)
    ensures names == BlockNames(ls, i) && names != []
  {
    names := [];
    var items := BlockItems(ls, i);
    ghost var all := StrippedAll(items);
    for k := 0 to |items|
      invariant AddAll(names, StrippedAll(items[k..])) == AddAll([], all)
      invariant k > 0 ==> names != []
    {
      assert items[k..][0] == items[k] && items[k..][1..] == items[k + 1..];
      var name := Strip(items[k]);
      assert StrippedAll(items[k..])[1..] == StrippedAll(items[k + 1..]);
      if name != "" && name !in names {
        names := names + [name];
      }
    }
    assert items[|items|..] == [];
  }

  // ------------------------------------------------------- reading with a state

  datatype Flags = Flags(inSection: bool, inValue: bool)

  /** The reader's flags after one line. */
  function NextFlags(line: string, f: Flags): Flags {
    if IsHeader(line) then Flags(line == SECTION, false)
    else if f.inSection && IsKeyLine(line) then Flags(true, true)
    else if f.inSection && f.inValue && line != "" && !IsSpace(line[0]) then Flags(true, false)
    else f
  }

  function FlagsAfter(ls: seq<string>, f: Flags): Flags {
    if ls == [] then f else FlagsAfter(ls[1..], NextFlags(ls[0], f))
  }

  function TokensFrom(ls: seq<string>, f: Flags): seq<string> {
    Tokens(ls, f.inSection, f.inValue)
  }

  /** The names one line contributes. */
  function LineTokens(line: string, f: Flags): seq<string> {
    if IsHeader(line) || !f.inSection then []
    else if IsKeyLine(line) then Words(Strip(AfterEquals(line)))
    else if f.inValue && (line == "" || IsSpace(line[0])) then NameLine(line)
    else []
  }

  lemma {:induction false} TokensConcat(a: seq<string>, b: seq<string>, f: Flags)
    ensures TokensFrom(a + b, f) == TokensFrom(a, f) + TokensFrom(b, FlagsAfter(a, f))
    ensures FlagsAfter(a + b, f) == FlagsAfter(b, FlagsAfter(a, f))
  {
    if a == [] {
      assert a + b == b && [] + TokensFrom(b, f) == TokensFrom(b, f);
    } else {
      var l, rest, g := a[0], a[1..], NextFlags(a[0], f);
      TokensConcat(rest, b, g);
      assert a == [l] + rest;
      Assoc([l], rest, b);
      assert ([l] + (rest + b))[1..] == rest + b;
      hide NextFlags, Tokens, LineTokens;
      Assoc(LineTokens(l, f), TokensFrom(rest, g), TokensFrom(b, FlagsAfter(rest, g)));
    }
  }

  // ------------------------------------------------------------ what a block reads as

  lemma BlankReads(line: string, f: Flags)
    requires AllSpace(line)
    ensures LineTokens(line, f) == [] && NextFlags(line, f) == f
  {
    StripAllSpace(line);
    assert line != "" ==> IsSpace(line[0]);
  }

  lemma {:induction false} BlanksRead(ls: seq<string>, f: Flags)
    requires forall i :: 0 <= i < |ls| ==> AllSpace(ls[i])
    ensures TokensFrom(ls, f) == [] && FlagsAfter(ls, f) == f
  {
    if ls != [] {
      BlankReads(ls[0], f);
      BlanksRead(ls[1..], f);
      assert ls == [ls[0]] + ls[1..];
    }
  }

  /** An item whose name is one word and does not itself look like the key. */
  predicate PlainItem(line: string) {
    IsItem(line) && NoSpace(Strip(line)) && !IsKeyLine(line)
  }

  lemma {:induction false} ItemsRead(items: seq<string>, f: Flags)
    requires (forall i :: 0 <= i < |items| ==> PlainItem(items[i])) && (f.inSection ==> f.inValue)
    ensures TokensFrom(items, f) == (if f.inSection then StrippedAll(items) else []) && FlagsAfter(items, f) == f
  {
    if items != [] {
      ItemsRead(items[1..], f);
      hide PlainItem, NextFlags, LineTokens, Tokens, Strip;
      assert items == [items[0]] + items[1..];
    }
  }

  lemma StartReads(line: string, f: Flags)
    requires IsStart(line)
    ensures LineTokens(line, f) == []
    ensures NextFlags(line, f) == if f.inSection then Flags(true, true) else f
  {
    var w := line[|KEY|..];
    assert line == KEY + w;
    KeyLineValue(w);
    StripAllSpace(w);
  }

  lemma KeyLineReads(value: string, f: Flags)
    ensures LineTokens(KEY + value, f) == if f.inSection then Words(value) else []
    ensures NextFlags(KEY + value, f) == if f.inSection then Flags(true, true) else f
  {
    KeyLineValue(value);
    WordsStrip(value);
  }
}
