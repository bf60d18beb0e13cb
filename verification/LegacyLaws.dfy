/**
 * What the migration keeps: the list the reader extracts, the text around the
 * block, and a second run that finds nothing more at the same place.
 */
module LegacyLaws {
  import opened Text
  import opened PackageText
  import opened Mkosi
  import opened MkosiLaws
  import opened LegacyMkosi

  // -------------------------------------------------------- lines before and after

  /** The line the one-line form is glued to: the one after the block, or the unterminated rest. */
  function NextLine(text: string, i: nat): string
    requires i < |FullLines(text)|
  {
    var post := FullLines(text)[BlockStop(FullLines(text), i)..];
    if post == [] then LastPart(text) else post[0]
  }

  function LaterLines(text: string, i: nat): seq<string>
    requires i < |FullLines(text)|
  {
    var post := FullLines(text)[BlockStop(FullLines(text), i)..];
    if post == [] then [] else post[1..] + Tail(LastPart(text))
  }

  function OneLineForm(text: string, i: nat): string
    requires i < |FullLines(text)|
  {
    KEY + Join(" ", BlockNames(FullLines(text), i))
  }

  lemma {:induction false} StrippedOneLine(ls: seq<string>)
    requires AllOneLine(ls)
    ensures AllOneLine(StrippedAll(ls))
  {
    if ls != [] {
      StripOneLine(ls[0]);
      StrippedOneLine(ls[1..]);
    }
  }

  lemma BlockNamesOneLine(ls: seq<string>, i: nat)
    requires AllOneLine(ls) && i < |ls|
    ensures AllOneLine(BlockNames(ls, i))
  {
    var all := StrippedAll(BlockItems(ls, i));
    StrippedOneLine(BlockItems(ls, i));
    AddAllContents([], all);
    var names := BlockNames(ls, i);
    assert forall k :: 0 <= k < |names| ==> names[k] in names;
  }

  /** Text without a line break of its own joins the first of the lines after it. */
  lemma UnlinesGlued(pre: seq<string>, form: string, post: seq<string>, last: string)
    requires post != []
    ensures Unlines(pre) + form + (Unlines(post) + last) == Unlines(pre + ([form + post[0]] + post[1..])) + last
  {
    var first, more := post[0], post[1..];
    assert Unlines(post) == first + "\n" + Unlines(more);
    assert ([form + first] + more)[1..] == more;
    assert Unlines([form + first] + more) == form + first + "\n" + Unlines(more);
    UnlinesAppend(pre, [form + first] + more);
    hide Unlines;
    Assoc(first, "\n", Unlines(more));
    Assoc(form + first, "\n", Unlines(more));
    Assoc(form, first, "\n" + Unlines(more));
    Assoc(form, Unlines(post), last);
    Assoc(Unlines(pre), form, Unlines(post) + last);
    Assoc(Unlines(pre), form + Unlines(post), last);
  }

  lemma EmptyUnlines(last: string)
    ensures Unlines([]) + last == last
  {
  }

  lemma GluedParts(pre: seq<string>, form: string, post: seq<string>, last: string)
    requires AllOneLine(pre) && AllOneLine(post) && OneLine(form) && OneLine(last)
    ensures var r := Unlines(pre) + form + (Unlines(post) + last);
      && FullLines(r) == pre + (if post == [] then [] else [form + post[0]] + post[1..])
      && LastPart(r) == if post == [] then form + last else last
  {
    hide FullLines, LastPart, Unlines;
    if post == [] {
      EmptyUnlines(last);
      Assoc(Unlines(pre), form, last);
      assert pre + [] == pre;
      PartsOf(pre, form + last);
    } else {
      UnlinesGlued(pre, form, post, last);
      PartsOf(pre + ([form + post[0]] + post[1..]), last);
    }
  }

  lemma FormOneLine(text: string, i: nat)
    requires i < |FullLines(text)|
    ensures OneLine(OneLineForm(text, i))
  {
    var ls := FullLines(text);
    BlockNamesOneLine(ls, i);
    JoinOneLine(BlockNames(ls, i));
    assert OneLine(KEY);
    hide BlockNames, Join;
  }

  /** The lines of the migrated text. */
  lemma MigratedParts(text: string, i: nat)
    requires i < |FullLines(text)|
    ensures var ls, r := FullLines(text), Migrated(text, i); var post := ls[BlockStop(ls, i)..];
      && FullLines(r) == ls[..i] + (if post == [] then [] else [OneLineForm(text, i) + post[0]] + post[1..])
      && LastPart(r) == if post == [] then OneLineForm(text, i) + LastPart(text) else LastPart(text)
  {
    var ls := FullLines(text);
    assert AllOneLine(ls[..i]) && AllOneLine(ls[BlockStop(ls, i)..]);
    assert OneLineForm(text, i) == KEY + Join(" ", BlockNames(ls, i));
    hide FullLines, LastPart, Unlines, BlockNames, BlockStop, Join, OneLine, AllOneLine, OneLineForm;
    FormOneLine(text, i);
    GluedParts(ls[..i], OneLineForm(text, i), ls[BlockStop(ls, i)..], LastPart(text));
  }

  lemma MigratedLines(text: string, i: nat)
    requires i < |FullLines(text)|
    ensures SplitLines(Migrated(text, i))
         == FullLines(text)[..i] + ([OneLineForm(text, i) + NextLine(text, i)] + LaterLines(text, i))
  {
    var r := Migrated(text, i);
    MigratedParts(text, i);
    TextParts(r);
    var ls, last := FullLines(text), LastPart(text);
    var pre, post, form := ls[..i], ls[BlockStop(ls, i)..], OneLineForm(text, i);
    if post == [] {
      assert form + last != "";
      Assoc(pre, [], [form + last]);
      assert [form + last] + [] == [form + last] && pre + [] == pre;
    } else {
      var merged := [form + post[0]] + post[1..];
      Assoc(pre, merged, Tail(last));
      Assoc([form + post[0]], post[1..], Tail(last));
    }
  }

  function RestLines(text: string, i: nat): seq<string>
    requires i < |FullLines(text)|
  {
    FullLines(text)[BlockStop(FullLines(text), i)..] + Tail(LastPart(text))
  }

  lemma RestIsNext(text: string, i: nat)
    requires i < |FullLines(text)|
    ensures RestLines(text, i) == (if RestLines(text, i) == [] then [] else [NextLine(text, i)]) + LaterLines(text, i)
    ensures RestLines(text, i) == [] ==> NextLine(text, i) == ""
  {
    hide FullLines, LastPart, BlockStop;
  }

  lemma FourSlices(ls: seq<string>, i: nat, j: nat, e: nat)
    requires i < j <= e <= |ls|
    ensures ls == ls[..i] + ([ls[i]] + (ls[i + 1..j] + (ls[j..e] + ls[e..])))
  {
    assert ls[j..] == ls[j..e] + ls[e..];
    assert ls[i + 1..] == ls[i + 1..j] + ls[j..];
    assert ls[i..] == [ls[i]] + ls[i + 1..];
  }

  lemma OriginalLines(text: string, i: nat)
    requires i < |FullLines(text)|
    ensures var ls := FullLines(text); var j := BlankEnd(ls, i + 1);
      SplitLines(text) == ls[..i] + ([ls[i]] + (ls[i + 1..j] + (BlockItems(ls, i) + RestLines(text, i))))
  {
    TextParts(text);
    var ls := FullLines(text);
    var j := BlankEnd(ls, i + 1);
    var e := BlockStop(ls, i);
    FourSlices(ls, i, j, e);
    var tail := Tail(LastPart(text));
    hide FullLines, LastPart, Tail, SplitLines, BlankEnd, ItemEnd;
    Assoc(ls[j..e], ls[e..], tail);
    Assoc(ls[i + 1..j], ls[j..e] + ls[e..], tail);
    Assoc([ls[i]], ls[i + 1..j] + (ls[j..e] + ls[e..]), tail);
    Assoc(ls[..i], [ls[i]] + (ls[i + 1..j] + (ls[j..e] + ls[e..])), tail);
  }

  // -------------------------------------------------------------- the names read

  lemma ReadIsTokens(text: string)
    ensures Read(text) == AddAll([], TokensFrom(SplitLines(text), Flags(false, false)))
  {
    if !Contains(text, SECTION) {
      TextParts(text);
      var ls, last := FullLines(text), LastPart(text);
      if SECTION in ls {
        HeaderIsContained(text);
      }
      NoSectionLines(ls, Tail(last), "");
      LastYieldsNothing(last, false);
    }
  }

  lemma {:induction false} AddAllMerged(acc: seq<string>, d: seq<string>, xs: seq<string>)
    requires NoDuplicates(acc) && NoDuplicates(d)
    ensures AddAll(acc, AddAll(d, xs)) == AddAll(AddAll(acc, d), xs)
    decreases |xs|
  {
    if xs != [] {
      var x := xs[0];
      AddAllMerged(acc, AddNew(d, x), xs[1..]);
      AddAllContents(acc, d);
      AddAllConcat(acc, d, [x]);
      assert AddAll(AddAll(acc, d), [x]) == AddNew(AddAll(acc, d), x) by {
        assert [x][1..] == [];
      }
    }
  }

  lemma {:induction false} WordsSplit(s: string, t: string)
    requires t == "" || IsSpace(t[0])
    ensures Words(s + t) == Words(s) + Words(t)
    decreases |s|
  {
    var u := s + t;
    if s == "" {
      assert u == t && [] + Words(t) == Words(t);
    } else if IsSpace(s[0]) {
      assert u[1..] == s[1..] + t;
      WordsSplit(s[1..], t);
    } else {
      var n := WordEnd(s, 0);
      assert forall k :: 0 <= k < |s| ==> u[k] == s[k];
      assert t != "" ==> u[|s|] == t[0];
      assert WordEnd(u, 0) == n;
      assert u[..n] == s[..n] && u[n..] == s[n..] + t;
      WordsSplit(s[n..], t);
      Assoc([s[..n]], Words(s[n..]), Words(t));
    }
  }

  lemma WordsOfWord(s: string)
    requires NoSpace(s)
    ensures Words(s) == if s == "" then [] else [s]
  {
    if s != "" {
      WordsCons(s, "");
      assert s + "" == s;
    }
  }

  ghost predicate PlainBlock(ls: seq<string>, i: nat)
    requires i < |ls|
  {
    BlockAt(ls, i) && var items := BlockItems(ls, i); forall k :: 0 <= k < |items| ==> PlainItem(items[k])
  }

  lemma {:induction false} StrippedPlain(items: seq<string>)
    requires forall k :: 0 <= k < |items| ==> PlainItem(items[k])
    ensures forall x :: x in StrippedAll(items) ==> x != "" && NoSpace(x)
  {
    if items != [] {
      StrippedPlain(items[1..]);
    }
  }

  lemma BlockNamesStorable(ls: seq<string>, i: nat)
    requires i < |ls| && PlainBlock(ls, i)
    ensures Storable(BlockNames(ls, i)) && BlockNames(ls, i) != []
  {
    var items := BlockItems(ls, i);
    StrippedPlain(items);
    AddAllContents([], StrippedAll(items));
    var names := BlockNames(ls, i);
    forall k | 0 <= k < |names| ensures names[k] != "" && NoSpace(names[k]) {
      assert names[k] in names;
    }
    assert items != [] && StrippedAll(items)[0] in names;
  }

  /** A next line the one-line form can be glued to without changing the names read. */
  predicate Separated(next: string) {
    next == "" || IsSpace(next[0])
  }

  /** When the next line is indented, it holds at most one word and does not look like the key. */
  predicate PlainNext(next: string) {
    next != "" && IsSpace(next[0]) ==> NoSpace(Strip(next)) && !IsKeyLine(next)
  }

  lemma NextReads(next: string, f: Flags)
    requires Separated(next) && PlainNext(next) && (f.inSection ==> f.inValue)
    ensures LineTokens(next, f) == (if f.inSection then Words(next) else []) && NextFlags(next, f) == f
  {
    WordsStrip(next);
    StripAllSpace(next);
    if next == "" {
      BlankReads(next, f);
    } else {
      WordsOfWord(Strip(next));
      assert !IsHeader(next);
    }
  }

  /** The block read from flags f, and the one-line form read from the same flags. */
  lemma BlockReads(ls: seq<string>, i: nat, rest: seq<string>, f: Flags)
    requires i < |ls| && PlainBlock(ls, i)
    ensures var j := BlankEnd(ls, i + 1);
      var g := if f.inSection then Flags(true, true) else f;
      TokensFrom([ls[i]] + (ls[i + 1..j] + (BlockItems(ls, i) + rest)), f)
      == (if f.inSection then StrippedAll(BlockItems(ls, i)) else []) + TokensFrom(rest, g)
  {
    var j := BlankEnd(ls, i + 1);
    var items, blanks := BlockItems(ls, i), ls[i + 1..j];
    var g := if f.inSection then Flags(true, true) else f;
    StartReads(ls[i], f);
    BlanksRead(blanks, g);
    ItemsRead(items, g);
    hide Tokens, IsStart, StrippedAll, LineTokens, PlainItem, BlockItems;
    TokensConcat(blanks, items + rest, g);
    TokensConcat(items, rest, g);
    var t := TokensFrom(items, g) + TokensFrom(rest, g);
    assert [] + t == t;
  }

  lemma FormLine(names: seq<string>, next: string, f: Flags)
    requires Storable(names) && Separated(next) && PlainNext(next)
    ensures var line := KEY + Join(" ", names) + next; var g := if f.inSection then Flags(true, true) else f;
      && NextFlags(line, f) == g && NextFlags(next, g) == g
      && LineTokens(line, f) == (if f.inSection then names else []) + LineTokens(next, g)
  {
    var value := Join(" ", names);
    var g := if f.inSection then Flags(true, true) else f;
    Assoc(KEY, value, next);
    KeyLineReads(value + next, f);
    WordsSplit(value, next);
    WordsJoin(names);
    NextReads(next, g);
  }

  lemma FormReads(names: seq<string>, next: string, later: seq<string>, f: Flags)
    requires Storable(names) && Separated(next) && PlainNext(next)
    ensures var g := if f.inSection then Flags(true, true) else f;
      TokensFrom([KEY + Join(" ", names) + next] + later, f)
      == (if f.inSection then names else []) + TokensFrom([next] + later, g)
  {
    var line := KEY + Join(" ", names) + next;
    var g := if f.inSection then Flags(true, true) else f;
    FormLine(names, next, f);
    hide Tokens, LineTokens, NextFlags, Words, Join, Separated, PlainNext, Storable;
    Assoc(if f.inSection then names else [], LineTokens(next, g), TokensFrom(later, g));
  }

  lemma AddSameBlock(before: seq<string>, items: seq<string>, names: seq<string>, after: seq<string>)
    requires names == AddAll([], items)
    ensures AddAll([], before + (items + after)) == AddAll([], before + (names + after))
  {
    var acc := AddAll([], before);
    AddAllContents([], before);
    AddAllConcat([], before, items + after);
    AddAllConcat([], before, names + after);
    AddAllConcat(acc, items, after);
    AddAllConcat(acc, names, after);
    AddAllMerged(acc, [], items);
  }

  function FlagsBefore(text: string, i: nat): Flags
    requires i < |FullLines(text)|
  {
    FlagsAfter(FullLines(text)[..i], Flags(false, false))
  }

  /**
   * The list extracted is the same before and after the migration when what
   * follows the block is blank, indented or the end of the file.
   */
  lemma MigrationKeepsList(text: string, i: nat)
    requires i < |FullLines(text)| && PlainBlock(FullLines(text), i)
    requires Separated(NextLine(text, i)) && PlainNext(NextLine(text, i))
    ensures Read(Migrated(text, i)) == Read(text)
  {
    var ls, f, next, later := FullLines(text), FlagsBefore(text, i), NextLine(text, i), LaterLines(text, i);
    var names, items, j := BlockNames(ls, i), BlockItems(ls, i), BlankEnd(ls, i + 1);
    var g := if f.inSection then Flags(true, true) else f;
    ReadIsTokens(text);
    ReadIsTokens(Migrated(text, i));
    OriginalLines(text, i);
    MigratedLines(text, i);
    BlockNamesStorable(ls, i);
    var before := TokensFrom(ls[..i], Flags(false, false));
    BlockReads(ls, i, RestLines(text, i), f);
    FormReads(names, next, later, f);
    RestIsNext(text, i);
    TokensConcat(ls[..i], [ls[i]] + (ls[i + 1..j] + (items + RestLines(text, i))), Flags(false, false));
    TokensConcat(ls[..i], [OneLineForm(text, i) + next] + later, Flags(false, false));
    hide Tokens, FullLines, LastPart, NextLine, LaterLines, BlockItems, PlainBlock, FlagsAfter, Read, AddAll, StrippedAll;
    assert [] + later == later;
    var after := TokensFrom(RestLines(text, i), g);
    assert TokensFrom([next] + later, g) == after;
    if f.inSection {
      AddSameBlock(before, StrippedAll(items), names, after);
    }
  }

  // ------------------------------------------- when the next line is not separated

  /** The word made of the last name and the start of the next line. */
  function Glued(names: seq<string>, next: string): string
    requires names != []
  {
    names[|names| - 1] + next[..WordEnd(next, 0)]
  }

  lemma GluedWord(w: string, next: string)
    requires w != "" && NoSpace(w)
    ensures w + next[..WordEnd(next, 0)] in Words(w + next)
  {
    var n := WordEnd(next, 0);
    var head, rest := w + next[..n], next[n..];
    assert next == next[..n] + rest;
    Assoc(w, next[..n], rest);
    assert forall k :: 0 <= k < |head| ==> head[k] == if k < |w| then w[k] else next[k - |w|];
    WordsCons(head, rest);
  }

  lemma JoinCons(names: seq<string>, next: string)
    requires |names| > 1
    ensures Join(" ", names) + next == names[0] + (" " + (Join(" ", names[1..]) + next))
  {
    var j := Join(" ", names[1..]);
    assert Join(" ", names) == names[0] + " " + j;
    hide Join;
    Assoc(names[0] + " ", j, next);
    Assoc(names[0], " ", j + next);
  }

  lemma WordThenSpace(w: string, tail: string)
    requires w != "" && NoSpace(w)
    ensures Words(w + (" " + tail)) == [w] + Words(tail)
  {
    WordsCons(w, " " + tail);
    WordsLeading(" ", tail);
  }

  lemma {:induction false} GluedInWords(names: seq<string>, next: string)
    requires Storable(names) && names != []
    ensures Glued(names, next) in Words(Join(" ", names) + next)
  {
    if |names| == 1 {
      GluedWord(names[0], next);
    } else {
      hide Join, Words, NoSpace;
      GluedInWords(names[1..], next);
      JoinCons(names, next);
      WordThenSpace(names[0], Join(" ", names[1..]) + next);
    }
  }

  /** Otherwise the last name and the next line are read as one new word. */
  lemma MigrationGlues(text: string, i: nat)
    requires i < |FullLines(text)| && PlainBlock(FullLines(text), i)
    requires FlagsBefore(text, i).inSection
    ensures BlockNames(FullLines(text), i) != []
    ensures Glued(BlockNames(FullLines(text), i), NextLine(text, i)) in Read(Migrated(text, i))
  {
    var ls, f, next, later := FullLines(text), FlagsBefore(text, i), NextLine(text, i), LaterLines(text, i);
    var names := BlockNames(ls, i);
    var value := Join(" ", names);
    BlockNamesStorable(ls, i);
    GluedInWords(names, next);
    ReadIsTokens(Migrated(text, i));
    MigratedLines(text, i);
    var line := KEY + value + next;
    Assoc(KEY, value, next);
    KeyLineReads(value + next, f);
    TokensConcat(ls[..i], [line] + later, Flags(false, false));
    hide Tokens, FullLines, NextLine, LaterLines, BlockNames, FlagsAfter, Words, NextFlags, Glued, LineTokens, Join;
    var all := TokensFrom(SplitLines(Migrated(text, i)), Flags(false, false));
    assert Glued(names, next) in all;
    AddAllContents([], all);
  }

  /** For a block in the section whose glued word is new, the list is kept exactly when the next line is separated. */
  lemma MigrationKeepsFreshList(text: string, i: nat)
    requires i < |FullLines(text)| && PlainBlock(FullLines(text), i) && BlockNames(FullLines(text), i) != []
    requires FlagsBefore(text, i).inSection && PlainNext(NextLine(text, i))
    requires Glued(BlockNames(FullLines(text), i), NextLine(text, i)) !in Read(text) || Separated(NextLine(text, i))
    ensures Read(Migrated(text, i)) == Read(text) <==> Separated(NextLine(text, i))
  {
    if Separated(NextLine(text, i)) {
      MigrationKeepsList(text, i);
    } else {
      MigrationGlues(text, i);
    }
  }

  /** The names read before line i. */
  function Seen(text: string, i: nat): seq<string>
    requires i < |FullLines(text)|
  {
    AddAll([], TokensFrom(FullLines(text)[..i], Flags(false, false)))
  }

  /** The words read from the one-line form with the next line glued to it, and from the lines after. */
  function WordsAfter(text: string, i: nat): seq<string>
    requires i < |FullLines(text)|
  {
    Words(Join(" ", BlockNames(FullLines(text), i)) + NextLine(text, i)) + TokensFrom(LaterLines(text, i), Flags(true, true))
  }

  /** The names of the block, and the words read from the lines after it. */
  function WordsBefore(text: string, i: nat): seq<string>
    requires i < |FullLines(text)|
  {
    BlockNames(FullLines(text), i) + TokensFrom(RestLines(text, i), Flags(true, true))
  }

  lemma MigratedRead(text: string, i: nat)
    requires i < |FullLines(text)| && FlagsBefore(text, i).inSection
    ensures Read(Migrated(text, i)) == AddAll(Seen(text, i), WordsAfter(text, i))
  {
    var ls, f, next, later := FullLines(text), FlagsBefore(text, i), NextLine(text, i), LaterLines(text, i);
    var value := Join(" ", BlockNames(ls, i));
    var line := KEY + value + next;
    ReadIsTokens(Migrated(text, i));
    MigratedLines(text, i);
    hide Tokens, FullLines, NextLine, LaterLines, BlockNames, FlagsAfter, Words, NextFlags, LineTokens, Join, Read, AddAll, Migrated;
    Assoc(KEY, value, next);
    KeyLineReads(value + next, f);
    TokensConcat(ls[..i], [line] + later, Flags(false, false));
    OneLineTokens(line, later, f);
    AddAllConcat([], TokensFrom(ls[..i], Flags(false, false)), WordsAfter(text, i));
  }

  lemma OneLineTokens(line: string, later: seq<string>, f: Flags)
    ensures TokensFrom([line] + later, f) == LineTokens(line, f) + TokensFrom(later, NextFlags(line, f))
  {
    hide Words, IsHeader, IsKeyLine, AfterEquals, Strip;
    assert ([line] + later)[0] == line && ([line] + later)[1..] == later;
  }

  lemma OriginalRead(text: string, i: nat)
    requires i < |FullLines(text)| && PlainBlock(FullLines(text), i) && FlagsBefore(text, i).inSection
    ensures Read(text) == AddAll(Seen(text, i), WordsBefore(text, i))
  {
    var ls, f := FullLines(text), FlagsBefore(text, i);
    var items, j, rest := BlockItems(ls, i), BlankEnd(ls, i + 1), RestLines(text, i);
    ReadIsTokens(text);
    OriginalLines(text, i);
    BlockReads(ls, i, rest, f);
    TokensConcat(ls[..i], [ls[i]] + (ls[i + 1..j] + (items + rest)), Flags(false, false));
    hide Tokens, FullLines, BlockItems, PlainBlock, FlagsAfter, Read, AddAll, StrippedAll, RestLines;
    var before, after := TokensFrom(ls[..i], Flags(false, false)), TokensFrom(rest, Flags(true, true));
    AddSameBlock(before, StrippedAll(items), BlockNames(ls, i), after);
    AddAllConcat([], before, WordsBefore(text, i));
  }

  /**
   * For any block in the section, the list extracted is the same before and after
   * exactly when the words of the glued line and of what follows add the same
   * names, in the same order, as the block and what follows it did.
   */
  lemma MigrationKeepsListExactly(text: string, i: nat)
    requires i < |FullLines(text)| && PlainBlock(FullLines(text), i) && FlagsBefore(text, i).inSection
    ensures Read(Migrated(text, i)) == Read(text)
       <==> AddAll(Seen(text, i), WordsAfter(text, i)) == AddAll(Seen(text, i), WordsBefore(text, i))
  {
    MigratedRead(text, i);
    OriginalRead(text, i);
  }

  // --------------------------------------------------------------- the second run

  lemma {:induction false} BlankEndSame(a: seq<string>, b: seq<string>, n: nat, k: nat)
    requires k <= n <= |a| && n <= |b| && a[..n] == b[..n]
    requires (n < |a| ==> !AllSpace(a[n])) && (n < |b| ==> !AllSpace(b[n]))
    ensures BlankEnd(a, k) == BlankEnd(b, k) <= n
    decreases n - k
  {
    if k < n {
      assert a[k] == a[..n][k] && b[k] == b[..n][k];
      BlankEndSame(a, b, n, k + 1);
    }
  }

  /** Whether a block starts at k depends only on the lines up to the next one that is neither blank nor an item. */
  lemma BlockAtSame(a: seq<string>, b: seq<string>, n: nat, k: nat)
    requires k < n <= |a| && n <= |b| && a[..n] == b[..n]
    requires (n < |a| ==> !AllSpace(a[n]) && !IsItem(a[n])) && (n < |b| ==> !AllSpace(b[n]) && !IsItem(b[n]))
    ensures BlockAt(a, k) == BlockAt(b, k)
  {
    BlankEndSame(a, b, n, k + 1);
    assert forall x :: 0 <= x < n ==> a[x] == a[..n][x] && b[x] == b[..n][x];
  }

  lemma {:induction false} BlankEndShift(p: seq<string>, s: seq<string>, k: nat)
    requires k <= |s|
    ensures BlankEnd(p + s, |p| + k) == |p| + BlankEnd(s, k)
    decreases |s| - k
  {
    if k < |s| {
      BlankEndShift(p, s, k + 1);
    }
  }

  lemma BlockAtShift(p: seq<string>, s: seq<string>, k: nat)
    requires k < |s|
    ensures BlockAt(p + s, |p| + k) == BlockAt(s, k)
  {
    BlankEndShift(p, s, k + 1);
  }

  lemma KeyIsNoItem(line: string)
    requires KEY <= line
    ensures !IsItem(line) && !AllSpace(line)
  {
    assert line[0] == 'P';
  }

  lemma FormIsNoStart(names: seq<string>, next: string)
    requires names != [] && names[0] != "" && !IsSpace(names[0][0])
    ensures !IsStart(KEY + Join(" ", names) + next)
  {
    var line := KEY + Join(" ", names) + next;
    assert line[|KEY|..][0] == names[0][0];
  }

  ghost predicate HasBlock(ls: seq<string>) {
    exists k :: 0 <= k < |ls| && BlockAt(ls, k)
  }

  lemma FirstNameVisible(ls: seq<string>, i: nat)
    requires i < |ls| && BlockAt(ls, i)
    ensures var names := BlockNames(ls, i); names != [] && names[0] != "" && !IsSpace(names[0][0])
  {
    var items := BlockItems(ls, i);
    var all := StrippedAll(items);
    StripTrimmed(items[0]);
    assert AddNew([], all[0]) == [all[0]];
    AddAllContents([all[0]], all[1..]);
    assert [all[0]] <= BlockNames(ls, i);
  }

  lemma NoBlockBefore(r: seq<string>, ls: seq<string>, i: nat)
    requires i < |ls| && i <= |r| && r[..i] == ls[..i] && KEY <= ls[i] && (i < |r| ==> KEY <= r[i])
    requires forall k :: 0 <= k < i ==> !BlockAt(ls, k)
    ensures forall k :: 0 <= k < i ==> !BlockAt(r, k)
  {
    KeyIsNoItem(ls[i]);
    if i < |r| {
      KeyIsNoItem(r[i]);
    }
    hide BlockAt, IsItem, AllSpace;
    forall k | 0 <= k < i ensures !BlockAt(r, k) {
      BlockAtSame(r, ls, i, k);
    }
  }

  lemma HasBlockShift(p: seq<string>, s: seq<string>)
    requires forall k :: 0 <= k < |p| ==> !BlockAt(p + s, k)
    ensures HasBlock(p + s) <==> HasBlock(s)
  {
    hide BlockAt;
    var r := p + s;
    if HasBlock(r) {
      var k :| 0 <= k < |r| && BlockAt(r, k);
      BlockAtShift(p, s, k - |p|);
    }
    if HasBlock(s) {
      var k :| 0 <= k < |s| && BlockAt(s, k);
      BlockAtShift(p, s, k);
    }
  }

  lemma BlocksAfterForm(ls: seq<string>, i: nat, line: string, s: seq<string>)
    requires i < |ls| && KEY <= ls[i] && KEY <= line && !IsStart(line)
    requires forall k :: 0 <= k < i ==> !BlockAt(ls, k)
    ensures HasBlock(ls[..i] + ([line] + s)) <==> HasBlock(s)
    ensures !HasBlock(ls[..i])
  {
    var p, r := ls[..i] + [line], ls[..i] + ([line] + s);
    Assoc(ls[..i], [line], s);
    hide BlockAt, IsStart;
    NoBlockBefore(r, ls, i);
    NoBlockBefore(ls[..i], ls, i);
    assert forall k :: 0 <= k < |p| ==> !BlockAt(p + s, k);
    HasBlockShift(p, s);
  }

  /** After a run the only blocks left to migrate are those that came after the first one. */
  lemma SecondRun(text: string, i: nat)
    requires i < |FullLines(text)| && i == FindBlock(FullLines(text), 0)
    ensures var post := FullLines(text)[BlockStop(FullLines(text), i)..];
      HasBlock(FullLines(Migrated(text, i))) <==> post != [] && HasBlock(post[1..])
  {
    var ls := FullLines(text);
    var post, form := ls[BlockStop(ls, i)..], OneLineForm(text, i);
    MigratedParts(text, i);
    FirstNameVisible(ls, i);
    var next := if post == [] then "" else post[0];
    FormIsNoStart(BlockNames(ls, i), next);
    BlocksAfterForm(ls, i, form + next, if post == [] then [] else post[1..]);
    hide FullLines, LastPart, BlockAt, BlockNames, Join, IsStart;
    assert ls[..i] + [] == ls[..i];
  }
}
