/** The migration of the old indented list, as text. */
module LegacyText {
  import opened Text
  import opened PackageText
  import opened Mkosi
  import opened LegacyMkosi

  /** A line of the block: blanks and tabs, then text that starts visibly. */
  datatype Item = Item(indent: string, body: string)

  predicate ItemOk(it: Item) {
    && it.indent != "" && (forall i :: 0 <= i < |it.indent| ==> it.indent[i] == ' ' || it.indent[i] == '\t')
    && it.body != "" && !IsSpace(it.body[0]) && OneLine(it.body)
  }

  predicate ItemsOk(items: seq<Item>) {
    forall i :: 0 <= i < |items| ==> ItemOk(items[i])
  }

  function ItemLine(it: Item): string {
    it.indent + it.body
  }

  function ItemLines(items: seq<Item>): (ls: seq<string>)
    ensures |ls| == |items| && forall i :: 0 <= i < |ls| ==> ls[i] == ItemLine(items[i])
  {
    seq(|items|, i requires 0 <= i < |items| => ItemLine(items[i]))
  }

  /** The names of the items: their text, trimmed at the end. */
  function Bodies(items: seq<Item>): (ls: seq<string>)
    ensures |ls| == |items| && forall i :: 0 <= i < |ls| ==> ls[i] == Strip(items[i].body)
  {
    seq(|items|, i requires 0 <= i < |items| => Strip(items[i].body))
  }

  lemma ItemIs(it: Item)
    requires ItemOk(it)
    ensures IsItem(ItemLine(it)) && !AllSpace(ItemLine(it)) && OneLine(ItemLine(it)) && Strip(ItemLine(it)) == Strip(it.body)
  {
    var line, n := ItemLine(it), |it.indent|;
    assert forall i :: 0 <= i < n ==> line[i] == it.indent[i];
    assert line[n] == it.body[0];
    assert IndentEnd(line, 0) == n;
    hide Strip;
    StripLeadingSpaces(it.indent, it.body);
    assert '\n' !in it.indent;
  }

  lemma {:induction false} StrippedAt(ls: seq<string>)
    ensures |StrippedAll(ls)| == |ls| && forall i :: 0 <= i < |ls| ==> StrippedAll(ls)[i] == Strip(ls[i])
  {
    hide Strip;
    if ls != [] {
      StrippedAt(ls[1..]);
    }
  }

  lemma Stripped(items: seq<Item>)
    requires ItemsOk(items)
    ensures StrippedAll(ItemLines(items)) == Bodies(items)
  {
    StrippedAt(ItemLines(items));
    hide Strip, StrippedAll, IsItem, AllSpace, OneLine;
    forall i | 0 <= i < |items| ensures StrippedAll(ItemLines(items))[i] == Bodies(items)[i] {
      assert ItemOk(items[i]);
      ItemIs(items[i]);
    }
  }

  /** The lines of a conf with a block in the old form. */
  function BlockLines(pre: seq<string>, w: string, blanks: seq<string>, items: seq<Item>): seq<string> {
    pre + ([KEY + w] + (blanks + ItemLines(items)))
  }

  ghost predicate BlockOk(pre: seq<string>, w: string, blanks: seq<string>, items: seq<Item>) {
    && AllSpace(w) && (forall i :: 0 <= i < |blanks| ==> AllSpace(blanks[i]))
    && items != [] && ItemsOk(items)
    && (forall i :: 0 <= i < |pre| ==> !(KEY <= pre[i]))
  }

  lemma {:induction false} BlanksEnd(ls: seq<string>, i: nat, e: nat)
    requires i <= e <= |ls| && (forall k :: i <= k < e ==> AllSpace(ls[k])) && (e < |ls| ==> !AllSpace(ls[e]))
    ensures BlankEnd(ls, i) == e
    decreases e - i
  {
    if i < e {
      BlanksEnd(ls, i + 1, e);
    }
  }

  lemma {:induction false} ItemsEnd(ls: seq<string>, i: nat, e: nat)
    requires i <= e <= |ls| && (forall k :: i <= k < e ==> IsItem(ls[k])) && (e < |ls| ==> !IsItem(ls[e]))
    ensures ItemEnd(ls, i) == e
    decreases e - i
  {
    if i < e {
      ItemsEnd(ls, i + 1, e);
    }
  }

  /** Where the parts of the lines stand. */
  lemma PartsAt(pre: seq<string>, w: string, blanks: seq<string>, items: seq<Item>, post: seq<string>)
    ensures var ls, i := BlockLines(pre, w, blanks, items) + post, |pre|; var j := i + 1 + |blanks|; var e := j + |items|;
      && e <= |ls| && ls[..i] == pre && ls[i] == KEY + w && ls[i + 1..j] == blanks && ls[j..e] == ItemLines(items) && ls[e..] == post
  {
  }

  lemma BlanksAndItems(pre: seq<string>, w: string, blanks: seq<string>, items: seq<Item>, post: seq<string>)
    requires BlockOk(pre, w, blanks, items) && (post != [] ==> !IsItem(post[0]))
    ensures var ls, j := BlockLines(pre, w, blanks, items) + post, |pre| + 1 + |blanks|;
      && j < j + |items| <= |ls| && BlankEnd(ls, |pre| + 1) == j && IsItem(ls[j]) && ItemEnd(ls, j) == j + |items|
  {
    var ls, i := BlockLines(pre, w, blanks, items) + post, |pre|;
    var j := i + 1 + |blanks|;
    PartsAt(pre, w, blanks, items, post);
    forall k | 0 <= k < |items| ensures IsItem(ItemLine(items[k])) && !AllSpace(ItemLine(items[k])) {
      ItemIs(items[k]);
    }
    hide IsItem, AllSpace, BlockLines, ItemOk, KEY, ItemLine, BlankEnd, ItemEnd;
    ItemsAt(ls, j, ItemLines(items), post);
    BlanksAt(ls, i + 1, blanks, j);
  }

  lemma BlanksAt(ls: seq<string>, i: nat, blanks: seq<string>, j: nat)
    requires i <= j < |ls| && ls[i..j] == blanks && !AllSpace(ls[j]) && forall k :: 0 <= k < |blanks| ==> AllSpace(blanks[k])
    ensures BlankEnd(ls, i) == j
  {
    hide AllSpace;
    assert forall k :: i <= k < j ==> ls[k] == ls[i..j][k - i];
    BlanksEnd(ls, i, j);
  }

  lemma ItemsAt(ls: seq<string>, j: nat, lines: seq<string>, post: seq<string>)
    requires lines != [] && forall k :: 0 <= k < |lines| ==> IsItem(lines[k]) && !AllSpace(lines[k])
    requires j + |lines| <= |ls| && ls[j..j + |lines|] == lines && ls[j + |lines|..] == post
    requires post != [] ==> !IsItem(post[0])
    ensures IsItem(ls[j]) && !AllSpace(ls[j]) && ItemEnd(ls, j) == j + |lines|
  {
    hide IsItem, AllSpace, ItemEnd;
    var e := j + |lines|;
    forall k | j <= k < e ensures IsItem(ls[k]) {
      assert ls[k] == lines[k - j];
    }
    assert ls[j] == lines[0];
    assert e < |ls| ==> ls[e] == post[0];
    ItemsEnd(ls, j, e);
  }

  lemma NoBlockIn(pre: seq<string>, ls: seq<string>)
    requires pre <= ls && forall i :: 0 <= i < |pre| ==> !(KEY <= pre[i])
    ensures forall k :: 0 <= k < |pre| ==> !BlockAt(ls, k)
  {
    hide KEY;
    assert forall k :: 0 <= k < |pre| ==> ls[k] == pre[k];
  }

  lemma BlockIsAt(ls: seq<string>, i: nat, j: nat, e: nat)
    requires i < j < e <= |ls| && IsStart(ls[i]) && BlankEnd(ls, i + 1) == j && IsItem(ls[j]) && ItemEnd(ls, j) == e
    ensures BlockAt(ls, i) && BlockItems(ls, i) == ls[j..e] && BlockStop(ls, i) == e
  {
    hide IsItem, IsStart;
  }

  /** The search finds the block, and it ends where the items do. */
  lemma BlockFound(pre: seq<string>, w: string, blanks: seq<string>, items: seq<Item>, post: seq<string>)
    requires BlockOk(pre, w, blanks, items) && (post != [] ==> !IsItem(post[0]))
    ensures var ls, i := BlockLines(pre, w, blanks, items) + post, |pre|; var j := i + 1 + |blanks|;
      && i < |ls| && FindBlock(ls, 0) == i && BlockItems(ls, i) == ItemLines(items) && BlockStop(ls, i) == j + |items|
  {
    var ls, i := BlockLines(pre, w, blanks, items) + post, |pre|;
    var j := i + 1 + |blanks|;
    PartsAt(pre, w, blanks, items, post);
    KeyStarts(w);
    BlanksAndItems(pre, w, blanks, items, post);
    hide *;
    BlockIsAt(ls, i, j, j + |items|);
    assert pre == ls[..i];
    FirstOfAll(pre, ls, w, blanks, items);
    FindIs(ls, i);
  }

  lemma FirstOfAll(pre: seq<string>, ls: seq<string>, w: string, blanks: seq<string>, items: seq<Item>)
    requires BlockOk(pre, w, blanks, items) && pre <= ls
    ensures forall k :: 0 <= k < |pre| ==> !BlockAt(ls, k)
  {
    hide BlockAt, AllSpace, ItemsOk, KEY;
    NoBlockIn(pre, ls);
  }

  lemma KeyStarts(w: string)
    requires AllSpace(w)
    ensures IsStart(KEY + w)
  {
    assert (KEY + w)[|KEY|..] == w;
  }

  lemma FindIs(ls: seq<string>, i: nat)
    requires i < |ls| && BlockAt(ls, i) && forall k :: 0 <= k < i ==> !BlockAt(ls, k)
    ensures FindBlock(ls, 0) == i
  {
    hide BlockAt;
  }

  /**
   * A conf whose first key line stands bare above an indented list: the migration
   * puts the trimmed names, each once, behind the key and keeps the text before
   * and after as it was.
   */
  lemma MigratedText(pre: seq<string>, w: string, blanks: seq<string>, items: seq<Item>, rest: string)
    requires BlockOk(pre, w, blanks, items) && AllOneLine(BlockLines(pre, w, blanks, items))
    requires rest != "" ==> rest[0] != ' ' && rest[0] != '\t'
    ensures var t := Unlines(BlockLines(pre, w, blanks, items)) + rest;
      && |pre| < |FullLines(t)| && FindBlock(FullLines(t), 0) == |pre|
      && Migrated(t, |pre|) == Unlines(pre) + ("Packages=" + Join(" ", AddAll([], Bodies(items)))) + rest
  {
    var before := BlockLines(pre, w, blanks, items);
    var t := Unlines(before) + rest;
    assert ItemsOk(items);
    hide *;
    TextParts(rest);
    FirstLine(rest);
    LinesOf(before, rest);
    BlockStands(pre, w, blanks, items, FullLines(rest));
    Stripped(items);
    MigratedIs(t, pre, items, FullLines(rest), LastPart(rest));
  }

  lemma LinesOf(before: seq<string>, rest: string)
    requires AllOneLine(before)
    ensures FullLines(Unlines(before) + rest) == before + FullLines(rest) && LastPart(Unlines(before) + rest) == LastPart(rest)
  {
    var post, last := FullLines(rest), LastPart(rest);
    TextParts(rest);
    UnlinesAppend(before, post);
    hide FullLines, LastPart, Unlines;
    Assoc(Unlines(before), Unlines(post), last);
    PartsOf(before + post, last);
  }

  /** The first block of the lines stands behind pre, has the items, and post follows it. */
  predicate StandsAt(ls: seq<string>, pre: seq<string>, items: seq<Item>, post: seq<string>) {
    && |pre| < |ls| && ls[..|pre|] == pre && FindBlock(ls, 0) == |pre|
    && BlockItems(ls, |pre|) == ItemLines(items) && ls[BlockStop(ls, |pre|)..] == post
  }

  lemma BlockStands(pre: seq<string>, w: string, blanks: seq<string>, items: seq<Item>, post: seq<string>)
    requires BlockOk(pre, w, blanks, items) && (post != [] ==> !IsItem(post[0]))
    ensures StandsAt(BlockLines(pre, w, blanks, items) + post, pre, items, post)
  {
    BlockFound(pre, w, blanks, items, post);
    PartsAt(pre, w, blanks, items, post);
    hide BlockItems, BlockStop, BlockLines, ItemLines, FindBlock, BlockOk, KEY;
  }

  lemma MigratedIs(t: string, pre: seq<string>, items: seq<Item>, post: seq<string>, last: string)
    requires StandsAt(FullLines(t), pre, items, post)
    requires StrippedAll(ItemLines(items)) == Bodies(items) && LastPart(t) == last
    ensures |pre| < |FullLines(t)| && FindBlock(FullLines(t), 0) == |pre|
    ensures Migrated(t, |pre|) == Unlines(pre) + ("Packages=" + Join(" ", AddAll([], Bodies(items)))) + (Unlines(post) + last)
  {
    hide FullLines, LastPart, BlockItems, BlockStop, ItemLines, Bodies, StrippedAll, Unlines, Join;
  }

  lemma FirstLine(rest: string)
    requires rest != "" ==> rest[0] != ' ' && rest[0] != '\t'
    ensures FullLines(rest) != [] ==> !IsItem(FullLines(rest)[0])
  {
    var i := Index(rest, '\n');
    if i < |rest| {
      var line := rest[..i];
      assert FullLines(rest)[0] == line;
      assert IndentEnd(line, 0) == 0;
    }
  }
}
