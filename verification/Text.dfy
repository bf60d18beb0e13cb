/**
 * Strings as the Python helpers see them: line splitting, trimming, word
 * splitting and joining. Lines end at '\n' only and white space is ASCII.
 * Scanners carry an index instead of cutting the string, and each function has
 * the laws for concatenated texts beside it.
 */
module Text {

  predicate IsSpace(c: char) {
    c == ' ' || '\t' <= c <= '\r' || '\U{1c}' <= c <= '\U{1f}'
  }

  lemma SpaceIs(c: char)
    ensures IsSpace(c) <==> c in " \t\n\r" || c in "\U{0b}\U{0c}\U{1c}\U{1d}\U{1e}\U{1f}"
  {
    assert IsSpace(c) <==> c as int in {9, 10, 11, 12, 13, 28, 29, 30, 31, 32};
  }

  predicate AllSpace(s: string) {
    forall i :: 0 <= i < |s| ==> IsSpace(s[i])
  }

  predicate NoSpace(s: string) {
    forall i :: 0 <= i < |s| ==> !IsSpace(s[i])
  }

  /** A line: text without a line break. */
  predicate OneLine(s: string) {
    '\n' !in s
  }

  predicate AllOneLine(ls: seq<string>) {
    forall i :: 0 <= i < |ls| ==> OneLine(ls[i])
  }

  /** No white space at either end. */
  predicate Trimmed(s: string) {
    s != "" ==> !IsSpace(s[0]) && !IsSpace(s[|s| - 1])
  }

  lemma Assoc<T>(a: seq<T>, b: seq<T>, c: seq<T>)
    ensures a + b + c == a + (b + c)
  {
  }

  /** The first position of c in s at or after i, or |s| when there is none. */
  function IndexFrom(s: string, c: char, i: nat): (n: nat)
    requires i <= |s|
    ensures i <= n <= |s|
    ensures n < |s| ==> s[n] == c
    ensures forall k :: i <= k < n ==> s[k] != c
    decreases |s| - i
  {
    if i == |s| || s[i] == c then i else IndexFrom(s, c, i + 1)
  }

  /** The first position of c in s, or |s| when c does not occur. */
  function Index(s: string, c: char): nat {
    IndexFrom(s, c, 0)
  }

  lemma IndexAppend(a: string, c: char, b: string)
    requires c !in a
    ensures Index(a + [c] + b, c) == |a|
  {
    var s := a + [c] + b;
    assert s[|a|] == c && forall k :: 0 <= k < |a| ==> s[k] == a[k];
  }

  // ---------------------------------------------------------------- trimming

  /** The end of the white space that starts at i. */
  function SpaceEnd(s: string, i: nat): (n: nat)
    requires i <= |s|
    ensures i <= n <= |s|
    ensures n < |s| ==> !IsSpace(s[n])
    ensures forall k :: i <= k < n ==> IsSpace(s[k])
    decreases |s| - i
  {
    if i < |s| && IsSpace(s[i]) then SpaceEnd(s, i + 1) else i
  }

  /** The start of the white space that ends at i. */
  function SpaceStart(s: string, i: nat): (n: nat)
    requires i <= |s|
    ensures n <= i
    ensures n > 0 ==> !IsSpace(s[n - 1])
    ensures forall k :: n <= k < i ==> IsSpace(s[k])
  {
    if i > 0 && IsSpace(s[i - 1]) then SpaceStart(s, i - 1) else i
  }

  function LStrip(s: string): string {
    s[SpaceEnd(s, 0)..]
  }

  function RStrip(s: string): string {
    s[..SpaceStart(s, |s|)]
  }

  function Strip(s: string): string {
    RStrip(LStrip(s))
  }

  lemma LStripAt(w: string, s: string)
    requires AllSpace(w) && (s == "" || !IsSpace(s[0]))
    ensures LStrip(w + s) == s
  {
    var t := w + s;
    assert forall k :: 0 <= k < |w| ==> t[k] == w[k];
    assert s != "" ==> t[|w|] == s[0];
    assert SpaceEnd(t, 0) == |w|;
  }

  lemma LStripSpaces(w: string, s: string)
    requires AllSpace(w)
    ensures LStrip(w + s) == LStrip(s)
  {
    var t := w + s;
    assert forall k :: 0 <= k < |w| ==> t[k] == w[k];
    assert forall k :: 0 <= k < |s| ==> t[|w| + k] == s[k];
    assert SpaceEnd(t, 0) == |w| + SpaceEnd(s, 0);
  }

  lemma RStripSpaces(s: string, w: string)
    requires AllSpace(w)
    ensures RStrip(s + w) == RStrip(s)
  {
    var t := s + w;
    assert forall k :: 0 <= k < |s| ==> t[k] == s[k];
    assert forall k :: 0 <= k < |w| ==> t[|s| + k] == w[k];
    assert SpaceStart(t, |t|) == SpaceStart(s, |s|);
  }

  lemma StripTrimmed(s: string)
    ensures Trimmed(Strip(s))
    ensures Strip(s) == s <==> Trimmed(s)
  {
    var l := LStrip(s);
    var r := RStrip(l);
    assert r != "" ==> r[0] == l[0];
    assert Trimmed(s) ==> SpaceEnd(s, 0) == 0;
  }

  lemma StripPadded(w1: string, s: string, w2: string)
    requires AllSpace(w1) && AllSpace(w2) && Trimmed(s)
    ensures Strip(w1 + s + w2) == s
  {
    assert w1 + s + w2 == w1 + (s + w2);
    LStripSpaces(w1, s + w2);
    if s == "" {
      assert s + w2 == w2 + "";
      LStripSpaces(w2, "");
    } else {
      assert (s + w2)[0] == s[0];
      RStripSpaces(s, w2);
      StripTrimmed(s);
    }
  }

  /** s is Strip(s) between two runs of white space. */
  lemma StripParts(s: string) returns (w1: string, w2: string)
    ensures AllSpace(w1) && AllSpace(w2) && s == w1 + Strip(s) + w2
  {
    var i := SpaceEnd(s, 0);
    var l := s[i..];
    w1 := s[..i];
    w2 := l[SpaceStart(l, |l|)..];
  }

  lemma StripLeadingSpaces(w: string, s: string)
    requires AllSpace(w)
    ensures Strip(w + s) == Strip(s)
  {
    LStripSpaces(w, s);
  }

  lemma StripAllSpace(s: string)
    ensures Strip(s) == "" <==> AllSpace(s)
  {
    var w1, w2 := StripParts(s);
    StripTrimmed(s);
    assert Strip(s) != "" ==> s[|w1|] == Strip(s)[0];
  }

  /** Trimming a text with a visible beginning behind white space. */
  lemma StripVisible(w: string, s: string)
    requires AllSpace(w) && s != "" && !IsSpace(s[0])
    ensures LStrip(w + s) == s && Strip(w + s) != "" && Strip(w + s)[0] == s[0]
  {
    LStripAt(w, s);
    hide AllSpace;
    assert s[0] == s[..1][0];
  }

  /** A part of a line is a line. */
  lemma PartOneLine(a: string, b: string)
    ensures OneLine(a + b) <==> OneLine(a) && OneLine(b)
  {
    assert forall i :: 0 <= i < |a| ==> (a + b)[i] == a[i];
    assert forall i :: 0 <= i < |b| ==> (a + b)[|a| + i] == b[i];
  }

  lemma LinesTogether(a: seq<string>, b: seq<string>)
    requires AllOneLine(a) && AllOneLine(b)
    ensures AllOneLine(a + b)
  {
  }

  lemma StripOneLine(s: string)
    requires OneLine(s)
    ensures OneLine(Strip(s))
  {
    var w1, w2 := StripParts(s);
    assert forall i :: 0 <= i < |Strip(s)| ==> s[|w1| + i] == Strip(s)[i];
  }

  // ------------------------------------------------------------------- lines

  /** text.splitlines() */
  function SplitLines(t: string): (ls: seq<string>)
    ensures AllOneLine(ls)
    decreases |t|
  {
    if t == "" then []
    else
      var i := Index(t, '\n');
      if i == |t| then [t] else [t[..i]] + SplitLines(t[i + 1..])
  }

  /** Every line followed by a line break. */
  function Unlines(ls: seq<string>): string {
    if ls == [] then "" else ls[0] + "\n" + Unlines(ls[1..])
  }

  lemma SplitLinesCons(l: string, rest: string)
    requires OneLine(l)
    ensures SplitLines(l + "\n" + rest) == [l] + SplitLines(rest)
  {
    var t := l + "\n" + rest;
    IndexAppend(l, '\n', rest);
    assert t[..|l|] == l && t[|l| + 1..] == rest;
  }

  lemma {:induction false} SplitUnlines(ls: seq<string>, rest: string)
    requires AllOneLine(ls)
    ensures SplitLines(Unlines(ls) + rest) == ls + SplitLines(rest)
  {
    if ls == [] {
      assert Unlines(ls) + rest == rest;
    } else {
      var l, more := ls[0], ls[1..];
      calc {
        SplitLines(Unlines(ls) + rest);
        { assert Unlines(ls) + rest == l + "\n" + (Unlines(more) + rest); }
        SplitLines(l + "\n" + (Unlines(more) + rest));
        { SplitLinesCons(l, Unlines(more) + rest); }
        [l] + SplitLines(Unlines(more) + rest);
        { SplitUnlines(more, rest); }
        [l] + (more + SplitLines(rest));
        { assert ls == [l] + more; }
        ls + SplitLines(rest);
      }
    }
  }

  lemma {:induction false} UnlinesAppend(a: seq<string>, b: seq<string>)
    ensures Unlines(a + b) == Unlines(a) + Unlines(b)
  {
    if a == [] {
      assert a + b == b;
    } else {
      assert (a + b)[1..] == a[1..] + b;
      UnlinesAppend(a[1..], b);
    }
  }

  /** sep.join(xs) */
  function Join(sep: string, xs: seq<string>): string {
    if xs == [] then ""
    else if |xs| == 1 then xs[0]
    else xs[0] + sep + Join(sep, xs[1..])
  }

  lemma {:induction false} JoinLines(ls: seq<string>)
    ensures Join("\n", ls + [""]) == Unlines(ls)
    ensures ls != [] ==> Join("\n", ls) + "\n" == Unlines(ls)
  {
    if ls == [] {
    } else {
      assert (ls + [""])[1..] == ls[1..] + [""];
      JoinLines(ls[1..]);
      if |ls| == 1 {
        assert Unlines(ls[1..]) == "";
      }
    }
  }

  /** s.split(c) */
  function SplitOn(s: string, c: char): (parts: seq<string>)
    ensures parts != []
    decreases |s|
  {
    var i := Index(s, c);
    if i == |s| then [s] else [s[..i]] + SplitOn(s[i + 1..], c)
  }

  lemma SplitOnCons(part: string, c: char, rest: string)
    requires c !in part
    ensures SplitOn(part + [c] + rest, c) == [part] + SplitOn(rest, c)
  {
    var s := part + [c] + rest;
    IndexAppend(part, c, rest);
    assert s[..|part|] == part && s[|part| + 1..] == rest;
  }

  lemma {:induction false} SplitJoin(parts: seq<string>, c: char)
    requires parts != [] && forall i :: 0 <= i < |parts| ==> c !in parts[i]
    ensures SplitOn(Join([c], parts), c) == parts
  {
    if |parts| == 1 {
      assert Index(parts[0], c) == |parts[0]|;
    } else {
      SplitJoin(parts[1..], c);
      var tail := Join([c], parts[1..]);
      SplitOnCons(parts[0], c, tail);
      assert Join([c], parts) == parts[0] + [c] + tail;
      assert parts == [parts[0]] + parts[1..];
    }
  }

  /** The lines of t that end in a line break. */
  function FullLines(t: string): (ls: seq<string>)
    ensures AllOneLine(ls)
    decreases |t|
  {
    var i := Index(t, '\n');
    if i == |t| then [] else [t[..i]] + FullLines(t[i + 1..])
  }

  /** What follows the last line break of t. */
  function LastPart(t: string): (l: string)
    ensures OneLine(l)
    decreases |t|
  {
    var i := Index(t, '\n');
    if i == |t| then t else LastPart(t[i + 1..])
  }

  /** The last line, when it is not empty. */
  function Tail(last: string): seq<string> {
    if last == "" then [] else [last]
  }

  lemma {:induction false} TextParts(t: string)
    ensures t == Unlines(FullLines(t)) + LastPart(t)
    ensures SplitLines(t) == FullLines(t) + Tail(LastPart(t))
    decreases |t|
  {
    var i := Index(t, '\n');
    if i == |t| {
      assert Unlines([]) + t == t;
    } else {
      var l, r := t[..i], t[i + 1..];
      assert t == l + "\n" + r;
      assert FullLines(t) == [l] + FullLines(r) && LastPart(t) == LastPart(r) && OneLine(l);
      hide FullLines, LastPart, SplitLines, Tail, IndexFrom, Index, OneLine;
      TextParts(r);
      SplitLinesCons(l, r);
      assert Unlines([l] + FullLines(r)) == l + "\n" + Unlines(FullLines(r));
      Assoc(l + "\n", Unlines(FullLines(r)), LastPart(r));
      Assoc([l], FullLines(r), Tail(LastPart(r)));
    }
  }

  lemma {:induction false} PartsOf(ls: seq<string>, last: string)
    requires AllOneLine(ls) && OneLine(last)
    ensures FullLines(Unlines(ls) + last) == ls && LastPart(Unlines(ls) + last) == last
  {
    var t := Unlines(ls) + last;
    if ls == [] {
      assert t == last;
    } else {
      var r := Unlines(ls[1..]) + last;
      assert t == ls[0] + ['\n'] + r;
      IndexAppend(ls[0], '\n', r);
      assert t[..|ls[0]|] == ls[0] && t[|ls[0]| + 1..] == r;
      PartsOf(ls[1..], last);
    }
  }

  // ------------------------------------------------------------------- words

  /** The end of the run of non-space characters that starts at i. */
  function WordEnd(s: string, i: nat): (n: nat)
    requires i <= |s|
    ensures i <= n <= |s|
    ensures n < |s| ==> IsSpace(s[n])
    ensures forall k :: i <= k < n ==> !IsSpace(s[k])
    decreases |s| - i
  {
    if i < |s| && !IsSpace(s[i]) then WordEnd(s, i + 1) else i
  }

  /** s.split() */
  function Words(s: string): (ws: seq<string>)
    ensures forall i :: 0 <= i < |ws| ==> ws[i] != "" && NoSpace(ws[i])
    decreases |s|
  {
    if s == "" then []
    else if IsSpace(s[0]) then Words(s[1..])
    else
      var n := WordEnd(s, 0);
      [s[..n]] + Words(s[n..])
  }

  lemma WordsCons(w: string, s: string)
    requires w != "" && NoSpace(w)
    requires s != "" ==> IsSpace(s[0])
    ensures Words(w + s) == [w] + Words(s)
  {
    var t := w + s;
    assert forall k :: 0 <= k < |w| ==> t[k] == w[k];
    assert s != "" ==> t[|w|] == s[0];
    assert WordEnd(t, 0) == |w|;
    assert t[..|w|] == w && t[|w|..] == s;
  }

  /** White space at the end holds no words. */
  lemma {:induction false} WordsTrailing(s: string, w: string)
    requires AllSpace(w)
    ensures Words(s + w) == Words(s)
    decreases |s| + |w|
  {
    if s == "" {
      assert s + w == w;
      if w != "" {
        assert w[1..] == "" + w[1..];
        WordsTrailing("", w[1..]);
      }
    } else if IsSpace(s[0]) {
      assert (s + w)[1..] == s[1..] + w;
      WordsTrailing(s[1..], w);
    } else {
      var n := WordEnd(s, 0);
      var t := s + w;
      assert forall k :: 0 <= k < |s| ==> t[k] == s[k];
      assert w != "" ==> t[|s|] == w[0];
      assert WordEnd(t, 0) == n;
      assert t[..n] == s[..n] && t[n..] == s[n..] + w;
      WordsTrailing(s[n..], w);
    }
  }

  lemma {:induction false} WordsLeading(w: string, s: string)
    requires AllSpace(w)
    ensures Words(w + s) == Words(s)
  {
    if w == "" {
      assert w + s == s;
    } else {
      assert (w + s)[1..] == w[1..] + s;
      WordsLeading(w[1..], s);
    }
  }

  lemma WordsStrip(s: string)
    ensures Words(Strip(s)) == Words(s)
  {
    var w1, w2 := StripParts(s);
    WordsTrailing(w1 + Strip(s), w2);
    WordsLeading(w1, Strip(s));
  }

  /** Words that hold no space themselves survive joining with a space. */
  lemma {:induction false} WordsJoin(ws: seq<string>)
    requires forall i :: 0 <= i < |ws| ==> ws[i] != "" && NoSpace(ws[i])
    ensures Words(Join(" ", ws)) == ws
  {
    if ws == [] {
    } else if |ws| == 1 {
      assert ws[0] + "" == ws[0];
      WordsCons(ws[0], "");
    } else {
      var tail := Join(" ", ws[1..]);
      assert Join(" ", ws) == ws[0] + (" " + tail);
      WordsCons(ws[0], " " + tail);
      assert (" " + tail)[1..] == tail;
      WordsJoin(ws[1..]);
    }
  }

  // --------------------------------------------------------------- substring

  /** sub in s */
  predicate Contains(s: string, sub: string) {
    exists i :: 0 <= i <= |s| - |sub| && sub <= s[i..]
  }
}
