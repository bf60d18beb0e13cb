/**
 * A comment behind a value: dropped after a quoted string, part of the value
 * after anything else.
 */
module TomlComments {
  import opened Text
  import opened OrderedDict
  import opened Decimals
  import opened TomlLines

  // ------------------------------------------------- counting the number signs

  /** How many '#' the text holds. */
  function Hashes(s: string): nat {
    if s == "" then 0 else (if s[0] == '#' then 1 else 0) + Hashes(s[1..])
  }

  lemma {:induction false} HashesConcat(a: string, b: string)
    ensures Hashes(a + b) == Hashes(a) + Hashes(b)
  {
    if a == "" {
      assert a + b == b;
    } else {
      assert (a + b)[0] == a[0] && (a + b)[1..] == a[1..] + b;
      HashesConcat(a[1..], b);
    }
  }

  lemma {:induction false} NoHashes(s: string)
    requires '#' !in s
    ensures Hashes(s) == 0
  {
    if s != "" {
      NoHashes(s[1..]);
    }
  }

  lemma HashesStrip(s: string)
    ensures Hashes(Strip(s)) == Hashes(s)
  {
    var w1, w2 := StripParts(s);
    NoHashes(w1);
    NoHashes(w2);
    HashesConcat(w1, Strip(s));
    HashesConcat(w1 + Strip(s), w2);
  }

  lemma {:induction false} HashesStripOf(s: string, cs: string)
    requires '#' !in cs
    ensures Hashes(StripOf(s, cs)) == Hashes(s)
    decreases |s|
  {
    if s == "" {
    } else if s[0] in cs {
      HashesStripOf(s[1..], cs);
    } else if s[|s| - 1] in cs {
      var k := |s| - 1;
      HashesStripOf(s[..k], cs);
      HashesConcat(s[..k], [s[k]]);
      NoHashes([s[k]]);
      assert s == s[..k] + [s[k]];
    }
  }

  function HashesAll(parts: seq<string>): nat {
    if parts == [] then 0 else Hashes(parts[0]) + HashesAll(parts[1..])
  }

  lemma {:induction false} HashesSplit(s: string)
    ensures HashesAll(SplitOn(s, ',')) == Hashes(s)
    decreases |s|
  {
    var i := Index(s, ',');
    if i == |s| {
      assert SplitOn(s, ',') == [s] && [s][1..] == [];
    } else {
      var head, rest := s[..i], s[i + 1..];
      HashesSplit(rest);
      HashesConcat(head, [','] + rest);
      HashesConcat([','], rest);
      NoHashes([',']);
      assert s == head + ([','] + rest);
      assert SplitOn(s, ',') == [head] + SplitOn(rest, ',');
    }
  }

  function ItemHashes(items: seq<Item>): nat {
    if items == [] then 0 else (if items[0].Word? then Hashes(items[0].s) else 0) + ItemHashes(items[1..])
  }

  lemma {:induction false} FieldsHashes(parts: seq<string>)
    ensures ItemHashes(Fields(parts)) == HashesAll(parts)
  {
    if parts != [] {
      FieldsHashes(parts[1..]);
      HashesStrip(parts[0]);
      HashesStripOf(Strip(parts[0]), "\"");
      hide Hashes, Strip, StripOf;
      if Strip(parts[0]) == "" {
        NoHashes("");
        assert [] + Fields(parts[1..]) == Fields(parts[1..]);
      } else {
        var first, more := Word(Name(parts[0])), Fields(parts[1..]);
        assert ([first] + more)[0] == first && ([first] + more)[1..] == more;
      }
    }
  }

  lemma {:induction false} ShownHashes(items: seq<string>)
    requires items != []
    ensures Hashes(ShowItems(items)) == HashesAll(items)
  {
    var w := items[0];
    HashesConcat("\"", w);
    HashesConcat("\"" + w, "\"");
    NoHashes("\"");
    if |items| == 1 {
      HashesConcat(Quote(w), " ]");
      NoHashes(" ]");
      assert HashesAll(items[1..]) == 0;
    } else {
      var tail := ShowItems(items[1..]);
      ShownHashes(items[1..]);
      HashesConcat(", ", tail);
      HashesConcat(Quote(w), ", " + tail);
      NoHashes(", ");
    }
  }

  lemma ArrayHashes(items: seq<string>)
    ensures Hashes(ShowArray(items)) == HashesAll(items)
  {
    if items == [] {
      NoHashes("[ ]");
    } else {
      ShownHashes(items);
      HashesConcat("[ ", ShowItems(items));
      NoHashes("[ ");
    }
  }

  lemma {:induction false} StringsHashes(items: seq<Item>)
    requires forall i :: 0 <= i < |items| ==> items[i].Word?
    ensures HashesAll(Strings(items)) == ItemHashes(items)
  {
    if items != [] {
      StringsHashes(items[1..]);
      assert Strings(items)[1..] == Strings(items[1..]);
    }
  }

  // ----------------------------------------------- what a comment makes of a value

  /** The value with a comment behind it. */
  function Commented(v: Scalar, comment: string): string {
    ShowScalar(v) + " #" + comment
  }

  /** What the comma fallback leaves of a text that is no JSON list. */
  function ByCommas(s: string): seq<Item> {
    Fields(SplitOn(StripOf(s, "[]"), ','))
  }

  /** A comment behind an integer turns it into a string. */
  lemma CommentAfterInt(n: int, comment: string, loads: Loads)
    ensures ReadValue(Commented(Int(n), comment), loads) == Str(Commented(Int(n), comment))
  {
    IntHead(n);
    hide ShowInt, ReadArray;
    SpaceInside(ShowInt(n), comment);
  }

  /** Text with a space and a comment inside is no integer. */
  lemma SpaceInside(d: string, comment: string)
    requires d != ""
    ensures (d + " #" + comment)[0] == d[0] && ParseInt(d + " #" + comment) == None
    ensures d + " #" + comment != "true" && d + " #" + comment != "false"
  {
    var v := d + " #" + comment;
    hide ValueOf, DropUnderscores;
    assert v[0] == d[0] && v[|d|] == ' ' && v[|d| + 1] == '#';
    var body := if v[0] == '-' || v[0] == '+' then v[1..] else v;
    assert ' ' == body[if body == v then |d| else |d| - 1];
  }

  lemma CommentAfterBool(b: bool, comment: string, loads: Loads)
    ensures ReadValue(Commented(Bool(b), comment), loads) == Str(Commented(Bool(b), comment))
  {
    hide ParseInt, ReadArray;
    SpaceInside(ShowScalar(Bool(b)), comment);
  }

  lemma {:induction false} RequoteConcat(a: string, b: string)
    ensures Requote(a + b) == Requote(a) + Requote(b)
  {
    assert forall i :: 0 <= i < |a + b| ==> Requote(a + b)[i] == (Requote(a) + Requote(b))[i];
  }

  /** The JSON reader is given what follows the bracket too. */
  lemma ArrayIsNoList(items: seq<string>, comment: string)
    requires forall i :: 0 <= i < |items| ==> AllPlain(items[i]) && '\'' !in items[i]
    ensures ReadStrings(Requote(ShowArray(items) + " #" + comment)) == None
  {
    var s, more := ShowArray(items), " #" + Requote(comment);
    NoApostrophe(items);
    assert more[1..] == "#" + Requote(comment) && SkipWs(more) == more[1..];
    hide ShowArray, ReadStrings, Requote, SkipWs, AllPlain;
    RequoteNothing(s);
    RequoteConcat(s + " #", comment);
    RequoteConcat(s, " #");
    RequoteNothing(" #");
    Assoc(s, " #", Requote(comment));
    ReadsStrings(items, more);
  }

  /** The fallback never gives the list back: the number sign of the comment lands in a field. */
  lemma CommasKeepComment(items: seq<Item>, comment: string)
    requires forall i :: 0 <= i < |items| ==> items[i].Word?
    ensures ByCommas(Commented(Arr(items), comment)) != items
  {
    var s := Commented(Arr(items), comment);
    ArrayHashes(Strings(items));
    StringsHashes(items);
    HashesConcat(ShowArray(Strings(items)), " #");
    HashesConcat(ShowArray(Strings(items)) + " #", comment);
    assert Hashes(" #") == 1 by {
      assert " #"[1..] == "#" && "#"[1..] == "";
    }
    HashesStripOf(s, "[]");
    HashesSplit(StripOf(s, "[]"));
    FieldsHashes(SplitOn(StripOf(s, "[]"), ','));
  }

  lemma CommentAfterArray(items: seq<Item>, comment: string, loads: Loads)
    requires Writable(Arr(items))
    requires loads(Requote(Commented(Arr(items), comment))) == None
    ensures ReadValue(Commented(Arr(items), comment), loads) == Arr(ByCommas(Commented(Arr(items), comment)))
  {
    var s := Commented(Arr(items), comment);
    ArrayIsNoList(Strings(items), comment);
    hide ReadStrings, Requote, Fields, SplitOn, StripOf;
    assert s[0] == '[';
  }

  /**
   * For every value that can be written: a comment behind it is dropped exactly
   * when the value is a quoted string. A list, once the JSON reader rejects the
   * text behind its bracket, is cut at commas with the comment inside; any other
   * value becomes a string.
   */
  lemma CommentStays(v: Scalar, comment: string, loads: Loads)
    requires Writable(v) && (v.Arr? ==> loads(Requote(Commented(v, comment))) == None)
    ensures ReadValue(Commented(v, comment), loads) == v <==> v.Str?
    ensures ReadValue(Commented(v, comment), loads) ==
      match v { case Str(_) => v case Arr(_) => Arr(ByCommas(Commented(v, comment))) case _ => Str(Commented(v, comment)) }
  {
    match v
    case Str(s) =>
      QuotedValue(s, " #" + comment, loads);
      Assoc(Quote(s), " #", comment);
    case Bool(b) => CommentAfterBool(b, comment, loads);
    case Int(n) => CommentAfterInt(n, comment, loads);
    case Arr(items) =>
      CommentAfterArray(items, comment, loads);
      CommasKeepComment(items, comment);
  }

  // ---------------------------------------------------- the fallback on a list

  /** The fields between the commas of a rendered list with text behind it. */
  function Parts(items: seq<string>, more: string): (r: seq<string>)
    requires items != []
    ensures |r| == |items|
  {
    if |items| == 1 then [" " + Quote(items[0]) + " ]" + more] else [" " + Quote(items[0])] + Parts(items[1..], more)
  }

  lemma {:induction false} PartsJoin(items: seq<string>, more: string)
    requires items != []
    ensures Join(",", Parts(items, more)) == " " + ShowItems(items) + more
  {
    var q := Quote(items[0]);
    hide Quote;
    if |items| == 1 {
      Assoc(" ", q, " ]");
    } else {
      PartsJoin(items[1..], more);
      CommaMoved(q, ShowItems(items[1..]), more);
    }
  }

  lemma CommaMoved(q: string, tail: string, more: string)
    ensures " " + q + "," + (" " + tail + more) == " " + (q + (", " + tail)) + more
  {
    Assoc(" " + q, ",", " " + tail + more);
    Assoc(",", " " + tail, more);
    assert "," + (" " + tail) == ", " + tail;
    Assoc(" " + q, ", " + tail, more);
    Assoc(" ", q, ", " + tail);
  }

  predicate Comma(items: seq<string>) {
    exists i :: 0 <= i < |items| && ',' in items[i]
  }

  lemma {:induction false} PartsNoComma(items: seq<string>, more: string)
    requires items != [] && !Comma(items) && ',' !in more
    ensures forall i :: 0 <= i < |items| ==> ',' !in Parts(items, more)[i]
  {
    assert ',' !in items[0];
    if |items| > 1 {
      assert forall i :: 0 <= i < |items| - 1 ==> items[1..][i] == items[i + 1];
      PartsNoComma(items[1..], more);
    }
  }

  lemma StripOfFirst(c: char, t: string, cs: string)
    requires c in cs
    ensures StripOf([c] + t, cs) == StripOf(t, cs)
  {
    assert ([c] + t)[1..] == t;
  }

  lemma StripOfLast(t: string, c: char, cs: string)
    requires c in cs && (t != "" ==> t[0] !in cs)
    ensures StripOf(t + [c], cs) == StripOf(t, cs)
  {
    if t == "" {
      assert t + [c] == [c] + t;
      StripOfFirst(c, t, cs);
    } else {
      assert (t + [c])[0] == t[0] && (t + [c])[..|t|] == t;
    }
  }

  lemma StripOfNone(t: string, cs: string)
    requires t != "" ==> t[0] !in cs && t[|t| - 1] !in cs
    ensures StripOf(t, cs) == t
  {
  }

  lemma StripOfQuoted(w: string)
    requires '"' !in w
    ensures StripOf(Quote(w), "\"") == w
  {
    assert Quote(w) == ['"'] + (w + ['"']);
    hide StripOf, Quote;
    StripOfFirst('"', w + ['"'], "\"");
    StripOfLast(w, '"', "\"");
    StripOfNone(w, "\"");
  }

  lemma QuotedField(w: string)
    requires '"' !in w
    ensures Strip(" " + Quote(w)) != "" && Name(" " + Quote(w)) == w
  {
    StripPadded(" ", Quote(w), "");
    assert " " + Quote(w) + "" == " " + Quote(w);
    StripOfQuoted(w);
  }

  /** A comment that ends in a plain character. */
  predicate PlainEnded(comment: string) {
    && comment != "" && ',' !in comment
    && var c := comment[|comment| - 1]; !IsSpace(c) && c != '"' && c != '[' && c != ']'
  }

  lemma LastField(w: string, comment: string)
    requires w != "" && '"' !in w && PlainEnded(comment)
    ensures var s := " " + Quote(w) + " ]" + (" #" + comment);
      Strip(s) != "" && Name(s) == w + ("\" ] #" + comment)
  {
    var r := w + ("\" ] #" + comment);
    var t := ['"'] + r;
    assert " " + Quote(w) + " ]" + (" #" + comment) == " " + t + "";
    assert r[0] == w[0] && r[|r| - 1] == comment[|comment| - 1] == t[|t| - 1];
    hide Quote, Strip, StripOf;
    StripPadded(" ", t, "");
    StripOfFirst('"', r, "\"");
    StripOfNone(r, "\"");
  }

  lemma {:induction false} PartsFields(items: seq<string>, comment: string)
    requires items != [] && items[|items| - 1] != "" && PlainEnded(comment)
    requires forall i :: 0 <= i < |items| ==> '"' !in items[i]
    ensures var n := |items| - 1;
      Fields(Parts(items, " #" + comment)) == AsItems(items[..n]) + [Word(items[n] + ("\" ] #" + comment))]
  {
    var n, more := |items| - 1, " #" + comment;
    var last := [Word(items[n] + ("\" ] #" + comment))];
    if n == 0 {
      LastField(items[0], comment);
      hide Strip, Name, Quote;
      assert Parts(items, more)[1..] == [] && AsItems(items[..0]) == [];
    } else {
      PartsFields(items[1..], comment);
      QuotedField(items[0]);
      hide Strip, Name, Quote, PlainEnded;
      assert Parts(items, more)[1..] == Parts(items[1..], more);
      assert items[1..][..n - 1] == items[..n][1..];
      assert AsItems(items[..n]) == [Word(items[0])] + AsItems(items[1..][..n - 1]);
      Assoc([Word(items[0])], AsItems(items[1..][..n - 1]), last);
    }
  }

  /**
   * On a list of strings without commas the fallback keeps all strings but the
   * last, which takes in its closing quote, the bracket and the comment.
   */
  lemma LastTakesComment(items: seq<string>, comment: string)
    requires items != [] && items[|items| - 1] != "" && !Comma(items) && PlainEnded(comment)
    requires forall i :: 0 <= i < |items| ==> '"' !in items[i]
    ensures var n := |items| - 1;
      ByCommas(ShowArray(items) + " #" + comment) == AsItems(items[..n]) + [Word(items[n] + ("\" ] #" + comment))]
  {
    var more := " #" + comment;
    var body := " " + ShowItems(items) + more;
    var s := ShowArray(items) + " #" + comment;
    PartsJoin(items, more);
    PartsNoComma(items, more);
    SplitJoin(Parts(items, more), ',');
    PartsFields(items, comment);
    hide Parts, Fields, SplitOn, ShowItems, Join, StripOf;
    assert body[0] == ' ' && body[|body| - 1] == comment[|comment| - 1];
    StripOfFirst('[', body, "[]");
    StripOfNone(body, "[]");
    BracketFirst(ShowItems(items), more);
    Assoc(ShowArray(items), " #", comment);
  }

  lemma BracketFirst(shown: string, more: string)
    ensures "[ " + shown + more == ['['] + (" " + shown + more)
  {
    Assoc("[", " " + shown, more);
    assert "[" + (" " + shown) == "[ " + shown;
  }
}
