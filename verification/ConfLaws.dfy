/**
 * What set and unset do to cockpit.conf as seen by the next read of the file.
 */
module ConfLaws {
  import opened Text
  import opened OrderedDict
  import opened CockpitConf

  // ------------------------------------------------- the edits, on dictionaries

  function SectionOf(c: Conf, s: string): Section {
    match Get(c, s)
    case None => []
    case Some(kvs) => kvs
  }

  /** sections.setdefault(section, {})[key] = value */
  function SetKey(c: Conf, s: string, k: string, v: string): Conf {
    Put(c, s, Put(SectionOf(c, s), k, v))
  }

  /** Removes the key, and the section with it when it was the last key. */
  function UnsetKey(c: Conf, s: string, k: string): Conf {
    var rest := Del(SectionOf(c, s), k);
    if rest == [] then Del(c, s) else Put(c, s, rest)
  }

  function Lookup(c: Conf, s: string, k: string): Option<string> {
    Get(SectionOf(c, s), k)
  }

  /** The arguments set refuses before it reads the file. */
  predicate SetRefused(s: string, k: string, v: string) {
    || (exists i :: 0 <= i < |s + k + v| && ((s + k + v)[i] == '\r' || (s + k + v)[i] == '\n' || (s + k + v)[i] == '\0'))
    || (exists i :: 0 <= i < |s| && (s[i] == '[' || s[i] == ']'))
    || '=' in k
  }

  /** What the commands rely on: a parsed file none of whose entries looks like a header. */
  ghost predicate Good(c: Conf) {
    ConfOk(c) && NoHeaderLike(c)
  }

  // ---------------------------------------------------------------- map laws

  lemma PutAt<V>(d: Dict<V>, k: string, v: V)
    ensures var r := Put(d, k, v); Find(d, k) < |r| && r[Find(d, k)] == (k, v)
    ensures var r := Put(d, k, v); forall i :: 0 <= i < |r| && i != Find(d, k) ==> i < |d| && r[i] == d[i]
  {
  }

  /** Set changes the one key and no other key of any section. */
  lemma LookupSet(c: Conf, s: string, k: string, v: string, s': string, k': string)
    requires ConfOk(c)
    ensures Lookup(SetKey(c, s, k, v), s', k') == if s' == s && k' == k then Some(v) else Lookup(c, s', k')
  {
    GetPut(c, s, Put(SectionOf(c, s), k, v), s');
    GetPut(SectionOf(c, s), k, v, k');
  }

  /** Unset removes the one key and no other key of any section. */
  lemma LookupUnset(c: Conf, s: string, k: string, s': string, k': string)
    requires ConfOk(c)
    ensures Lookup(UnsetKey(c, s, k), s', k') == if s' == s && k' == k then None else Lookup(c, s', k')
  {
    var rest := Del(SectionOf(c, s), k);
    GetDel(SectionOf(c, s), k, k');
    GetDel(c, s, s');
    GetPut(c, s, rest, s');
  }

  // -------------------------------------------------------- set, then read back

  lemma RefusedParts(s: string, k: string, v: string)
    requires !SetRefused(s, k, v)
    ensures OneLine(s) && OneLine(k) && OneLine(v) && ']' !in s
  {
    var t := s + k + v;
    assert forall i :: 0 <= i < |s| ==> t[i] == s[i];
    assert forall i :: 0 <= i < |k| ==> t[|s| + i] == k[i];
    assert forall i :: 0 <= i < |v| ==> t[|s| + |k| + i] == v[i];
  }

  /** The entries of the section but the one of key k can be written. */
  ghost predicate RestWritable(kvs: Section, k: string) {
    forall j :: 0 <= j < |kvs| && kvs[j].0 != k ==> EntryOk(kvs[j].0, kvs[j].1)
  }

  /** The entries of the file but the one of section s and key k can be written. */
  ghost predicate OthersWritable(c: Conf, s: string, k: string) {
    && (forall i :: 0 <= i < |c| && c[i].0 != s ==> SectionWritable(c[i].1))
    && RestWritable(SectionOf(c, s), k)
  }

  lemma SetSection(kvs: Section, k: string, v: string)
    requires SectionOk(kvs) && OneLine(k) && OneLine(v)
    ensures var r := Put(kvs, k, v);
      && Distinct(r) && (forall j :: 0 <= j < |r| ==> OneLine(r[j].0) && OneLine(r[j].1))
      && TrimSection(r) == Put(kvs, k, Strip(v))
  {
    KeysOneLine(kvs);
    hide EntryOk;
    var r := Put(kvs, k, v);
    PutDistinct(kvs, k, v);
    PutAt(kvs, k, v);
    TrimSectionAt(r);
    var t := Put(kvs, k, Strip(v));
    PutAt(kvs, k, Strip(v));
    forall i | 0 <= i < |r| ensures TrimSection(r)[i] == t[i] {
      if i != Find(kvs, k) {
        StripTrimmed(kvs[i].1);
      }
    }
    assert TrimSection(r) == t;
  }

  lemma KeysOneLine(kvs: Section)
    requires SectionOk(kvs)
    ensures forall j :: 0 <= j < |kvs| ==> OneLine(kvs[j].0)
  {
    forall j | 0 <= j < |kvs| ensures OneLine(kvs[j].0) {
      assert KeyOk(kvs[j].0);
      assert forall x :: 0 <= x < |kvs[j].0| ==> KeyChar(kvs[j].0[x]);
    }
  }

  lemma PutEntryWritable(kvs: Section, k: string, v: string)
    requires Distinct(kvs)
    ensures SectionWritable(Put(kvs, k, v)) <==> EntryOk(k, v) && RestWritable(kvs, k)
  {
    hide EntryOk;
    var r, i := Put(kvs, k, v), Find(kvs, k);
    PutAt(kvs, k, v);
    assert r[i] == (k, v);
    assert forall j :: 0 <= j < |kvs| && kvs[j].0 != k ==> j != i && r[j] == kvs[j];
    assert forall j :: 0 <= j < |r| && j != i ==> r[j] == kvs[j] && kvs[j].0 != k;
  }

  lemma PutSectionInMemory(c: Conf, s: string, kvs: Section)
    requires InMemory(c) && OneLine(s)
    requires Distinct(kvs) && forall j :: 0 <= j < |kvs| ==> OneLine(kvs[j].0) && OneLine(kvs[j].1)
    ensures InMemory(Put(c, s, kvs))
  {
    PutDistinct(c, s, kvs);
    PutAt(c, s, kvs);
  }

  lemma PutSectionTrimmed(c: Conf, s: string, kvs: Section)
    requires TrimValues(c) == c
    ensures TrimValues(Put(c, s, kvs)) == Put(c, s, TrimSection(kvs))
  {
    hide TrimSection;
    var r := Put(c, s, kvs);
    PutAt(c, s, kvs);
    var t := Put(c, s, TrimSection(kvs));
    PutAt(c, s, TrimSection(kvs));
    TrimValuesAt(r);
    TrimValuesAt(c);
    assert forall i :: 0 <= i < |r| ==> TrimValues(r)[i] == t[i];
  }

  lemma PutSectionWritable(c: Conf, s: string, kvs: Section)
    requires ConfOk(c)
    ensures Writable(Put(c, s, kvs))
       <==> NameOk(s) && SectionWritable(kvs) && forall i :: 0 <= i < |c| && c[i].0 != s ==> SectionWritable(c[i].1)
  {
    hide SectionWritable, NameOk, SectionOk;
    var r, i := Put(c, s, kvs), Find(c, s);
    PutAt(c, s, kvs);
    assert r[i] == (s, kvs);
    assert forall j :: 0 <= j < |c| && c[j].0 != s ==> j != i && r[j] == c[j];
    assert forall j :: 0 <= j < |r| && j != i ==> r[j] == c[j] && c[j].0 != s && NameOk(c[j].0);
  }

  lemma SectionOfParsed(c: Conf, s: string)
    requires ConfOk(c)
    ensures SectionOk(SectionOf(c, s))
  {
  }

  /**
   * Setting a key and reading the file again gives exactly the edited map, value
   * trimmed, if and only if the section is named, the entry can be written, and
   * so can every other entry of the file.
   */
  lemma SetThenRead(text: string, s: string, k: string, v: string)
    requires !SetRefused(s, k, v)
    ensures var c := Parse(text);
      Parse(Serialize(SetKey(c, s, k, v))) == SetKey(c, s, k, Strip(v))
      <==> s != "" && EntryOk(k, v) && OthersWritable(c, s, k)
  {
    var c := Parse(text);
    var kvs := SectionOf(c, s);
    ParseShape(text);
    RefusedParts(s, k, v);
    SectionOfParsed(c, s);
    ConfOkInMemory(c);
    TrimValuesId(c);
    assert NameOk(s) <==> s != "";
    PutSectionWritable(c, s, Put(kvs, k, v));
    hide EntryOk, SetRefused, ConfOk, SectionWritable, NameOk, SectionOf, RestWritable;
    SetSection(kvs, k, v);
    assert Distinct(kvs);
    PutEntryWritable(kvs, k, v);
    PutSectionInMemory(c, s, Put(kvs, k, v));
    PutSectionTrimmed(c, s, Put(kvs, k, v));
    WriteThenRead(SetKey(c, s, k, v));
  }

  // ------------------------------------------------------------------- unset

  lemma DelSectionOk(kvs: Section, k: string)
    requires SectionOk(kvs)
    ensures SectionOk(Del(kvs, k))
    ensures SectionWritable(Del(kvs, k)) <==> RestWritable(kvs, k)
  {
    hide EntryOk, KeyOk, ValueOk;
    DelDistinct(kvs, k);
    DelEntries(kvs, k);
  }

  lemma DelConf(c: Conf, s: string)
    requires ConfOk(c)
    ensures ConfOk(Del(c, s))
    ensures Writable(Del(c, s)) <==> forall i :: 0 <= i < |c| && c[i].0 != s ==> SectionWritable(c[i].1)
  {
    hide SectionWritable, NameOk, SectionOk;
    DelDistinct(c, s);
    DelEntries(c, s);
  }

  /** A file of well-formed entries is kept by a rewrite exactly when all can be written. */
  lemma OkReads(c: Conf)
    requires ConfOk(c)
    ensures Parse(Serialize(c)) == c <==> Writable(c)
  {
    ConfOkInMemory(c);
    TrimValuesId(c);
    WriteThenRead(c);
  }

  lemma UnsetParts(c: Conf, s: string, k: string)
    requires ConfOk(c) && Lookup(c, s, k).Some?
    ensures ConfOk(UnsetKey(c, s, k))
    ensures Writable(UnsetKey(c, s, k)) <==> OthersWritable(c, s, k)
  {
    var kvs := SectionOf(c, s);
    var rest := Del(kvs, k);
    SectionOfParsed(c, s);
    DelSectionOk(kvs, k);
    DelConf(c, s);
    PutSectionWritable(c, s, rest);
    PutSectionOkay(c, s, rest);
    hide SectionWritable, RestWritable, SectionOk, Writable;
    if rest == [] {
      NothingToWrite();
    }
  }

  lemma NothingToWrite()
    ensures SectionWritable([])
  {
  }

  lemma PutSectionOkay(c: Conf, s: string, kvs: Section)
    requires ConfOk(c) && SectionOk(kvs)
    ensures Has(c, s) ==> ConfOk(Put(c, s, kvs)) && NameOk(s)
  {
    hide SectionOk, NameOk;
    PutDistinct(c, s, kvs);
    PutAt(c, s, kvs);
  }

  /**
   * Unsetting a present key and reading the file again gives exactly the map
   * without it, if and only if every other entry of the file can be written.
   */
  lemma UnsetThenRead(text: string, s: string, k: string)
    requires Lookup(Parse(text), s, k).Some?
    ensures var c := Parse(text);
      Parse(Serialize(UnsetKey(c, s, k))) == UnsetKey(c, s, k) <==> OthersWritable(c, s, k)
  {
    ParseShape(text);
    UnsetParts(Parse(text), s, k);
    OkReads(UnsetKey(Parse(text), s, k));
  }

  lemma PutTwice<V>(d: Dict<V>, k: string, v: V, w: V)
    ensures Put(Put(d, k, v), k, w) == Put(d, k, w)
  {
    var i := Find(d, k);
    PutAt(d, k, v);
    var r := Put(d, k, v);
    assert forall j :: 0 <= j < i ==> r[j].0 != k;
    assert Find(r, k) == i;
  }

  /**
   * Unset after a fresh set gives the earlier map back, except that a section
   * that was present but empty is lost.
   */
  lemma UnsetAfterFreshSet(c: Conf, s: string, k: string, v: string)
    requires ConfOk(c) && Lookup(c, s, k) == None
    ensures UnsetKey(SetKey(c, s, k, v), s, k) == if Get(c, s) == Some([]) then Del(c, s) else c
    ensures UnsetKey(SetKey(c, s, k, v), s, k) == c <==> Get(c, s) != Some([])
  {
    var was := SectionOf(c, s);
    var put := Put(was, k, v);
    GetPut(c, s, put, s);
    DelFreshPut(was, k, v);
    assert Has(c, s) <==> Get(c, s).Some?;
    hide Put, Del, Has, Find, Lookup;
    if was != [] {
      PutTwice(c, s, put, was);
      PutSame(c, s, was);
    } else if Has(c, s) {
      DelOverPut(c, s, put);
    } else {
      DelFreshPut(c, s, put);
    }
  }

  // ---------------------------------------------- entries stay good when trimmed

  /** A bracket, and nothing but white space behind the first one. */
  predicate ClosesHeader(v: string) {
    var i := Index(v, ']');
    i < |v| && AllSpace(v[i + 1..])
  }

  lemma IndexBehind(a: string, c: char, b: string)
    requires c !in a
    ensures Index(a + b, c) == |a| + Index(b, c)
  {
    var s, n := a + b, Index(b, c);
    assert forall i :: 0 <= i < |a| ==> s[i] == a[i];
    assert forall i :: 0 <= i < |b| ==> s[|a| + i] == b[i];
  }

  /** An entry looks like a header when its key opens a bracket that its value closes at the end. */
  lemma HeaderLikeIs(k: string, v: string)
    requires KeyOk(k)
    ensures HeaderLike(k, v) <==> k[0] == '[' && ']' !in k && ClosesHeader(v)
  {
    var line, front := EntryLine(k, v), k[1..] + " = ";
    assert line[0] == k[0] && line[1..] == front + v;
    assert front[|k|] == '=' && !IsSpace('=');
    assert k == [k[0]] + k[1..];
    hide AllSpace, IsSpace;
    if k[0] == '[' && ']' !in k {
      IndexBehind(front, ']', v);
      var i := Index(v, ']');
      hide IndexFrom;
      assert i < |v| ==> (front + v)[|front| + i + 1..] == v[i + 1..];
    } else if k[0] == '[' {
      BracketInKey(k, v);
    }
  }

  lemma BracketInKey(k: string, v: string)
    requires k != "" && ']' in k[1..]
    ensures var body := k[1..] + " = " + v; var j := Index(body, ']'); j < |body| && !AllSpace(body[j + 1..])
  {
    var body := k[1..] + " = " + v;
    var p :| 0 <= p < |k[1..]| && k[1..][p] == ']';
    assert body[p] == ']';
    var j := Index(body, ']');
    assert body[|k|] == '=' && body[j + 1..][|k| - j - 1] == '=';
  }

  /** Padding a value does not stop its line from looking like a header, and trimming does not start it. */
  lemma HeaderLikeTrimmed(k: string, v: string)
    requires KeyOk(k)
    ensures HeaderLike(k, Strip(v)) <==> HeaderLike(k, v)
  {
    HeaderLikeIs(k, v);
    HeaderLikeIs(k, Strip(v));
    hide HeaderLike;
    var w1, w2 := StripParts(v);
    ClosesPadded(w1, Strip(v), w2);
  }

  lemma ClosesPadded(w1: string, t: string, w2: string)
    requires AllSpace(w1) && AllSpace(w2)
    ensures ClosesHeader(w1 + t + w2) <==> ClosesHeader(t)
  {
    assert ']' !in w1 && ']' !in w2;
    Assoc(w1, t, w2);
    IndexBehind(w1, ']', t + w2);
    var i, n := Index(t, ']'), |w1|;
    IndexFront(t, ']', w2);
    hide IndexFrom, IsSpace;
    if i < |t| {
      var v := w1 + (t + w2);
      assert v[n + i + 1..] == t[i + 1..] + w2;
      SpaceBoth(t[i + 1..], w2);
    }
  }

  lemma IndexFront(a: string, c: char, b: string)
    requires c !in b
    ensures Index(a + b, c) == if c in a then Index(a, c) else |a + b|
    ensures c in a <==> Index(a, c) < |a|
  {
    var s, n := a + b, Index(a, c);
    assert forall i :: 0 <= i < |a| ==> s[i] == a[i];
    assert forall i :: 0 <= i < |b| ==> s[|a| + i] == b[i];
  }

  lemma SpaceBoth(a: string, b: string)
    requires AllSpace(b)
    ensures AllSpace(a + b) <==> AllSpace(a)
  {
    hide IsSpace;
    var s := a + b;
    assert forall i :: 0 <= i < |a| ==> s[i] == a[i];
    assert forall i :: 0 <= i < |b| ==> s[|a| + i] == b[i];
  }

  lemma SetGood(c: Conf, s: string, k: string, v: string)
    requires Good(c) && NameOk(s) && EntryOk(k, v) && OneLine(v)
    ensures Good(SetKey(c, s, k, Strip(v)))
  {
    var kvs := SectionOf(c, s);
    StripOneLine(v);
    StripTrimmed(v);
    if HeaderLike(k, Strip(v)) {
      HeaderLikeTrimmed(k, v);
    }
    hide HeaderLike;
    PutSectionOk(kvs, k, Strip(v));
    PutAt(kvs, k, Strip(v));
  }
}
