/**
 * The section-aware reader of QCrows metadata: nested tables built line by
 * line, and the document a rendering of it gives back.
 */
module QCrowsToml {
  import opened Text
  import opened OrderedDict
  import opened TomlLines

  /** A value of the result: a table, compared as Python compares dictionaries, or a leaf. */
  datatype Value = Leaf(v: Scalar) | Table(entries: map<string, Value>)

  type Path = seq<string>

  const EMPTY: Value := Table(map[])

  // --------------------------------------------------------- nested tables

  /** The value reached by the keys of the path. */
  function At(root: Value, path: Path): Option<Value> {
    if path == [] then Some(root)
    else if root.Table? && path[0] in root.entries then At(root.entries[path[0]], path[1..])
    else None
  }

  /** The tree with the value at the path exchanged. */
  function Put(root: Value, path: Path, x: Value): Value
    requires At(root, path).Some?
  {
    if path == [] then x
    else Table(root.entries[path[0] := Put(root.entries[path[0]], path[1..], x)])
  }

  /** current[key] = x; None is the TypeError of a current value that is no table. */
  function Assign(root: Value, path: Path, key: string, x: Value): Option<Value> {
    match At(root, path)
    case Some(Table(entries)) => Some(Put(root, path, Table(entries[key := x])))
    case _ => None
  }

  /** current.setdefault(part, {}); None is the AttributeError of a current value that is no table. */
  function SetDefault(root: Value, path: Path, part: string): Option<Value> {
    match At(root, path)
    case Some(Table(entries)) => if part in entries then Some(root) else Assign(root, path, part, EMPTY)
    case _ => None
  }

  /** The setdefault chain along the parts. */
  function Open(root: Value, path: Path, parts: Path): Option<Value>
    decreases |parts|
  {
    if parts == [] then Some(root)
    else
      match SetDefault(root, path, parts[0])
      case None => None
      case Some(r) => Open(r, path + [parts[0]], parts[1..])
  }

  // ------------------------------------------------------------- the reader

  /** The tree so far and the path of the section that is open. */
  datatype State = State(root: Value, current: Path)

  function Step(st: State, line: Line): Option<State> {
    match line
    case Skip => Some(st)
    case Section(parts) =>
      (match Open(st.root, [], parts)
       case None => None
       case Some(r) => Some(State(r, parts)))
    case Key(name, v) =>
      (match Assign(st.root, st.current, name, Leaf(v))
       case None => None
       case Some(r) => Some(State(r, st.current)))
  }

  /** The lines in order; None once an exception is raised. */
  function Run(lines: seq<string>, st: State, loads: Loads): Option<State> {
    if lines == [] then Some(st)
    else
      match Step(st, ReadLine(lines[0], loads))
      case None => None
      case Some(next) => Run(lines[1..], next, loads)
  }

  function Parse(text: string, loads: Loads): Option<Value> {
    match Run(SplitLines(text), State(EMPTY, []), loads)
    case None => None
    case Some(st) => Some(st.root)
  }

  method ParseToml(text: string, loads: Loads) returns (result: Option<Value>)
    ensures result == Parse(text, loads)
  {
    hide At, Assign, SetDefault, ReadLine;
    var root, current := EMPTY, [];
    var lines := SplitLines(text);
    for i := 0 to |lines|
      invariant Run(lines[i..], State(root, current), loads) == Run(lines, State(EMPTY, []), loads)
    {
      assert lines[i..][0] == lines[i] && lines[i..][1..] == lines[i + 1..];
      match ReadLine(lines[i], loads)
      case Skip =>
      case Section(parts) =>
        ghost var before := root;
        current := [];
        for j := 0 to |parts|
          invariant current == parts[..j]
          invariant Open(root, current, parts[j..]) == Open(before, [], parts)
        {
          assert parts[j..][0] == parts[j] && parts[j..][1..] == parts[j + 1..];
          match SetDefault(root, current, parts[j])
          case None => return None;
          case Some(r) =>
            root := r;
            current := current + [parts[j]];
        }
        assert current == parts && parts[|parts|..] == [];
      case Key(name, v) =>
        match Assign(root, current, name, Leaf(v))
        case None => return None;
        case Some(r) => root := r;
    }
    assert lines[|lines|..] == [];
    result := Some(root);
  }

  // ---------------------------------------------------- what a line can touch

  lemma {:induction false} AtAppend(root: Value, a: Path, b: Path)
    ensures At(root, a + b) == if At(root, a).Some? then At(At(root, a).value, b) else None
  {
    if a == [] {
      assert a + b == b;
    } else {
      assert (a + b)[0] == a[0] && (a + b)[1..] == a[1..] + b;
      if root.Table? && a[0] in root.entries {
        AtAppend(root.entries[a[0]], a[1..], b);
      }
    }
  }

  lemma {:induction false} AtPut(root: Value, path: Path, x: Value)
    requires At(root, path).Some?
    ensures At(Put(root, path, x), path) == Some(x)
  {
    if path != [] {
      AtPut(root.entries[path[0]], path[1..], x);
    }
  }

  lemma {:induction false} PutPut(root: Value, path: Path, x: Value, y: Value)
    requires At(root, path).Some?
    ensures At(Put(root, path, x), path).Some? && Put(Put(root, path, x), path, y) == Put(root, path, y)
  {
    AtPut(root, path, x);
    if path != [] {
      PutPut(root.entries[path[0]], path[1..], x, y);
    }
  }

  lemma {:induction false} PutSame(root: Value, path: Path)
    requires At(root, path).Some?
    ensures Put(root, path, At(root, path).value) == root
  {
    if path != [] {
      PutSame(root.entries[path[0]], path[1..]);
    }
  }

  /** Exchanging an entry of a table inside the tree. */
  lemma {:induction false} PutInside(root: Value, path: Path, key: string, x: Value)
    requires At(root, path).Some? && At(root, path).value.Table? && key in At(root, path).value.entries
    ensures At(root, path + [key]).Some?
    ensures Put(root, path + [key], x) == Put(root, path, Table(At(root, path).value.entries[key := x]))
  {
    var all := path + [key];
    AtAppend(root, path, [key]);
    if path == [] {
      assert all == [key] && all[1..] == [];
    } else {
      assert all[0] == path[0] && all[1..] == path[1..] + [key];
      PutInside(root.entries[path[0]], path[1..], key, x);
    }
  }

  /** Neither path leads through the other. */
  predicate Apart(p: Path, q: Path) {
    exists i :: 0 <= i < |p| && i < |q| && p[i] != q[i]
  }

  lemma {:induction false} PutElsewhere(root: Value, p: Path, x: Value, q: Path)
    requires At(root, p).Some? && Apart(p, q)
    ensures At(Put(root, p, x), q) == At(root, q)
  {
    if p[0] == q[0] {
      var i :| 0 <= i < |p| && i < |q| && p[i] != q[i];
      assert p[1..][i - 1] == p[i] && q[1..][i - 1] == q[i];
      PutElsewhere(root.entries[p[0]], p[1..], x, q[1..]);
    }
  }

  predicate Under(path: Path, q: Path) {
    path <= q
  }

  /** Assigning a key changes nothing that does not lie under it. */
  lemma AssignFrame(root: Value, path: Path, key: string, x: Value, q: Path)
    requires Assign(root, path, key, x).Some? && !Under(path + [key], q)
    requires At(root, q).Some? && At(root, q).value.Leaf?
    ensures At(Assign(root, path, key, x).value, q) == At(root, q)
  {
    var entries := At(root, path).value.entries;
    LeafEnds(root, q, path);
    if Under(path, q) {
      var rest := q[|path|..];
      assert q == path + rest;
      AtAppend(root, path, rest);
      AtPut(root, path, Table(entries[key := x]));
      AtAppend(Put(root, path, Table(entries[key := x])), path, rest);
      assert rest != [] && rest[0] != key;
    } else {
      PutElsewhere(root, path, Table(entries[key := x]), q);
    }
  }

  /** Opening a section overwrites nothing. */
  lemma {:induction false} OpenFrame(root: Value, path: Path, parts: Path, q: Path)
    requires Open(root, path, parts).Some?
    requires At(root, q).Some? && At(root, q).value.Leaf?
    ensures At(Open(root, path, parts).value, q) == At(root, q)
    decreases |parts|
  {
    if parts != [] {
      var r := SetDefault(root, path, parts[0]).value;
      if parts[0] !in At(root, path).value.entries {
        NothingUnder(root, path, parts[0], q);
        AssignFrame(root, path, parts[0], EMPTY, q);
      }
      OpenFrame(r, path + [parts[0]], parts[1..], q);
    }
  }

  /** Every prefix of a path that leads somewhere does, and no path leads on from a leaf. */
  lemma {:induction false} LeafEnds(root: Value, p: Path, q: Path)
    ensures Under(p, q) && At(root, q).Some? ==> At(root, p).Some? && (At(root, p).value.Leaf? ==> p == q)
  {
    if Under(p, q) && p != [] && At(root, q).Some? {
      LeafEnds(root.entries[q[0]], p[1..], q[1..]);
    }
  }

  lemma NothingUnder(root: Value, path: Path, key: string, q: Path)
    requires At(root, path).Some? && At(root, path).value.Table? && key !in At(root, path).value.entries
    requires At(root, q).Some?
    ensures !Under(path + [key], q)
  {
    LeafEnds(root, path + [key], q);
    AtAppend(root, path, [key]);
  }

  /**
   * Attribution, on any text: a line keeps every leaf of the tree, except that a
   * key line replaces what was under that key in the section that is open.
   */
  lemma LeavesKept(st: State, line: Line, q: Path)
    requires Step(st, line).Some?
    requires At(st.root, q).Some? && At(st.root, q).value.Leaf?
    ensures
      var own := st.current + (if line.Key? then [line.name] else []);
      At(Step(st, line).value.root, q) ==
        if !line.Key? || !Under(own, q) then At(st.root, q) else if q == own then Some(Leaf(line.value)) else None
  {
    match line
    case Skip =>
    case Section(parts) => OpenFrame(st.root, [], parts, q);
    case Key(name, v) =>
      var own := st.current + [name];
      if Under(own, q) {
        KeySet(st, name, v);
        assert q == own + q[|own|..];
        AtAppend(Step(st, line).value.root, own, q[|own|..]);
      } else {
        AssignFrame(st.root, st.current, name, Leaf(v), q);
      }
  }

  /** A key is found again in the section that was open. */
  lemma KeySet(st: State, name: string, v: Scalar)
    requires Step(st, Key(name, v)).Some?
    ensures At(Step(st, Key(name, v)).value.root, st.current + [name]) == Some(Leaf(v))
  {
    var entries := At(st.root, st.current).value.entries;
    AtPut(st.root, st.current, Table(entries[name := Leaf(v)]));
    AtAppend(Step(st, Key(name, v)).value.root, st.current, [name]);
    assert At(Table(entries[name := Leaf(v)]), [name]) == At(Leaf(v), [name][1..]);
  }

  // -------------------------------------------------- documents and renderings

  /** A section: its keys, then its sub-sections. */
  datatype Doc = Doc(keys: seq<(string, Scalar)>, subs: seq<Sub>)

  datatype Sub = Sub(name: string, doc: Doc)

  function KeyLines(keys: seq<(string, Scalar)>): seq<string> {
    if keys == [] then [] else [ShowKey(keys[0].0, keys[0].1)] + KeyLines(keys[1..])
  }

  function SubLines(subs: seq<Sub>, path: Path): seq<string>
    decreases subs
  {
    if subs == [] then []
    else
      var inner := path + [subs[0].name];
      [ShowHeader(inner)] + DocLines(subs[0].doc, inner) + SubLines(subs[1..], path)
  }

  /** The keys of the section, then every sub-section under its dotted header. */
  function DocLines(d: Doc, path: Path): seq<string>
    decreases d
  {
    KeyLines(d.keys) + SubLines(d.subs, path)
  }

  function Render(d: Doc): string {
    Unlines(DocLines(d, []))
  }

  predicate DistinctKeys(keys: seq<(string, Scalar)>) {
    forall i, j :: 0 <= i < j < |keys| ==> keys[i].0 != keys[j].0
  }

  predicate DistinctSubs(subs: seq<Sub>) {
    forall i, j :: 0 <= i < j < |subs| ==> subs[i].name != subs[j].name
  }

  predicate Clash(keys: seq<(string, Scalar)>, subs: seq<Sub>) {
    exists i, j :: 0 <= i < |keys| && 0 <= j < |subs| && keys[i].0 == subs[j].name
  }

  /** Plain and distinct names, writable values, no key named like a sub-section. */
  predicate WellFormed(d: Doc) {
    && DistinctKeys(d.keys) && DistinctSubs(d.subs) && !Clash(d.keys, d.subs)
    && (forall i :: 0 <= i < |d.keys| ==> KeyName(d.keys[i].0) && Writable(d.keys[i].1))
    && (forall i :: 0 <= i < |d.subs| ==> SectionName(d.subs[i].name) && WellFormed(d.subs[i].doc))
  }

  /** Plain and distinct names and writable values, at every level. */
  predicate Named(d: Doc) {
    && DistinctKeys(d.keys) && DistinctSubs(d.subs)
    && (forall i :: 0 <= i < |d.keys| ==> KeyName(d.keys[i].0) && Writable(d.keys[i].1))
    && (forall i :: 0 <= i < |d.subs| ==> SectionName(d.subs[i].name) && Named(d.subs[i].doc))
  }

  /** Nowhere in the document has a key the name of a sub-section beside it. */
  predicate NoClash(d: Doc) {
    !Clash(d.keys, d.subs) && forall i :: 0 <= i < |d.subs| ==> NoClash(d.subs[i].doc)
  }

  lemma {:induction false} WellFormedIs(d: Doc)
    ensures WellFormed(d) <==> Named(d) && NoClash(d)
    decreases d
  {
    hide Clash, DistinctKeys, DistinctSubs, KeyName, SectionName, Writable;
    forall i | 0 <= i < |d.subs|
      ensures WellFormed(d.subs[i].doc) <==> Named(d.subs[i].doc) && NoClash(d.subs[i].doc)
    {
      WellFormedIs(d.subs[i].doc);
    }
  }

  predicate GoodPath(path: Path) {
    forall i :: 0 <= i < |path| ==> SectionName(path[i])
  }

  function AddKeys(m: map<string, Value>, keys: seq<(string, Scalar)>): map<string, Value>
    decreases |keys|
  {
    if keys == [] then m else AddKeys(m[keys[0].0 := Leaf(keys[0].1)], keys[1..])
  }

  function AddSubs(m: map<string, Value>, subs: seq<Sub>): map<string, Value>
    decreases subs
  {
    if subs == [] then m else AddSubs(m[subs[0].name := Table(Meaning(subs[0].doc))], subs[1..])
  }

  function Meaning(d: Doc): map<string, Value>
    decreases d
  {
    AddSubs(AddKeys(map[], d.keys), d.subs)
  }

  /** The table holds exactly the document: each key in its own section, nothing else. */
  predicate Holds(m: map<string, Value>, d: Doc)
    decreases d
  {
    && (forall i :: 0 <= i < |d.keys| ==> d.keys[i].0 in m && m[d.keys[i].0] == Leaf(d.keys[i].1))
    && (forall i :: 0 <= i < |d.subs| ==>
      d.subs[i].name in m && m[d.subs[i].name].Table? && Holds(m[d.subs[i].name].entries, d.subs[i].doc))
    && (forall k :: k in m ==>
      (exists i :: 0 <= i < |d.keys| && d.keys[i].0 == k) || (exists i :: 0 <= i < |d.subs| && d.subs[i].name == k))
  }

  // ------------------------------------------------------------- round trip

  lemma {:induction false} RunAppend(a: seq<string>, b: seq<string>, st: State, loads: Loads)
    ensures
      Run(a + b, st, loads) ==
      match Run(a, st, loads) { case None => None case Some(next) => Run(b, next, loads) }
  {
    if a == [] {
      assert a + b == b;
    } else {
      assert (a + b)[0] == a[0] && (a + b)[1..] == a[1..] + b;
      var next := Step(st, ReadLine(a[0], loads));
      hide Step, ReadLine;
      if next.Some? {
        RunAppend(a[1..], b, next.value, loads);
      }
    }
  }

  /** Keys one after another fill the section that is open. */
  lemma {:induction false} RunKeys(keys: seq<(string, Scalar)>, root: Value, path: Path, m: map<string, Value>, loads: Loads)
    requires At(root, path) == Some(Table(m))
    requires forall i :: 0 <= i < |keys| ==> KeyName(keys[i].0) && Writable(keys[i].1)
    ensures Run(KeyLines(keys), State(root, path), loads) == Some(State(Put(root, path, Table(AddKeys(m, keys))), path))
    decreases |keys|
  {
    hide KeyName, Writable, ReadLine, ShowKey, At, Put;
    if keys == [] {
      PutSame(root, path);
    } else {
      var (k, v) := keys[0];
      var m1 := m[k := Leaf(v)];
      var root1 := Put(root, path, Table(m1));
      ReadsKey(k, v, loads);
      AtPut(root, path, Table(m1));
      RunKeys(keys[1..], root1, path, m1, loads);
      PutPut(root, path, Table(m1), Table(AddKeys(m, keys)));
      assert KeyLines(keys)[0] == ShowKey(k, v) && KeyLines(keys)[1..] == KeyLines(keys[1..]);
    }
  }

  /** Walking along sections that are there already changes nothing. */
  lemma {:induction false} OpenExisting(root: Value, path: Path, rest: Path)
    requires At(root, path + rest).Some?
    ensures Open(root, path, rest) == Some(root)
    decreases |rest|
  {
    if rest != [] {
      var inner := path + [rest[0]];
      assert inner + rest[1..] == path + rest;
      LeafEnds(root, inner, path + rest);
      AtAppend(root, path, [rest[0]]);
      OpenExisting(root, inner, rest[1..]);
    }
  }

  lemma {:induction false} OpenAppend(root: Value, path: Path, a: Path, b: Path)
    ensures
      Open(root, path, a + b) ==
      match Open(root, path, a) { case None => None case Some(r) => Open(r, path + a, b) }
    decreases |a|
  {
    if a == [] {
      assert a + b == b && path + a == path;
    } else {
      assert (a + b)[0] == a[0] && (a + b)[1..] == a[1..] + b;
      var r := SetDefault(root, path, a[0]);
      hide SetDefault;
      if r.Some? {
        Assoc(path, [a[0]], a[1..]);
        assert [a[0]] + a[1..] == a;
        OpenAppend(r.value, path + [a[0]], a[1..], b);
      }
    }
  }

  lemma OpenNew(root: Value, path: Path, m: map<string, Value>, n: string)
    requires At(root, path) == Some(Table(m)) && n !in m
    ensures Open(root, [], path + [n]) == Some(Put(root, path, Table(m[n := EMPTY])))
    ensures At(Put(root, path, Table(m[n := EMPTY])), path + [n]) == Some(EMPTY)
  {
    var m1 := m[n := EMPTY];
    var root1 := Put(root, path, Table(m1));
    assert [] + path == path;
    OpenExisting(root, [], path);
    OpenAppend(root, [], path, [n]);
    AtPut(root, path, Table(m1));
    AtAppend(root1, path, [n]);
    assert [n][1..] == [];
    assert At(m1[n], []) == Some(EMPTY);
    assert Open(root1, path + [n], []) == Some(root1);
  }

  predicate GoodSubs(subs: seq<Sub>) {
    && DistinctSubs(subs)
    && forall i :: 0 <= i < |subs| ==> SectionName(subs[i].name) && WellFormed(subs[i].doc)
  }

  lemma {:induction false} RunSubs(subs: seq<Sub>, st: State, path: Path, m: map<string, Value>, loads: Loads)
    requires At(st.root, path) == Some(Table(m)) && GoodPath(path) && GoodSubs(subs)
    requires forall i :: 0 <= i < |subs| ==> subs[i].name !in m
    ensures
      var r := Run(SubLines(subs, path), st, loads);
      r.Some? && r.value.root == Put(st.root, path, Table(AddSubs(m, subs)))
    decreases subs
  {
    hide SectionName, ReadLine, ShowHeader, At, Put, Open, WellFormed;
    if subs == [] {
      PutSame(st.root, path);
    } else {
      var n, d := subs[0].name, subs[0].doc;
      var inner := path + [n];
      var entered := State(Put(st.root, path, Table(m[n := EMPTY])), inner);
      OpenNew(st.root, path, m, n);
      ReadsHeader(inner, loads);
      RunDoc(d, entered.root, inner, loads);
      var filled := Run(DocLines(d, inner), entered, loads).value;
      SubFilled(st.root, path, m, n, Table(Meaning(d)));
      var m1 := m[n := Table(Meaning(d))];
      assert filled.root == Put(st.root, path, Table(m1));
      assert forall i :: 0 <= i < |subs[1..]| ==> subs[1..][i] == subs[i + 1];
      AtPut(st.root, path, Table(m1));
      RunSubs(subs[1..], filled, path, m1, loads);
      PutPut(st.root, path, Table(m1), Table(AddSubs(m, subs)));
      RunSection(n, d, subs, path, st, entered, loads);
    }
  }

  /** The lines of the first sub-section, then those of the others. */
  lemma RunSection(n: string, d: Doc, subs: seq<Sub>, path: Path, st: State, entered: State, loads: Loads)
    requires subs != [] && subs[0] == Sub(n, d)
    requires Step(st, ReadLine(ShowHeader(path + [n]), loads)) == Some(entered)
    requires Run(DocLines(d, path + [n]), entered, loads).Some?
    ensures
      Run(SubLines(subs, path), st, loads) ==
      Run(SubLines(subs[1..], path), Run(DocLines(d, path + [n]), entered, loads).value, loads)
  {
    var head, own, more := ShowHeader(path + [n]), DocLines(d, path + [n]), SubLines(subs[1..], path);
    assert SubLines(subs, path) == [head] + (own + more);
    hide SubLines, DocLines, ReadLine, ShowHeader, Step;
    assert ([head] + (own + more))[0] == head && ([head] + (own + more))[1..] == own + more;
    RunAppend(own, more, entered, loads);
  }

  /** Filling a new empty section inside its parent. */
  lemma SubFilled(root: Value, path: Path, m: map<string, Value>, n: string, x: Value)
    requires At(root, path) == Some(Table(m))
    requires At(Put(root, path, Table(m[n := EMPTY])), path + [n]).Some?
    ensures Put(Put(root, path, Table(m[n := EMPTY])), path + [n], x) == Put(root, path, Table(m[n := x]))
  {
    var m0 := m[n := EMPTY];
    AtPut(root, path, Table(m0));
    PutInside(Put(root, path, Table(m0)), path, n, x);
    PutPut(root, path, Table(m0), Table(m[n := x]));
    assert m0[n := x] == m[n := x];
  }

  lemma {:induction false} RunDoc(d: Doc, root: Value, path: Path, loads: Loads)
    requires WellFormed(d) && GoodPath(path) && At(root, path) == Some(EMPTY)
    ensures
      var r := Run(DocLines(d, path), State(root, path), loads);
      r.Some? && r.value.root == Put(root, path, Table(Meaning(d)))
    decreases d, 0
  {
    var m := AddKeys(map[], d.keys);
    var root1 := Put(root, path, Table(m));
    RunKeys(d.keys, root, path, map[], loads);
    AtPut(root, path, Table(m));
    KeysAdded(map[], d.keys);
    RunSubs(d.subs, State(root1, path), path, m, loads);
    PutPut(root, path, Table(m), Table(Meaning(d)));
    RunAppend(KeyLines(d.keys), SubLines(d.subs, path), State(root, path), loads);
  }

  lemma {:induction false} KeysAdded(m: map<string, Value>, keys: seq<(string, Scalar)>)
    requires DistinctKeys(keys)
    ensures forall i :: 0 <= i < |keys| ==> keys[i].0 in AddKeys(m, keys) && AddKeys(m, keys)[keys[i].0] == Leaf(keys[i].1)
    ensures forall k :: (forall i :: 0 <= i < |keys| ==> keys[i].0 != k) ==>
      (k in AddKeys(m, keys) <==> k in m) && (k in m ==> AddKeys(m, keys)[k] == m[k])
    decreases |keys|
  {
    if keys != [] {
      var m1 := m[keys[0].0 := Leaf(keys[0].1)];
      KeysAdded(m1, keys[1..]);
      assert forall i :: 1 <= i < |keys| ==> keys[1..][i - 1] == keys[i];
      assert forall i :: 0 <= i < |keys[1..]| ==> keys[1..][i] == keys[i + 1];
    }
  }

  lemma {:induction false} SubsAdded(m: map<string, Value>, subs: seq<Sub>)
    requires DistinctSubs(subs)
    ensures forall i :: 0 <= i < |subs| ==>
      subs[i].name in AddSubs(m, subs) && AddSubs(m, subs)[subs[i].name] == Table(Meaning(subs[i].doc))
    ensures forall k :: (forall i :: 0 <= i < |subs| ==> subs[i].name != k) ==>
      (k in AddSubs(m, subs) <==> k in m) && (k in m ==> AddSubs(m, subs)[k] == m[k])
    decreases |subs|
  {
    if subs != [] {
      var m1 := m[subs[0].name := Table(Meaning(subs[0].doc))];
      SubsAdded(m1, subs[1..]);
      assert forall i :: 1 <= i < |subs| ==> subs[1..][i - 1] == subs[i];
      assert forall i :: 0 <= i < |subs[1..]| ==> subs[1..][i] == subs[i + 1];
    }
  }

  lemma {:induction false} MeaningHolds(d: Doc)
    requires WellFormed(d)
    ensures Holds(Meaning(d), d)
    decreases d
  {
    var m := AddKeys(map[], d.keys);
    KeysAdded(map[], d.keys);
    SubsAdded(m, d.subs);
    forall i | 0 <= i < |d.subs|
      ensures Holds(Meaning(d.subs[i].doc), d.subs[i].doc)
    {
      MeaningHolds(d.subs[i].doc);
    }
  }

  /** Only one table holds exactly a given document. */
  lemma {:induction false} HoldsOnce(m: map<string, Value>, m': map<string, Value>, d: Doc)
    requires Holds(m, d) && Holds(m', d)
    ensures m == m'
    decreases d
  {
    forall i | 0 <= i < |d.subs|
      ensures m[d.subs[i].name] == m'[d.subs[i].name]
    {
      HoldsOnce(m[d.subs[i].name].entries, m'[d.subs[i].name].entries, d.subs[i].doc);
    }
  }

  lemma {:induction false} LinesAreLines(d: Doc, path: Path, loads: Loads)
    requires WellFormed(d) && GoodPath(path)
    ensures AllOneLine(DocLines(d, path))
    decreases d, 0
  {
    KeyLinesAreLines(d.keys, loads);
    SubLinesAreLines(d.subs, path, loads);
  }

  lemma {:induction false} KeyLinesAreLines(keys: seq<(string, Scalar)>, loads: Loads)
    requires forall i :: 0 <= i < |keys| ==> KeyName(keys[i].0) && Writable(keys[i].1)
    ensures AllOneLine(KeyLines(keys))
    decreases |keys|
  {
    hide KeyName, Writable, ReadLine, ShowKey, OneLine;
    if keys != [] {
      ReadsKey(keys[0].0, keys[0].1, loads);
      KeyLinesAreLines(keys[1..], loads);
    }
  }

  lemma {:induction false} SubLinesAreLines(subs: seq<Sub>, path: Path, loads: Loads)
    requires GoodSubs(subs) && GoodPath(path)
    ensures AllOneLine(SubLines(subs, path))
    decreases subs
  {
    hide SectionName, ReadLine, ShowHeader, WellFormed, OneLine;
    if subs != [] {
      ReadsHeader(path + [subs[0].name], loads);
      LinesAreLines(subs[0].doc, path + [subs[0].name], loads);
      SubLinesAreLines(subs[1..], path, loads);
    }
  }

  /** No table holds a document in which a key and a sub-section share a name. */
  lemma {:induction false} HoldsNoClash(m: map<string, Value>, d: Doc)
    requires Holds(m, d)
    ensures NoClash(d)
    decreases d
  {
    forall i | 0 <= i < |d.subs|
      ensures NoClash(d.subs[i].doc)
    {
      HoldsNoClash(m[d.subs[i].name].entries, d.subs[i].doc);
    }
  }

  /** Parsing a rendered well-formed document gives the table of the document. */
  lemma ParsesBack(d: Doc, loads: Loads)
    requires WellFormed(d)
    ensures Parse(Render(d), loads) == Some(Table(Meaning(d)))
  {
    LinesAreLines(d, [], loads);
    SplitUnlines(DocLines(d, []), "");
    assert Render(d) + "" == Render(d);
    assert DocLines(d, []) + [] == DocLines(d, []);
    RunDoc(d, EMPTY, [], loads);
  }

  /**
   * Parsing a rendered document gives it back, every key in its own section and
   * nothing else, if and only if no key has the name of a sub-section beside it.
   */
  lemma RoundTrip(d: Doc, loads: Loads)
    requires Named(d)
    ensures var r := Parse(Render(d), loads);
      (r.Some? && r.value.Table? && Holds(r.value.entries, d)) <==> NoClash(d)
  {
    WellFormedIs(d);
    var r := Parse(Render(d), loads);
    hide Parse, Render, WellFormed, Holds, Meaning, Named, NoClash;
    if r.Some? && r.value.Table? && Holds(r.value.entries, d) {
      HoldsNoClash(r.value.entries, d);
    }
    if NoClash(d) {
      ParsesBack(d, loads);
      MeaningHolds(d);
    }
  }

  /** Blank lines and comments may stand anywhere. */
  lemma SkipAnywhere(a: seq<string>, line: string, b: seq<string>, st: State, loads: Loads)
    requires Strip(line) == "" || Strip(line)[0] == '#'
    ensures Run(a + ([line] + b), st, loads) == Run(a + b, st, loads)
  {
    RunAppend(a, [line] + b, st, loads);
    RunAppend(a, b, st, loads);
    assert ([line] + b)[0] == line && ([line] + b)[1..] == b;
  }

  /**
   * Where a section has the name of a key, the reader fails: at a deeper header,
   * and at the first key line of the section.
   */
  lemma SectionOverKey(st: State, path: Path, n: string, k: string, v: Scalar)
    requires At(st.root, path).Some? && At(st.root, path).value.Leaf?
    ensures Step(st, Section(path + [n])) == None
    ensures Step(st, Section(path)) == Some(State(st.root, path))
    ensures Step(State(st.root, path), Key(k, v)) == None
  {
    assert [] + path == path;
    OpenExisting(st.root, [], path);
    OpenAppend(st.root, [], path, [n]);
  }
}
