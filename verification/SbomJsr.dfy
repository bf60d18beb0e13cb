/** The JSR half of the SBOM: crawl and edges resolve in different orders. */
module SbomJsr {
  import opened Text
  import opened OrderedDict
  import opened Sbom
  import Crawl

  // ------------------------------------------------------ direct dependencies

  const ASSERT := "@std/assert"

  /** Some import, of the assertion package or of the others, resolves to k. */
  ghost predicate Imported(lock: Lock, imports: seq<(string, string)>, dev: bool, k: string) {
    exists i :: 0 <= i < |imports| && ImportIs(lock, imports[i], dev, k)
  }

  predicate ImportIs(lock: Lock, entry: (string, string), dev: bool, k: string) {
    && k != "" && JSR <= entry.1 && (entry.0 == ASSERT <==> dev)
    && ResolveJsr(lock, KeysOf(lock.jsr), entry.1) == Some(k)
  }

  lemma ImportedMore(lock: Lock, imports: seq<(string, string)>, entry: (string, string), dev: bool)
    ensures forall k :: Imported(lock, imports + [entry], dev, k) <==>
      Imported(lock, imports, dev, k) || ImportIs(lock, entry, dev, k)
  {
    hide ImportIs;
    var all := imports + [entry];
    assert all[|imports|] == entry && forall i :: 0 <= i < |imports| ==> all[i] == imports[i];
  }

  /** The keys that the imports resolve to: the assertion package is a development dependency. */
  method DirectJsr(lock: Lock, imports: seq<(string, string)>) returns (direct: seq<string>, dev: seq<string>)
    ensures forall k :: k in direct <==> Imported(lock, imports, false, k)
    ensures forall k :: k in dev <==> Imported(lock, imports, true, k)
    ensures forall k :: k in direct || k in dev ==> k in KeysOf(lock.jsr)
  {
    hide ResolveJsr, Imported, KeysOf, ASSERT, JSR;
    direct, dev := [], [];
    NoImports(lock);
    for i := 0 to |imports|
      invariant forall k :: k in direct <==> Imported(lock, imports[..i], false, k)
      invariant forall k :: k in dev <==> Imported(lock, imports[..i], true, k)
      invariant forall k :: k in direct || k in dev ==> k in KeysOf(lock.jsr)
    {
      var (name, spec) := imports[i];
      ImportedMore(lock, imports[..i], imports[i], false);
      ImportedMore(lock, imports[..i], imports[i], true);
      assert imports[..i + 1] == imports[..i] + [imports[i]];
      if !(JSR <= spec) {
        continue;
      }
      var resolved := ResolveJsr(lock, KeysOf(lock.jsr), spec);
      ResolvedIsThere(lock, KeysOf(lock.jsr), spec);
      if resolved == None || resolved.value == "" {
        continue;
      }
      if name == ASSERT {
        dev := Add(dev, resolved.value);
      } else {
        direct := Add(direct, resolved.value);
      }
    }
    assert imports[..|imports|] == imports;
  }

  /** Insertion into a JavaScript set. */
  function Add(xs: seq<string>, x: string): (r: seq<string>)
    ensures forall y :: y in r <==> y in xs || y == x
  {
    if x in xs then xs else xs + [x]
  }

  lemma NoImports(lock: Lock)
    ensures forall k, dev :: !Imported(lock, [], dev, k)
  {
  }

  // --------------------------------------------------- the order of the key list

  /** The lock key is required: the crawl, which resolves in file order, reaches it. */
  ghost predicate Reached(lock: Lock, direct: seq<string>, k: string) {
    Crawl.Reachable(direct, JsrStep(lock, KeysOf(lock.jsr)), k)
  }

  ghost predicate AllIn(direct: seq<string>, keys: seq<string>) {
    forall k :: k in direct ==> k in keys
  }

  /** Whatever the direct keys are, each edge of a required key, resolved in the given order, leads to a required key. */
  ghost predicate EdgesRequired(lock: Lock, order: seq<string>) {
    forall direct, key, d :: AllIn(direct, KeysOf(lock.jsr)) && Reached(lock, direct, key) && d in JsrNext(lock, order, key)
      ==> Reached(lock, direct, d)
  }

  /** Every lock on these keys keeps its edges required when they are resolved in the given order. */
  ghost predicate AlwaysRequired(keys: seq<string>, order: seq<string>) {
    forall lock: Lock :: KeysOf(lock.jsr) == keys ==> EdgesRequired(lock, order)
  }

  /** The first key of the package a dependency names, under any pin, is the same in both orders. */
  ghost predicate SameFirst(keys: seq<string>, order: seq<string>) {
    forall dep: string, pin: Option<string> | pin != Some("") :: SameFor(keys, order, SpecName(AsSpecifier(dep)), pin)
  }

  predicate SameFor(keys: seq<string>, order: seq<string>, name: string, pin: Option<string>) {
    FirstJsr(order, name, pin) == FirstJsr(keys, name, pin)
  }

  // ----------------------------------------- the same first keys, the same edges

  lemma {:induction false} SameEdges(lock: Lock, keys: seq<string>, order: seq<string>, deps: seq<string>)
    requires SameFirst(keys, order)
    ensures ResolveAll(lock, order, deps) == ResolveAll(lock, keys, deps)
  {
    if deps != [] {
      var spec := AsSpecifier(deps[0]);
      assert SameFor(keys, order, SpecName(spec), None);
      if spec in lock.specifiers && lock.specifiers[spec] != "" {
        assert SameFor(keys, order, SpecName(spec), Some(lock.specifiers[spec]));
      }
      assert ResolveJsr(lock, order, spec) == ResolveJsr(lock, keys, spec);
      hide ResolveJsr, SameFirst, SpecName, AsSpecifier;
      SameEdges(lock, keys, order, deps[1..]);
    }
  }

  lemma SameFirstRequired(lock: Lock, order: seq<string>)
    requires SameFirst(KeysOf(lock.jsr), order)
    ensures EdgesRequired(lock, order)
  {
    var keys := KeysOf(lock.jsr);
    hide SameFirst, JsrNext, KeysOf;
    forall direct, key, d | Reached(lock, direct, key) && d in JsrNext(lock, order, key)
      ensures Reached(lock, direct, d)
    {
      SameNext(lock, order, key);
      Crawl.NextReachable(direct, JsrStep(lock, keys), key, d);
    }
  }

  lemma SameNext(lock: Lock, order: seq<string>, key: string)
    requires SameFirst(KeysOf(lock.jsr), order)
    ensures JsrNext(lock, order, key) == JsrNext(lock, KeysOf(lock.jsr), key)
  {
    SameEdges(lock, KeysOf(lock.jsr), order, DepsOf(lock.jsr, key));
  }

  // ----------------------------------- another first key, an edge that leads away

  lemma {:induction false} FirstJsrMatches(keys: seq<string>, name: string, pin: Option<string>)
    ensures FirstJsr(keys, name, pin) == None <==> forall k :: k in keys ==> !JsrKeyOf(k, name, pin)
    ensures FirstJsr(keys, name, pin).Some? ==>
      FirstJsr(keys, name, pin).value in keys && JsrKeyOf(FirstJsr(keys, name, pin).value, name, pin)
  {
    if keys != [] {
      FirstJsrMatches(keys[1..], name, pin);
      assert FirstJsr(keys, name, pin) == if JsrKeyOf(keys[0], name, pin) then Some(keys[0]) else FirstJsr(keys[1..], name, pin);
      hide JsrKeyOf, FirstJsr;
      assert forall k :: k in keys <==> k == keys[0] || k in keys[1..];
    }
  }

  /** The given keys, with one dependency for key a and none for the others. */
  function OneDep(keys: seq<string>, a: string, dep: string): Dict<seq<string>> {
    if keys == [] then [] else [(keys[0], if keys[0] == a then [dep] else [])] + OneDep(keys[1..], a, dep)
  }

  lemma FirstEntry(e: (string, seq<string>), more: Dict<seq<string>>, k: string)
    ensures KeysOf([e] + more) == [e.0] + KeysOf(more)
    ensures DepsOf([e] + more, k) == if e.0 == k then e.1 else DepsOf(more, k)
  {
    var d := [e] + more;
    assert d[0] == e && d[1..] == more;
    if e.0 != k {
      var i := Find(more, k);
      assert Find(d, k) == 1 + i;
      assert i < |more| ==> d[1 + i] == more[i];
    }
  }

  lemma {:induction false} OneDepReads(keys: seq<string>, a: string, dep: string, k: string)
    ensures KeysOf(OneDep(keys, a, dep)) == keys
    ensures DepsOf(OneDep(keys, a, dep), k) == if k == a && a in keys then [dep] else []
  {
    if keys != [] {
      var first, more := (keys[0], if keys[0] == a then [dep] else []), OneDep(keys[1..], a, dep);
      assert OneDep(keys, a, dep) == [first] + more;
      assert keys == [keys[0]] + keys[1..];
      hide KeysOf, DepsOf, OneDep;
      OneDepReads(keys[1..], a, dep, k);
      FirstEntry(first, more, k);
      assert a in keys <==> a == keys[0] || a in keys[1..];
    }
  }

  /** A lock in which a alone has a dependency, pinned or not. */
  function Witness(keys: seq<string>, a: string, dep: string, pin: Option<string>): Lock {
    Lock(if pin.Some? then map[AsSpecifier(dep) := pin.value] else map[], OneDep(keys, a, dep), [])
  }

  lemma WitnessNext(keys: seq<string>, order: seq<string>, a: string, dep: string, pin: Option<string>, k: string)
    requires pin != Some("") && a in keys
    requires var r := FirstJsr(order, SpecName(AsSpecifier(dep)), pin); r.Some? && r.value != ""
    ensures JsrNext(Witness(keys, a, dep, pin), order, k)
         == if k == a then [FirstJsr(order, SpecName(AsSpecifier(dep)), pin).value] else []
  {
    var lock, spec := Witness(keys, a, dep, pin), AsSpecifier(dep);
    OneDepReads(keys, a, dep, k);
    assert ResolveJsr(lock, order, spec) == FirstJsr(order, SpecName(spec), pin);
    hide ResolveJsr, AsSpecifier, SpecName, FirstJsr, DepsOf, OneDep;
    assert [dep][1..] == [] && ResolveAll(lock, order, []) == [];
  }

  /** A lock in which key a depends on itself alone, in file order, and on b in the other order. */
  lemma LeadsAway(lock: Lock, order: seq<string>, a: string, b: string)
    requires a != b && a in KeysOf(lock.jsr)
    requires forall k :: JsrNext(lock, KeysOf(lock.jsr), k) == if k == a then [a] else []
    requires JsrNext(lock, order, a) == [b]
    ensures !EdgesRequired(lock, order)
  {
    hide JsrNext, KeysOf;
    var next := JsrStep(lock, KeysOf(lock.jsr));
    Crawl.RootReachable([a], next, a);
    assert AllIn([a], KeysOf(lock.jsr)) && Reached(lock, [a], a) && b in JsrNext(lock, order, a);
    if Reached(lock, [a], b) {
      var p :| Crawl.PathTo([a], next, p, b);
      Crawl.ClosedHoldsPath([a], next, {a}, p, b);
    }
  }

  lemma DifferentFirst(keys: seq<string>, order: seq<string>, name: string, pin: Option<string>)
    requires "" !in keys && forall k :: k in order <==> k in keys
    requires !SameFor(keys, order, name, pin)
    ensures var a, b := FirstJsr(keys, name, pin), FirstJsr(order, name, pin);
      a.Some? && b.Some? && a.value != b.value && a.value in keys && a.value != "" && b.value != ""
  {
    FirstJsrMatches(keys, name, pin);
    FirstJsrMatches(order, name, pin);
    hide FirstJsr, JsrKeyOf;
  }

  /** Where the first keys differ, a lock on these keys has an edge from a required key to one that is not. */
  lemma OtherFirst(keys: seq<string>, order: seq<string>, dep: string, pin: Option<string>)
    requires "" !in keys && pin != Some("") && forall k :: k in order <==> k in keys
    requires !SameFor(keys, order, SpecName(AsSpecifier(dep)), pin)
    ensures !AlwaysRequired(keys, order)
  {
    var name := SpecName(AsSpecifier(dep));
    DifferentFirst(keys, order, name, pin);
    var a, b := FirstJsr(keys, name, pin).value, FirstJsr(order, name, pin).value;
    var lock := Witness(keys, a, dep, pin);
    OneDepReads(keys, a, dep, a);
    assert KeysOf(lock.jsr) == keys;
    hide JsrNext, FirstJsr, SpecName, AsSpecifier, KeysOf, SameFor, EdgesRequired;
    forall k ensures JsrNext(lock, keys, k) == if k == a then [a] else [] {
      WitnessNext(keys, keys, a, dep, pin, k);
    }
    WitnessNext(keys, order, a, dep, pin, a);
    LeadsAway(lock, order, a, b);
  }

  /**
   * For a list of keys and any other order of it: every lock on these keys keeps
   * its edges required if and only if each dependency, under each pin, finds the
   * same first key in both orders.
   */
  lemma EdgesRequiredExactly(keys: seq<string>, order: seq<string>)
    requires "" !in keys && forall k :: k in order <==> k in keys
    ensures AlwaysRequired(keys, order) <==> SameFirst(keys, order)
  {
    hide SameFor, EdgesRequired;
    if SameFirst(keys, order) {
      forall lock: Lock | KeysOf(lock.jsr) == keys ensures EdgesRequired(lock, order) {
        SameFirstRequired(lock, order);
      }
    } else {
      var dep: string, pin: Option<string> :|
        pin != Some("") && !SameFor(keys, order, SpecName(AsSpecifier(dep)), pin);
      OtherFirst(keys, order, dep, pin);
    }
  }

  // ------------------------------------------------ keys of the form name@version

  /** Every key has its '@', as all keys of a lock file do. */
  predicate Versioned(keys: seq<string>) {
    forall i :: 0 <= i < |keys| ==> AtIndex(keys[i]) >= 0
  }

  /** The first key of each package is the same in both orders. */
  predicate SamePackages(keys: seq<string>, order: seq<string>) {
    forall i :: 0 <= i < |keys| ==> SameFor(keys, order, KeyName(keys[i]), None)
  }

  lemma KeyIsNameVersion(k: string)
    requires AtIndex(k) >= 0
    ensures k == KeyName(k) + "@" + JsrVersion(k)
  {
    var at := AtIndex(k);
    assert k[at] == '@';
    assert k == k[..at] + [k[at]] + k[at + 1..];
  }

  /** The name of a key is the name its own specifier asks for. */
  lemma SpecOfName(k: string)
    requires AtIndex(k) >= 0
    ensures SpecName(AsSpecifier(JSR + KeyName(k))) == KeyName(k)
  {
    var n, at := KeyName(k), AtIndex(k);
    var spec := JSR + n;
    assert JSR <= spec && spec[|JSR|..] == n;
    assert forall i :: 0 <= i < at ==> n[i] == k[i];
    NameHasNoAt(k);
  }

  lemma NameHasNoAt(k: string)
    requires AtIndex(k) >= 0
    ensures AtIndex(KeyName(k)) == -1
  {
    var n, at := KeyName(k), AtIndex(k);
    assert n == k[..at];
    assert forall i :: 0 <= i < at ==> n[i] == k[i];
    if k[0] == '@' && at > 0 {
      var slash := IndexFrom(k, '/', 0);
      assert slash < at;
      assert IndexFrom(n, '/', 0) == slash;
      assert IndexFrom(n, '@', slash + 1) == |n|;
    } else {
      assert IndexFrom(n, '@', 0) == |n|;
    }
  }

  lemma SameForSome(keys: seq<string>, order: seq<string>, name: string, pin: Option<string>)
    requires Versioned(keys) && SamePackages(keys, order) && forall k :: k in order <==> k in keys
    ensures SameFor(keys, order, name, pin)
  {
    FirstJsrMatches(keys, name, pin);
    FirstJsrMatches(order, name, pin);
    var a, b := FirstJsr(keys, name, pin), FirstJsr(order, name, pin);
    if a.Some? && b.Some? {
      var i :| 0 <= i < |keys| && keys[i] == a.value;
      if pin == None {
        assert SameFor(keys, order, KeyName(keys[i]), None);
      } else {
        var j :| 0 <= j < |keys| && keys[j] == b.value;
        KeyIsNameVersion(keys[i]);
        KeyIsNameVersion(keys[j]);
      }
    }
  }

  lemma SameFirstIs(keys: seq<string>, order: seq<string>)
    requires Versioned(keys) && forall k :: k in order <==> k in keys
    ensures SameFirst(keys, order) <==> SamePackages(keys, order)
  {
    hide SameFor, AtIndex;
    if SamePackages(keys, order) {
      forall dep: string, pin: Option<string> | pin != Some("")
        ensures SameFor(keys, order, SpecName(AsSpecifier(dep)), pin)
      {
        SameForSome(keys, order, SpecName(AsSpecifier(dep)), pin);
      }
    }
    if SameFirst(keys, order) {
      forall i | 0 <= i < |keys| ensures SameFor(keys, order, KeyName(keys[i]), None) {
        SpecOfName(keys[i]);
        assert SameFor(keys, order, SpecName(AsSpecifier(JSR + KeyName(keys[i]))), None);
      }
    }
  }

  /**
   * JSR: the crawl resolves in file order, the edges in the order left by the
   * later sort. Every lock on these keys keeps its edges required if and only if
   * each package has the same first key in both orders.
   */
  lemma JsrEdgesStayRequired(keys: seq<string>, order: seq<string>)
    requires Versioned(keys) && forall k :: k in order <==> k in keys
    ensures AlwaysRequired(keys, order) <==> SamePackages(keys, order)
  {
    assert "" !in keys by {
      assert AtIndex("") == -1;
    }
    SameFirstIs(keys, order);
    EdgesRequiredExactly(keys, order);
  }

  // ------------------------------------------------- labels and edges together

  /**
   * JSR: the required labels are exactly reachability in file order, the edges
   * are those of the given order, and where the first keys agree whatever a
   * required key has an edge to is labelled required as well.
   */
  method JsrComponents(lock: Lock, direct: seq<string>, dev: seq<string>, order: seq<string>, edges: Edges,
                       purl: string -> string) returns (rows: seq<Row>, r: Edges)
    requires AllIn(direct, KeysOf(lock.jsr)) && forall k :: k in order <==> k in KeysOf(lock.jsr)
    ensures |rows| == |order| && forall i :: 0 <= i < |order| ==> rows[i].key == order[i]
    ensures forall i :: 0 <= i < |order| ==> (rows[i].direct <==> order[i] in direct || order[i] in dev)
    ensures forall i :: 0 <= i < |order| ==> (rows[i].scope == Required <==> Reached(lock, direct, order[i]))
    ensures forall f, t :: HasEdge(r, f, t) <==> HasEdge(edges, f, t) || DependsVia(order, JsrStep(lock, order), purl, f, t)
    ensures SameFirst(KeysOf(lock.jsr), order) ==>
      forall i, d :: 0 <= i < |order| && rows[i].scope == Required && d in JsrNext(lock, order, order[i]) ==>
        exists j :: 0 <= j < |order| && rows[j].key == d && rows[j].scope == Required
  {
    hide SameFirst, JsrNext, Crawl.Reachable, KeysOf;
    var required := CrawlJsr(lock, direct);
    rows := Label(order, (set k | k in direct) + (set k | k in dev), required);
    r := AddEdges(edges, order, JsrStep(lock, order), purl);
    if SameFirst(KeysOf(lock.jsr), order) {
      SameFirstRequired(lock, order);
      forall i, d | 0 <= i < |order| && rows[i].scope == Required && d in JsrNext(lock, order, order[i])
        ensures exists j :: 0 <= j < |order| && rows[j].key == d && rows[j].scope == Required
      {
        NextIsKey(lock, order, order[i], d);
        var j :| 0 <= j < |order| && order[j] == d;
        assert rows[j].key == d;
      }
    }
  }

  lemma NextIsKey(lock: Lock, order: seq<string>, key: string, d: string)
    requires d in JsrNext(lock, order, key)
    ensures d in order
  {
    ResolveAllContents(lock, order, DepsOf(lock.jsr, key));
  }

  // -------------------------------------------------------------- an example

  const NEWER := "a@2"
  const OLDER := "a@1"
  const USER := "u@1"

  /** A lock whose two versions of one package are not in sorted order, and no pinned specifier. */
  const UNSORTED := Lock(map[], [(NEWER, []), (OLDER, []), (USER, ["a"])], [])

  /** The smallest failure: the edge of the required key u@1 leads to a@1, which the crawl did not reach. */
  lemma JsrEdgeToDev()
    ensures var order := [OLDER, NEWER, USER];
      && (forall k :: k in order <==> k in KeysOf(UNSORTED.jsr))
      && JsrNext(UNSORTED, order, USER) == [OLDER]
      && !Reached(UNSORTED, [USER], OLDER)
  {
    assert KeyName("a@2") == "a" && KeyName("a@1") == "a" && KeyName("u@1") == "u" by {
      ParseKey("a", "2");
      ParseKey("a", "1");
      ParseKey("u", "1");
      assert "a" + "@" + "2" == "a@2" && "a" + "@" + "1" == "a@1" && "u" + "@" + "1" == "u@1";
    }
    var keys := KeysOf(UNSORTED.jsr);
    KeysOfUnsorted();
    DepsOfUnsorted();
    assert SpecName(AsSpecifier("a")) == "a";
    hide KeyName, SpecName, AsSpecifier, DepsOf;
    var order := [OLDER, NEWER, USER];
    assert ["a"][1..] == [];
    assert FirstJsr(order, "a", None) == Some(OLDER) && FirstJsr(keys, "a", None) == Some(NEWER);
    hide FirstJsr;
    assert ResolveAll(UNSORTED, order, []) == [] && ResolveAll(UNSORTED, keys, []) == [];
    assert JsrNext(UNSORTED, order, USER) == [OLDER];
    var next := JsrStep(UNSORTED, keys);
    assert next(USER) == [NEWER] && next(NEWER) == [];
    if Reached(UNSORTED, [USER], OLDER) {
      var p :| Crawl.PathTo([USER], next, p, OLDER);
      Crawl.ClosedHoldsPath([USER], next, {USER, NEWER}, p, OLDER);
    }
  }

  lemma KeysOfUnsorted()
    ensures KeysOf(UNSORTED.jsr) == [NEWER, OLDER, USER]
  {
    var last: Dict<seq<string>> := [(USER, ["a"])];
    var two: Dict<seq<string>> := [(OLDER, []), (USER, ["a"])];
    assert last[1..] == [] && KeysOf(last) == [USER];
    assert two[1..] == last && KeysOf(two) == [OLDER, USER];
    assert UNSORTED.jsr[1..] == two;
  }

  lemma DepsOfUnsorted()
    ensures DepsOf(UNSORTED.jsr, USER) == ["a"] && DepsOf(UNSORTED.jsr, NEWER) == []
  {
    var d := UNSORTED.jsr;
    assert d[0].0 == NEWER && d[1].0 == OLDER && d[2].0 == USER;
    assert NEWER[0] == 'a' && OLDER[0] == 'a' && USER[0] == 'u';
    assert Find(d, USER) == 2 && Find(d, NEWER) == 0;
  }
}
