/**
 * The SBOM closure of a deno.lock: keys resolved, crawled, labelled, linked.
 */
module Sbom {
  import opened Text
  import opened OrderedDict
  import Crawl

  /** The parts of a lock file that are read, keys in file order. */
  datatype Lock = Lock(specifiers: map<string, string>, jsr: Dict<seq<string>>, npm: Dict<seq<string>>)

  function KeysOf<V>(d: Dict<V>): seq<string> {
    if d == [] then [] else [d[0].0] + KeysOf(d[1..])
  }

  function DepsOf(d: Dict<seq<string>>, key: string): seq<string> {
    match Get(d, key)
    case None => []
    case Some(deps) => deps
  }

  // -------------------------------------------------------------------- keys

  /** s.indexOf(c, from), -1 when c does not occur. */
  function IndexOf(s: string, c: char, from: nat): int {
    if from > |s| then -1
    else var i := IndexFrom(s, c, from); if i == |s| then -1 else i
  }

  /** The '@' between name and version; a scope starts with one of its own. */
  function AtIndex(key: string): (i: int)
    ensures -1 <= i < |key|
  {
    if key != "" && key[0] == '@' then IndexOf(key, '@', IndexOf(key, '/', 0) + 1) else IndexOf(key, '@', 0)
  }

  /** key.slice(0, at); without an '@' this drops the last character. */
  function KeyName(key: string): string {
    var at := AtIndex(key);
    if at >= 0 then key[..at] else if key == "" then "" else key[..|key| - 1]
  }

  /** key.slice(at + 1); without an '@' this is the whole key. */
  function JsrVersion(key: string): string {
    key[AtIndex(key) + 1..]
  }

  /** The version of an npm key stops at the first '_', where peer versions begin. */
  function NpmVersion(key: string): string {
    var v := key[AtIndex(key) + 1..];
    v[..Index(v, '_')]
  }

  /** A package name: plain, or a scope and a name with a '/' between them. */
  predicate PackageName(n: string) {
    && n != "" && (n[0] == '@' ==> '/' in n)
    && forall i :: 1 <= i < |n| ==> n[i] != '@'
  }

  /** Parsing name@version gives the name and the version, scoped or not. */
  lemma ParseKey(name: string, version: string)
    requires PackageName(name)
    ensures KeyName(name + "@" + version) == name && JsrVersion(name + "@" + version) == version
    ensures '_' !in version ==> NpmVersion(name + "@" + version) == version
    ensures forall peers :: '_' !in version ==> NpmVersion(name + "@" + (version + "_" + peers)) == version
  {
    KeyAt(name, version);
    assert (name + "@" + version)[|name| + 1..] == version;
    forall peers | '_' !in version
      ensures NpmVersion(name + "@" + (version + "_" + peers)) == version
    {
      KeyAt(name, version + "_" + peers);
      IndexAppend(version, '_', peers);
      assert (name + "@" + (version + "_" + peers))[|name| + 1..] == version + "_" + peers;
    }
  }

  lemma KeyAt(name: string, rest: string)
    requires PackageName(name)
    ensures AtIndex(name + "@" + rest) == |name|
  {
    var key := name + "@" + rest;
    assert forall i :: 0 <= i < |name| ==> key[i] == name[i];
    assert key[|name|] == '@';
    if name[0] == '@' {
      var k :| 0 <= k < |name| && name[k] == '/';
      assert IndexFrom(key, '/', 0) <= k;
    }
  }

  // --------------------------------------------------------------------- npm

  /** The keys of one package name, in order: what the index holds for it. */
  function WithName(keys: seq<string>, name: string): seq<string> {
    if keys == [] then []
    else (if KeyName(keys[0]) == name then [keys[0]] else []) + WithName(keys[1..], name)
  }

  lemma {:induction false} WithNameContents(keys: seq<string>, name: string)
    ensures forall k :: k in WithName(keys, name) <==> k in keys && KeyName(k) == name
  {
    hide KeyName;
    if keys != [] {
      WithNameContents(keys[1..], name);
      assert keys == [keys[0]] + keys[1..];
    }
  }

  lemma {:induction false} WithNameAppend(a: seq<string>, b: seq<string>, name: string)
    ensures WithName(a + b, name) == WithName(a, name) + WithName(b, name)
  {
    hide KeyName;
    if a == [] {
      assert a + b == b;
    } else {
      assert (a + b)[1..] == a[1..] + b;
      WithNameAppend(a[1..], b, name);
      Assoc(if KeyName(a[0]) == name then [a[0]] else [], WithName(a[1..], name), WithName(b, name));
    }
  }

  lemma WithNameNone(name: string)
    ensures WithName([], name) == []
  {
  }

  lemma WithNameOne(k: string, name: string)
    ensures WithName([k], name) == if KeyName(k) == name then [k] else []
  {
  }

  function Candidates(index: map<string, seq<string>>, name: string): seq<string> {
    if name in index then index[name] else []
  }

  method BuildIndex(keys: seq<string>) returns (index: map<string, seq<string>>)
    ensures forall n :: Candidates(index, n) == WithName(keys, n)
  {
    hide KeyName, WithName;
    index := map[];
    forall n ensures WithName(keys[..0], n) == [] {
      WithNameNone(n);
    }
    for i := 0 to |keys|
      invariant forall n :: Candidates(index, n) == WithName(keys[..i], n)
    {
      var name := KeyName(keys[i]);
      ghost var before := index;
      index := index[name := Candidates(index, name) + [keys[i]]];
      forall n ensures Candidates(index, n) == WithName(keys[..i + 1], n) {
        assert keys[..i + 1] == keys[..i] + [keys[i]];
        WithNameAppend(keys[..i], [keys[i]], n);
        WithNameOne(keys[i], n);
        assert WithName(keys[..i], n) + [] == WithName(keys[..i], n);
        assert Candidates(before, n) == WithName(keys[..i], n);
      }
    }
    assert keys[..|keys|] == keys;
  }

  /** The first key at or after i that has the version, or |keys|. */
  function FirstVersion(keys: seq<string>, version: string, i: nat): (n: nat)
    requires i <= |keys|
    ensures i <= n <= |keys|
    ensures n < |keys| ==> NpmVersion(keys[n]) == version
    ensures forall j :: i <= j < n ==> NpmVersion(keys[j]) != version
    decreases |keys| - i
  {
    if i == |keys| || NpmVersion(keys[i]) == version then i else FirstVersion(keys, version, i + 1)
  }

  /** The key a declared dependency resolves to: the pinned version if the lock has it, else the first of that name. */
  function ResolveNpm(lock: Lock, name: string, spec: string): Option<string> {
    Pick(WithName(KeysOf(lock.npm), name), Pinned(lock, name, spec))
  }

  function Pick(candidates: seq<string>, pin: Option<string>): Option<string> {
    var n := if pin.Some? then FirstVersion(candidates, pin.value, 0) else |candidates|;
    if n < |candidates| && candidates[n] != "" then Some(candidates[n])
    else if candidates == [] then None else Some(candidates[0])
  }

  predicate HasVersion(keys: seq<string>, version: string) {
    exists i :: 0 <= i < |keys| && NpmVersion(keys[i]) == version
  }

  /** The version the lock pins for a declared dependency, if any. */
  function Pinned(lock: Lock, name: string, spec: string): Option<string> {
    var id := "npm:" + name + "@" + spec;
    if id in lock.specifiers && lock.specifiers[id] != "" then Some(lock.specifiers[id]) else None
  }

  /** One of the candidates, of the pinned version when any of them has it; none only when there are none. */
  predicate Picked(candidates: seq<string>, pin: Option<string>, r: Option<string>) {
    && (r == None <==> candidates == [])
    && (r.Some? ==> r.value in candidates)
    && (r.Some? && pin.Some? && HasVersion(candidates, pin.value) ==> NpmVersion(r.value) == pin.value)
  }

  /**
   * A resolved key is a lock key of the name, and has the version the lock pins
   * for npm:name@spec when any key of the name has it; there is no result only
   * when no key has the name.
   */
  lemma ResolveNpmSound(lock: Lock, name: string, spec: string)
    requires "" !in KeysOf(lock.npm)
    ensures var id := "npm:" + name + "@" + spec; var r := ResolveNpm(lock, name, spec);
      && (r == None <==> forall k :: k in KeysOf(lock.npm) ==> KeyName(k) != name)
      && (r.Some? ==> r.value in KeysOf(lock.npm) && KeyName(r.value) == name)
      && (r.Some? && id in lock.specifiers && lock.specifiers[id] != ""
          && (exists k :: k in KeysOf(lock.npm) && KeyName(k) == name && NpmVersion(k) == lock.specifiers[id])
          ==> NpmVersion(r.value) == lock.specifiers[id])
    ensures Picked(WithName(KeysOf(lock.npm), name), Pinned(lock, name, spec), ResolveNpm(lock, name, spec))
  {
    var candidates := WithName(KeysOf(lock.npm), name);
    WithNameContents(KeysOf(lock.npm), name);
    var id := "npm:" + name + "@" + spec;
    assert id in lock.specifiers && lock.specifiers[id] != "" ==> Pinned(lock, name, spec) == Some(lock.specifiers[id]);
    hide KeyName, NpmVersion, WithName, KeysOf, Pinned;
    PickSound(candidates, Pinned(lock, name, spec));
    forall k | k in KeysOf(lock.npm) && KeyName(k) == name ensures HasVersion(candidates, NpmVersion(k)) {
      var i :| 0 <= i < |candidates| && candidates[i] == k;
    }
    assert candidates != [] ==> candidates[0] in candidates;
  }

  lemma PickSound(candidates: seq<string>, pin: Option<string>)
    requires "" !in candidates
    ensures Picked(candidates, pin, Pick(candidates, pin))
  {
    hide NpmVersion;
    if pin.Some? {
      var n := FirstVersion(candidates, pin.value, 0);
      assert HasVersion(candidates, pin.value) <==> n < |candidates|;
    }
  }

  function FlatCandidates(keys: seq<string>, deps: seq<string>): seq<string> {
    if deps == [] then [] else WithName(keys, deps[0]) + FlatCandidates(keys, deps[1..])
  }

  /** The keys an npm key depends on: every key of every dependency's name. */
  function NpmNext(lock: Lock, key: string): seq<string> {
    FlatCandidates(KeysOf(lock.npm), DepsOf(lock.npm, key))
  }

  lemma {:induction false} FlatCandidatesContents(keys: seq<string>, deps: seq<string>)
    ensures forall k :: k in FlatCandidates(keys, deps) <==> k in keys && KeyName(k) in deps
  {
    if deps != [] {
      FlatCandidatesContents(keys, deps[1..]);
      WithNameContents(keys, deps[0]);
      assert deps == [deps[0]] + deps[1..];
    }
  }

  // --------------------------------------------------------------------- JSR

  const JSR := "jsr:"

  /** The package name of a specifier such as jsr:@scope/name@range. */
  function SpecName(spec: string): string {
    var raw := if JSR <= spec then spec[|JSR|..] else spec;
    var at := AtIndex(raw);
    if at == -1 then raw else raw[..at]
  }

  /** A specifier names its package, with a range behind an '@' or without one, with the scheme or without. */
  lemma SpecifierRead(n: string, range: string)
    requires PackageName(n) && !(JSR <= n)
    ensures SpecName(JSR + (n + "@" + range)) == n && SpecName(JSR + n) == n
    ensures !(JSR <= n + "@" + range) ==> SpecName(n + "@" + range) == n
    ensures SpecName(n) == n
  {
    var ranged := n + "@" + range;
    KeyAt(n, range);
    assert ranged[..|n|] == n;
    NameAlone(n);
    assert (JSR + ranged)[|JSR|..] == ranged && (JSR + n)[|JSR|..] == n;
    assert JSR <= JSR + ranged && JSR <= JSR + n;
    hide AtIndex, PackageName;
  }

  lemma NameAlone(n: string)
    requires PackageName(n)
    ensures AtIndex(n) == -1
  {
    if n[0] == '@' {
      var slash := IndexFrom(n, '/', 0);
      assert slash < |n|;
      assert IndexFrom(n, '@', slash + 1) == |n|;
    } else {
      assert IndexFrom(n, '@', 0) == |n|;
    }
  }

  /** A dependency is written with the scheme or without it. */
  lemma SpecifierOf(dep: string)
    ensures AsSpecifier("jsr:" + dep) == "jsr:" + dep
    ensures !("jsr:" <= dep) ==> AsSpecifier(dep) == "jsr:" + dep
  {
    assert "jsr:" <= "jsr:" + dep;
  }

  function FirstJsr(keys: seq<string>, name: string, version: Option<string>): Option<string> {
    if keys == [] then None
    else if KeyName(keys[0]) == name && (version.Some? ==> JsrVersion(keys[0]) == version.value) then Some(keys[0])
    else FirstJsr(keys[1..], name, version)
  }

  function ResolveJsr(lock: Lock, keys: seq<string>, spec: string): Option<string> {
    var name := SpecName(spec);
    var exact := if spec in lock.specifiers && lock.specifiers[spec] != ""
                 then FirstJsr(keys, name, Some(lock.specifiers[spec])) else None;
    if exact.Some? && exact.value != "" then exact else FirstJsr(keys, name, None)
  }

  function AsSpecifier(dep: string): string {
    if JSR <= dep then dep else JSR + dep
  }

  function ResolveAll(lock: Lock, keys: seq<string>, deps: seq<string>): seq<string> {
    if deps == [] then []
    else
      var r := ResolveJsr(lock, keys, AsSpecifier(deps[0]));
      (if r.Some? && r.value != "" then [r.value] else []) + ResolveAll(lock, keys, deps[1..])
  }

  /** The keys a JSR key depends on, with the key list in a given order. */
  function JsrNext(lock: Lock, order: seq<string>, key: string): seq<string> {
    ResolveAll(lock, order, DepsOf(lock.jsr, key))
  }

  lemma {:induction false} FirstJsrContents(keys: seq<string>, name: string, version: Option<string>)
    ensures FirstJsr(keys, name, version).Some? ==> FirstJsr(keys, name, version).value in keys
  {
    if keys != [] {
      FirstJsrContents(keys[1..], name, version);
    }
  }

  /** Some key has the name, and the version where one is asked for. */
  predicate JsrKeyOf(k: string, name: string, version: Option<string>) {
    KeyName(k) == name && (version.Some? ==> JsrVersion(k) == version.value)
  }

  /** r is the first of the keys that has the name and the version; none has if there is no r. */
  predicate FirstOf(keys: seq<string>, name: string, version: Option<string>, r: Option<string>) {
    match r
    case None => forall i :: 0 <= i < |keys| ==> !JsrKeyOf(keys[i], name, version)
    case Some(k) =>
      exists i :: 0 <= i < |keys| && keys[i] == k && JsrKeyOf(k, name, version)
                  && forall j :: 0 <= j < i ==> !JsrKeyOf(keys[j], name, version)
  }

  lemma {:induction false} FirstJsrIs(keys: seq<string>, name: string, version: Option<string>)
    ensures FirstOf(keys, name, version, FirstJsr(keys, name, version))
  {
    if keys != [] {
      FirstJsrIs(keys[1..], name, version);
      assert FirstJsr(keys, name, version)
          == if JsrKeyOf(keys[0], name, version) then Some(keys[0]) else FirstJsr(keys[1..], name, version);
      hide JsrKeyOf, FirstJsr;
      if !JsrKeyOf(keys[0], name, version) {
        FirstOfRest(keys, name, version, FirstJsr(keys[1..], name, version));
      }
    }
  }

  lemma FirstOfRest(keys: seq<string>, name: string, version: Option<string>, r: Option<string>)
    requires keys != [] && !JsrKeyOf(keys[0], name, version) && FirstOf(keys[1..], name, version, r)
    ensures FirstOf(keys, name, version, r)
  {
    hide JsrKeyOf;
    var more := keys[1..];
    assert forall i :: 1 <= i < |keys| ==> keys[i] == more[i - 1];
    if r.Some? {
      var i :| 0 <= i < |more| && more[i] == r.value && JsrKeyOf(r.value, name, version)
               && forall j :: 0 <= j < i ==> !JsrKeyOf(more[j], name, version);
      assert keys[i + 1] == r.value;
    }
  }

  /** What a specifier of the package n resolves to: pinned by the lock for the whole specifier, or by name alone. */
  predicate ResolvesTo(lock: Lock, keys: seq<string>, spec: string, n: string, r: Option<string>) {
    if spec in lock.specifiers && lock.specifiers[spec] != ""
       && (exists i :: 0 <= i < |keys| && JsrKeyOf(keys[i], n, Some(lock.specifiers[spec])))
    then FirstOf(keys, n, Some(lock.specifiers[spec]), r)
    else FirstOf(keys, n, None, r)
  }

  lemma ResolvesByName(lock: Lock, keys: seq<string>, spec: string)
    requires "" !in keys
    ensures ResolvesTo(lock, keys, spec, SpecName(spec), ResolveJsr(lock, keys, spec))
  {
    var n := SpecName(spec);
    FirstJsrIs(keys, n, None);
    FirstJsrContents(keys, n, None);
    hide SpecName, JsrKeyOf, FirstJsr;
    if spec in lock.specifiers && lock.specifiers[spec] != "" {
      var pin := Some(lock.specifiers[spec]);
      FirstJsrIs(keys, n, pin);
      FirstJsrContents(keys, n, pin);
    }
  }

  /**
   * A specifier with a package name, with or without a range, resolves to the
   * first key of the name and of the version the lock pins for it, if some key has
   * both; otherwise to the first key of the name, and to nothing only when no key
   * has the name.
   */
  lemma ResolveJsrSound(lock: Lock, keys: seq<string>, n: string, range: string)
    requires PackageName(n) && !(JSR <= n) && "" !in keys
    ensures var spec := "jsr:" + (n + "@" + range); ResolvesTo(lock, keys, spec, n, ResolveJsr(lock, keys, spec))
    ensures ResolvesTo(lock, keys, "jsr:" + n, n, ResolveJsr(lock, keys, "jsr:" + n))
  {
    SpecifierRead(n, range);
    hide SpecName, ResolvesTo, ResolveJsr, PackageName;
    ResolvesByName(lock, keys, "jsr:" + (n + "@" + range));
    ResolvesByName(lock, keys, "jsr:" + n);
  }

  /** One dependency of a key leads to what its specifier resolves to. */
  lemma NextIs(lock: Lock, order: seq<string>, key: string, k: string)
    requires "" !in order
    ensures k in JsrNext(lock, order, key) <==>
      exists i :: 0 <= i < |DepsOf(lock.jsr, key)|
                  && ResolveJsr(lock, order, AsSpecifier(DepsOf(lock.jsr, key)[i])) == Some(k)
  {
    ResolveAllIs(lock, order, DepsOf(lock.jsr, key), k);
  }

  ghost predicate SomeResolves(lock: Lock, order: seq<string>, deps: seq<string>, k: string) {
    exists i :: 0 <= i < |deps| && ResolveJsr(lock, order, AsSpecifier(deps[i])) == Some(k)
  }

  lemma {:induction false} ResolveAllIs(lock: Lock, order: seq<string>, deps: seq<string>, k: string)
    requires "" !in order
    ensures k in ResolveAll(lock, order, deps) <==> SomeResolves(lock, order, deps, k)
  {
    if deps != [] {
      ResolveAllIs(lock, order, deps[1..], k);
      ResolvedIsThere(lock, order, AsSpecifier(deps[0]));
      hide ResolveJsr, AsSpecifier;
      SomeFirst(lock, order, deps, k);
    }
  }

  lemma SomeFirst(lock: Lock, order: seq<string>, deps: seq<string>, k: string)
    requires deps != []
    ensures SomeResolves(lock, order, deps, k) <==>
      ResolveJsr(lock, order, AsSpecifier(deps[0])) == Some(k) || SomeResolves(lock, order, deps[1..], k)
  {
    hide ResolveJsr, AsSpecifier;
    assert forall i :: 1 <= i < |deps| ==> deps[i] == deps[1..][i - 1];
    assert forall i :: 0 <= i < |deps| - 1 ==> deps[1..][i] == deps[i + 1];
  }

  lemma ResolvedIsThere(lock: Lock, keys: seq<string>, spec: string)
    ensures ResolveJsr(lock, keys, spec).Some? ==> ResolveJsr(lock, keys, spec).value in keys
  {
    FirstJsrContents(keys, SpecName(spec), None);
    if spec in lock.specifiers {
      FirstJsrContents(keys, SpecName(spec), Some(lock.specifiers[spec]));
    }
  }

  lemma {:induction false} ResolveAllContents(lock: Lock, keys: seq<string>, deps: seq<string>)
    ensures forall k :: k in ResolveAll(lock, keys, deps) ==> k in keys
  {
    if deps != [] {
      ResolveAllContents(lock, keys, deps[1..]);
      var spec := AsSpecifier(deps[0]);
      FirstJsrContents(keys, SpecName(spec), None);
      if spec in lock.specifiers {
        FirstJsrContents(keys, SpecName(spec), Some(lock.specifiers[spec]));
      }
    }
  }

  // ------------------------------------------------------------------- labels

  datatype Scope = Required | Dev

  datatype Row = Row(key: string, direct: bool, scope: Scope)

  ghost predicate Requested(lock: Lock, requests: seq<(string, string)>, k: string) {
    k != "" && exists i :: 0 <= i < |requests| && ResolveNpm(lock, requests[i].0, requests[i].1) == Some(k)
  }

  /** The lock keys the declared dependencies resolve to. */
  method DirectNpm(lock: Lock, requests: seq<(string, string)>) returns (direct: seq<string>)
    requires "" !in KeysOf(lock.npm)
    ensures forall k :: k in direct <==> Requested(lock, requests, k)
    ensures forall k :: k in direct ==> k in KeysOf(lock.npm)
  {
    hide ResolveNpm, Picked, KeysOf, KeyName, Requested;
    direct := [];
    RequestedNone(lock);
    for i := 0 to |requests|
      invariant forall k :: k in direct <==> Requested(lock, requests[..i], k)
      invariant forall k :: k in direct ==> k in KeysOf(lock.npm)
    {
      var r := ResolveNpm(lock, requests[i].0, requests[i].1);
      ResolveNpmSound(lock, requests[i].0, requests[i].1);
      RequestedMore(lock, requests[..i], requests[i]);
      assert requests[..i + 1] == requests[..i] + [requests[i]];
      if r.Some? && r.value != "" && r.value !in direct {
        direct := direct + [r.value];
      }
    }
    assert requests[..|requests|] == requests;
  }

  lemma RequestedNone(lock: Lock)
    ensures forall k :: !Requested(lock, [], k)
  {
  }

  lemma RequestedMore(lock: Lock, requests: seq<(string, string)>, q: (string, string))
    ensures forall k :: Requested(lock, requests + [q], k) <==>
      Requested(lock, requests, k) || (k != "" && ResolveNpm(lock, q.0, q.1) == Some(k))
  {
    hide ResolveNpm;
    var all := requests + [q];
    assert all[|requests|] == q && forall i :: 0 <= i < |requests| ==> all[i] == requests[i];
  }

  /** The set of keys of a lock section that are reachable from the direct ones. */
  method CrawlNpm(lock: Lock, direct: seq<string>) returns (required: set<string>)
    requires forall k :: k in direct ==> k in KeysOf(lock.npm)
    ensures forall k :: k in required <==> Crawl.Reachable(direct, k => NpmNext(lock, k), k)
  {
    var keys := KeysOf(lock.npm);
    forall a: string ensures forall b :: b in NpmNext(lock, a) ==> b in keys {
      FlatCandidatesContents(keys, DepsOf(lock.npm, a));
    }
    required := Crawl.Run(direct, k => NpmNext(lock, k), set k | k in keys);
  }

  /** The dependency step with the key list in a given order. */
  function JsrStep(lock: Lock, order: seq<string>): string -> seq<string> {
    k => JsrNext(lock, order, k)
  }

  method CrawlJsr(lock: Lock, direct: seq<string>) returns (required: set<string>)
    requires forall k :: k in direct ==> k in KeysOf(lock.jsr)
    ensures forall k :: k in required <==> Crawl.Reachable(direct, JsrStep(lock, KeysOf(lock.jsr)), k)
  {
    var keys := KeysOf(lock.jsr);
    forall a: string ensures forall b :: b in JsrNext(lock, keys, a) ==> b in keys {
      ResolveAllContents(lock, keys, DepsOf(lock.jsr, a));
    }
    required := Crawl.Run(direct, JsrStep(lock, keys), set k | k in keys);
  }

  /** One component row for each key, in the order given. */
  method Label(order: seq<string>, direct: set<string>, required: set<string>) returns (rows: seq<Row>)
    ensures |rows| == |order|
    ensures forall i :: 0 <= i < |order| ==>
      rows[i].key == order[i] && (rows[i].direct <==> order[i] in direct)
      && (rows[i].scope == Required <==> order[i] in required)
  {
    rows := [];
    for i := 0 to |order|
      invariant |rows| == i
      invariant forall j :: 0 <= j < i ==>
        rows[j].key == order[j] && (rows[j].direct <==> order[j] in direct)
        && (rows[j].scope == Required <==> order[j] in required)
    {
      rows := rows + [Row(order[i], order[i] in direct, if order[i] in required then Required else Dev)];
    }
  }

  // -------------------------------------------------------------------- edges

  type Edges = map<string, set<string>>

  predicate HasEdge(e: Edges, from: string, to: string) {
    from in e && to in e[from]
  }

  method AddEdge(e: Edges, from: string, to: string) returns (r: Edges)
    ensures forall f, t :: HasEdge(r, f, t) <==> HasEdge(e, f, t) || (f == from && t == to)
  {
    var bucket := if from in e then e[from] else {};
    r := e[from := bucket + {to}];
  }

  method AddEdgesOf(e: Edges, from: string, targets: seq<string>, purl: string -> string) returns (r: Edges)
    ensures forall f, t :: HasEdge(r, f, t) <==>
      HasEdge(e, f, t) || (f == from && exists d :: d in targets && t == purl(d))
  {
    r := e;
    for i := 0 to |targets|
      invariant forall f, t :: HasEdge(r, f, t) <==>
        HasEdge(e, f, t) || (f == from && exists d :: d in targets[..i] && t == purl(d))
    {
      assert targets[..i + 1] == targets[..i] + [targets[i]];
      r := AddEdge(r, from, purl(targets[i]));
    }
    assert targets[..|targets|] == targets;
  }

  ghost predicate DependsVia(keys: seq<string>, next: string -> seq<string>, purl: string -> string, f: string, t: string) {
    exists k, d :: k in keys && d in next(k) && f == purl(k) && t == purl(d)
  }

  /** The recorded edges are exactly the ones from each key to each key it depends on, in package-URL terms. */
  method AddEdges(e: Edges, keys: seq<string>, next: string -> seq<string>, purl: string -> string) returns (r: Edges)
    ensures forall f, t :: HasEdge(r, f, t) <==> HasEdge(e, f, t) || DependsVia(keys, next, purl, f, t)
  {
    r := e;
    for i := 0 to |keys|
      invariant forall f, t :: HasEdge(r, f, t) <==> HasEdge(e, f, t) || DependsVia(keys[..i], next, purl, f, t)
    {
      ghost var before := r;
      r := AddEdgesOf(r, purl(keys[i]), next(keys[i]), purl);
      assert keys[..i + 1] == keys[..i] + [keys[i]];
    }
    assert keys[..|keys|] == keys;
  }

  // ------------------------------------------------- labels and edges together

  /**
   * npm: whatever a required key has an edge to is a lock key labelled required
   * as well, and exactly the keys reachable from the direct ones are.
   */
  method NpmComponents(lock: Lock, direct: seq<string>, dev: seq<string>, order: seq<string>, edges: Edges,
                       purl: string -> string) returns (rows: seq<Row>, r: Edges)
    requires forall k :: k in direct ==> k in KeysOf(lock.npm)
    requires forall k :: k in order <==> k in KeysOf(lock.npm)
    ensures |rows| == |order| && forall i :: 0 <= i < |order| ==> rows[i].key == order[i]
    ensures forall i :: 0 <= i < |order| ==> (rows[i].direct <==> order[i] in direct || order[i] in dev)
    ensures forall i :: 0 <= i < |order| ==>
      (rows[i].scope == Required <==> Crawl.Reachable(direct, k => NpmNext(lock, k), order[i]))
    ensures forall f, t :: HasEdge(r, f, t) <==> HasEdge(edges, f, t) || DependsVia(order, k => NpmNext(lock, k), purl, f, t)
    ensures forall i, d :: 0 <= i < |order| && rows[i].scope == Required && d in NpmNext(lock, order[i]) ==>
      exists j :: 0 <= j < |order| && rows[j].key == d && rows[j].scope == Required
  {
    var next := k => NpmNext(lock, k);
    var required := CrawlNpm(lock, direct);
    rows := Label(order, (set k | k in direct) + (set k | k in dev), required);
    r := AddEdges(edges, order, next, purl);
    forall i, d | 0 <= i < |order| && rows[i].scope == Required && d in NpmNext(lock, order[i])
      ensures exists j :: 0 <= j < |order| && rows[j].key == d && rows[j].scope == Required
    {
      Crawl.NextReachable(direct, next, order[i], d);
      FlatCandidatesContents(KeysOf(lock.npm), DepsOf(lock.npm, order[i]));
      var j :| 0 <= j < |order| && order[j] == d;
      assert rows[j].key == d;
    }
  }
}
