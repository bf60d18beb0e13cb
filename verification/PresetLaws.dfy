/** What preset-apply makes of a file: the preset's values, and the file's own where the preset has none. */
module PresetLaws {
  import opened Text
  import opened OrderedDict
  import opened CockpitConf
  import opened ConfLaws
  import opened Overrides
  import opened ThemeEngine
  import opened ThemeRuns

  // --------------------------------------------------- dictionaries, updated

  lemma {:induction false} UpdateLookup(s: Section, kvs: Section, k: string)
    requires Distinct(s) && Distinct(kvs)
    ensures Distinct(Update(s, kvs))
    ensures Get(Update(s, kvs), k) == if Has(kvs, k) then Get(kvs, k) else Get(s, k)
    decreases |kvs|
  {
    if kvs != [] {
      var (k0, v0) := kvs[0];
      PutDistinct(s, k0, v0);
      GetPut(s, k0, v0, k);
      FirstBinding(kvs, k);
      hide Get, Has, Put, Distinct;
      UpdateLookup(Put(s, k0, v0), kvs[1..], k);
    }
  }

  lemma FirstBinding<V>(d: Dict<V>, k: string)
    requires d != [] && Distinct(d)
    ensures Distinct(d[1..])
    ensures Has(d, k) <==> d[0].0 == k || Has(d[1..], k)
    ensures Get(d, k) == if d[0].0 == k then Some(d[0].1) else Get(d[1..], k)
    ensures Has(d[1..], k) ==> d[0].0 != k
  {
    var i := Find(d[1..], k);
    assert i < |d| - 1 ==> d[1..][i] == d[i + 1];
  }

  /** Distinct section names, and distinct keys in every section. */
  ghost predicate DistinctConf(c: Conf) {
    Distinct(c) && forall i :: 0 <= i < |c| ==> Distinct(c[i].1)
  }

  lemma PutSectionDistinct(c: Conf, s: string, kvs: Section)
    requires DistinctConf(c) && Distinct(kvs)
    ensures DistinctConf(Put(c, s, kvs))
  {
    hide Distinct;
    PutDistinct(c, s, kvs);
    PutAt(c, s, kvs);
  }

  lemma SectionOfDistinct(c: Conf, s: string)
    requires DistinctConf(c)
    ensures Distinct(SectionOf(c, s))
  {
    hide Distinct;
    NothingDistinct<string>();
  }

  lemma NothingDistinct<V>()
    ensures Distinct<V>([])
  {
  }

  lemma LookupPut(c: Conf, s: string, kvs: Section, s': string, k: string)
    requires DistinctConf(c)
    ensures Lookup(Put(c, s, kvs), s', k) == if s' == s then Get(kvs, k) else Lookup(c, s', k)
  {
    GetPut(c, s, kvs, s');
  }

  lemma LookupFirst(p: Conf, s: string, k: string)
    requires p != [] && DistinctConf(p)
    ensures DistinctConf(p[1..])
    ensures Lookup(p, s, k) == if p[0].0 == s then Get(p[0].1, k) else Lookup(p[1..], s, k)
    ensures p[0].0 == s ==> Lookup(p[1..], s, k) == None
  {
    FirstBinding(p, s);
    assert Get<string>([], k) == None;
    assert forall i :: 0 <= i < |p| - 1 ==> p[1..][i] == p[i + 1];
    hide Distinct;
  }

  /** The merge holds the preset's value where the preset has one, and the old value elsewhere. */
  lemma {:induction false} MergeLookup(c: Conf, p: Conf, s: string, k: string)
    requires DistinctConf(c) && DistinctConf(p)
    ensures DistinctConf(Merge(c, p))
    ensures Lookup(Merge(c, p), s, k) == if Lookup(p, s, k).Some? then Lookup(p, s, k) else Lookup(c, s, k)
    decreases |p|
  {
    if p == [] {
      NoLookup(s, k);
    } else {
      var (s0, kvs) := p[0];
      var was := SectionOf(c, s0);
      SectionOfDistinct(c, s0);
      UpdateLookup(was, kvs, k);
      LookupFirst(p, s, k);
      LookupPut(c, s0, Update(was, kvs), s, k);
      PutSectionDistinct(c, s0, Update(was, kvs));
      assert Has(kvs, k) <==> Get(kvs, k).Some?;
      assert s == s0 ==> Lookup(c, s, k) == Get(was, k);
      hide Get, Has, Put, DistinctConf, Lookup, Update, SectionOf;
      MergeLookup(Put(c, s0, Update(was, kvs)), p[1..], s, k);
    }
  }

  lemma NoLookup(s: string, k: string)
    ensures Lookup([], s, k) == None
  {
  }

  /** The merge has the sections of both. */
  lemma {:induction false} MergeSections(c: Conf, p: Conf, s: string)
    requires DistinctConf(c) && DistinctConf(p)
    ensures Has(Merge(c, p), s) <==> Has(c, s) || Has(p, s)
    decreases |p|
  {
    if p != [] {
      var (s0, kvs) := p[0];
      var was := SectionOf(c, s0);
      SectionOfDistinct(c, s0);
      UpdateLookup(was, kvs, "");
      FirstBinding(p, s);
      LookupFirst(p, s, "");
      GetPut(c, s0, Update(was, kvs), s);
      PutSectionDistinct(c, s0, Update(was, kvs));
      assert forall d: Conf :: Has(d, s) <==> Get(d, s).Some?;
      hide Get, Put, DistinctConf, Lookup, Update, SectionOf, Has;
      MergeSections(Put(c, s0, Update(was, kvs)), p[1..], s);
    }
  }

  // ------------------------------------------------------------ the file after

  lemma PresetsDistinct()
    ensures forall p :: p in PRESETS ==> DistinctConf(p.conf)
  {
    forall i | 0 <= i < |PRESETS| ensures DistinctConf(PRESETS[i].conf) {
      assert i == 0 || i == 1 || i == 2 || i == 3 || i == 4 || i == 5;
    }
  }

  lemma OkDistinct(c: Conf)
    requires ConfOk(c)
    ensures DistinctConf(c)
  {
  }

  /** Each entry of the file that the preset leaves alone can be written. */
  ghost predicate KeptWritable(c: Conf, p: Conf) {
    forall s, k :: Lookup(p, s, k) == None && Lookup(c, s, k).Some? ==> EntryOk(k, Lookup(c, s, k).value)
  }

  lemma EntryLookup(c: Conf, i: nat, j: nat)
    requires DistinctConf(c) && i < |c| && j < |c[i].1|
    ensures Lookup(c, c[i].0, c[i].1[j].0) == Some(c[i].1[j].1)
  {
    FindAt(c, i);
    FindAt(c[i].1, j);
  }

  lemma PresetEntry(p: Conf, s: string, k: string)
    requires PresetConfOk(p) && Lookup(p, s, k).Some?
    ensures EntryOk(k, Lookup(p, s, k).value)
  {
    var i := Find(p, s);
    assert PresetSectionOk(p[i].1);
    assert p[i].1[Find(p[i].1, k)] == (k, Lookup(p, s, k).value);
  }

  lemma KeptIsWritable(c: Conf, p: Conf)
    requires ConfOk(c) && PresetConfOk(p) && DistinctConf(p)
    ensures Writable(Merge(c, p)) <==> KeptWritable(c, p)
  {
    var m := Merge(c, p);
    OkDistinct(c);
    MergeOk(c, p);
    MergeLookup(c, p, "", "");
    hide EntryOk, Merge, Lookup, PresetConfOk;
    if KeptWritable(c, p) {
      forall i, j | 0 <= i < |m| && 0 <= j < |m[i].1| ensures EntryOk(m[i].1[j].0, m[i].1[j].1) {
        var s, k := m[i].0, m[i].1[j].0;
        EntryLookup(m, i, j);
        MergeLookup(c, p, s, k);
        if Lookup(p, s, k).Some? {
          PresetEntry(p, s, k);
        }
      }
      AllEntries(m);
    }
    if Writable(m) {
      forall s, k | Lookup(p, s, k) == None && Lookup(c, s, k).Some? ensures EntryOk(k, Lookup(c, s, k).value) {
        MergeLookup(c, p, s, k);
        LookupEntry(m, s, k);
      }
    }
  }

  lemma AllEntries(m: Conf)
    requires ConfOk(m) && forall i, j :: 0 <= i < |m| && 0 <= j < |m[i].1| ==> EntryOk(m[i].1[j].0, m[i].1[j].1)
    ensures Writable(m)
  {
    hide EntryOk;
  }

  lemma LookupEntry(m: Conf, s: string, k: string)
    requires Writable(m) && Lookup(m, s, k).Some?
    ensures EntryOk(k, Lookup(m, s, k).value)
  {
    hide EntryOk;
    var i := Find(m, s);
    assert m[i].0 == s && SectionWritable(m[i].1);
    var j := Find(m[i].1, k);
    assert m[i].1[j] == (k, Lookup(m, s, k).value);
  }

  /** The preset's values, and those of the file where the preset has none. */
  ghost predicate PresetOver(after: Conf, c: Conf, p: Conf) {
    forall s, k :: Lookup(after, s, k) == if Lookup(p, s, k).Some? then Lookup(p, s, k) else Lookup(c, s, k)
  }

  lemma MergeRead(c: Conf, p: Conf)
    requires ConfOk(c) && PresetConfOk(p) && DistinctConf(p) && KeptWritable(c, p)
    ensures Parse(Serialize(Merge(c, p))) == Merge(c, p) && PresetOver(Merge(c, p), c, p)
  {
    hide Lookup, KeptWritable, Merge, Writable, ConfOk, DistinctConf, PresetConfOk, Parse, Serialize;
    KeptIsWritable(c, p);
    MergeOk(c, p);
    OkReads(Merge(c, p));
    OkDistinct(c);
    forall s, k ensures Lookup(Merge(c, p), s, k) == if Lookup(p, s, k).Some? then Lookup(p, s, k) else Lookup(c, s, k) {
      MergeLookup(c, p, s, k);
    }
  }

  // --------------------------------------------------- what the file must allow

  /** The section and key of every entry. */
  function KeysIn(n: string, kvs: Section): set<(string, string)> {
    if kvs == [] then {} else {(n, kvs[0].0)} + KeysIn(n, kvs[1..])
  }

  function Places(c: Conf): set<(string, string)> {
    if c == [] then {} else KeysIn(c[0].0, c[0].1) + Places(c[1..])
  }

  lemma {:induction false} KeysInAre(n: string, kvs: Section, s: string, k: string)
    requires Distinct(kvs)
    ensures (s, k) in KeysIn(n, kvs) <==> s == n && Get(kvs, k).Some?
    ensures |KeysIn(n, kvs)| == |kvs|
  {
    if kvs != [] {
      FirstBinding(kvs, k);
      FirstBinding(kvs, kvs[0].0);
      KeysInAre(n, kvs[1..], s, k);
      KeysInAre(n, kvs[1..], n, kvs[0].0);
    }
  }

  lemma {:induction false} PlacesAre(c: Conf, s: string, k: string)
    requires DistinctConf(c)
    ensures (s, k) in Places(c) <==> Lookup(c, s, k).Some?
  {
    if c == [] {
      NoLookup(s, k);
    } else {
      LookupFirst(c, s, k);
      KeysInAre(c[0].0, c[0].1, s, k);
      hide Lookup, Get;
      PlacesAre(c[1..], s, k);
    }
  }

  lemma {:induction false} PlacesCount(c: Conf)
    requires DistinctConf(c)
    ensures |Places(c)| == Total(c)
  {
    if c != [] {
      var n := c[0].0;
      LookupFirst(c, n, "");
      KeysInAre(n, c[0].1, n, "");
      PlacesCount(c[1..]);
      forall x | x in KeysIn(n, c[0].1) ensures x !in Places(c[1..]) {
        KeysInAre(n, c[0].1, x.0, x.1);
        LookupFirst(c, n, x.1);
        PlacesAre(c[1..], x.0, x.1);
      }
      hide DistinctConf, Lookup, Get;
      assert KeysIn(n, c[0].1) !! Places(c[1..]);
    }
  }

  /** Two dictionaries with the same keys hold equally many entries. */
  lemma SameTotal(a: Conf, b: Conf)
    requires DistinctConf(a) && DistinctConf(b)
    requires forall s, k :: Lookup(a, s, k) == Lookup(b, s, k)
    ensures Total(a) == Total(b)
  {
    hide Lookup, DistinctConf;
    forall x ensures x in Places(a) <==> x in Places(b) {
      PlacesAre(a, x.0, x.1);
      PlacesAre(b, x.0, x.1);
    }
    assert Places(a) == Places(b);
    PlacesCount(a);
    PlacesCount(b);
  }

  /** When no entry of a well-formed dictionary is lost in writing, all can be written. */
  lemma NothingLost(m: Conf)
    requires ConfOk(m) && forall s, k :: Lookup(Parse(Serialize(m)), s, k) == Lookup(m, s, k)
    ensures Writable(m)
  {
    var r := Parse(Serialize(m));
    ParseShape(Serialize(m));
    OkDistinct(m);
    OkDistinct(r);
    SameTotal(r, m);
    ConfOkInMemory(m);
    ParseSerialized(m);
    ParseFromTotal(SectionLines(m), [], "", []);
    OkCounts(m);
    hide ConfOk, Lookup, Parse, Serialize, Writable, CountEntries, InMemory;
  }

  lemma OkCounts(m: Conf)
    requires ConfOk(m)
    ensures CountEntries(SectionLines(m)) == Total(m) ==> Writable(m)
    ensures CountEntries(SectionLines(m)) <= Total(m)
  {
    hide NameOk, CountEntries, Writable, SectionLines;
    assert forall i :: 0 <= i < |m| ==> NameOk(m[i].0) && KeysOk(m[i].1);
    CountSections(m);
  }

  lemma PresetGood(id: string)
    requires FindPreset(0, id).Some?
    ensures PresetConfOk(FindPreset(0, id).value.conf) && DistinctConf(FindPreset(0, id).value.conf)
  {
    PresetsOk();
    PresetsDistinct();
    hide PRESETS, PresetConfOk, DistinctConf;
    assert FindPreset(0, id).value in PRESETS;
    hide FindPreset;
    PresetOkConf(FindPreset(0, id).value);
  }

  lemma PresetOkConf(p: Preset)
    requires PresetOk(p)
    ensures PresetConfOk(p.conf)
  {
  }

  lemma PresetStep(f: Files, id: string, cssWritable: bool)
    requires FindPreset(0, id).Some?
    ensures TextOf(Step(f, Command.PresetApply(id, true, cssWritable)).conf)
         == Serialize(Merge(Parse(TextOf(f.conf)), FindPreset(0, id).value.conf))
  {
    hide PRESETS, FindPreset, Parse, Serialize, Merge, PresetText;
  }

  /**
   * After preset-apply has written cockpit.conf, a get of any key gives the
   * preset's value where it has one and the earlier value elsewhere, if and only
   * if the entries the preset leaves alone can be written.
   */
  lemma PresetRead(f: Files, id: string, cssWritable: bool)
    requires FindPreset(0, id).Some?
    ensures
      var after := Step(f, Command.PresetApply(id, true, cssWritable));
      PresetOver(Parse(TextOf(after.conf)), Parse(TextOf(f.conf)), FindPreset(0, id).value.conf)
      <==> KeptWritable(Parse(TextOf(f.conf)), FindPreset(0, id).value.conf)
  {
    hide *;
    PresetGood(id);
    PresetStep(f, id, cssWritable);
    ParseShape(TextOf(f.conf));
    var c, p := Parse(TextOf(f.conf)), FindPreset(0, id).value.conf;
    if KeptWritable(c, p) {
      MergeRead(c, p);
    }
    if PresetOver(Parse(Serialize(Merge(c, p))), c, p) {
      OverNeeds(c, p);
    }
  }

  lemma OverNeeds(c: Conf, p: Conf)
    requires ConfOk(c) && PresetConfOk(p) && DistinctConf(p) && PresetOver(Parse(Serialize(Merge(c, p))), c, p)
    ensures KeptWritable(c, p)
  {
    hide Lookup, KeptWritable, Merge, Writable, ConfOk, DistinctConf, PresetConfOk, Parse, Serialize;
    MergeOk(c, p);
    OkDistinct(c);
    forall s, k ensures Lookup(Parse(Serialize(Merge(c, p))), s, k) == Lookup(Merge(c, p), s, k) {
      MergeLookup(c, p, s, k);
    }
    NothingLost(Merge(c, p));
    KeptIsWritable(c, p);
  }

  /** The presets by their values: midnight makes the style dark whatever it was. */
  lemma Midnight(f: Files)
    requires KeptWritable(Parse(TextOf(f.conf)), [("Brand", [("Color", "danger")]), ("Theme", [("style", "dark")])])
    ensures
      var after := Parse(TextOf(Step(f, Command.PresetApply("midnight", true, true)).conf));
      Lookup(after, "Theme", "style") == Some("dark") && Lookup(after, "Brand", "Color") == Some("danger")
  {
    var p := [("Brand", [("Color", "danger")]), ("Theme", [("style", "dark")])];
    assert PRESETS[0].id == "midnight" && PRESETS[0].conf == p;
    assert FindPreset(0, "midnight") == Some(PRESETS[0]);
    hide PRESETS, FindPreset, Step, Parse, KeptWritable;
    PresetRead(f, "midnight", true);
    assert p[0].0 == "Brand" && p[1].0 == "Theme" && "Brand"[0] == 'B' && "Theme"[0] == 'T';
    assert Find(p, "Theme") == 1 && Find(p, "Brand") == 0;
    assert Find([("style", "dark")], "style") == 0 && Find([("Color", "danger")], "Color") == 0;
    assert Lookup(p, "Theme", "style") == Some("dark") && Lookup(p, "Brand", "Color") == Some("danger");
  }
}
