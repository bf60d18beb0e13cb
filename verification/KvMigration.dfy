/**
 * The Deno KV to PostgreSQL migration: restartable, its counters read as doubles.
 */
module KvMigration {
  import opened OrderedDict

  type Key = seq<string>

  datatype Entry<V> = Value(key: Key, value: V) | Counter(key: Key, count: nat)

  // ------------------------------------------------------------------ doubles

  const TWO53: int := 0x20_0000_0000_0000

  /** The distance between neighbouring doubles at x. */
  function Ulp(x: nat): (u: nat)
    ensures u > 0
  {
    if x < TWO53 then 1 else 2 * Ulp(x / 2)
  }

  function RoundNat(x: nat): int {
    var u := Ulp(x);
    var q, r := x / u, x % u;
    if 2 * r < u || (2 * r == u && q % 2 == 0) then q * u else (q + 1) * u
  }

  /** Number(x): the nearest double, ties to even. */
  function ToNumber(x: int): int {
    if x < 0 then -RoundNat(-x) else RoundNat(x)
  }

  predicate Exact(x: int) {
    ToNumber(x) == x
  }

  lemma SmallExact(x: int)
    requires -TWO53 <= x <= TWO53
    ensures Exact(x)
  {
    var n: nat := if x < 0 then -x else x;
    if n == TWO53 {
      assert Ulp(n / 2) == 1 && Ulp(n) == 2;
    } else {
      assert Ulp(n) == 1;
    }
  }

  /** The first integer a double cannot hold. */
  lemma FirstInexact()
    ensures ToNumber(TWO53 + 1) == TWO53 && !Exact(TWO53 + 1)
  {
    var x: nat := TWO53 + 1;
    assert Ulp(x / 2) == 1 && Ulp(x) == 2;
    assert x / 2 == 0x10_0000_0000_0000 && x % 2 == 1;
  }

  // --------------------------------------------------------------------- plan

  const DEK_KEY: Key := ["config", "crypto", "dek"]

  datatype Bucket = Bucket(values: nat, counters: nat)

  datatype Plan<V> = Plan(values: seq<(Key, V)>, counters: seq<(Key, nat)>, byNamespace: map<string, Bucket>, hasDek: bool)

  function Namespace(key: Key): string {
    if key == [] then "(root)" else key[0]
  }

  /** The key's first part is ns; keys without parts are counted under "(root)". */
  predicate Under(key: Key, ns: string) {
    if key == [] then ns == "(root)" else key[0] == ns
  }

  lemma NamespaceOf(key: Key, ns: string)
    ensures Namespace(key) == ns <==> Under(key, ns)
  {
  }

  function ValueRows<V>(entries: seq<Entry<V>>): seq<(Key, V)> {
    if entries == [] then []
    else (if entries[0].Value? then [(entries[0].key, entries[0].value)] else []) + ValueRows(entries[1..])
  }

  function CounterRows<V>(entries: seq<Entry<V>>): seq<(Key, nat)> {
    if entries == [] then []
    else (if entries[0].Counter? then [(entries[0].key, entries[0].count)] else []) + CounterRows(entries[1..])
  }

  function CountOf<V>(entries: seq<Entry<V>>, ns: string, counters: bool): nat {
    if entries == [] then 0
    else (if Under(entries[0].key, ns) && entries[0].Counter? == counters then 1 else 0)
         + CountOf(entries[1..], ns, counters)
  }

  /** The rows are the entries of their type, key and content as they were. */
  lemma {:induction false} RowsAre<V>(entries: seq<Entry<V>>, k: Key, v: V, n: nat)
    ensures (k, v) in ValueRows(entries) <==> Value(k, v) in entries
    ensures (k, n) in CounterRows(entries) <==> Counter(k, n) in entries
  {
    if entries != [] {
      RowsAre(entries[1..], k, v, n);
      assert entries == [entries[0]] + entries[1..];
    }
  }

  lemma {:induction false} RowsAppend<V>(a: seq<Entry<V>>, e: Entry<V>)
    ensures ValueRows(a + [e]) == ValueRows(a) + (if e.Value? then [(e.key, e.value)] else [])
    ensures CounterRows(a + [e]) == CounterRows(a) + (if e.Counter? then [(e.key, e.count)] else [])
  {
    if a == [] {
      assert a + [e] == [e];
    } else {
      assert (a + [e])[1..] == a[1..] + [e];
      RowsAppend(a[1..], e);
    }
  }

  lemma {:induction false} CountAppend<V>(a: seq<Entry<V>>, e: Entry<V>, ns: string, c: bool)
    ensures CountOf(a + [e], ns, c) == CountOf(a, ns, c) + (if Under(e.key, ns) && e.Counter? == c then 1 else 0)
  {
    if a == [] {
      assert a + [e] == [e];
    } else {
      assert (a + [e])[1..] == a[1..] + [e];
      CountAppend(a[1..], e, ns, c);
    }
  }

  function BucketOf(m: map<string, Bucket>, ns: string): Bucket {
    if ns in m then m[ns] else Bucket(0, 0)
  }

  /** What the plan says of the entries read so far. */
  ghost predicate PlanOf<V>(plan: Plan<V>, entries: seq<Entry<V>>) {
    && plan.values == ValueRows(entries) && plan.counters == CounterRows(entries)
    && |plan.values| + |plan.counters| == |entries|
    && (forall ns :: BucketOf(plan.byNamespace, ns) == Bucket(CountOf(entries, ns, false), CountOf(entries, ns, true)))
    && (plan.hasDek <==> exists i :: 0 <= i < |entries| && entries[i].Value? && entries[i].key == DEK_KEY)
  }

  function AddEntry<V>(plan: Plan<V>, e: Entry<V>): Plan<V> {
    var ns := Namespace(e.key);
    var bucket := BucketOf(plan.byNamespace, ns);
    match e
    case Counter(key, count) =>
      plan.(counters := plan.counters + [(key, count)],
            byNamespace := plan.byNamespace[ns := bucket.(counters := bucket.counters + 1)])
    case Value(key, value) =>
      plan.(values := plan.values + [(key, value)],
            byNamespace := plan.byNamespace[ns := bucket.(values := bucket.values + 1)],
            hasDek := plan.hasDek || key == DEK_KEY)
  }

  lemma AddEntryKeeps<V>(plan: Plan<V>, entries: seq<Entry<V>>, e: Entry<V>)
    requires PlanOf(plan, entries)
    ensures PlanOf(AddEntry(plan, e), entries + [e])
  {
    RowsAppend(entries, e);
    hide CountOf, ValueRows, CounterRows, Namespace, Under;
    var all := entries + [e];
    assert all[|entries|] == e && forall i :: 0 <= i < |entries| ==> all[i] == entries[i];
    var plan' := AddEntry(plan, e);
    if exists i :: 0 <= i < |all| && all[i].Value? && all[i].key == DEK_KEY {
      var i :| 0 <= i < |all| && all[i].Value? && all[i].key == DEK_KEY;
      assert i < |entries| ==> entries[i].Value? && entries[i].key == DEK_KEY;
    }
    forall ns ensures BucketOf(plan'.byNamespace, ns) == Bucket(CountOf(all, ns, false), CountOf(all, ns, true)) {
      assert BucketOf(plan.byNamespace, ns) == Bucket(CountOf(entries, ns, false), CountOf(entries, ns, true));
      NamespaceOf(e.key, ns);
      CountAppend(entries, e, ns, false);
      CountAppend(entries, e, ns, true);
    }
  }

  /** Every entry lands in exactly one list by its type, is counted under its namespace, and the key record is noticed. */
  method BuildPlan<V>(entries: seq<Entry<V>>) returns (plan: Plan<V>)
    ensures plan.values == ValueRows(entries) && plan.counters == CounterRows(entries)
    ensures |plan.values| + |plan.counters| == |entries|
    ensures forall ns :: BucketOf(plan.byNamespace, ns) == Bucket(CountOf(entries, ns, false), CountOf(entries, ns, true))
    ensures plan.hasDek <==> exists i :: 0 <= i < |entries| && entries[i].Value? && entries[i].key == DEK_KEY
  {
    plan := Plan([], [], map[], false);
    for i := 0 to |entries|
      invariant PlanOf(plan, entries[..i])
    {
      hide PlanOf;
      var e := entries[i];
      assert entries[..i + 1] == entries[..i] + [e];
      AddEntryKeeps(plan, entries[..i], e);
      ghost var next := AddEntry(plan, e);
      var ns := Namespace(e.key);
      var bucket := BucketOf(plan.byNamespace, ns);
      match e {
        case Counter(key, count) =>
          plan := plan.(counters := plan.counters + [(key, count)]);
          bucket := bucket.(counters := bucket.counters + 1);
        case Value(key, value) =>
          plan := plan.(values := plan.values + [(key, value)]);
          bucket := bucket.(values := bucket.values + 1);
          if key == DEK_KEY {
            plan := plan.(hasDek := true);
          }
      }
      plan := plan.(byNamespace := plan.byNamespace[ns := bucket]);
      assert plan == next;
    }
    assert entries[..|entries|] == entries;
  }

  // ------------------------------------------------------------------- target

  datatype Target<V> = Target(state: map<Key, V>, counts: map<Key, int>)

  function Stored<V>(t: Target<V>, k: Key): int {
    if k in t.counts then t.counts[k] else 0
  }

  class Store<V> {
    var state: map<Key, V>
    var counts: map<Key, int>

    function Content(): Target<V>
      reads this
    {
      Target(state, counts)
    }

    method Put(key: Key, value: V)
      modifies this`state
      ensures Content() == old(Content()).(state := old(state)[key := value])
    {
      state := state[key := value];
    }

    method GetCount(key: Key) returns (n: int)
      ensures n == ToNumber(Stored(Content(), key))
    {
      n := ToNumber(if key in counts then counts[key] else 0);
    }

    method Sum(key: Key, delta: int)
      modifies this`counts
      ensures Content() == old(Content()).(counts := old(counts)[key := Stored(old(Content()), key) + delta])
    {
      counts := counts[key := (if key in counts then counts[key] else 0) + delta];
    }
  }

  // ---------------------------------------------- a commit run, stopped anywhere

  /** What is left of the operations a run may still perform, with the store it leaves. */
  datatype Progress<V> = Progress(target: Target<V>, left: nat)

  function WriteValues<V>(t: Target<V>, rows: seq<(Key, V)>, left: nat): Progress<V>
    decreases |rows|
  {
    if rows == [] || left == 0 then Progress(t, left)
    else WriteValues(t.(state := t.state[rows[0].0 := rows[0].1]), rows[1..], left - 1)
  }

  /** The read and the add are two operations; a run may stop between them. */
  function AddCounters<V>(t: Target<V>, rows: seq<(Key, nat)>, left: nat): Progress<V>
    decreases |rows|
  {
    if rows == [] || left == 0 then Progress(t, left)
    else
      var (k, n) := rows[0];
      var delta := n - ToNumber(Stored(t, k));
      if delta == 0 then AddCounters(t, rows[1..], left - 1)
      else if left == 1 then Progress(t, 0)
      else AddCounters(t.(counts := t.counts[k := Stored(t, k) + delta]), rows[1..], left - 2)
  }

  /** The target after a commit run stopped after a number of store operations. */
  function Commit<V>(t: Target<V>, plan: Plan<V>, stop: nat): Target<V> {
    var p := WriteValues(t, plan.values, stop);
    AddCounters(p.target, plan.counters, p.left).target
  }

  /** Enough operations for any run to finish. */
  function Enough<V>(plan: Plan<V>): nat {
    |plan.values| + 2 * |plan.counters|
  }

  function FullCommit<V>(t: Target<V>, plan: Plan<V>): Target<V> {
    Commit(t, plan, Enough(plan))
  }

  function Runs<V>(t: Target<V>, plan: Plan<V>, stops: seq<nat>): Target<V>
    decreases |stops|
  {
    if stops == [] then t else Runs(Commit(t, plan, stops[0]), plan, stops[1..])
  }

  method CommitRun<V>(store: Store<V>, plan: Plan<V>, stop: nat)
    modifies store
    ensures store.Content() == Commit(old(store.Content()), plan, stop)
  {
    hide ToNumber, Stored;
    var left := stop;
    ghost var t0 := store.Content();
    for i := 0 to |plan.values|
      invariant WriteValues(store.Content(), plan.values[i..], left) == WriteValues(t0, plan.values, stop)
    {
      assert plan.values[i..][0] == plan.values[i] && plan.values[i..][1..] == plan.values[i + 1..];
      if left == 0 {
        return;
      }
      store.Put(plan.values[i].0, plan.values[i].1);
      left := left - 1;
    }
    ghost var t1, c1 := store.Content(), left;
    for i := 0 to |plan.counters|
      invariant AddCounters(store.Content(), plan.counters[i..], left) == AddCounters(t1, plan.counters, c1)
    {
      assert plan.counters[i..][0] == plan.counters[i] && plan.counters[i..][1..] == plan.counters[i + 1..];
      if left == 0 {
        return;
      }
      var current := store.GetCount(plan.counters[i].0);
      left := left - 1;
      var delta := plan.counters[i].1 - current;
      if delta != 0 {
        if left == 0 {
          return;
        }
        store.Sum(plan.counters[i].0, delta);
        left := left - 1;
      }
    }
  }

  // -------------------------------------------------------------- what runs keep

  /** The last row of a key: the only one when the keys are distinct. */
  function LastOf<W>(rows: seq<(Key, W)>, k: Key): Option<W> {
    if rows == [] then None
    else if LastOf(rows[1..], k).Some? then LastOf(rows[1..], k)
    else if rows[0].0 == k then Some(rows[0].1) else None
  }

  function Held<W>(m: map<Key, W>, k: Key): Option<W> {
    if k in m then Some(m[k]) else None
  }

  /** A run stopped anywhere leaves the values of other keys alone; a finished one holds every source value. */
  lemma {:induction false} WriteValuesEffect<V>(t: Target<V>, rows: seq<(Key, V)>, left: nat, k: Key)
    ensures var p := WriteValues(t, rows, left);
      && p.target.counts == t.counts
      && (left >= |rows| ==> p.left == left - |rows|)
      && (LastOf(rows, k) == None ==> Held(p.target.state, k) == Held(t.state, k))
      && (left >= |rows| && LastOf(rows, k).Some? ==> Held(p.target.state, k) == LastOf(rows, k))
    decreases |rows|
  {
    if rows != [] && left > 0 {
      WriteValuesEffect(t.(state := t.state[rows[0].0 := rows[0].1]), rows[1..], left - 1, k);
    }
  }

  /** Every count the run reads or writes can be read back exactly. */
  ghost predicate ReadsExactly<V>(t: Target<V>, rows: seq<(Key, nat)>) {
    forall i :: 0 <= i < |rows| ==> Exact(rows[i].1) && Exact(Stored(t, rows[i].0))
  }

  /** A pass stopped anywhere leaves the values and the counters of other keys alone. */
  lemma {:induction false} AddCountersForeign<V>(t: Target<V>, rows: seq<(Key, nat)>, left: nat, k: Key)
    ensures var t' := AddCounters(t, rows, left).target;
      t'.state == t.state && (LastOf(rows, k) == None ==> Held(t'.counts, k) == Held(t.counts, k))
    decreases |rows|
  {
    hide ToNumber;
    if rows != [] && left > 0 {
      var (key, n) := rows[0];
      var delta := n - ToNumber(Stored(t, key));
      if delta == 0 {
        AddCountersForeign(t, rows[1..], left - 1, k);
      } else if left > 1 {
        AddCountersForeign(t.(counts := t.counts[key := Stored(t, key) + delta]), rows[1..], left - 2, k);
      }
    }
  }

  /** Where counts are read exactly they stay so, and a finished pass holds every source count. */
  lemma {:induction false} AddCountersEffect<V>(t: Target<V>, rows: seq<(Key, nat)>, left: nat, k: Key)
    requires ReadsExactly(t, rows)
    ensures var t' := AddCounters(t, rows, left).target;
      && (left >= 2 * |rows| && LastOf(rows, k).Some? ==> Stored(t', k) == LastOf(rows, k).value)
      && (LastOf(rows, k) == None ==> Stored(t', k) == Stored(t, k))
      && (Exact(Stored(t, k)) ==> Exact(Stored(t', k)))
    decreases |rows|
  {
    if rows != [] && left > 0 {
      hide Exact, ToNumber;
      var (key, n) := rows[0];
      assert Exact(rows[0].1) && Exact(Stored(t, rows[0].0));
      ExactIs(Stored(t, key));
      var delta := n - ToNumber(Stored(t, key));
      if delta == 0 {
        AddCountersEffect(t, rows[1..], left - 1, k);
      } else if left > 1 {
        var t' := t.(counts := t.counts[key := Stored(t, key) + delta]);
        assert forall x :: Stored(t', x) == if x == key then n else Stored(t, x);
        AddCountersEffect(t', rows[1..], left - 2, k);
      }
    }
  }

  lemma ExactIs(x: int)
    requires Exact(x)
    ensures ToNumber(x) == x
  {
  }

  /** The plan's counters and the counts already there fit in a double without rounding. */
  ghost predicate Representable<V>(t: Target<V>, plan: Plan<V>) {
    ReadsExactly(t, plan.counters)
  }

  /** What a run leaves of key k: a foreign key as it was, and a source key, once the run is finished, at its value. */
  ghost predicate ValueKept<V>(t: Target<V>, t': Target<V>, plan: Plan<V>, finished: bool, k: Key) {
    && (LastOf(plan.values, k) == None ==> Held(t'.state, k) == Held(t.state, k))
    && (finished && LastOf(plan.values, k).Some? ==> Held(t'.state, k) == LastOf(plan.values, k))
    && (LastOf(plan.counters, k) == None ==> Held(t'.counts, k) == Held(t.counts, k))
  }

  /** One run stopped anywhere: other keys untouched, and counts that read exactly stay so and come out right. */
  lemma CommitEffect<V>(t: Target<V>, plan: Plan<V>, stop: nat, k: Key)
    ensures ValueKept(t, Commit(t, plan, stop), plan, stop >= Enough(plan), k)
    ensures Representable(t, plan) ==>
      var t' := Commit(t, plan, stop);
      && Representable(t', plan)
      && (stop >= Enough(plan) && LastOf(plan.counters, k).Some? ==> Stored(t', k) == LastOf(plan.counters, k).value)
  {
    hide Exact;
    var p := WriteValues(t, plan.values, stop);
    WriteValuesEffect(t, plan.values, stop, k);
    AddCountersForeign(p.target, plan.counters, p.left, k);
    if Representable(t, plan) {
      AddCountersEffect(p.target, plan.counters, p.left, k);
      var t' := Commit(t, plan, stop);
      forall i | 0 <= i < |plan.counters| ensures Exact(plan.counters[i].1) && Exact(Stored(t', plan.counters[i].0)) {
        assert Exact(plan.counters[i].1) && Exact(Stored(t, plan.counters[i].0));
        AddCountersEffect(p.target, plan.counters, p.left, plan.counters[i].0);
      }
    }
  }

  lemma {:induction false} RunsEffect<V>(t: Target<V>, plan: Plan<V>, stops: seq<nat>, k: Key)
    ensures ValueKept(t, Runs(t, plan, stops), plan, false, k)
    ensures Representable(t, plan) ==> Representable(Runs(t, plan, stops), plan)
    decreases |stops|
  {
    if stops != [] {
      hide Representable;
      CommitEffect(t, plan, stops[0], k);
      RunsEffect(Commit(t, plan, stops[0]), plan, stops[1..], k);
    }
  }

  /**
   * Any number of runs, each stopped anywhere, then one full run: every source
   * value is in the target, every other key is as it was, and so is every
   * counter right when a double holds the counts exactly.
   */
  lemma Converges<V>(t: Target<V>, plan: Plan<V>, stops: seq<nat>, k: Key)
    ensures var t' := FullCommit(Runs(t, plan, stops), plan);
      && Held(t'.state, k) == (if LastOf(plan.values, k).Some? then LastOf(plan.values, k) else Held(t.state, k))
      && (LastOf(plan.counters, k) == None ==> Held(t'.counts, k) == Held(t.counts, k))
      && (Representable(t, plan) && LastOf(plan.counters, k).Some? ==> Stored(t', k) == LastOf(plan.counters, k).value)
  {
    hide Representable;
    RunsEffect(t, plan, stops, k);
    CommitEffect(Runs(t, plan, stops), plan, Enough(plan), k);
  }

  // ------------------------------------------------------------ a further run

  /** How many adds a full pass over the counters performs. */
  function Adds<V>(t: Target<V>, rows: seq<(Key, nat)>): nat
    decreases |rows|
  {
    if rows == [] then 0
    else
      var (k, n) := rows[0];
      var delta := n - ToNumber(Stored(t, k));
      if delta == 0 then Adds(t, rows[1..])
      else 1 + Adds(t.(counts := t.counts[k := Stored(t, k) + delta]), rows[1..])
  }

  /** A pass performs no add exactly when every counter reads back as its source value. */
  lemma {:induction false} NoAdds<V>(t: Target<V>, rows: seq<(Key, nat)>)
    ensures Adds(t, rows) == 0 <==> forall i :: 0 <= i < |rows| ==> ToNumber(Stored(t, rows[i].0)) == rows[i].1
    decreases |rows|
  {
    hide ToNumber;
    if rows != [] {
      NoAdds(t, rows[1..]);
      assert forall i :: 1 <= i < |rows| ==> rows[i] == rows[1..][i - 1];
      var delta := rows[0].1 - ToNumber(Stored(t, rows[0].0));
      assert delta == 0 <==> ToNumber(Stored(t, rows[0].0)) == rows[0].1;
      if delta == 0 {
        assert forall i :: 0 <= i < |rows| - 1 ==> rows[1..][i] == rows[i + 1];
      }
    }
  }

  ghost predicate DistinctKeys<W>(rows: seq<(Key, W)>) {
    forall i, j :: 0 <= i < j < |rows| ==> rows[i].0 != rows[j].0
  }

  lemma {:induction false} LastOfRow<W>(rows: seq<(Key, W)>, i: nat)
    requires DistinctKeys(rows) && i < |rows|
    ensures LastOf(rows, rows[i].0) == Some(rows[i].1)
  {
    if i > 0 {
      LastOfRow(rows[1..], i - 1);
    } else {
      LastOfNone(rows[1..], rows[0].0);
    }
  }

  lemma {:induction false} LastOfNone<W>(rows: seq<(Key, W)>, k: Key)
    requires forall i :: 0 <= i < |rows| ==> rows[i].0 != k
    ensures LastOf(rows, k) == None
  {
    if rows != [] {
      LastOfNone(rows[1..], k);
    }
  }

  // ----------------------------------------- where the rounded read breaks it

  lemma OneRow<V>(t: Target<V>, rows: seq<(Key, nat)>, left: nat)
    requires |rows| == 1 && left >= 2
    ensures var (k, n) := rows[0]; var delta := n - ToNumber(Stored(t, k));
      AddCounters(t, rows, left).target
      == if delta == 0 then t else t.(counts := t.counts[k := Stored(t, k) + delta])
  {
    hide ToNumber, Stored;
    var (k, n) := rows[0];
    var delta := n - ToNumber(Stored(t, k));
    var t' := t.(counts := t.counts[k := Stored(t, k) + delta]);
    assert rows[1..] == [];
  }

  /** A full pass over one counter. */
  function Recount<V>(t: Target<V>, k: Key, n: nat): Target<V> {
    var rows := [(k, n)];
    AddCounters(t, rows, 2 * |rows|).target
  }

  /** One read-delta-add leaves the counter right exactly when the count there was read back exactly. */
  lemma OneCounter<V>(t: Target<V>, k: Key, n: nat)
    ensures Stored(Recount(t, k, n), k) == n <==> Exact(Stored(t, k))
  {
    hide ToNumber, AddCounters;
    OneRow(t, [(k, n)], 2 * |[(k, n)]|);
  }

  /** Once a counter equals its source value, re-running keeps it there exactly when a double holds the value. */
  lemma RerunKeepsCounter<V>(t: Target<V>, k: Key, n: nat)
    requires Stored(t, k) == n
    ensures Stored(Recount(t, k, n), k) == n <==> Exact(n)
  {
    OneCounter(t, k, n);
  }

  /** What a full pass makes of each counter, however the read rounds. */
  lemma {:induction false} PassAt<V>(t: Target<V>, rows: seq<(Key, nat)>, left: nat, i: nat)
    requires DistinctKeys(rows) && left >= 2 * |rows| && i < |rows|
    ensures var (k, n) := rows[i];
      Stored(AddCounters(t, rows, left).target, k) == Stored(t, k) + n - ToNumber(Stored(t, k))
    decreases |rows|
  {
    hide ToNumber;
    var (key, m) := rows[0];
    var delta := m - ToNumber(Stored(t, key));
    var t' := if delta == 0 then t else t.(counts := t.counts[key := Stored(t, key) + delta]);
    var left' := if delta == 0 then left - 1 else left - 2;
    assert AddCounters(t, rows, left) == AddCounters(t', rows[1..], left');
    if i > 0 {
      assert rows[i].0 != key && rows[1..][i - 1] == rows[i];
      PassAt(t', rows[1..], left', i - 1);
    } else {
      PassLeaves(t', rows[1..], left', key);
    }
  }

  lemma {:induction false} PassLeaves<V>(t: Target<V>, rows: seq<(Key, nat)>, left: nat, k: Key)
    requires forall i :: 0 <= i < |rows| ==> rows[i].0 != k
    ensures Stored(AddCounters(t, rows, left).target, k) == Stored(t, k)
    decreases |rows|
  {
    hide ToNumber;
    if rows != [] && left > 0 {
      var (key, m) := rows[0];
      assert rows[0].0 != k;
      var delta := m - ToNumber(Stored(t, key));
      if delta == 0 {
        PassLeaves(t, rows[1..], left - 1, k);
      } else if left > 1 {
        PassLeaves(t.(counts := t.counts[key := Stored(t, key) + delta]), rows[1..], left - 2, k);
      }
    }
  }

  /** A full run leaves every counter at its source value exactly when every count already there reads back exactly. */
  lemma FullRunExact<V>(t: Target<V>, plan: Plan<V>)
    requires DistinctKeys(plan.counters)
    ensures var rows, t' := plan.counters, FullCommit(t, plan);
      (forall i :: 0 <= i < |rows| ==> Stored(t', rows[i].0) == rows[i].1)
      <==> (forall i :: 0 <= i < |rows| ==> Exact(Stored(t, rows[i].0)))
  {
    var rows := plan.counters;
    WriteValuesEffect(t, plan.values, Enough(plan), []);
    var p := WriteValues(t, plan.values, Enough(plan));
    hide ToNumber, AddCounters, WriteValues;
    forall i | 0 <= i < |rows|
      ensures Stored(FullCommit(t, plan), rows[i].0) == rows[i].1 <==> Exact(Stored(t, rows[i].0))
    {
      PassAt(p.target, rows, p.left, i);
      assert Stored(p.target, rows[i].0) == Stored(t, rows[i].0);
    }
  }

  // -------------------------------------- the exact conditions over all runs

  ghost predicate CountersRight<V>(t: Target<V>, plan: Plan<V>) {
    forall i :: 0 <= i < |plan.counters| ==> Stored(t, plan.counters[i].0) == plan.counters[i].1
  }

  /** The counters after runs stopped as given and a full one. */
  ghost predicate RightAfter<V>(t: Target<V>, plan: Plan<V>, stops: seq<nat>) {
    CountersRight(FullCommit(Runs(t, plan, stops), plan), plan)
  }

  /** One full run and two full runs show every count that rounds. */
  lemma RightNeedsExact<V>(t: Target<V>, plan: Plan<V>)
    requires DistinctKeys(plan.counters)
    requires RightAfter(t, plan, []) && RightAfter(t, plan, [Enough(plan)])
    ensures Representable(t, plan)
  {
    var rows, once, full := plan.counters, FullCommit(t, plan), [Enough(plan)];
    assert full[1..] == [];
    assert Runs(t, plan, []) == t && Runs(t, plan, full) == Runs(once, plan, []) == once;
    hide Exact, FullCommit, Runs;
    FullRunExact(t, plan);
    FullRunExact(once, plan);
    forall i | 0 <= i < |rows| ensures Exact(rows[i].1) && Exact(Stored(t, rows[i].0)) {
      assert Stored(once, rows[i].0) == rows[i].1;
      assert Exact(Stored(once, rows[i].0));
    }
  }

  lemma ExactIsRight<V>(t: Target<V>, plan: Plan<V>, stops: seq<nat>)
    requires DistinctKeys(plan.counters) && Representable(t, plan)
    ensures RightAfter(t, plan, stops)
  {
    hide FullCommit, Runs, Representable;
    forall i | 0 <= i < |plan.counters|
      ensures Stored(FullCommit(Runs(t, plan, stops), plan), plan.counters[i].0) == plan.counters[i].1
    {
      Converges(t, plan, stops, plan.counters[i].0);
      LastOfRow(plan.counters, i);
    }
  }

  /**
   * With distinct keys: a full run after any number of runs, each stopped
   * anywhere, always leaves every counter right if and only if a double holds
   * every source count and every count already there.
   */
  lemma ConvergesExactly<V>(t: Target<V>, plan: Plan<V>)
    requires DistinctKeys(plan.counters)
    ensures (forall stops :: RightAfter(t, plan, stops)) <==> Representable(t, plan)
  {
    hide RightAfter, Representable;
    if forall stops :: RightAfter(t, plan, stops) {
      RightNeedsExact(t, plan);
    }
    if Representable(t, plan) {
      forall stops ensures RightAfter(t, plan, stops) {
        ExactIsRight(t, plan, stops);
      }
    }
  }

  /** The count a pass makes of the one there: it adds the difference to the rounded read. */
  function Corrected(stored: int, n: nat): int {
    stored + n - ToNumber(stored)
  }

  /** Every counter a pass would make reads back as its source count. */
  ghost predicate Settles<V>(t: Target<V>, plan: Plan<V>) {
    forall i :: 0 <= i < |plan.counters| ==>
      ToNumber(Corrected(Stored(t, plan.counters[i].0), plan.counters[i].1)) == plan.counters[i].1
  }

  /** A pass stopped anywhere leaves a counter as it was or corrected. */
  lemma {:induction false} PassPart<V>(t: Target<V>, rows: seq<(Key, nat)>, left: nat, i: nat)
    requires DistinctKeys(rows) && i < |rows|
    ensures var (k, n) := rows[i]; var s' := Stored(AddCounters(t, rows, left).target, k);
      s' == Stored(t, k) || s' == Corrected(Stored(t, k), n)
    decreases |rows|
  {
    hide ToNumber;
    if left > 0 {
      var (key, m) := rows[0];
      var delta := m - ToNumber(Stored(t, key));
      if delta != 0 && left == 1 {
      } else {
        var t' := if delta == 0 then t else t.(counts := t.counts[key := Stored(t, key) + delta]);
        var left' := if delta == 0 then left - 1 else left - 2;
        assert AddCounters(t, rows, left) == AddCounters(t', rows[1..], left');
        if i > 0 {
          assert rows[i].0 != key && rows[1..][i - 1] == rows[i];
          PassPart(t', rows[1..], left', i - 1);
        } else {
          PassLeaves(t', rows[1..], left', key);
        }
      }
    }
  }

  lemma CommitSettles<V>(t: Target<V>, plan: Plan<V>, stop: nat)
    requires DistinctKeys(plan.counters) && Settles(t, plan)
    ensures Settles(Commit(t, plan, stop), plan)
  {
    var rows := plan.counters;
    var p := WriteValues(t, plan.values, stop);
    WriteValuesEffect(t, plan.values, stop, []);
    hide ToNumber, AddCounters, WriteValues;
    forall i | 0 <= i < |rows|
      ensures ToNumber(Corrected(Stored(Commit(t, plan, stop), rows[i].0), rows[i].1)) == rows[i].1
    {
      PassPart(p.target, rows, p.left, i);
      assert Stored(p.target, rows[i].0) == Stored(t, rows[i].0);
    }
  }

  lemma {:induction false} RunsSettle<V>(t: Target<V>, plan: Plan<V>, stops: seq<nat>)
    requires DistinctKeys(plan.counters) && Settles(t, plan)
    ensures Settles(Runs(t, plan, stops), plan)
    decreases |stops|
  {
    if stops != [] {
      hide Settles;
      CommitSettles(t, plan, stops[0]);
      RunsSettle(Commit(t, plan, stops[0]), plan, stops[1..]);
    }
  }

  lemma FullRunAdds<V>(t: Target<V>, plan: Plan<V>)
    requires DistinctKeys(plan.counters)
    ensures Adds(FullCommit(t, plan), plan.counters) == 0 <==> Settles(t, plan)
  {
    var rows := plan.counters;
    var p := WriteValues(t, plan.values, Enough(plan));
    WriteValuesEffect(t, plan.values, Enough(plan), []);
    NoAdds(FullCommit(t, plan), rows);
    hide ToNumber, AddCounters, WriteValues, Adds;
    forall i | 0 <= i < |rows|
      ensures Stored(FullCommit(t, plan), rows[i].0) == Corrected(Stored(t, rows[i].0), rows[i].1)
    {
      PassAt(p.target, rows, p.left, i);
      assert Stored(p.target, rows[i].0) == Stored(t, rows[i].0);
    }
  }

  /** The adds of a further full run. */
  ghost predicate AddsNothingAfter<V>(t: Target<V>, plan: Plan<V>, stops: seq<nat>) {
    Adds(FullCommit(Runs(t, plan, stops), plan), plan.counters) == 0
  }

  /**
   * With distinct keys: a run after the converging one never adds anything if and
   * only if each corrected count reads back as its source count. Counts a double
   * holds exactly are such.
   */
  lemma FurtherRunAddsNothing<V>(t: Target<V>, plan: Plan<V>)
    requires DistinctKeys(plan.counters)
    ensures (forall stops :: AddsNothingAfter(t, plan, stops)) <==> Settles(t, plan)
    ensures Representable(t, plan) ==> Settles(t, plan)
  {
    assert AddsNothingAfter(t, plan, []) <==> Adds(FullCommit(t, plan), plan.counters) == 0;
    FullRunAdds(t, plan);
    ExactSettles(t, plan);
    hide AddsNothingAfter, Settles, Representable;
    if Settles(t, plan) {
      forall stops ensures AddsNothingAfter(t, plan, stops) {
        SettledAddsNothing(t, plan, stops);
      }
    }
  }

  lemma SettledAddsNothing<V>(t: Target<V>, plan: Plan<V>, stops: seq<nat>)
    requires DistinctKeys(plan.counters) && Settles(t, plan)
    ensures AddsNothingAfter(t, plan, stops)
  {
    hide Settles;
    RunsSettle(t, plan, stops);
    FullRunAdds(Runs(t, plan, stops), plan);
  }

  lemma ExactSettles<V>(t: Target<V>, plan: Plan<V>)
    ensures Representable(t, plan) ==> Settles(t, plan)
  {
    hide Exact, ToNumber;
    if Representable(t, plan) {
      forall i | 0 <= i < |plan.counters|
        ensures ToNumber(Corrected(Stored(t, plan.counters[i].0), plan.counters[i].1)) == plan.counters[i].1
      {
        assert Exact(plan.counters[i].1) && Exact(Stored(t, plan.counters[i].0));
        ExactIs(plan.counters[i].1);
        ExactIs(Stored(t, plan.counters[i].0));
      }
    }
  }

  /** From an empty target two full runs leave this counter one too high. */
  lemma RerunOvercounts<V>(t: Target<V>, k: Key)
    requires Stored(t, k) == 0
    ensures var once := Recount(t, k, TWO53 + 1); var twice := Recount(once, k, TWO53 + 1);
      Stored(once, k) == TWO53 + 1 && Stored(twice, k) == TWO53 + 2
  {
    FirstInexact();
    SmallExact(0);
    ExactIs(0);
    hide ToNumber, AddCounters;
    var rows := [(k, TWO53 + 1)];
    OneRow(t, rows, 2 * |rows|);
    OneRow(Recount(t, k, TWO53 + 1), rows, 2 * |rows|);
  }
}
