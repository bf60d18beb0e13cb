/**
 * An insertion-ordered dictionary: a sequence of bindings with distinct keys.
 * Assigning to a present key keeps its place, a new key goes to the end,
 * deleting closes the gap. Reading sees one binding, whatever the order.
 */
module OrderedDict {

  datatype Option<+T> = None | Some(value: T)

  type Dict<V> = seq<(string, V)>

  ghost predicate Distinct<V>(d: Dict<V>) {
    forall i, j :: 0 <= i < j < |d| ==> d[i].0 != d[j].0
  }

  /** The position of the first binding of k, or |d|. */
  function Find<V>(d: Dict<V>, k: string): (i: nat)
    ensures i <= |d|
    ensures i < |d| ==> d[i].0 == k
    ensures forall j :: 0 <= j < i ==> d[j].0 != k
  {
    if d == [] then 0 else if d[0].0 == k then 0 else 1 + Find(d[1..], k)
  }

  predicate Has<V>(d: Dict<V>, k: string) {
    Find(d, k) < |d|
  }

  function Get<V>(d: Dict<V>, k: string): Option<V> {
    if Has(d, k) then Some(d[Find(d, k)].1) else None
  }

  function Put<V>(d: Dict<V>, k: string, v: V): (r: Dict<V>)
    ensures |r| == if Has(d, k) then |d| else |d| + 1
  {
    var i := Find(d, k);
    if i < |d| then d[i := (k, v)] else d + [(k, v)]
  }

  function Del<V>(d: Dict<V>, k: string): Dict<V> {
    var i := Find(d, k);
    if i < |d| then d[..i] + d[i + 1..] else d
  }

  /** A present key keeps its place, a new one goes to the end. */
  lemma PutPlace<V>(d: Dict<V>, k: string, v: V)
    ensures var r := Put(d, k, v);
      && (forall i :: 0 <= i < |d| ==> r[i] == if i == Find(d, k) then (k, v) else d[i])
      && (!Has(d, k) ==> r == d + [(k, v)])
  {
  }

  lemma FindAt<V>(d: Dict<V>, i: nat)
    requires Distinct(d) && i < |d|
    ensures Find(d, d[i].0) == i
  {
  }

  lemma FindAbsent<V>(d: Dict<V>, k: string)
    requires forall i :: 0 <= i < |d| ==> d[i].0 != k
    ensures Find(d, k) == |d| && !Has(d, k)
  {
  }

  lemma PutDistinct<V>(d: Dict<V>, k: string, v: V)
    requires Distinct(d)
    ensures Distinct(Put(d, k, v))
  {
  }

  /** Del closes the gap the binding leaves. */
  lemma DelAt<V>(d: Dict<V>, k: string)
    ensures var i, r := Find(d, k), Del(d, k);
      if i == |d| then r == d
      else |r| == |d| - 1 && forall a :: 0 <= a < |r| ==> r[a] == d[Past(i, a)]
  {
  }

  /** The place a binding had before the one at i was deleted. */
  function Past(i: nat, a: nat): nat {
    if a < i then a else a + 1
  }

  lemma DelDistinct<V>(d: Dict<V>, k: string)
    requires Distinct(d)
    ensures Distinct(Del(d, k))
  {
    DelAt(d, k);
    hide Find, Del;
    var i, r := Find(d, k), Del(d, k);
    if i < |d| {
      forall a, b | 0 <= a < b < |r| ensures r[a].0 != r[b].0 {
        assert r[a] == d[Past(i, a)] && r[b] == d[Past(i, b)];
      }
    }
  }

  /** Del keeps exactly the bindings of other keys. */
  lemma DelEntries<V(!new)>(d: Dict<V>, k: string)
    requires Distinct(d)
    ensures forall e :: e in Del(d, k) <==> e in d && e.0 != k
  {
    var i, r := Find(d, k), Del(d, k);
    DelAt(d, k);
    hide Del, Find;
    if i < |d| {
      forall e ensures e in r <==> e in d && e.0 != k {
        if e in r {
          var a :| 0 <= a < |r| && r[a] == e;
          assert e == d[Past(i, a)];
        }
        if e in d && e.0 != k {
          var j :| 0 <= j < |d| && d[j] == e;
          assert r[if j < i then j else j - 1] == e;
        }
      }
    }
  }

  /** Put changes the value of k and of no other key. */
  lemma GetPut<V>(d: Dict<V>, k: string, v: V, k': string)
    requires Distinct(d)
    ensures Get(Put(d, k, v), k') == if k' == k then Some(v) else Get(d, k')
  {
    var r := Put(d, k, v);
    PutDistinct(d, k, v);
    var i := Find(d, k);
    if k' == k {
      FindAt(r, i);
    } else if Has(d, k') {
      FindAt(r, Find(d, k'));
    } else {
      FindAbsent(r, k');
    }
  }

  /** Del removes k and keeps every other binding. */
  lemma GetDel<V>(d: Dict<V>, k: string, k': string)
    requires Distinct(d)
    ensures Get(Del(d, k), k') == if k' == k then None else Get(d, k')
  {
    var i, r := Find(d, k), Del(d, k);
    DelDistinct(d, k);
    DelAt(d, k);
    hide Del, Distinct;
    if i < |d| {
      if k' == k {
        forall a | 0 <= a < |r| ensures r[a].0 != k {
          DistinctAt(d, Past(i, a), i);
        }
        FindAbsent(r, k);
      } else if Has(d, k') {
        var j := Find(d, k');
        var a := if j < i then j else j - 1;
        assert r[a] == d[j];
        FindAt(r, a);
      } else {
        FindAbsent(r, k');
      }
    }
  }

  lemma DistinctAt<V>(d: Dict<V>, i: nat, j: nat)
    requires Distinct(d) && i < |d| && j < |d| && i != j
    ensures d[i].0 != d[j].0
  {
  }

  /** Deleting a key that Put has just added gives the dictionary back. */
  lemma DelFreshPut<V>(d: Dict<V>, k: string, v: V)
    requires !Has(d, k)
    ensures Del(Put(d, k, v), k) == d
  {
    var r := d + [(k, v)];
    var i := Find(r, k);
    assert forall j :: 0 <= j < |d| ==> r[j] == d[j] && d[j].0 != k;
    assert r[|d|].0 == k;
    assert i == |d|;
    assert r[..|d|] + r[|d| + 1..] == d;
  }

  /** Assigning the value a key has already. */
  lemma PutSame<V>(d: Dict<V>, k: string, v: V)
    requires Get(d, k) == Some(v)
    ensures Put(d, k, v) == d
  {
    var i := Find(d, k);
    assert d[i] == (k, v);
  }

  /** Deleting a key forgets what was assigned to it. */
  lemma DelOverPut<V>(d: Dict<V>, k: string, v: V)
    requires Has(d, k)
    ensures Del(Put(d, k, v), k) == Del(d, k)
    ensures Del(d, k) != d
  {
    var i, r := Find(d, k), Put(d, k, v);
    assert r[i].0 == k && forall j :: 0 <= j < i ==> r[j] == d[j];
    assert Find(r, k) == i;
    DelAt(d, k);
    DelAt(r, k);
    hide Find, Del;
    assert forall a :: 0 <= a < |d| - 1 ==> r[Past(i, a)] == d[Past(i, a)];
  }
}
