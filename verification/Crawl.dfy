/**
 * The worklist crawl computes exactly the nodes reachable from its roots.
 */
module Crawl {

  ghost predicate IsPath<T>(next: T -> seq<T>, p: seq<T>) {
    p != [] && forall i :: 0 <= i < |p| - 1 ==> p[i + 1] in next(p[i])
  }

  ghost predicate PathTo<T>(roots: seq<T>, next: T -> seq<T>, p: seq<T>, x: T) {
    IsPath(next, p) && p[0] in roots && p[|p| - 1] == x
  }

  ghost predicate Reachable<T(!new)>(roots: seq<T>, next: T -> seq<T>, x: T) {
    exists p :: PathTo(roots, next, p, x)
  }

  lemma RootReachable<T(!new)>(roots: seq<T>, next: T -> seq<T>, x: T)
    requires x in roots
    ensures Reachable(roots, next, x)
  {
    assert PathTo(roots, next, [x], x);
  }

  lemma NextReachable<T(!new)>(roots: seq<T>, next: T -> seq<T>, x: T, y: T)
    requires Reachable(roots, next, x) && y in next(x)
    ensures Reachable(roots, next, y)
  {
    var p :| PathTo(roots, next, p, x);
    var q := p + [y];
    assert forall i :: 0 <= i < |p| ==> q[i] == p[i];
    assert PathTo(roots, next, q, y);
  }

  /** A set that holds the roots and is closed under next holds every path from the roots. */
  lemma {:induction false} ClosedHoldsPath<T(!new)>(roots: seq<T>, next: T -> seq<T>, s: set<T>, p: seq<T>, x: T)
    requires forall r :: r in roots ==> r in s
    requires forall a, b :: a in s && b in next(a) ==> b in s
    requires PathTo(roots, next, p, x)
    ensures x in s
    decreases |p|
  {
    if |p| > 1 {
      var k := |p| - 2;
      var q := p[..k + 1];
      assert PathTo(roots, next, q, p[k]);
      ClosedHoldsPath(roots, next, s, q, p[k]);
      assert p[k + 1] in next(p[k]);
    }
  }

  /** Queues the children not seen yet; a child may be queued many times. */
  method Enqueue<T(==)>(queue: seq<T>, children: seq<T>, seen: set<T>) returns (r: seq<T>)
    ensures forall x :: x in r <==> x in queue || (x in children && x !in seen)
  {
    r := queue;
    for i := 0 to |children|
      invariant forall x :: x in r <==> x in queue || (x in children[..i] && x !in seen)
    {
      assert children[..i + 1] == children[..i] + [children[i]];
      if children[i] !in seen {
        r := r + [children[i]];
      }
    }
    assert children[..|children|] == children;
  }

  /** What every step of the crawl keeps. */
  ghost predicate Crawling<T(!new)>(roots: seq<T>, next: T -> seq<T>, universe: set<T>, seen: set<T>, queue: seq<T>) {
    && seen <= universe && (forall x :: x in queue ==> x in universe)
    && (forall r :: r in roots ==> r in seen || r in queue)
    && (forall a, b :: a in seen && b in next(a) ==> b in seen || b in queue)
    && (forall x :: x in seen || x in queue ==> Reachable(roots, next, x))
  }

  lemma SkipSeen<T(!new)>(roots: seq<T>, next: T -> seq<T>, universe: set<T>, seen: set<T>, queue: seq<T>)
    requires Crawling(roots, next, universe, seen, queue) && queue != [] && queue[0] in seen
    ensures Crawling(roots, next, universe, seen, queue[1..])
  {
    assert queue == [queue[0]] + queue[1..];
  }

  lemma VisitNew<T(!new)>(roots: seq<T>, next: T -> seq<T>, universe: set<T>, seen: set<T>, queue: seq<T>, queue': seq<T>)
    requires Crawling(roots, next, universe, seen, queue) && queue != []
    requires forall a, b :: a in universe && b in next(a) ==> b in universe
    requires forall x :: x in queue' <==> x in queue[1..] || (x in next(queue[0]) && x !in seen + {queue[0]})
    ensures Crawling(roots, next, universe, seen + {queue[0]}, queue')
  {
    var x := queue[0];
    assert queue == [x] + queue[1..];
    forall y | y in next(x) ensures Reachable(roots, next, y) {
      NextReachable(roots, next, x, y);
    }
    hide Reachable;
  }

  lemma CrawlDone<T(!new)>(roots: seq<T>, next: T -> seq<T>, universe: set<T>, seen: set<T>)
    requires Crawling(roots, next, universe, seen, [])
    ensures forall x :: x in seen <==> Reachable(roots, next, x)
  {
    forall x | Reachable(roots, next, x) ensures x in seen {
      var p :| PathTo(roots, next, p, x);
      ClosedHoldsPath(roots, next, seen, p, x);
    }
  }

  method Run<T(==, !new)>(roots: seq<T>, next: T -> seq<T>, ghost universe: set<T>) returns (seen: set<T>)
    requires forall r :: r in roots ==> r in universe
    requires forall a, b :: a in universe && b in next(a) ==> b in universe
    ensures forall x :: x in seen <==> Reachable(roots, next, x)
  {
    seen := {};
    var queue := roots;
    forall r | r in roots ensures Reachable(roots, next, r) {
      RootReachable(roots, next, r);
    }
    while queue != []
      invariant Crawling(roots, next, universe, seen, queue)
      decreases universe - seen, |queue|
    {
      hide Reachable;
      var current := queue[0];
      if current in seen {
        SkipSeen(roots, next, universe, seen, queue);
        queue := queue[1..];
        continue;
      }
      var queue' := Enqueue(queue[1..], next(current), seen + {current});
      VisitNew(roots, next, universe, seen, queue, queue');
      seen := seen + {current};
      queue := queue';
    }
    CrawlDone(roots, next, universe, seen);
  }
}
