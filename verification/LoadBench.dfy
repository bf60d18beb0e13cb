/**
 * The load bench: workers that share a request counter, under every interleaving.
 */
module LoadBench {
  import opened Text

  // ------------------------------------------------------------------- workers

  /** Where a worker is between two awaits. */
  datatype Phase =
    | Idle                        // about to test the loop condition
    | Fetching(index: nat)        // awaiting the response
    | Draining(index: nat)        // status 200, awaiting the body
    | Cancelling(index: nat)      // another status, awaiting the cancel
    | Left                        // out of the loop

  datatype Outcome = Outcome(index: nat, ok: bool)

  // The shared variables, the workers, and the outcomes in order of completion.
  datatype Pool = Pool(workers: seq<Phase>, next: nat, failures: nat, latencies: seq<real>, outcomes: seq<Outcome>)

  /** What happens next, to which worker; a request that ends takes some time. */
  datatype Event =
    | Claim(w: nat)
    | Leave(w: nat)
    | Respond(w: nat, status: int)
    | FetchThrows(w: nat, ms: real)
    | Drained(w: nat, ms: real)
    | DrainThrows(w: nat, ms: real)
    | Cancelled(w: nat, ms: real)
    | CancelThrows(w: nat, ms: real)

  predicate Enabled(p: Pool, total: nat, e: Event) {
    && e.w < |p.workers|
    && match e
       case Claim(w) => p.workers[w] == Idle && p.next < total
       case Leave(w) => p.workers[w] == Idle && p.next >= total
       case Respond(w, _) => p.workers[w].Fetching?
       case FetchThrows(w, _) => p.workers[w].Fetching?
       case Drained(w, _) => p.workers[w].Draining?
       case DrainThrows(w, _) => p.workers[w].Draining?
       case Cancelled(w, _) => p.workers[w].Cancelling?
       case CancelThrows(w, _) => p.workers[w].Cancelling?
  }

  /** The end of a request: a caught error counts a failure, then the latency is recorded. */
  function Finish(p: Pool, w: nat, ok: bool, thrown: bool, ms: real): Pool
    requires w < |p.workers| && (p.workers[w].Fetching? || p.workers[w].Draining? || p.workers[w].Cancelling?)
  {
    p.(workers := p.workers[w := Idle],
       failures := if thrown then p.failures + 1 else p.failures,
       latencies := p.latencies + [ms],
       outcomes := p.outcomes + [Outcome(p.workers[w].index, ok)])
  }

  function Step(p: Pool, total: nat, e: Event): Pool
    requires Enabled(p, total, e)
  {
    match e
    case Claim(w) => p.(workers := p.workers[w := Fetching(p.next)], next := p.next + 1)
    case Leave(w) => p.(workers := p.workers[w := Left])
    case Respond(w, status) =>
      if status == 200 then p.(workers := p.workers[w := Draining(p.workers[w].index)])
      else p.(workers := p.workers[w := Cancelling(p.workers[w].index)], failures := p.failures + 1)
    case FetchThrows(w, ms) => Finish(p, w, false, true, ms)
    case Drained(w, ms) => Finish(p, w, true, false, ms)
    case DrainThrows(w, ms) => Finish(p, w, false, true, ms)
    case Cancelled(w, ms) => Finish(p, w, false, false, ms)
    case CancelThrows(w, ms) => Finish(p, w, false, true, ms)
  }

  function Start(concurrency: nat): Pool {
    Pool(seq(concurrency, _ => Idle), 0, 0, [], [])
  }

  predicate Possible(p: Pool, total: nat, events: seq<Event>)
    decreases |events|
  {
    events == [] || (Enabled(p, total, events[0]) && Possible(Step(p, total, events[0]), total, events[1..]))
  }

  function After(p: Pool, total: nat, events: seq<Event>): Pool
    requires Possible(p, total, events)
    decreases |events|
  {
    if events == [] then p else After(Step(p, total, events[0]), total, events[1..])
  }

  // ----------------------------------------------------------------- counting

  predicate InFlight(ph: Phase) {
    ph.Fetching? || ph.Draining? || ph.Cancelling?
  }

  function Holds(ph: Phase, i: nat): nat {
    if InFlight(ph) && ph.index == i then 1 else 0
  }

  /** How many workers run request i. */
  function Running(ws: seq<Phase>, i: nat): nat {
    if ws == [] then 0 else Holds(ws[0], i) + Running(ws[1..], i)
  }

  function Flying(ws: seq<Phase>): nat {
    if ws == [] then 0 else (if InFlight(ws[0]) then 1 else 0) + Flying(ws[1..])
  }

  function Cancels(ws: seq<Phase>): nat {
    if ws == [] then 0 else (if ws[0].Cancelling? then 1 else 0) + Cancels(ws[1..])
  }

  /** How many times request i has ended. */
  function Ended(os: seq<Outcome>, i: nat): nat {
    if os == [] then 0 else Ended(os[..|os| - 1], i) + (if os[|os| - 1].index == i then 1 else 0)
  }

  function Bad(os: seq<Outcome>): nat {
    if os == [] then 0 else Bad(os[..|os| - 1]) + (if os[|os| - 1].ok then 0 else 1)
  }

  lemma {:induction false} Replaced(ws: seq<Phase>, w: nat, ph: Phase, i: nat)
    requires w < |ws|
    ensures Running(ws[w := ph], i) == Running(ws, i) - Holds(ws[w], i) + Holds(ph, i)
    ensures Flying(ws[w := ph]) == Flying(ws) - (if InFlight(ws[w]) then 1 else 0) + (if InFlight(ph) then 1 else 0)
    ensures Cancels(ws[w := ph]) == Cancels(ws) - (if ws[w].Cancelling? then 1 else 0) + (if ph.Cancelling? then 1 else 0)
  {
    if w > 0 {
      assert ws[w := ph][1..] == ws[1..][w - 1 := ph];
      Replaced(ws[1..], w - 1, ph, i);
    } else {
      assert ws[0 := ph][1..] == ws[1..];
    }
  }

  // ---------------------------------------------------------------- invariant

  /** What every step keeps, seen at request i. */
  ghost predicate Invariant(p: Pool, total: nat, i: nat) {
    Counted(p, total, i) && LeftAtEnd(p, total)
  }

  ghost predicate Counted(p: Pool, total: nat, i: nat) {
    && p.next <= total
    && Running(p.workers, i) + Ended(p.outcomes, i) == (if i < p.next then 1 else 0)
    && |p.outcomes| == |p.latencies|
    && |p.outcomes| + Flying(p.workers) == p.next
    && Bad(p.outcomes) + Cancels(p.workers) <= p.failures <= 2 * Bad(p.outcomes) + Cancels(p.workers)
  }

  /** A worker leaves only when no request is left to claim. */
  ghost predicate LeftAtEnd(p: Pool, total: nat) {
    forall w :: 0 <= w < |p.workers| && p.workers[w] == Left ==> p.next == total
  }

  lemma {:induction false} StartCounts(n: nat, i: nat)
    ensures Running(Start(n).workers, i) == 0 && Flying(Start(n).workers) == 0 && Cancels(Start(n).workers) == 0
  {
    if n > 0 {
      StartCounts(n - 1, i);
      assert Start(n).workers[1..] == Start(n - 1).workers;
    }
  }

  lemma Recorded(os: seq<Outcome>, o: Outcome, i: nat)
    ensures Ended(os + [o], i) == Ended(os, i) + (if o.index == i then 1 else 0)
    ensures Bad(os + [o]) == Bad(os) + (if o.ok then 0 else 1)
  {
    assert (os + [o])[..|os|] == os;
  }

  lemma FinishCounts(p: Pool, total: nat, w: nat, ok: bool, thrown: bool, ms: real, i: nat)
    requires Counted(p, total, i) && w < |p.workers| && InFlight(p.workers[w])
    requires if ok then !thrown && !p.workers[w].Cancelling? else thrown || p.workers[w].Cancelling?
    ensures Counted(Finish(p, w, ok, thrown, ms), total, i)
  {
    hide Running, Flying, Cancels, Ended, Bad;
    Replaced(p.workers, w, Idle, i);
    Recorded(p.outcomes, Outcome(p.workers[w].index, ok), i);
  }

  lemma StepCounts(p: Pool, total: nat, e: Event, i: nat)
    requires Counted(p, total, i) && Enabled(p, total, e)
    ensures Counted(Step(p, total, e), total, i)
  {
    hide Running, Flying, Cancels, Ended, Bad, Finish;
    match e
    case FetchThrows(w, ms) => FinishCounts(p, total, w, false, true, ms, i);
    case Drained(w, ms) => FinishCounts(p, total, w, true, false, ms, i);
    case DrainThrows(w, ms) => FinishCounts(p, total, w, false, true, ms, i);
    case Cancelled(w, ms) => FinishCounts(p, total, w, false, false, ms, i);
    case CancelThrows(w, ms) => FinishCounts(p, total, w, false, true, ms, i);
    case _ =>
      var q := Step(p, total, e);
      Replaced(p.workers, e.w, q.workers[e.w], i);
      assert q.workers == p.workers[e.w := q.workers[e.w]];
  }

  lemma StepKeeps(p: Pool, total: nat, e: Event, i: nat)
    requires Invariant(p, total, i) && Enabled(p, total, e)
    ensures Invariant(Step(p, total, e), total, i) && |Step(p, total, e).workers| == |p.workers|
  {
    StepCounts(p, total, e, i);
    hide Counted;
    assert p.next <= total by { NextAtMost(p, total, i); }
  }

  lemma NextAtMost(p: Pool, total: nat, i: nat)
    requires Counted(p, total, i)
    ensures p.next <= total
  {
  }

  lemma {:induction false} RunKeeps(p: Pool, total: nat, events: seq<Event>, i: nat)
    requires Invariant(p, total, i) && Possible(p, total, events)
    ensures Invariant(After(p, total, events), total, i) && |After(p, total, events).workers| == |p.workers|
    decreases |events|
  {
    if events != [] {
      StepKeeps(p, total, events[0], i);
      RunKeeps(Step(p, total, events[0]), total, events[1..], i);
    }
  }

  lemma {:induction false} FlyingAtMost(ws: seq<Phase>)
    ensures Flying(ws) <= |ws|
  {
    if ws != [] {
      FlyingAtMost(ws[1..]);
    }
  }

  /** In every reachable state each request is running or has ended at most once, and at most one per worker is in flight. */
  lemma NeverTwice(concurrency: nat, total: nat, events: seq<Event>, i: nat)
    requires Possible(Start(concurrency), total, events)
    ensures var p := After(Start(concurrency), total, events);
      && Running(p.workers, i) + Ended(p.outcomes, i) == (if i < p.next then 1 else 0)
      && p.next <= total && Flying(p.workers) <= concurrency
  {
    StartCounts(concurrency, i);
    RunKeeps(Start(concurrency), total, events, i);
    FlyingAtMost(After(Start(concurrency), total, events).workers);
  }

  predicate AllLeft(p: Pool) {
    forall w :: 0 <= w < |p.workers| ==> p.workers[w] == Left
  }

  lemma {:induction false} NoneFlying(ws: seq<Phase>, i: nat)
    requires forall w :: 0 <= w < |ws| ==> ws[w] == Left
    ensures Running(ws, i) == 0 && Flying(ws) == 0 && Cancels(ws) == 0
  {
    if ws != [] {
      NoneFlying(ws[1..], i);
    }
  }

  lemma {:induction false} BadNone(os: seq<Outcome>)
    ensures Bad(os) == 0 <==> forall k :: 0 <= k < |os| ==> os[k].ok
    ensures Bad(os) <= |os|
  {
    if os != [] {
      var k := |os| - 1;
      BadNone(os[..k]);
      assert forall j :: 0 <= j < k ==> os[..k][j] == os[j];
    }
  }

  /**
   * When all workers have left, every request number below the total has ended
   * exactly once and no other has, there are exactly that many latencies, and
   * the failure count is zero exactly when every request returned 200 and drained.
   */
  lemma Complete(concurrency: nat, total: nat, events: seq<Event>, i: nat)
    requires concurrency > 0 && Possible(Start(concurrency), total, events)
    requires AllLeft(After(Start(concurrency), total, events))
    ensures var p := After(Start(concurrency), total, events);
      && Ended(p.outcomes, i) == (if i < total then 1 else 0)
      && |p.latencies| == total && |p.outcomes| == total
      && (p.failures == 0 <==> forall k :: 0 <= k < |p.outcomes| ==> p.outcomes[k].ok)
      && Bad(p.outcomes) <= p.failures <= 2 * Bad(p.outcomes) <= 2 * total
  {
    StartCounts(concurrency, i);
    RunKeeps(Start(concurrency), total, events, i);
    var p := After(Start(concurrency), total, events);
    NoneFlying(p.workers, i);
    BadNone(p.outcomes);
    assert p.workers[0] == Left;
    hide Start, After, Possible, Running, Flying, Cancels, Ended, Bad;
  }

  /** How many awaited cancels threw. */
  function Throws(events: seq<Event>): nat {
    if events == [] then 0 else (if events[0].CancelThrows? then 1 else 0) + Throws(events[1..])
  }

  /** The failures counted beyond one for each request that failed or is failing. */
  function Extra(p: Pool): int {
    p.failures - Bad(p.outcomes) - Cancels(p.workers)
  }

  lemma StepExtra(p: Pool, total: nat, e: Event)
    requires Enabled(p, total, e)
    ensures Extra(Step(p, total, e)) == Extra(p) + (if e.CancelThrows? then 1 else 0)
  {
    var q := Step(p, total, e);
    Replaced(p.workers, e.w, q.workers[e.w], 0);
    assert q.workers == p.workers[e.w := q.workers[e.w]];
    if q.outcomes != p.outcomes {
      Recorded(p.outcomes, q.outcomes[|p.outcomes|], 0);
    }
  }

  lemma {:induction false} RunExtra(p: Pool, total: nat, events: seq<Event>)
    requires Possible(p, total, events)
    ensures Extra(After(p, total, events)) == Extra(p) + Throws(events)
    decreases |events|
  {
    if events != [] {
      StepExtra(p, total, events[0]);
      RunExtra(Step(p, total, events[0]), total, events[1..]);
    }
  }

  lemma {:induction false} ThrowsNone(events: seq<Event>)
    ensures Throws(events) == 0 <==> forall k :: 0 <= k < |events| ==> !events[k].CancelThrows?
  {
    if events != [] {
      ThrowsNone(events[1..]);
      assert forall k :: 1 <= k < |events| ==> events[k] == events[1..][k - 1];
      assert forall k :: 0 <= k < |events| - 1 ==> events[1..][k] == events[k + 1];
    }
  }

  /**
   * In a complete run the failure count is the number of failed requests and one
   * more for each cancel that threw, so it is right exactly when none did.
   */
  lemma FailuresCounted(concurrency: nat, total: nat, events: seq<Event>)
    requires Possible(Start(concurrency), total, events)
    requires AllLeft(After(Start(concurrency), total, events))
    ensures var p := After(Start(concurrency), total, events);
      && p.failures == Bad(p.outcomes) + Throws(events)
      && (p.failures == Bad(p.outcomes) <==> forall k :: 0 <= k < |events| ==> !events[k].CancelThrows?)
  {
    StartCounts(concurrency, 0);
    RunExtra(Start(concurrency), total, events);
    NoneFlying(After(Start(concurrency), total, events).workers, 0);
    ThrowsNone(events);
  }

  /** The events that make a request fail: another status than 200, an error of the fetch or of the drain. */
  predicate Fails(e: Event) {
    (e.Respond? && e.status != 200) || e.FetchThrows? || e.DrainThrows?
  }

  function FailingEvents(events: seq<Event>): nat {
    if events == [] then 0 else (if Fails(events[0]) then 1 else 0) + FailingEvents(events[1..])
  }

  lemma StepBad(p: Pool, total: nat, e: Event)
    requires Enabled(p, total, e)
    ensures var q := Step(p, total, e);
      Bad(q.outcomes) + Cancels(q.workers) == Bad(p.outcomes) + Cancels(p.workers) + (if Fails(e) then 1 else 0)
  {
    var q := Step(p, total, e);
    hide Running, Flying, Cancels, Ended, Bad;
    Replaced(p.workers, e.w, q.workers[e.w], 0);
    assert q.workers == p.workers[e.w := q.workers[e.w]];
    if q.outcomes != p.outcomes {
      Recorded(p.outcomes, q.outcomes[|p.outcomes|], 0);
    }
  }

  lemma {:induction false} RunBad(p: Pool, total: nat, events: seq<Event>)
    requires Possible(p, total, events)
    ensures var q := After(p, total, events);
      Bad(q.outcomes) + Cancels(q.workers) == Bad(p.outcomes) + Cancels(p.workers) + FailingEvents(events)
    decreases |events|
  {
    if events != [] {
      StepBad(p, total, events[0]);
      hide Step, Enabled, Bad, Cancels;
      RunBad(Step(p, total, events[0]), total, events[1..]);
    }
  }

  lemma {:induction false} FailingNone(events: seq<Event>)
    ensures FailingEvents(events) == 0 <==> forall k :: 0 <= k < |events| ==> !Fails(events[k])
  {
    hide Fails;
    if events != [] {
      FailingNone(events[1..]);
      assert forall k :: 1 <= k < |events| ==> events[k] == events[1..][k - 1];
      assert forall k :: 0 <= k < |events| - 1 ==> events[1..][k] == events[k + 1];
    }
  }

  /**
   * In a complete run the failed requests are as many as the responses with
   * another status than 200 and the errors of fetch and drain; the failure count
   * is zero exactly when every response was a 200 and neither threw.
   */
  lemma FailuresMean(concurrency: nat, total: nat, events: seq<Event>)
    requires Possible(Start(concurrency), total, events)
    requires AllLeft(After(Start(concurrency), total, events))
    ensures var p := After(Start(concurrency), total, events);
      && Bad(p.outcomes) == FailingEvents(events)
      && p.failures == FailingEvents(events) + Throws(events)
      && (p.failures == 0 <==>
            forall k :: 0 <= k < |events| ==>
              (events[k].Respond? ==> events[k].status == 200) && !events[k].FetchThrows? && !events[k].DrainThrows?)
  {
    var s, p := Start(concurrency), After(Start(concurrency), total, events);
    StartCounts(concurrency, 0);
    RunBad(s, total, events);
    NoneFlying(p.workers, 0);
    FailuresCounted(concurrency, total, events);
    FailingNone(events);
    ThrowsNone(events);
    hide Possible, After, Throws, FailingEvents;
    if FailingEvents(events) == 0 {
      NoRejected(concurrency, total, events);
    }
  }

  /** No cancel without a rejected response before it. */
  lemma NoRejected(concurrency: nat, total: nat, events: seq<Event>)
    requires Possible(Start(concurrency), total, events)
    requires forall k :: 0 <= k < |events| ==> !Fails(events[k])
    ensures Throws(events) == 0
  {
    assert forall w :: 0 <= w < |Start(concurrency).workers| ==> !Start(concurrency).workers[w].Cancelling?;
    NoneCancelling(Start(concurrency), total, events);
  }

  lemma {:induction false} NoneCancelling(p: Pool, total: nat, events: seq<Event>)
    requires Possible(p, total, events) && forall k :: 0 <= k < |events| ==> !Fails(events[k])
    requires forall w :: 0 <= w < |p.workers| ==> !p.workers[w].Cancelling?
    ensures Throws(events) == 0
    decreases |events|
  {
    if events != [] {
      var q := Step(p, total, events[0]);
      assert !Fails(events[0]) && !events[0].CancelThrows?;
      assert forall w :: 0 <= w < |q.workers| ==> !q.workers[w].Cancelling?;
      hide Step, Enabled, Fails;
      assert forall k :: 0 <= k < |events| - 1 ==> events[1..][k] == events[k + 1];
      NoneCancelling(q, total, events[1..]);
    }
  }

  /** The times of the requests, in the order in which they ended. */
  function Times(events: seq<Event>): seq<real> {
    if events == [] then []
    else (if events[0].Claim? || events[0].Leave? || events[0].Respond? then [] else [events[0].ms]) + Times(events[1..])
  }

  lemma {:induction false} RunTimes(p: Pool, total: nat, events: seq<Event>)
    requires Possible(p, total, events)
    ensures After(p, total, events).latencies == p.latencies + Times(events)
    decreases |events|
  {
    if events != [] {
      var e, q := events[0], Step(p, total, events[0]);
      var one := if e.Claim? || e.Leave? || e.Respond? then [] else [e.ms];
      assert q.latencies == p.latencies + one;
      hide Step, Enabled;
      RunTimes(q, total, events[1..]);
      Assoc(p.latencies, one, Times(events[1..]));
    } else {
      assert p.latencies + [] == p.latencies;
    }
  }

  /** The latencies are the times of the requests. */
  lemma LatenciesAre(concurrency: nat, total: nat, events: seq<Event>)
    requires Possible(Start(concurrency), total, events)
    ensures After(Start(concurrency), total, events).latencies == Times(events)
  {
    RunTimes(Start(concurrency), total, events);
    assert [] + Times(events) == Times(events);
  }

  /** The smallest such run: a rejected response whose cancel throws counts twice. */
  lemma FailureCountedTwice(ms: real)
    ensures var events := [Claim(0), Respond(0, 500), CancelThrows(0, ms), Leave(0)];
      Possible(Start(1), 1, events) && After(Start(1), 1, events).failures == 2 && |After(Start(1), 1, events).outcomes| == 1
  {
    var p0 := Start(1);
    var e0, e1, e2, e3 := Claim(0), Respond(0, 500), CancelThrows(0, ms), Leave(0);
    var p1 := Step(p0, 1, e0);
    var p2 := Step(p1, 1, e1);
    var p3 := Step(p2, 1, e2);
    var p4 := Step(p3, 1, e3);
    var l3, l2, l1 := [e3], [e2, e3], [e1, e2, e3];
    assert l3[1..] == [] && l2[1..] == l3 && l1[1..] == l2 && [e0, e1, e2, e3][1..] == l1;
    assert Possible(p3, 1, l3) && After(p3, 1, l3) == p4;
    assert Possible(p2, 1, l2) && After(p2, 1, l2) == p4;
    assert Possible(p1, 1, l1) && After(p1, 1, l1) == p4;
  }

  // ----------------------------------------------------------------- progress

  function Weight(ph: Phase): nat {
    match ph
    case Idle => 1
    case Fetching(_) => 3
    case Draining(_) => 2
    case Cancelling(_) => 2
    case Left => 0
  }

  function Weights(ws: seq<Phase>): nat {
    if ws == [] then 0 else Weight(ws[0]) + Weights(ws[1..])
  }

  function Measure(p: Pool, total: nat): nat
    requires p.next <= total
  {
    4 * (total - p.next) + Weights(p.workers)
  }

  lemma {:induction false} WeightsReplaced(ws: seq<Phase>, w: nat, ph: Phase)
    requires w < |ws|
    ensures Weights(ws[w := ph]) == Weights(ws) - Weight(ws[w]) + Weight(ph)
  {
    if w > 0 {
      assert ws[w := ph][1..] == ws[1..][w - 1 := ph];
      WeightsReplaced(ws[1..], w - 1, ph);
    } else {
      assert ws[0 := ph][1..] == ws[1..];
    }
  }

  lemma StepDecreases(p: Pool, total: nat, e: Event)
    requires p.next <= total && Enabled(p, total, e)
    ensures Step(p, total, e).next <= total && Measure(Step(p, total, e), total) < Measure(p, total)
  {
    var q := Step(p, total, e);
    WeightsReplaced(p.workers, e.w, q.workers[e.w]);
    assert q.workers == p.workers[e.w := q.workers[e.w]];
  }

  lemma {:induction false} RunBounded(p: Pool, total: nat, events: seq<Event>)
    requires p.next <= total && Possible(p, total, events)
    ensures |events| <= Measure(p, total)
    decreases |events|
  {
    if events != [] {
      StepDecreases(p, total, events[0]);
      RunBounded(Step(p, total, events[0]), total, events[1..]);
    }
  }

  lemma {:induction false} StartWeight(n: nat)
    ensures Weights(Start(n).workers) == n
  {
    if n > 0 {
      StartWeight(n - 1);
      assert Start(n).workers[1..] == Start(n - 1).workers;
    }
  }

  /** A worker that has not left always has a step it can take. */
  lemma CanStep(p: Pool, total: nat, w: nat)
    requires w < |p.workers| && p.workers[w] != Left
    ensures exists e :: Enabled(p, total, e)
  {
    var e := match p.workers[w]
      case Idle => if p.next < total then Claim(w) else Leave(w)
      case Fetching(_) => Respond(w, 200)
      case Draining(_) => Drained(w, 0.0)
      case Cancelling(_) => Cancelled(w, 0.0)
      case Left => Leave(w);
    assert Enabled(p, total, e);
  }

  /** Every run is at most four steps a request and one a worker long, and one that cannot go on is complete. */
  lemma EveryRunEnds(concurrency: nat, total: nat, events: seq<Event>)
    requires Possible(Start(concurrency), total, events)
    ensures |events| <= 4 * total + concurrency
    ensures (forall e :: !Enabled(After(Start(concurrency), total, events), total, e))
      ==> AllLeft(After(Start(concurrency), total, events))
  {
    StartWeight(concurrency);
    RunBounded(Start(concurrency), total, events);
    var p := After(Start(concurrency), total, events);
    if !AllLeft(p) {
      var w :| 0 <= w < |p.workers| && p.workers[w] != Left;
      CanStep(p, total, w);
    }
  }
}
