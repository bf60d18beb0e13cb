/**
 * The services report: listening sockets matched with services, the rest unmapped.
 */
module Listeners {
  import opened Text
  import opened OrderedDict

  datatype Socket = Socket(port: nat, proto: string, pid: Option<nat>, process: Option<string>)

  /** A registry entry with the port its config file holds now. */
  datatype Service = Service(id: string, current: Option<nat>, defaultPort: nat)

  datatype ServiceRow = ServiceRow(id: string, current: Option<nat>, listening: seq<nat>, processes: seq<string>, pids: seq<nat>)

  datatype Report = Report(services: seq<ServiceRow>, unmapped: seq<Socket>, count: nat)

  // ------------------------------------------------------------------- index

  function OnPort(sockets: seq<Socket>, port: nat): seq<Socket> {
    if sockets == [] then []
    else (if sockets[0].port == port then [sockets[0]] else []) + OnPort(sockets[1..], port)
  }

  lemma {:induction false} OnPortConcat(a: seq<Socket>, b: seq<Socket>, p: nat)
    ensures OnPort(a + b, p) == OnPort(a, p) + OnPort(b, p)
  {
    if a == [] {
      assert a + b == b;
    } else {
      assert (a + b)[1..] == a[1..] + b;
      OnPortConcat(a[1..], b, p);
      Assoc(if a[0].port == p then [a[0]] else [], OnPort(a[1..], p), OnPort(b, p));
    }
  }

  lemma OnPortAppend(a: seq<Socket>, s: Socket, port: nat)
    ensures OnPort(a + [s], port) == OnPort(a, port) + (if s.port == port then [s] else [])
  {
    OnPortConcat(a, [s], port);
    assert [s][1..] == [];
  }

  ghost predicate Indexes(byPort: map<nat, seq<Socket>>, sockets: seq<Socket>) {
    && (forall p :: p in byPort ==> byPort[p] != [] && byPort[p] == OnPort(sockets, p))
    && (forall p :: p !in byPort ==> OnPort(sockets, p) == [])
  }

  /** The sockets have one index by port. */
  lemma OneIndex(byPort: map<nat, seq<Socket>>, other: map<nat, seq<Socket>>, sockets: seq<Socket>)
    requires Indexes(byPort, sockets) && Indexes(other, sockets)
    ensures other == byPort
  {
    hide OnPort;
    assert forall p :: p in byPort <==> OnPort(sockets, p) != [];
    assert forall p :: p in other <==> OnPort(sockets, p) != [];
  }

  method IndexByPort(sockets: seq<Socket>) returns (byPort: map<nat, seq<Socket>>)
    ensures Indexes(byPort, sockets)
  {
    byPort := map[];
    for i := 0 to |sockets|
      invariant Indexes(byPort, sockets[..i])
    {
      var s := sockets[i];
      assert sockets[..i + 1] == sockets[..i] + [s];
      forall p ensures OnPort(sockets[..i + 1], p) == OnPort(sockets[..i], p) + (if s.port == p then [s] else []) {
        OnPortAppend(sockets[..i], s, p);
      }
      byPort := byPort[s.port := (if s.port in byPort then byPort[s.port] else []) + [s]];
    }
    assert sockets[..|sockets|] == sockets;
  }

  // ---------------------------------------------------------------- services

  /** The ports a service is looked for on: the configured one and the default. */
  function Wanted(s: Service): (ports: set<nat>)
    ensures forall p :: p in ports <==> s.current == Some(p) || s.defaultPort == p
  {
    (if s.current.Some? then {s.current.value} else {}) + {s.defaultPort}
  }

  ghost predicate HasProcess(listeners: seq<Socket>, name: string) {
    name != "" && exists i :: 0 <= i < |listeners| && listeners[i].process == Some(name)
  }

  ghost predicate HasPid(listeners: seq<Socket>, pid: nat) {
    pid != 0 && exists i :: 0 <= i < |listeners| && listeners[i].pid == Some(pid)
  }

  predicate Once<T(==)>(xs: seq<T>) {
    forall i, j :: 0 <= i < j < |xs| ==> xs[i] != xs[j]
  }

  /** The row lists, each once, the given ports that are listened on, and the processes and pids found there. */
  ghost predicate Lists(listening: seq<nat>, processes: seq<string>, pids: seq<nat>, ports: set<nat>,
                        byPort: map<nat, seq<Socket>>)
  {
    && Once(listening) && Once(processes) && Once(pids)
    && (forall p :: p in listening <==> p in ports && p in byPort)
    && (forall x :: x in processes <==> exists p :: p in ports && p in byPort && HasProcess(byPort[p], x))
    && (forall x :: x in pids <==> exists p :: p in ports && p in byPort && HasPid(byPort[p], x))
  }

  ghost predicate RowOf(row: ServiceRow, s: Service, byPort: map<nat, seq<Socket>>) {
    && row.id == s.id && row.current == s.current
    && Lists(row.listening, row.processes, row.pids, Wanted(s), byPort)
  }

  function AddOnce<T(==, !new)>(xs: seq<T>, x: T): (r: seq<T>)
    ensures Once(xs) ==> Once(r)
    ensures forall y :: y in r <==> y in xs || y == x
  {
    if x in xs then xs else xs + [x]
  }

  method Details(listeners: seq<Socket>, processes: seq<string>, pids: seq<nat>)
    returns (processes': seq<string>, pids': seq<nat>)
    requires Once(processes) && Once(pids)
    ensures Once(processes') && Once(pids')
    ensures forall x :: x in processes' <==> x in processes || HasProcess(listeners, x)
    ensures forall x :: x in pids' <==> x in pids || HasPid(listeners, x)
  {
    processes', pids' := processes, pids;
    for i := 0 to |listeners|
      invariant Once(processes') && Once(pids')
      invariant forall x :: x in processes' <==> x in processes || HasProcess(listeners[..i], x)
      invariant forall x :: x in pids' <==> x in pids || HasPid(listeners[..i], x)
    {
      var s := listeners[i];
      OneMore(listeners, i);
      if s.process.Some? && s.process.value != "" {
        processes' := AddOnce(processes', s.process.value);
      }
      if s.pid.Some? && s.pid.value != 0 {
        pids' := AddOnce(pids', s.pid.value);
      }
    }
    assert listeners[..|listeners|] == listeners;
  }

  lemma OneMore(listeners: seq<Socket>, i: nat)
    requires i < |listeners|
    ensures forall x :: HasProcess(listeners[..i + 1], x) <==>
      HasProcess(listeners[..i], x) || (x != "" && listeners[i].process == Some(x))
    ensures forall x: nat :: HasPid(listeners[..i + 1], x) <==>
      HasPid(listeners[..i], x) || (x != 0 && listeners[i].pid == Some(x))
  {
    var before, after := listeners[..i], listeners[..i + 1];
    assert after == before + [listeners[i]];
    assert forall k :: 0 <= k < i ==> after[k] == before[k];
    assert after[i] == listeners[i];
  }

  /** One more port of the service, listened on or not. */
  lemma PortAdded(listening: seq<nat>, processes: seq<string>, pids: seq<nat>, ports: set<nat>, p: nat,
                  byPort: map<nat, seq<Socket>>, processes': seq<string>, pids': seq<nat>)
    requires Lists(listening, processes, pids, ports, byPort) && p !in ports
    requires p !in byPort ==> processes' == processes && pids' == pids
    requires p in byPort ==> Once(processes') && forall x :: x in processes' <==> x in processes || HasProcess(byPort[p], x)
    requires p in byPort ==> Once(pids') && forall x :: x in pids' <==> x in pids || HasPid(byPort[p], x)
    ensures Lists(if p in byPort then listening + [p] else listening, processes', pids', ports + {p}, byPort)
  {
    hide HasProcess, HasPid;
  }

  method MatchService(s: Service, byPort: map<nat, seq<Socket>>, ghost sockets: seq<Socket>) returns (row: ServiceRow)
    requires Indexes(byPort, sockets)
    ensures RowOf(row, s, byPort)
  {
    hide Lists, Wanted, HasProcess, HasPid, Indexes;
    var listening: seq<nat>, processes: seq<string>, pids: seq<nat> := [], [], [];
    var left := Wanted(s);
    NoPorts(byPort);
    assert Wanted(s) - left == {};
    while left != {}
      invariant left <= Wanted(s)
      invariant Once(processes) && Once(pids)
      invariant Lists(listening, processes, pids, Wanted(s) - left, byPort)
      decreases left
    {
      var p :| p in left;
      ghost var done, processes0, pids0, listening0 := Wanted(s) - left, processes, pids, listening;
      left := left - {p};
      assert Wanted(s) - left == done + {p};
      if p in byPort {
        listening := listening + [p];
        processes, pids := Details(byPort[p], processes, pids);
      }
      PortAdded(listening0, processes0, pids0, done, p, byPort, processes, pids);
    }
    assert Wanted(s) - left == Wanted(s);
    row := ServiceRow(s.id, s.current, listening, processes, pids);
  }

  lemma NoPorts(byPort: map<nat, seq<Socket>>)
    ensures Lists([], [], [], {}, byPort)
  {
  }

  method MatchServices(services: seq<Service>, byPort: map<nat, seq<Socket>>, ghost sockets: seq<Socket>)
    returns (rows: seq<ServiceRow>)
    requires Indexes(byPort, sockets)
    ensures |rows| == |services| && forall i :: 0 <= i < |rows| ==> RowOf(rows[i], services[i], byPort)
  {
    rows := [];
    for i := 0 to |services|
      invariant |rows| == i && forall j :: 0 <= j < i ==> RowOf(rows[j], services[j], byPort)
    {
      var row := MatchService(services[i], byPort, sockets);
      rows := rows + [row];
    }
  }

  method MatchedPorts(rows: seq<ServiceRow>) returns (matched: set<nat>)
    ensures forall p :: p in matched <==>
      exists i :: 0 <= i < |rows| && (p in rows[i].listening || rows[i].current == Some(p))
  {
    matched := {};
    for i := 0 to |rows|
      invariant forall p :: p in matched <==>
        exists j :: 0 <= j < i && (p in rows[j].listening || rows[j].current == Some(p))
    {
      matched := matched + (set p | p in rows[i].listening);
      if rows[i].current.Some? {
        matched := matched + {rows[i].current.value};
      }
    }
  }

  // ---------------------------------------------------------------- unmapped

  method Least(ports: set<nat>) returns (p: nat)
    requires ports != {}
    ensures p in ports && forall q :: q in ports ==> p <= q
  {
    p :| p in ports;
    var left := ports - {p};
    while left != {}
      invariant left <= ports && p in ports && forall q :: q in ports ==> q in left || p <= q
      decreases left
    {
      var q :| q in left;
      left := left - {q};
      if q < p {
        p := q;
      }
    }
  }

  ghost predicate Collected(r: seq<Socket>, left: set<nat>, matched: set<nat>, sockets: seq<Socket>) {
    && (forall p :: OnPort(r, p) == Share(p, left, matched, sockets))
    && (forall q :: q in left ==> UpTo(r, q))
    && Ordered(r)
  }

  ghost predicate UpTo(r: seq<Socket>, port: nat) {
    forall i :: 0 <= i < |r| ==> r[i].port <= port
  }

  ghost predicate Ordered(r: seq<Socket>) {
    forall i, j :: 0 <= i < j < |r| ==> r[i].port <= r[j].port
  }

  lemma OrderExtends(r: seq<Socket>, group: seq<Socket>, p: nat)
    requires Ordered(r) && UpTo(r, p) && (forall i :: 0 <= i < |group| ==> group[i].port == p)
    ensures Ordered(r + group) && forall q :: p <= q ==> UpTo(r + group, q)
  {
  }

  lemma GroupOnPort(r: seq<Socket>, sockets: seq<Socket>, p: nat, q: nat)
    ensures OnPort(r + OnPort(sockets, p), q) == if q == p then OnPort(r, q) + OnPort(sockets, p) else OnPort(r, q)
  {
    OnPortConcat(r, OnPort(sockets, p), q);
    OnPortOfGroup(sockets, p, q);
    assert OnPort(r, q) + [] == OnPort(r, q);
  }

  /** The share of the collected sockets that port q has. */
  function Share(q: nat, left: set<nat>, matched: set<nat>, sockets: seq<Socket>): seq<Socket> {
    if q in left || q in matched then [] else OnPort(sockets, q)
  }

  lemma ShareAfter(r: seq<Socket>, left: set<nat>, matched: set<nat>, sockets: seq<Socket>, p: nat, q: nat)
    requires OnPort(r, q) == Share(q, left, matched, sockets)
    requires p in left && p !in matched
    ensures OnPort(r + OnPort(sockets, p), q) == Share(q, left - {p}, matched, sockets)
  {
    hide OnPort;
    GroupOnPort(r, sockets, p, q);
    if q == p {
      assert [] + OnPort(sockets, p) == OnPort(sockets, p);
    }
  }

  lemma CollectGroup(r: seq<Socket>, left: set<nat>, matched: set<nat>, sockets: seq<Socket>, p: nat)
    requires Collected(r, left, matched, sockets) && p in left && p !in matched
    requires forall q :: q in left ==> p <= q
    ensures Collected(r + OnPort(sockets, p), left - {p}, matched, sockets)
  {
    hide OnPort, Ordered, UpTo, Share;
    OnePort(sockets, p);
    OrderExtends(r, OnPort(sockets, p), p);
    forall q
      ensures OnPort(r + OnPort(sockets, p), q) == Share(q, left - {p}, matched, sockets)
    {
      ShareAfter(r, left, matched, sockets, p, q);
    }
  }

  lemma SkipGroup(r: seq<Socket>, left: set<nat>, matched: set<nat>, sockets: seq<Socket>, p: nat)
    requires Collected(r, left, matched, sockets) && p in matched
    ensures Collected(r, left - {p}, matched, sockets)
  {
  }

  /** The sockets outside the matched ports, in order of port and then of detection. */
  method Unmapped(byPort: map<nat, seq<Socket>>, matched: set<nat>, ghost sockets: seq<Socket>) returns (r: seq<Socket>)
    requires Indexes(byPort, sockets)
    ensures forall p :: OnPort(r, p) == if p in matched then [] else OnPort(sockets, p)
    ensures forall i, j :: 0 <= i < j < |r| ==> r[i].port <= r[j].port
  {
    r := [];
    var left := byPort.Keys;
    while left != {}
      invariant left <= byPort.Keys && Collected(r, left, matched, sockets)
      decreases left
    {
      hide OnPort, Collected;
      var p := Least(left);
      if p in matched {
        SkipGroup(r, left, matched, sockets, p);
      } else {
        CollectGroup(r, left, matched, sockets, p);
        r := r + byPort[p];
      }
      left := left - {p};
    }
  }

  lemma {:induction false} OnePort(sockets: seq<Socket>, p: nat)
    ensures forall i :: 0 <= i < |OnPort(sockets, p)| ==> OnPort(sockets, p)[i].port == p
  {
    if sockets != [] {
      OnePort(sockets[1..], p);
    }
  }

  lemma {:induction false} OnPortOfGroup(sockets: seq<Socket>, p: nat, q: nat)
    ensures OnPort(OnPort(sockets, p), q) == if q == p then OnPort(sockets, p) else []
  {
    if sockets != [] {
      OnPortOfGroup(sockets[1..], p, q);
      var first := if sockets[0].port == p then [sockets[0]] else [];
      OnPortConcat(first, OnPort(sockets[1..], p), q);
      assert first != [] ==> first[1..] == [];
    }
  }

  method Services(sockets: seq<Socket>, services: seq<Service>) returns (r: Report)
    ensures Partitions(r, sockets, services)
    ensures forall i, j :: 0 <= i < j < |r.unmapped| ==> r.unmapped[i].port <= r.unmapped[j].port
    ensures forall byPort :: Indexes(byPort, sockets) ==>
      forall i :: 0 <= i < |services| ==> RowOf(r.services[i], services[i], byPort)
  {
    var byPort := IndexByPort(sockets);
    var rows := MatchServices(services, byPort, sockets);
    var matched := MatchedPorts(rows);
    var unmapped := Unmapped(byPort, matched, sockets);
    r := Report(rows, unmapped, |sockets|);
    MatchedMeans(byPort, rows, services, sockets, matched);
    forall other | Indexes(other, sockets)
      ensures other == byPort
    {
      OneIndex(byPort, other, sockets);
    }
  }

  // --------------------------------------------------------------- partition

  ghost predicate IsWanted(services: seq<Service>, p: nat) {
    exists i :: 0 <= i < |services| && (services[i].current == Some(p) || services[i].defaultPort == p)
  }

  /**
   * A socket on the configured or the default port of a service is in that service's listening ports
   * and not in the unmapped list; all the others are in the unmapped list, as
   * often as they were detected and in that order.
   */
  ghost predicate Partitions(r: Report, sockets: seq<Socket>, services: seq<Service>) {
    && |r.services| == |services| && r.count == |sockets|
    && (forall i, p :: 0 <= i < |services| ==>
         (p in r.services[i].listening <==>
            (services[i].current == Some(p) || services[i].defaultPort == p) && OnPort(sockets, p) != []))
    && (forall p :: OnPort(r.unmapped, p) == if IsWanted(services, p) then [] else OnPort(sockets, p))
  }

  lemma MatchedMeans(byPort: map<nat, seq<Socket>>, rows: seq<ServiceRow>, services: seq<Service>, sockets: seq<Socket>,
                     matched: set<nat>)
    requires Indexes(byPort, sockets) && |rows| == |services|
    requires forall i :: 0 <= i < |rows| ==> RowOf(rows[i], services[i], byPort)
    requires forall p :: p in matched <==>
      exists i :: 0 <= i < |rows| && (p in rows[i].listening || rows[i].current == Some(p))
    ensures forall p :: OnPort(sockets, p) != [] ==> (p in matched <==> IsWanted(services, p))
  {
    forall p | OnPort(sockets, p) != [] ensures p in matched <==> IsWanted(services, p) {
      if p in matched {
        var i :| 0 <= i < |rows| && (p in rows[i].listening || rows[i].current == Some(p));
        assert RowOf(rows[i], services[i], byPort);
        assert p in Wanted(services[i]);
      }
      if IsWanted(services, p) {
        var i :| 0 <= i < |services| && p in Wanted(services[i]);
        assert RowOf(rows[i], services[i], byPort);
        assert p in rows[i].listening;
      }
    }
  }

  function WantedOnes(sockets: seq<Socket>, ports: set<nat>): seq<Socket> {
    if sockets == [] then [] else (if sockets[0].port in ports then [sockets[0]] else []) + WantedOnes(sockets[1..], ports)
  }

  function Others(sockets: seq<Socket>, ports: set<nat>): seq<Socket> {
    if sockets == [] then [] else (if sockets[0].port in ports then [] else [sockets[0]]) + Others(sockets[1..], ports)
  }

  function WantedPorts(services: seq<Service>): set<nat> {
    if services == [] then {} else Wanted(services[0]) + WantedPorts(services[1..])
  }

  lemma {:induction false} WantedPortsMean(services: seq<Service>)
    ensures forall p :: p in WantedPorts(services) <==> IsWanted(services, p)
  {
    if services != [] {
      var more := services[1..];
      WantedPortsMean(more);
      forall p ensures IsWanted(services, p) <==> p in Wanted(services[0]) || IsWanted(more, p) {
        if IsWanted(services, p) {
          var i :| 0 <= i < |services| && p in Wanted(services[i]);
          assert i > 0 ==> services[i] == more[i - 1];
        }
        if IsWanted(more, p) {
          var i :| 0 <= i < |more| && p in Wanted(more[i]);
          assert services[i + 1] == more[i];
        }
      }
    }
  }

  lemma {:induction false} OthersOnPort(sockets: seq<Socket>, ports: set<nat>, p: nat)
    ensures OnPort(Others(sockets, ports), p) == if p in ports then [] else OnPort(sockets, p)
    ensures |WantedOnes(sockets, ports)| + |Others(sockets, ports)| == |sockets|
  {
    if sockets != [] {
      OthersOnPort(sockets[1..], ports, p);
      var first := if sockets[0].port in ports then [] else [sockets[0]];
      OnPortConcat(first, Others(sockets[1..], ports), p);
      assert first != [] ==> first[1..] == [];
    }
  }

  lemma {:induction false} CountedOnPort(xs: seq<Socket>, x: Socket)
    ensures multiset(xs)[x] == multiset(OnPort(xs, x.port))[x]
  {
    if xs != [] {
      CountedOnPort(xs[1..], x);
      assert xs == [xs[0]] + xs[1..];
    }
  }

  lemma SamePortsSameSockets(a: seq<Socket>, b: seq<Socket>)
    requires forall p :: OnPort(a, p) == OnPort(b, p)
    ensures multiset(a) == multiset(b) && |a| == |b|
  {
    forall x ensures multiset(a)[x] == multiset(b)[x] {
      CountedOnPort(a, x);
      CountedOnPort(b, x);
    }
    assert multiset(a) == multiset(b);
    assert |multiset(a)| == |a| && |multiset(b)| == |b|;
  }

  /**
   * Every listener is either on a port of a service that lists it, or in the
   * unmapped list as often as it was detected, never both; the two groups
   * together are all the listeners.
   */
  lemma EveryListenerOnce(r: Report, sockets: seq<Socket>, services: seq<Service>, x: Socket)
    requires Partitions(r, sockets, services)
    ensures IsWanted(services, x.port) ==> x !in r.unmapped
    ensures IsWanted(services, x.port) && x in sockets ==>
      exists i :: 0 <= i < |services| && x.port in Wanted(services[i]) && x.port in r.services[i].listening
    ensures !IsWanted(services, x.port) ==> multiset(r.unmapped)[x] == multiset(sockets)[x]
    ensures |WantedOnes(sockets, WantedPorts(services))| + |r.unmapped| == r.count
  {
    var ports := WantedPorts(services);
    WantedPortsMean(services);
    UnmappedOnPort(r, sockets, services);
    CountedOnPort(r.unmapped, x);
    CountedOnPort(sockets, x);
    if IsWanted(services, x.port) && x in sockets {
      var i := Wanting(services, x.port);
      ListedThere(r, sockets, services, x, i);
    }
    hide IsWanted, Wanted, OnPort, WantedPorts, WantedOnes, Others;
    forall p ensures OnPort(r.unmapped, p) == OnPort(Others(sockets, ports), p) {
      OthersOnPort(sockets, ports, p);
    }
    SamePortsSameSockets(r.unmapped, Others(sockets, ports));
    OthersOnPort(sockets, ports, x.port);
    assert x in r.unmapped <==> multiset(r.unmapped)[x] > 0;
  }

  lemma UnmappedOnPort(r: Report, sockets: seq<Socket>, services: seq<Service>)
    requires Partitions(r, sockets, services)
    ensures forall p :: OnPort(r.unmapped, p) == if IsWanted(services, p) then [] else OnPort(sockets, p)
    ensures r.count == |sockets|
  {
    hide IsWanted, OnPort, Wanted;
  }

  lemma Wanting(services: seq<Service>, p: nat) returns (i: nat)
    requires IsWanted(services, p)
    ensures i < |services| && p in Wanted(services[i])
  {
    i :| 0 <= i < |services| && (services[i].current == Some(p) || services[i].defaultPort == p);
  }

  lemma ListedThere(r: Report, sockets: seq<Socket>, services: seq<Service>, x: Socket, i: nat)
    requires Partitions(r, sockets, services) && x in sockets
    requires i < |services| && x.port in Wanted(services[i])
    ensures x.port in r.services[i].listening
  {
    assert OnPort(sockets, x.port) != [] by { Present(sockets, x); }
    hide OnPort, IsWanted;
  }

  lemma {:induction false} Present(sockets: seq<Socket>, x: Socket)
    requires x in sockets
    ensures OnPort(sockets, x.port) != []
  {
    if sockets[0] != x {
      Present(sockets[1..], x);
    }
  }
}
