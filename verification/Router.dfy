/**
 Cross-chain route search: a breadth-first walk over bridge paths. The result is proved to be all
 simple routes, each once, fastest first, and the first one to beat every walk, cyclic ones included.
 */
module Router {
  import opened Wrappers

  datatype BridgeEdge = BridgeEdge(source: string, destination: string, protocol: string, latency: real, active: bool)

  type Topology = seq<BridgeEdge>

  /** Edges are referred to by their position in the topology, as the source shares edge objects. */
  type Path = seq<nat>

  datatype Route = Route(hops: Path, totalLatency: real, protocols: seq<string>)

  // ----- Walks and simple routes -----

  predicate InRange(topology: Topology, p: Path) {
    forall k :: 0 <= k < |p| ==> p[k] < |topology|
  }

  /** The chain reached from `source` along `p`. */
  function EndOf(topology: Topology, source: string, p: Path): string
    requires InRange(topology, p)
  {
    if p == [] then source else topology[p[|p| - 1]].destination
  }

  /** Consecutive active edges starting at `source`. */
  predicate Chain(topology: Topology, source: string, p: Path) {
    && InRange(topology, p)
    && (forall k :: 0 <= k < |p| ==>
          topology[p[k]].active && topology[p[k]].source == EndOf(topology, source, p[..k]))
  }

  /** No chain is entered twice. */
  predicate Simple(topology: Topology, p: Path)
    requires InRange(topology, p)
  {
    forall i, j :: 0 <= i < j < |p| ==> topology[p[i]].destination != topology[p[j]].destination
  }

  function Latency(topology: Topology, p: Path): real
    requires InRange(topology, p)
  {
    if p == [] then 0.0 else Latency(topology, p[..|p| - 1]) + topology[p[|p| - 1]].latency
  }

  /** A one-hop path takes the latency of its edge; with `LatencySum` this fixes every latency. */
  lemma LatencyOfOne(topology: Topology, e: nat)
    requires e < |topology|
    ensures Latency(topology, [e]) == topology[e].latency
  {
    assert [e][..0] == [];
  }

  predicate Walk(topology: Topology, source: string, destination: string, maxHops: int, p: Path) {
    Chain(topology, source, p) && |p| <= maxHops && EndOf(topology, source, p) == destination
  }

  predicate SimpleRoute(topology: Topology, source: string, destination: string, maxHops: int, p: Path) {
    Walk(topology, source, destination, maxHops, p) && Simple(topology, p)
  }

  lemma ChainExtend(topology: Topology, source: string, p: Path, e: nat)
    requires Chain(topology, source, p) && e < |topology|
    requires topology[e].active && topology[e].source == EndOf(topology, source, p)
    ensures Chain(topology, source, p + [e])
  {
    var q := p + [e];
    forall k | 0 <= k < |q|
      ensures topology[q[k]].active && topology[q[k]].source == EndOf(topology, source, q[..k])
    {
      assert q[..k] == p[..k];
    }
    assert q[..|p|] == p == p[..|p|];
  }

  // ----- Protocols and sorting -----

  /** The protocols met, without repetition, in order of first use. */
  function Protocols(topology: Topology, p: Path): (r: seq<string>)
    requires InRange(topology, p)
    ensures forall x :: x in r <==> exists k :: 0 <= k < |p| && x == topology[p[k]].protocol
    ensures forall i, j :: 0 <= i < j < |r| ==> r[i] != r[j]
  {
    if p == [] then []
    else
      var n := |p| - 1;
      var front := Protocols(topology, p[..n]);
      var x := topology[p[n]].protocol;
      assert forall k :: 0 <= k < n ==> p[..n][k] == p[k];
      if x in front then front else front + [x]
  }

  /** Hop `k` uses protocol `x`, and no hop up to it uses `y`. */
  predicate UsedBefore(topology: Topology, p: Path, k: nat, x: string, y: string)
    requires InRange(topology, p)
  {
    k < |p| && topology[p[k]].protocol == x && forall l :: 0 <= l <= k ==> topology[p[l]].protocol != y
  }

  /** Protocols stand in the order of their first use: each is used before the ones behind it are. */
  lemma {:induction false} ProtocolsInOrder(topology: Topology, p: Path, i: nat, j: nat)
    requires InRange(topology, p) && i < j < |Protocols(topology, p)|
    ensures exists k :: UsedBefore(topology, p, k, Protocols(topology, p)[i], Protocols(topology, p)[j])
    decreases |p|
  {
    var n, r := |p| - 1, Protocols(topology, p);
    var front := Protocols(topology, p[..n]);
    if j < |front| {
      ProtocolsInOrder(topology, p[..n], i, j);
      var k :| UsedBefore(topology, p[..n], k, front[i], front[j]);
      assert UsedBefore(topology, p, k, r[i], r[j]) by {
        assert forall l :: 0 <= l <= k ==> p[..n][l] == p[l];
      }
    } else {
      assert front[i] in front;
      var k :| 0 <= k < n && front[i] == topology[p[..n][k]].protocol;
      forall l | 0 <= l <= k
        ensures topology[p[l]].protocol != r[j]
      {
        assert topology[p[..n][l]].protocol in front;
      }
      assert UsedBefore(topology, p, k, r[i], r[j]);
    }
  }

  function RouteOf(topology: Topology, p: Path): Route
    requires InRange(topology, p)
  {
    Route(p, Latency(topology, p), Protocols(topology, p))
  }

  /** Stable insertion: `r` goes after everything that is not slower. */
  function InsertSorted(routes: seq<Route>, r: Route): seq<Route> {
    if routes == [] then [r]
    else
      var n := |routes| - 1;
      if routes[n].totalLatency <= r.totalLatency then routes + [r]
      else InsertSorted(routes[..n], r) + [routes[n]]
  }

  /** The stable sort by latency. */
  function SortByLatency(routes: seq<Route>): seq<Route> {
    if routes == [] then [] else InsertSorted(SortByLatency(routes[..|routes| - 1]), routes[|routes| - 1])
  }

  /** Faster, or equally fast with no more hops. */
  predicate NotWorse(a: Route, b: Route) {
    a.totalLatency < b.totalLatency || (a.totalLatency == b.totalLatency && |a.hops| <= |b.hops|)
  }

  ghost predicate Ranked(routes: seq<Route>) {
    forall i, j :: 0 <= i < j < |routes| ==> NotWorse(routes[i], routes[j])
  }

  ghost predicate HopsGrow(routes: seq<Route>) {
    forall i, j :: 0 <= i < j < |routes| ==> |routes[i].hops| <= |routes[j].hops|
  }

  lemma {:induction false} InsertSortedAllNotWorse(routes: seq<Route>, r: Route, b: Route)
    requires NotWorse(r, b) && forall i :: 0 <= i < |routes| ==> NotWorse(routes[i], b)
    ensures forall i :: 0 <= i < |InsertSorted(routes, r)| ==> NotWorse(InsertSorted(routes, r)[i], b)
    decreases |routes|
  {
    if routes != [] {
      InsertSortedAllNotWorse(routes[..|routes| - 1], r, b);
    }
  }

  lemma {:induction false} InsertSortedCounts(routes: seq<Route>, r: Route)
    ensures multiset(InsertSorted(routes, r)) == multiset(routes) + multiset{r}
    decreases |routes|
  {
    if routes != [] {
      var n := |routes| - 1;
      assert routes == routes[..n] + [routes[n]];
      InsertSortedCounts(routes[..n], r);
    }
  }

  lemma {:induction false} InsertSortedRanks(routes: seq<Route>, r: Route)
    requires Ranked(routes) && forall i :: 0 <= i < |routes| ==> |routes[i].hops| <= |r.hops|
    ensures Ranked(InsertSorted(routes, r))
    decreases |routes|
  {
    if routes != [] {
      var n := |routes| - 1;
      if routes[n].totalLatency > r.totalLatency {
        InsertSortedRanks(routes[..n], r);
        InsertSortedAllNotWorse(routes[..n], r, routes[n]);
      }
    }
  }

  /** Sorting routes that came in order of hop count ranks them by latency, then hops. */
  lemma {:induction false} SortRanks(routes: seq<Route>)
    requires HopsGrow(routes)
    ensures Ranked(SortByLatency(routes))
    ensures multiset(SortByLatency(routes)) == multiset(routes)
    decreases |routes|
  {
    if routes != [] {
      var n := |routes| - 1;
      SortRanks(routes[..n]);
      var s := SortByLatency(routes[..n]);
      assert routes == routes[..n] + [routes[n]];
      forall i | 0 <= i < |s|
        ensures |s[i].hops| <= |routes[n].hops|
      {
        assert s[i] in multiset(s);
      }
      InsertSortedRanks(s, routes[n]);
      InsertSortedCounts(s, routes[n]);
    }
  }

  // ----- The search -----

  datatype QueueItem = QueueItem(chain: string, path: Path)

  /** Some edge of `p` enters `chain`. */
  predicate Enters(topology: Topology, p: Path, chain: string)
    requires InRange(topology, p)
  {
    exists k :: 0 <= k < |p| && topology[p[k]].destination == chain
  }

  /** Edge `e` leaves `chain` and does not lead back to a chain already entered on `p`. */
  predicate Extends(topology: Topology, chain: string, p: Path, e: nat) {
    && e < |topology| && InRange(topology, p)
    && topology[e].active && topology[e].source == chain
    && !Enters(topology, p, topology[e].destination)
  }

  /** `q` is `p` with one more edge. */
  predicate OneMore(topology: Topology, chain: string, p: Path, q: Path) {
    |q| == |p| + 1 && p <= q && InRange(topology, q) && Extends(topology, chain, p, q[|p|])
  }

  /** Every edge below `upTo` that extends the item has been taken. */
  ghost predicate AllTaken(topology: Topology, destination: string, item: QueueItem, upTo: nat, found: seq<Route>, next: seq<QueueItem>) {
    forall e: nat :: e < upTo && Extends(topology, item.chain, item.path, e) ==>
      if topology[e].destination == destination then exists i :: 0 <= i < |found| && found[i].hops == item.path + [e]
      else exists i :: 0 <= i < |next| && next[i].path == item.path + [e]
  }

  ghost predicate DistinctPaths(found: seq<Route>, next: seq<QueueItem>) {
    && (forall i, j :: 0 <= i < j < |found| ==> found[i].hops != found[j].hops)
    && (forall i, j :: 0 <= i < j < |next| ==> next[i].path != next[j].path)
  }

  /** Each found route goes one edge below `upTo` further than the item, and arrives. */
  ghost predicate Arrivals(topology: Topology, destination: string, item: QueueItem, upTo: nat, found: seq<Route>) {
    var p := item.path;
    forall i :: 0 <= i < |found| ==>
      && OneMore(topology, item.chain, p, found[i].hops)
      && found[i].hops[|p|] < upTo && topology[found[i].hops[|p|]].destination == destination
  }

  /** Each new queue item goes one edge below `upTo` further than the item, and does not arrive. */
  ghost predicate Onwards(topology: Topology, destination: string, item: QueueItem, upTo: nat, next: seq<QueueItem>) {
    var p := item.path;
    forall i :: 0 <= i < |next| ==>
      && OneMore(topology, item.chain, p, next[i].path) && next[i].path[|p|] < upTo
      && next[i].chain == topology[next[i].path[|p|]].destination != destination
  }

  /** The new paths out of one queue item: those that arrive, and those that go on. */
  ghost predicate Expansion(topology: Topology, destination: string, item: QueueItem, upTo: nat, found: seq<Route>, next: seq<QueueItem>) {
    && upTo <= |topology| && |found| + |next| <= upTo
    && Arrivals(topology, destination, item, upTo, found)
    && Onwards(topology, destination, item, upTo, next)
    && DistinctPaths(found, next)
    && AllTaken(topology, destination, item, upTo, found, next)
  }

  /** Latency and protocols are those of the hops. */
  ghost predicate AreRoutes(topology: Topology, routes: seq<Route>) {
    forall i :: 0 <= i < |routes| ==> InRange(topology, routes[i].hops) && routes[i] == RouteOf(topology, routes[i].hops)
  }

  lemma SkipEdge(topology: Topology, destination: string, item: QueueItem, e: nat, found: seq<Route>, next: seq<QueueItem>)
    requires e < |topology| && Expansion(topology, destination, item, e, found, next)
    requires !Extends(topology, item.chain, item.path, e)
    ensures Expansion(topology, destination, item, e + 1, found, next)
  {
  }

  lemma ExtendsByOne(topology: Topology, chain: string, p: Path, e: nat)
    requires Extends(topology, chain, p, e)
    ensures OneMore(topology, chain, p, p + [e])
  {
  }

  lemma TakeArrival(topology: Topology, destination: string, item: QueueItem, e: nat, found: seq<Route>, next: seq<QueueItem>, r: Route)
    requires Expansion(topology, destination, item, e, found, next) && AreRoutes(topology, found)
    requires Extends(topology, item.chain, item.path, e) && topology[e].destination == destination
    requires r == RouteOf(topology, item.path + [e])
    ensures Expansion(topology, destination, item, e + 1, found + [r], next) && AreRoutes(topology, found + [r])
  {
    ExtendsByOne(topology, item.chain, item.path, e);
    var now := found + [r];
    assert now[|found|].hops == item.path + [e];
    assert forall i :: 0 <= i < |found| ==> now[i] == found[i];
    assert Arrivals(topology, destination, item, e + 1, now);
    assert DistinctPaths(now, next);
    TakenOneMore(topology, destination, item, e, found, next, now, next);
  }

  /** Edge `e` has been taken too, and what was taken before is still there. */
  lemma TakenOneMore(topology: Topology, destination: string, item: QueueItem, e: nat,
                     found: seq<Route>, next: seq<QueueItem>, found': seq<Route>, next': seq<QueueItem>)
    requires AllTaken(topology, destination, item, e, found, next) && e < |topology|
    requires found <= found' && next <= next'
    requires if topology[e].destination == destination
      then |found'| > 0 && found'[|found'| - 1].hops == item.path + [e]
      else |next'| > 0 && next'[|next'| - 1].path == item.path + [e]
    ensures AllTaken(topology, destination, item, e + 1, found', next')
  {
    forall d: nat | d <= e && Extends(topology, item.chain, item.path, d)
      ensures if topology[d].destination == destination then exists i :: 0 <= i < |found'| && found'[i].hops == item.path + [d]
              else exists i :: 0 <= i < |next'| && next'[i].path == item.path + [d]
    {
      if d < e && topology[d].destination == destination {
        var i :| 0 <= i < |found| && found[i].hops == item.path + [d];
        assert found'[i] == found[i];
      } else if d < e {
        var i :| 0 <= i < |next| && next[i].path == item.path + [d];
        assert next'[i] == next[i];
      }
    }
  }

  lemma TakeHop(topology: Topology, destination: string, item: QueueItem, e: nat, found: seq<Route>, next: seq<QueueItem>)
    requires Expansion(topology, destination, item, e, found, next) && Extends(topology, item.chain, item.path, e)
    requires topology[e].destination != destination
    ensures Expansion(topology, destination, item, e + 1, found, next + [QueueItem(topology[e].destination, item.path + [e])])
  {
    ExtendsByOne(topology, item.chain, item.path, e);
    var now := next + [QueueItem(topology[e].destination, item.path + [e])];
    assert now[|next|].path == item.path + [e];
    assert forall i :: 0 <= i < |next| ==> now[i] == next[i];
    assert Onwards(topology, destination, item, e + 1, now);
    assert DistinctPaths(found, now);
    TakenOneMore(topology, destination, item, e, found, next, found, now);
  }

  /** The inner loop: tries every active edge out of the item's chain. */
  method Expand(topology: Topology, destination: string, item: QueueItem) returns (found: seq<Route>, next: seq<QueueItem>)
    requires InRange(topology, item.path)
    ensures Expansion(topology, destination, item, |topology|, found, next) && AreRoutes(topology, found)
  {
    found, next := [], [];
    for e := 0 to |topology|
      invariant Expansion(topology, destination, item, e, found, next) && AreRoutes(topology, found)
    {
      var edge := topology[e];
      if !edge.active || edge.source != item.chain || Enters(topology, item.path, edge.destination) {
        SkipEdge(topology, destination, item, e, found, next);
        continue;
      }
      var newPath := item.path + [e];
      if edge.destination == destination {
        var route := RouteOf(topology, newPath);
        TakeArrival(topology, destination, item, e, found, next, route);
        found := found + [route];
      } else {
        TakeHop(topology, destination, item, e, found, next);
        next := next + [QueueItem(edge.destination, newPath)];
      }
    }
  }

  /** What is being looked for. */
  datatype Query = Query(topology: Topology, source: string, destination: string, maxHops: int)

  predicate Wanted(q: Query, p: Path) {
    SimpleRoute(q.topology, q.source, q.destination, q.maxHops, p)
  }

  ghost predicate ItemOk(q: Query, item: QueueItem) {
    && Chain(q.topology, q.source, item.path) && Simple(q.topology, item.path)
    && item.chain == EndOf(q.topology, q.source, item.path)
    && (forall k :: 0 <= k < |item.path| ==> q.topology[item.path[k]].destination != q.destination)
  }

  ghost predicate RouteOk(q: Query, r: Route) {
    Wanted(q, r.hops) && r == RouteOf(q.topology, r.hops)
  }

  ghost predicate ItemsOk(q: Query, queue: seq<QueueItem>) {
    forall i :: 0 <= i < |queue| ==> ItemOk(q, queue[i])
  }

  ghost predicate RoutesOk(q: Query, routes: seq<Route>) {
    forall i :: 0 <= i < |routes| ==> RouteOk(q, routes[i])
  }

  /** `p` has been found, or a queued path still leads to it. */
  ghost predicate Covered(queue: seq<QueueItem>, routes: seq<Route>, p: Path) {
    || (exists i :: 0 <= i < |routes| && routes[i].hops == p)
    || (exists i :: 0 <= i < |queue| && queue[i].path <= p)
  }

  ghost predicate AllCovered(q: Query, queue: seq<QueueItem>, routes: seq<Route>) {
    forall p :: Wanted(q, p) ==> Covered(queue, routes, p)
  }

  /** Nothing can be found twice: no queued path leads to another one or to a found route. */
  ghost predicate Apart(queue: seq<QueueItem>, routes: seq<Route>) {
    && (forall i, j :: 0 <= i < |queue| && 0 <= j < |queue| && queue[i].path <= queue[j].path ==> i == j)
    && (forall i, j :: 0 <= i < |queue| && 0 <= j < |routes| ==> !(queue[i].path <= routes[j].hops))
    && (forall i, j :: 0 <= i < j < |routes| ==> routes[i].hops != routes[j].hops)
  }

  /** Breadth first: queue and routes are in order of length, and the queue spans at most two lengths. */
  ghost predicate Layered(queue: seq<QueueItem>, routes: seq<Route>) {
    && HopsGrow(routes)
    && (forall i, j :: 0 <= i < j < |queue| ==> |queue[i].path| <= |queue[j].path| <= |queue[0].path| + 1)
    && (queue != [] ==> forall i :: 0 <= i < |routes| ==> |routes[i].hops| <= |queue[0].path| + 1)
  }

  ghost predicate Searching(q: Query, queue: seq<QueueItem>, routes: seq<Route>) {
    && ItemsOk(q, queue) && RoutesOk(q, routes) && AllCovered(q, queue, routes)
    && Apart(queue, routes) && Layered(queue, routes)
  }

  /** A wanted route that starts with a queued path is strictly longer. */
  lemma StrictlyLonger(q: Query, item: QueueItem, t: Path)
    requires q.source != q.destination && ItemOk(q, item) && Wanted(q, t)
    ensures item.path <= t ==> |item.path| < |t|
  {
    assert item.path <= t && |item.path| == |t| ==> t == item.path;
  }

  /** Its next edge extends the queued path, and is the last one if it arrives. */
  lemma NextEdge(q: Query, item: QueueItem, t: Path)
    requires ItemOk(q, item) && Wanted(q, t) && item.path <= t && |item.path| < |t|
    ensures Extends(q.topology, item.chain, item.path, t[|item.path|])
    ensures q.topology[t[|item.path|]].destination == q.destination ==> |t| == |item.path| + 1
  {
    var n := |item.path|;
    assert t[..n] == item.path;
    forall k | 0 <= k < n
      ensures q.topology[item.path[k]].destination != q.topology[t[n]].destination
    {
      assert item.path[k] == t[k];
    }
  }

  lemma PrefixStep(a: Path, p: Path)
    requires a <= p && |a| < |p|
    ensures a + [p[|a|]] <= p
    ensures |p| == |a| + 1 ==> a + [p[|a|]] == p
  {
  }

  /** Skipping a path that has used up its hops loses nothing: no queued path leads anywhere any more. */
  lemma SkipKeeps(q: Query, queue: seq<QueueItem>, routes: seq<Route>)
    requires q.source != q.destination && queue != [] && Searching(q, queue, routes)
    requires |queue[0].path| >= q.maxHops
    ensures Searching(q, queue[1..], routes)
  {
    forall p | Wanted(q, p)
      ensures Covered(queue[1..], routes, p)
    {
      forall i | 0 <= i < |queue|
        ensures !(queue[i].path <= p)
      {
        StrictlyLonger(q, queue[i], p);
      }
      assert Covered(queue, routes, p);
    }
    assert forall i :: 0 <= i < |queue| - 1 ==> queue[1..][i] == queue[i + 1];
  }

  lemma ExpandItemOk(q: Query, item: QueueItem, p: Path)
    requires ItemOk(q, item) && OneMore(q.topology, item.chain, item.path, p)
    ensures Chain(q.topology, q.source, p) && Simple(q.topology, p)
    ensures q.topology[p[|item.path|]].destination != q.destination ==>
      ItemOk(q, QueueItem(q.topology[p[|item.path|]].destination, p))
  {
    ChainExtend(q.topology, q.source, item.path, p[|item.path|]);
    assert p == item.path + [p[|item.path|]];
  }

  /** A wanted path that the expanded item leads to is found now, or a new item leads to it. */
  lemma ExpandCovers(q: Query, item: QueueItem, found: seq<Route>, next: seq<QueueItem>, p: Path)
    requires q.source != q.destination && ItemOk(q, item)
    requires AllTaken(q.topology, q.destination, item, |q.topology|, found, next)
    requires Wanted(q, p) && item.path <= p
    ensures Covered(next, found, p)
  {
    StrictlyLonger(q, item, p);
    NextEdge(q, item, p);
    PrefixStep(item.path, p);
    var e := p[|item.path|];
    if q.topology[e].destination == q.destination {
      var j :| 0 <= j < |found| && found[j].hops == item.path + [e];
    } else {
      var j :| 0 <= j < |next| && next[j].path == item.path + [e];
    }
  }

  lemma CoveredTogether(a: seq<QueueItem>, b: seq<QueueItem>, c: seq<Route>, d: seq<Route>, p: Path)
    requires Covered(a, c, p) || Covered(b, d, p)
    ensures Covered(a + b, c + d, p)
  {
    if i :| 0 <= i < |c| && c[i].hops == p {
      assert (c + d)[i].hops == p;
    } else if i :| 0 <= i < |d| && d[i].hops == p {
      assert (c + d)[|c| + i].hops == p;
    } else if i :| 0 <= i < |a| && a[i].path <= p {
      assert (a + b)[i].path <= p;
    } else {
      var i :| 0 <= i < |b| && b[i].path <= p;
      assert (a + b)[|a| + i].path <= p;
    }
  }

  predicate StepOf(p: Path, x: Path) {
    p <= x && |x| == |p| + 1
  }

  lemma StepApart(p: Path, x: Path, r: Path)
    requires StepOf(p, x) && !(p <= r) && !(r <= p)
    ensures !(x <= r) && !(r <= x)
  {
  }

  /** Replacing a path by one-edge extensions of it keeps everything apart. */
  lemma ExpandApart(item: QueueItem, rest: seq<QueueItem>, routes: seq<Route>, found: seq<Route>, next: seq<QueueItem>)
    requires forall i :: 0 <= i < |found| ==> StepOf(item.path, found[i].hops)
    requires forall i :: 0 <= i < |next| ==> StepOf(item.path, next[i].path)
    requires forall i, j :: 0 <= i < |found| && 0 <= j < |next| ==> found[i].hops != next[j].path
    requires DistinctPaths(found, next) && Apart(rest, routes)
    requires forall i :: 0 <= i < |rest| ==> !(item.path <= rest[i].path) && !(rest[i].path <= item.path)
    requires forall i :: 0 <= i < |routes| ==> !(item.path <= routes[i].hops)
    ensures Apart(rest + next, routes + found)
  {
    var qs, rs := rest + next, routes + found;
    forall i, j | 0 <= i < |qs| && 0 <= j < |qs| && qs[i].path <= qs[j].path
      ensures i == j
    {
      if i < |rest| <= j {
        StepApart(item.path, qs[j].path, rest[i].path);
      } else if j < |rest| <= i {
        StepApart(item.path, qs[i].path, rest[j].path);
      } else if |rest| <= i && |rest| <= j {
        assert StepOf(item.path, next[i - |rest|].path) && StepOf(item.path, next[j - |rest|].path);
      }
    }
    forall i, j | 0 <= i < |qs| && 0 <= j < |rs|
      ensures !(qs[i].path <= rs[j].hops)
    {
      if i < |rest| && |routes| <= j {
        StepApart(item.path, found[j - |routes|].hops, rest[i].path);
      } else if |rest| <= i {
        assert StepOf(item.path, next[i - |rest|].path);
        if |routes| <= j {
          assert StepOf(item.path, found[j - |routes|].hops);
        }
      }
    }
    forall i, j | 0 <= i < j < |rs|
      ensures rs[i].hops != rs[j].hops
    {
      if i < |routes| <= j {
        assert StepOf(item.path, found[j - |routes|].hops);
      }
    }
  }

  lemma ExpandLayered(item: QueueItem, rest: seq<QueueItem>, routes: seq<Route>, found: seq<Route>, next: seq<QueueItem>)
    requires forall i :: 0 <= i < |found| ==> StepOf(item.path, found[i].hops)
    requires forall i :: 0 <= i < |next| ==> StepOf(item.path, next[i].path)
    requires Layered([item] + rest, routes)
    ensures Layered(rest + next, routes + found)
  {
    var all, n := [item] + rest, |item.path|;
    assert all[0] == item;
    forall i | 0 <= i < |rest|
      ensures n <= |rest[i].path| <= n + 1
      ensures forall j :: i < j < |rest| ==> |rest[i].path| <= |rest[j].path|
    {
      assert all[i + 1] == rest[i];
      assert forall j :: i < j < |rest| ==> all[j + 1] == rest[j];
    }
    LayeredAround(n, rest, routes, found, next);
  }

  /** Lengths `n` and `n + 1` in order, followed by new paths of length `n + 1`. */
  lemma LayeredAround(n: nat, rest: seq<QueueItem>, routes: seq<Route>, found: seq<Route>, next: seq<QueueItem>)
    requires forall i :: 0 <= i < |found| ==> |found[i].hops| == n + 1
    requires forall i :: 0 <= i < |next| ==> |next[i].path| == n + 1
    requires forall i :: 0 <= i < |rest| ==> n <= |rest[i].path| <= n + 1
    requires forall i, j :: 0 <= i < j < |rest| ==> |rest[i].path| <= |rest[j].path|
    requires HopsGrow(routes) && forall i :: 0 <= i < |routes| ==> |routes[i].hops| <= n + 1
    ensures Layered(rest + next, routes + found)
  {
    HopsGrowTogether(n, routes, found);
    var queue := rest + next;
    forall i | 0 <= i < |queue|
      ensures n <= |queue[i].path| <= n + 1
      ensures |rest| <= i ==> |queue[i].path| == n + 1
    {
      assert queue[i] == if i < |rest| then rest[i] else next[i - |rest|];
    }
    forall i, j | 0 <= i < j < |queue|
      ensures |queue[i].path| <= |queue[j].path|
    {
      assert j < |rest| ==> queue[i] == rest[i] && queue[j] == rest[j];
    }
  }

  lemma HopsGrowTogether(n: nat, routes: seq<Route>, found: seq<Route>)
    requires HopsGrow(routes) && forall i :: 0 <= i < |routes| ==> |routes[i].hops| <= n + 1
    requires forall i :: 0 <= i < |found| ==> |found[i].hops| == n + 1
    ensures HopsGrow(routes + found)
    ensures forall i :: 0 <= i < |routes + found| ==> |(routes + found)[i].hops| <= n + 1
  {
    var all := routes + found;
    forall i | 0 <= i < |all|
      ensures |all[i].hops| <= n + 1
      ensures |routes| <= i ==> |all[i].hops| == n + 1
    {
      assert all[i] == if i < |routes| then routes[i] else found[i - |routes|];
    }
    forall i, j | 0 <= i < j < |all|
      ensures |all[i].hops| <= |all[j].hops|
    {
      assert j < |routes| ==> all[i] == routes[i] && all[j] == routes[j];
    }
  }

  lemma ExpandKeepsApart(q: Query, queue: seq<QueueItem>, routes: seq<Route>, found: seq<Route>, next: seq<QueueItem>)
    requires queue != [] && Apart(queue, routes)
    requires Expansion(q.topology, q.destination, queue[0], |q.topology|, found, next)
    ensures Apart(queue[1..] + next, routes + found)
  {
    var item, rest := queue[0], queue[1..];
    forall i | 0 <= i < |rest|
      ensures !(item.path <= rest[i].path) && !(rest[i].path <= item.path)
    {
      assert queue[i + 1] == rest[i];
    }
    assert Apart(rest, routes) by {
      assert forall i :: 0 <= i < |rest| ==> rest[i] == queue[i + 1];
    }
    ExpandApart(item, rest, routes, found, next);
  }

  lemma ExpandKeepsOk(q: Query, item: QueueItem, found: seq<Route>, next: seq<QueueItem>)
    requires ItemOk(q, item) && |item.path| < q.maxHops && AreRoutes(q.topology, found)
    requires Expansion(q.topology, q.destination, item, |q.topology|, found, next)
    ensures RoutesOk(q, found) && ItemsOk(q, next)
  {
    forall i | 0 <= i < |found|
      ensures RouteOk(q, found[i])
    {
      ExpandItemOk(q, item, found[i].hops);
    }
    forall i | 0 <= i < |next|
      ensures ItemOk(q, next[i])
    {
      ExpandItemOk(q, item, next[i].path);
    }
  }

  lemma ExpandKeepsCovered(q: Query, queue: seq<QueueItem>, routes: seq<Route>, found: seq<Route>, next: seq<QueueItem>)
    requires q.source != q.destination && queue != [] && ItemOk(q, queue[0])
    requires Expansion(q.topology, q.destination, queue[0], |q.topology|, found, next)
    requires AllCovered(q, queue, routes)
    ensures AllCovered(q, queue[1..] + next, routes + found)
  {
    forall p | Wanted(q, p)
      ensures Covered(queue[1..] + next, routes + found, p)
    {
      CoveredHead(queue, routes, p);
      if queue[0].path <= p {
        ExpandCovers(q, queue[0], found, next, p);
      }
      CoveredTogether(queue[1..], next, routes, found, p);
    }
  }

  lemma ExpandKeepsLayered(q: Query, queue: seq<QueueItem>, routes: seq<Route>, found: seq<Route>, next: seq<QueueItem>)
    requires queue != [] && Layered(queue, routes)
    requires Expansion(q.topology, q.destination, queue[0], |q.topology|, found, next)
    ensures Layered(queue[1..] + next, routes + found)
  {
    assert [queue[0]] + queue[1..] == queue;
    ExpandLayered(queue[0], queue[1..], routes, found, next);
  }

  /** Expanding the first queued path keeps the whole invariant. */
  lemma ExpandKeeps(q: Query, queue: seq<QueueItem>, routes: seq<Route>, found: seq<Route>, next: seq<QueueItem>)
    requires q.source != q.destination && queue != [] && Searching(q, queue, routes)
    requires |queue[0].path| < q.maxHops && AreRoutes(q.topology, found)
    requires Expansion(q.topology, q.destination, queue[0], |q.topology|, found, next)
    ensures Searching(q, queue[1..] + next, routes + found)
  {
    ExpandKeepsLayered(q, queue, routes, found, next);
    ExpandKeepsApart(q, queue, routes, found, next);
    ExpandKeepsOk(q, queue[0], found, next);
    OkTogether(q, queue[1..], next, routes, found);
    ExpandKeepsCovered(q, queue, routes, found, next);
  }

  lemma OkTogether(q: Query, a: seq<QueueItem>, b: seq<QueueItem>, c: seq<Route>, d: seq<Route>)
    requires ItemsOk(q, a) && ItemsOk(q, b) && RoutesOk(q, c) && RoutesOk(q, d)
    ensures ItemsOk(q, a + b) && RoutesOk(q, c + d)
  {
  }

  lemma CoveredHead(queue: seq<QueueItem>, routes: seq<Route>, p: Path)
    requires queue != [] && Covered(queue, routes, p)
    ensures queue[0].path <= p || Covered(queue[1..], routes, p)
  {
    if !(exists i :: 0 <= i < |routes| && routes[i].hops == p) {
      var i :| 0 <= i < |queue| && queue[i].path <= p;
      if i > 0 {
        assert queue[1..][i - 1] == queue[i];
      }
    }
  }

  // ----- Termination -----

  function Pow(b: nat, n: nat): (r: nat)
    ensures b > 0 ==> r > 0
  {
    if n == 0 then 1 else b * Pow(b, n - 1)
  }

  /** A queued path weighs the number of steps it could still grow into. */
  function WeightOf(q: Query, item: QueueItem): nat {
    Pow(|q.topology| + 1, if |item.path| < q.maxHops then q.maxHops - |item.path| else 0)
  }

  function Weight(q: Query, queue: seq<QueueItem>): nat {
    if queue == [] then 0 else Weight(q, queue[..|queue| - 1]) + WeightOf(q, queue[|queue| - 1])
  }

  lemma {:induction false} WeightTail(q: Query, queue: seq<QueueItem>)
    requires queue != []
    ensures Weight(q, queue) == WeightOf(q, queue[0]) + Weight(q, queue[1..])
    decreases |queue|
  {
    var n := |queue| - 1;
    if n > 0 {
      WeightTail(q, queue[..n]);
      assert queue[..n][1..] == queue[1..][..n - 1];
    }
  }

  lemma {:induction false} WeightSum(q: Query, a: seq<QueueItem>, b: seq<QueueItem>)
    ensures Weight(q, a + b) == Weight(q, a) + Weight(q, b)
    decreases |b|
  {
    if b == [] {
      assert a + b == a;
    } else {
      WeightSum(q, a, b[..|b| - 1]);
      assert (a + b)[..|a + b| - 1] == a + b[..|b| - 1];
    }
  }

  lemma {:induction false} WeightOfEqual(q: Query, items: seq<QueueItem>, w: nat)
    requires forall i :: 0 <= i < |items| ==> WeightOf(q, items[i]) == w
    ensures Weight(q, items) == |items| * w
    decreases |items|
  {
    if items != [] {
      WeightOfEqual(q, items[..|items| - 1], w);
    }
  }

  /** Expansion replaces one path by at most E lighter ones, so the total weight falls. */
  lemma ExpansionIsLighter(q: Query, item: QueueItem, next: seq<QueueItem>)
    requires |item.path| < q.maxHops && |next| <= |q.topology|
    requires forall i :: 0 <= i < |next| ==> |next[i].path| == |item.path| + 1
    ensures Weight(q, next) < WeightOf(q, item)
  {
    var e, w := |q.topology|, Pow(|q.topology| + 1, q.maxHops - |item.path| - 1);
    WeightOfEqual(q, next, w);
    FewerTimes(|next|, e, w);
  }

  lemma FewerTimes(n: nat, e: nat, w: nat)
    requires n <= e && w > 0
    ensures n * w < (e + 1) * w
  {
    assert (e + 1) * w == n * w + (e - n) * w + w;
    assert (e - n) * w >= 0;
  }

  // ----- The result -----

  /** All wanted routes, each once, ranked by latency and then hops. */
  ghost predicate Answers(q: Query, routes: seq<Route>) {
    && RoutesOk(q, routes)
    && (forall p :: Wanted(q, p) ==> exists i :: 0 <= i < |routes| && routes[i].hops == p)
    && (forall i, j :: 0 <= i < j < |routes| ==> routes[i].hops != routes[j].hops)
    && Ranked(routes)
  }

  lemma SortAnswers(q: Query, routes: seq<Route>)
    requires Searching(q, [], routes)
    ensures Answers(q, SortByLatency(routes))
  {
    SortRanks(routes);
    var s := SortByLatency(routes);
    forall i | 0 <= i < |s|
      ensures RouteOk(q, s[i])
    {
      assert s[i] in multiset(s);
      assert s[i] in routes;
    }
    forall p | Wanted(q, p)
      ensures exists i :: 0 <= i < |s| && s[i].hops == p
    {
      assert Covered([], routes, p);
      var i :| 0 <= i < |routes| && routes[i].hops == p;
      assert routes[i] in multiset(routes);
      assert routes[i] in s;
    }
    SortKeepsDistinct(routes, s);
  }

  lemma SortKeepsDistinct(a: seq<Route>, b: seq<Route>)
    requires multiset(a) == multiset(b)
    requires forall i, j :: 0 <= i < j < |a| ==> a[i].hops != a[j].hops
    ensures forall i, j :: 0 <= i < j < |b| ==> b[i].hops != b[j].hops
  {
    forall i, j | 0 <= i < j < |b|
      ensures b[i].hops != b[j].hops
    {
      if b[i].hops == b[j].hops {
        assert b[i] in multiset(b) && b[j] in multiset(b);
        var k :| 0 <= k < |a| && a[k] == b[i];
        var l :| 0 <= l < |a| && a[l] == b[j];
        assert k == l;
        Twice(b, i, j);
        Once(a, k);
      }
    }
  }

  lemma Twice(s: seq<Route>, i: nat, j: nat)
    requires i < j < |s| && s[i] == s[j]
    ensures multiset(s)[s[i]] >= 2
  {
    assert s == s[..i] + [s[i]] + s[i + 1..j] + [s[j]] + s[j + 1..];
  }

  lemma Once(s: seq<Route>, k: nat)
    requires k < |s| && forall i, j :: 0 <= i < j < |s| ==> s[i] != s[j]
    ensures multiset(s)[s[k]] == 1
  {
    assert s == s[..k] + [s[k]] + s[k + 1..];
  }

  method FindRoutes(q: Query) returns (routes: seq<Route>)
    ensures q.source == q.destination ==> routes == [Route([], 0.0, [])]
    ensures q.source != q.destination ==> Answers(q, routes)
  {
    if q.source == q.destination {
      return [Route([], 0.0, [])];
    }
    routes := [];
    var queue := [QueueItem(q.source, [])];
    forall p | Wanted(q, p)
      ensures Covered(queue, routes, p)
    {
      assert queue[0].path <= p;
    }
    while queue != []
      invariant Searching(q, queue, routes)
      decreases Weight(q, queue)
    {
      var current := queue[0];
      WeightTail(q, queue);
      if |current.path| >= q.maxHops {
        SkipKeeps(q, queue, routes);
        queue := queue[1..];
        continue;
      }
      var found, next := Expand(q.topology, q.destination, current);
      ExpandKeeps(q, queue, routes, found, next);
      ExpansionIsLighter(q, current, next);
      WeightSum(q, queue[1..], next);
      queue := queue[1..] + next;
      routes := routes + found;
    }
    SortAnswers(q, routes);
    routes := SortByLatency(routes);
  }

  // ----- Optimality among all walks -----

  ghost predicate NonNegative(topology: Topology) {
    forall e :: 0 <= e < |topology| ==> topology[e].latency >= 0.0
  }

  lemma {:induction false} LatencySum(topology: Topology, a: Path, b: Path)
    requires InRange(topology, a) && InRange(topology, b)
    ensures InRange(topology, a + b) && Latency(topology, a + b) == Latency(topology, a) + Latency(topology, b)
    decreases |b|
  {
    if b == [] {
      assert a + b == a;
    } else {
      LatencySum(topology, a, b[..|b| - 1]);
      assert (a + b)[..|a + b| - 1] == a + b[..|b| - 1];
    }
  }

  lemma {:induction false} LatencyNonNegative(topology: Topology, p: Path)
    requires InRange(topology, p) && NonNegative(topology)
    ensures Latency(topology, p) >= 0.0
    decreases |p|
  {
    if p != [] {
      LatencyNonNegative(topology, p[..|p| - 1]);
    }
  }

  /** Cutting out the edges between two arrivals at one chain. */
  function Cut(p: Path, i: nat, j: nat): Path
    requires i < j < |p|
  {
    p[..i + 1] + p[j + 1..]
  }

  /** The chain that hop `k` must leave from. */
  function Departure(topology: Topology, source: string, p: Path, k: nat): string
    requires InRange(topology, p) && k < |p|
  {
    if k == 0 then source else topology[p[k - 1]].destination
  }

  lemma DepartsThere(topology: Topology, source: string, p: Path, k: nat)
    requires InRange(topology, p) && k < |p|
    ensures EndOf(topology, source, p[..k]) == Departure(topology, source, p, k)
  {
  }

  lemma CutInRange(topology: Topology, p: Path, i: nat, j: nat)
    requires InRange(topology, p) && i < j < |p|
    ensures InRange(topology, Cut(p, i, j))
  {
  }

  lemma CutDeparture(topology: Topology, source: string, p: Path, i: nat, j: nat, k: nat)
    requires InRange(topology, p) && i < j < |p| && topology[p[i]].destination == topology[p[j]].destination
    requires k < |Cut(p, i, j)| && InRange(topology, Cut(p, i, j))
    ensures var l := if k <= i then k else k + (j - i);
      l < |p| && Cut(p, i, j)[k] == p[l]
      && Departure(topology, source, Cut(p, i, j), k) == Departure(topology, source, p, l)
  {
    var c := Cut(p, i, j);
    if k == i + 1 {
      assert c[k - 1] == p[i];
    } else if k > i + 1 {
      assert c[k - 1] == p[k - 1 + (j - i)];
    }
  }

  lemma CutIsChain(topology: Topology, source: string, p: Path, i: nat, j: nat)
    requires Chain(topology, source, p) && i < j < |p| && topology[p[i]].destination == topology[p[j]].destination
    ensures Chain(topology, source, Cut(p, i, j))
  {
    var c := Cut(p, i, j);
    CutInRange(topology, p, i, j);
    forall k | 0 <= k < |c|
      ensures topology[c[k]].active && topology[c[k]].source == EndOf(topology, source, c[..k])
    {
      CutDeparture(topology, source, p, i, j, k);
      DepartsThere(topology, source, p, if k <= i then k else k + (j - i));
      DepartsThere(topology, source, c, k);
    }
  }

  lemma CutIsWalk(q: Query, p: Path, i: nat, j: nat)
    requires Walk(q.topology, q.source, q.destination, q.maxHops, p)
    requires i < j < |p| && q.topology[p[i]].destination == q.topology[p[j]].destination
    ensures Walk(q.topology, q.source, q.destination, q.maxHops, Cut(p, i, j))
  {
    var c := Cut(p, i, j);
    CutIsChain(q.topology, q.source, p, i, j);
    assert c[|c| - 1] == if j + 1 == |p| then p[i] else p[|p| - 1];
  }

  lemma LatencySplit(topology: Topology, p: Path, i: nat)
    requires InRange(topology, p) && i <= |p|
    ensures Latency(topology, p) == Latency(topology, p[..i]) + Latency(topology, p[i..])
  {
    assert p == p[..i] + p[i..];
    LatencySum(topology, p[..i], p[i..]);
  }

  lemma CutIsNotSlower(topology: Topology, p: Path, i: nat, j: nat)
    requires InRange(topology, p) && NonNegative(topology) && i < j < |p|
    ensures InRange(topology, Cut(p, i, j)) && Latency(topology, Cut(p, i, j)) <= Latency(topology, p)
  {
    var head, rest := p[..i + 1], p[i + 1..];
    LatencySplit(topology, p, i + 1);
    DropIsNotSlower(topology, rest, j - i);
    assert rest[j - i..] == p[j + 1..];
    LatencySum(topology, head, rest[j - i..]);
  }

  lemma DropIsNotSlower(topology: Topology, p: Path, n: nat)
    requires InRange(topology, p) && NonNegative(topology) && n <= |p|
    ensures Latency(topology, p[n..]) <= Latency(topology, p)
  {
    LatencySplit(topology, p, n);
    LatencyNonNegative(topology, p[..n]);
  }

  /** Every walk can be cut down to a simple route that is no longer and, without negative latencies, no slower. */
  lemma {:induction false} SimplifyWalk(q: Query, p: Path) returns (r: Path)
    requires Walk(q.topology, q.source, q.destination, q.maxHops, p)
    ensures Wanted(q, r) && |r| <= |p|
    ensures NonNegative(q.topology) ==> Latency(q.topology, r) <= Latency(q.topology, p)
    decreases |p|
  {
    if i, j :| 0 <= i < j < |p| && q.topology[p[i]].destination == q.topology[p[j]].destination {
      CutIsWalk(q, p, i, j);
      if NonNegative(q.topology) {
        CutIsNotSlower(q.topology, p, i, j);
      }
      r := SimplifyWalk(q, Cut(p, i, j));
    } else {
      r := p;
    }
  }

  /** The first route is no slower than any walk, and no longer than an equally fast one. */
  lemma FirstRouteIsBest(q: Query, routes: seq<Route>, p: Path)
    requires q.source != q.destination && NonNegative(q.topology) && Answers(q, routes)
    requires Walk(q.topology, q.source, q.destination, q.maxHops, p)
    ensures routes != []
    ensures routes[0].totalLatency < Latency(q.topology, p)
         || (routes[0].totalLatency == Latency(q.topology, p) && |routes[0].hops| <= |p|)
  {
    var r := SimplifyWalk(q, p);
    var i :| 0 <= i < |routes| && routes[i].hops == r;
    assert RouteOk(q, routes[i]);
  }

  /** No route is returned exactly when no walk exists. */
  lemma EmptyMeansUnreachable(q: Query, routes: seq<Route>)
    requires q.source != q.destination && Answers(q, routes)
    ensures routes == [] <==> !exists p :: Walk(q.topology, q.source, q.destination, q.maxHops, p)
  {
    if routes != [] {
      assert RouteOk(q, routes[0]);
      assert Walk(q.topology, q.source, q.destination, q.maxHops, routes[0].hops);
    }
    if p :| Walk(q.topology, q.source, q.destination, q.maxHops, p) {
      var r := SimplifyWalk(q, p);
    }
  }

  /** Active edges, the first from `source` and each from where the one before arrived. */
  predicate Linked(topology: Topology, source: string, p: Path) {
    && (forall k :: 0 <= k < |p| ==> p[k] < |topology| && topology[p[k]].active)
    && (p != [] ==> topology[p[0]].source == source)
    && (forall k :: 1 <= k < |p| ==> topology[p[k]].source == topology[p[k - 1]].destination)
  }

  lemma ChainIsLinked(topology: Topology, source: string, p: Path)
    ensures Chain(topology, source, p) <==> Linked(topology, source, p)
  {
    if InRange(topology, p) {
      forall k | 0 <= k < |p|
        ensures EndOf(topology, source, p[..k]) == if k == 0 then source else topology[p[k - 1]].destination
      {
        DepartsThere(topology, source, p, k);
      }
      if Linked(topology, source, p) {
        forall k | 0 <= k < |p|
          ensures topology[p[k]].active && topology[p[k]].source == EndOf(topology, source, p[..k])
        {
        }
      }
    }
  }

  /** A route in the terms of its edges: linked, within the limit, to the destination, no chain entered twice. */
  lemma WantedMeans(q: Query, p: Path)
    requires q.source != q.destination
    ensures Wanted(q, p) <==>
      && 1 <= |p| <= q.maxHops && Linked(q.topology, q.source, p)
      && q.topology[p[|p| - 1]].destination == q.destination
      && (forall i, j :: 0 <= i < j < |p| ==> q.topology[p[i]].destination != q.topology[p[j]].destination)
  {
    ChainIsLinked(q.topology, q.source, p);
  }

  /** Two quick hops and one slow one between the same chains, and a quicker edge that is switched off. */
  const DETOUR: Topology := [
    BridgeEdge("a", "b", "X", 100.0, true), BridgeEdge("a", "c", "Y", 10.0, true),
    BridgeEdge("c", "b", "Z", 10.0, true), BridgeEdge("c", "b", "W", 1.0, false)]

  /** From "b" nothing leaves, so a path ends where it arrives there. */
  lemma DetourLinks(p: Path)
    requires p != [] && Linked(DETOUR, "a", p) && DETOUR[p[|p| - 1]].destination == "b"
    ensures p == [0] || p == [1, 2]
  {
    forall k | 0 <= k < |p| - 1
      ensures DETOUR[p[k]].destination != "b"
    {
      assert DETOUR[p[k + 1]].source == DETOUR[p[k]].destination;
    }
    assert p[0] == 0 || p[0] == 1;
    if |p| >= 2 {
      assert DETOUR[p[1]].source == DETOUR[p[0]].destination;
      assert p[0] == 1 && p[1] == 2;
    }
  }

  lemma DetourPaths(p: Path)
    ensures Wanted(Query(DETOUR, "a", "b", 3), p) <==> p == [0] || p == [1, 2]
  {
    WantedMeans(Query(DETOUR, "a", "b", 3), p);
    if Wanted(Query(DETOUR, "a", "b", 3), p) {
      DetourLinks(p);
    }
  }

  /** Two entries in order and nothing else. */
  lemma TwoRanked(routes: seq<Route>, a: Route, b: Route)
    requires a.hops != b.hops && a.totalLatency < b.totalLatency && Ranked(routes)
    requires forall i, j :: 0 <= i < j < |routes| ==> routes[i].hops != routes[j].hops
    requires a in routes && b in routes && forall r :: r in routes ==> r == a || r == b
    ensures routes == [a, b]
  {
    var i :| 0 <= i < |routes| && routes[i] == a;
    var j :| 0 <= j < |routes| && routes[j] == b;
    assert i < j;
    forall k | 0 <= k < |routes|
      ensures (routes[k] == a && k == i) || (routes[k] == b && k == j)
    {
      assert routes[k] in routes;
    }
    assert routes[0] == a && routes[1] == b && routes[|routes| - 1] == b;
  }

  /** The detour of two hops is ranked before the slower direct edge, and the inactive edge is not used. */
  lemma DetourIsFaster(routes: seq<Route>)
    requires Answers(Query(DETOUR, "a", "b", 3), routes)
    ensures routes == [Route([1, 2], 20.0, ["Y", "Z"]), Route([0], 100.0, ["X"])]
  {
    var q := Query(DETOUR, "a", "b", 3);
    var a, b := Route([1, 2], 20.0, ["Y", "Z"]), Route([0], 100.0, ["X"]);
    DetourRoutes();
    forall r | r in routes
      ensures r == a || r == b
    {
      DetourPaths(r.hops);
    }
    DetourPaths([0]);
    DetourPaths([1, 2]);
    assert |a.hops| == 2 && |b.hops| == 1;
    TwoRanked(routes, a, b);
  }

  lemma DetourRoutes()
    ensures RouteOf(DETOUR, [0]) == Route([0], 100.0, ["X"])
    ensures RouteOf(DETOUR, [1, 2]) == Route([1, 2], 20.0, ["Y", "Z"])
  {
    LatencyOfOne(DETOUR, 0);
    LatencyOfOne(DETOUR, 1);
    LatencyOfOne(DETOUR, 2);
    assert [1] + [2] == [1, 2];
    LatencySum(DETOUR, [1], [2]);
    assert [0][..0] == [] && [1][..0] == [] && [1, 2][..1] == [1];
    assert Protocols(DETOUR, [1]) == ["Y"];
  }

  /** The bridges the SDK knows. */
  const BRIDGE_TOPOLOGY: Topology := [
    BridgeEdge("avalanche_fuji", "avalanche_fuji_subnet", "AWM", 5.0, true),
    BridgeEdge("avalanche_fuji_subnet", "avalanche_fuji", "AWM", 5.0, true),
    BridgeEdge("avalanche_fuji", "avalanche_fuji_subnet", "Teleporter", 10.0, true),
    BridgeEdge("moonbase_alpha", "astar_shibuya", "XCM", 24.0, true),
    BridgeEdge("astar_shibuya", "moonbase_alpha", "XCM", 24.0, true),
    BridgeEdge("evmos_testnet", "avalanche_fuji", "IBC", 45.0, true),
    BridgeEdge("evmos_testnet", "moonbase_alpha", "IBC", 60.0, true),
    BridgeEdge("aurora_testnet", "avalanche_fuji", "Rainbow", 30.0, true),
    BridgeEdge("aurora_testnet", "moonbase_alpha", "Rainbow", 60.0, true),
    BridgeEdge("avalanche_fuji", "moonbase_alpha", "AWM", 60.0, true),
    BridgeEdge("moonbase_alpha", "avalanche_fuji", "XCM", 60.0, true),
    BridgeEdge("avalanche_fuji", "evmos_testnet", "AWM", 60.0, true),
    BridgeEdge("avalanche_fuji", "aurora_testnet", "AWM", 60.0, true)]

  const DEFAULT_MAX_HOPS: int := 3

  /** `r` is a walk that no walk of at most `maxHops` hops beats. */
  ghost predicate Optimal(q: Query, r: Route) {
    && Walk(q.topology, q.source, q.destination, q.maxHops, r.hops)
    && r.totalLatency == Latency(q.topology, r.hops)
    && forall p :: Walk(q.topology, q.source, q.destination, q.maxHops, p) ==>
         r.totalLatency < Latency(q.topology, p) || (r.totalLatency == Latency(q.topology, p) && |r.hops| <= |p|)
  }

  lemma FirstRouteIsOptimal(q: Query, routes: seq<Route>)
    requires q.maxHops >= 0 && NonNegative(q.topology) && routes != []
    requires if q.source == q.destination then routes == [Route([], 0.0, [])] else Answers(q, routes)
    ensures Optimal(q, routes[0])
  {
    assert q.source != q.destination ==> RouteOk(q, routes[0]);
    forall p | Walk(q.topology, q.source, q.destination, q.maxHops, p)
      ensures routes[0].totalLatency < Latency(q.topology, p)
           || (routes[0].totalLatency == Latency(q.topology, p) && |routes[0].hops| <= |p|)
    {
      if q.source == q.destination {
        LatencyNonNegative(q.topology, p);
      } else {
        FirstRouteIsBest(q, routes, p);
      }
    }
  }

  method FindOptimalRoute(source: string, destination: string) returns (best: Option<Route>)
    ensures var q := Query(BRIDGE_TOPOLOGY, source, destination, 3);
      match best
      case None => forall p :: !Walk(q.topology, source, destination, q.maxHops, p)
      case Some(r) => Optimal(q, r)
  {
    var q := Query(BRIDGE_TOPOLOGY, source, destination, DEFAULT_MAX_HOPS);
    var routes := FindRoutes(q);
    if |routes| > 0 {
      FirstRouteIsOptimal(q, routes);
      return Some(routes[0]);
    }
    EmptyMeansUnreachable(q, routes);
    return None;
  }

  lemma OneHopWalk(topology: Topology, e: nat, maxHops: int)
    requires e < |topology| && topology[e].active && maxHops >= 1
    ensures Walk(topology, topology[e].source, topology[e].destination, maxHops, [e])
    ensures RouteOf(topology, [e]) == Route([e], topology[e].latency, [topology[e].protocol])
  {
    LatencyOfOne(topology, e);
    assert [e][..0] == [] && Protocols(topology, []) == [];
  }

  /** The best route is at least as good as any direct bridge. */
  lemma NoWorseThanDirect(q: Query, r: Route, e: nat)
    requires Optimal(q, r) && e < |q.topology| && q.topology[e].active && q.maxHops >= 1
    requires q.topology[e].source == q.source && q.topology[e].destination == q.destination
    ensures r.totalLatency < q.topology[e].latency || (r.totalLatency == q.topology[e].latency && |r.hops| <= 1)
  {
    OneHopWalk(q.topology, e, q.maxHops);
  }

  /** On the shipped bridges the direct hop from Fuji to Moonbase takes 60 seconds. */
  lemma FujiToMoonbase()
    ensures BRIDGE_TOPOLOGY[9].source == "avalanche_fuji" && BRIDGE_TOPOLOGY[9].destination == "moonbase_alpha"
    ensures RouteOf(BRIDGE_TOPOLOGY, [9]) == Route([9], 60.0, ["AWM"])
  {
    OneHopWalk(BRIDGE_TOPOLOGY, 9, 3);
  }
}
